/** ContractABITypeCodecSolImpl: the codec that walks a tree of AbstractType values. */
module TreeCodec {
  import opened Words
  import opened AbiTypes
  import opened AbiReads

  // ---------- queries of AbstractType ----------

  // dynamicType(); None where FixedList::verify throws.
  function DynamicType(v: Value): Option<bool> {
    match v
    case Str(_) => Some(true)
    case DynBytes(_) => Some(true)
    case DynList(_) => Some(true)
    case FixedList(dim, xs) => if dim == 0 || dim != |xs| then None else DynamicType(xs[0])
    case Struct(xs) => AnyDynamic(xs)
    case _ => Some(false)
  }

  // Struct::dynamicType stops at the first dynamic member.
  function AnyDynamic(xs: seq<Value>): Option<bool> {
    if xs == [] then Some(false)
    else if DynamicType(xs[0]) == Some(false) then AnyDynamic(xs[1..])
    else DynamicType(xs[0])
  }

  // offsetAsBytes()
  function OffsetAsBytes(v: Value): Option<nat> {
    match v
    case FixedList(dim, xs) =>
      (match DynamicType(v)
       case None => None
       case Some(true) => Some(32)
       case Some(false) =>
         var size := OffsetAsBytes(xs[0]);
         if size.None? then None else Some(|xs| * size.value))
    case Struct(xs) =>
      (match DynamicType(v)
       case None => None
       case Some(true) => Some(32)
       case Some(false) => SumOffsets(xs, |xs|))
    case _ => Some(32)
  }

  function SumOffsets(xs: seq<Value>, k: nat): Option<nat>
    requires k <= |xs|
    decreases xs, k
  {
    if k == 0 then Some(0)
    else
      var before, size := SumOffsets(xs, k - 1), OffsetAsBytes(xs[k - 1]);
      if before.None? || size.None? then None else Some(before.value + size.value)
  }

  // Every T[N] in the tree holds N > 0 elements and every bytesN at most 32 bytes.
  ghost predicate Shaped(v: Value) {
    match v
    case FixedBytes(_, data) => |data| <= 32
    case DynList(xs) => AllShaped(xs)
    case FixedList(dim, xs) => 0 < dim == |xs| && AllShaped(xs)
    case Struct(xs) => AllShaped(xs)
    case _ => true
  }

  ghost predicate AllShaped(xs: seq<Value>) {
    forall i :: 0 <= i < |xs| ==> Shaped(xs[i])
  }

  // ---------- serialize ----------

  // Where serialize does not throw. The root's own T[N] count is not looked at.
  ghost predicate Serializable(v: Value) {
    match v
    case FixedList(_, xs) => AllShaped(xs)
    case _ => Shaped(v)
  }

  predicate IsDynamic(v: Value) {
    DynamicType(v) == Some(true)
  }

  // What serialize appends to the buffer.
  function Encode(v: Value): Bytes
    decreases v
  {
    match v
    case Bool(b) => Word(if b then 1 else 0)
    case Uint(u) => Word(u)
    case Int(i) => Word(S2u(i))
    case FixedBytes(_, data) => if |data| <= 32 then data + Zeros(32 - |data|) else []
    case Addr(a) => Zeros(12) + a
    case Str(data) => EncBytes(data)
    case DynBytes(data) => EncBytes(data)
    case DynList(xs) => Word(|xs|) + (ListOffsets(xs, |xs|) + ListValues(xs, |xs|))
    case FixedList(_, xs) => ListOffsets(xs, |xs|) + ListValues(xs, |xs|)
    case Struct(xs) => StructHeads(xs, |xs|) + StructTails(xs, |xs|)
  }

  // offset, offsetBuffer and valueBuffer of the two list cases after k elements.
  function ListOffset(xs: seq<Value>, k: nat): nat
    requires k <= |xs|
    decreases xs, k
  {
    if k == 0 then 32 * |xs|
    else ListOffset(xs, k - 1) + if IsDynamic(xs[k - 1]) then |Encode(xs[k - 1])| else 0
  }

  function ListOffsets(xs: seq<Value>, k: nat): Bytes
    requires k <= |xs|
    decreases xs, k
  {
    if k == 0 then []
    else ListOffsets(xs, k - 1) + if IsDynamic(xs[k - 1]) then Word(ListOffset(xs, k - 1)) else []
  }

  function ListValues(xs: seq<Value>, k: nat): Bytes
    requires k <= |xs|
    decreases xs, k
  {
    if k == 0 then [] else ListValues(xs, k - 1) + Encode(xs[k - 1])
  }

  // dynamicOffset, fixedBuffer and dynamicBuffer of the struct case after k members.
  function StructOffset(xs: seq<Value>, k: nat): nat
    requires k <= |xs|
    decreases xs, k, 1
  {
    var heads := SumOffsets(xs, |xs|);
    (if heads.None? then 0 else heads.value) + |StructTails(xs, k)|
  }

  function StructHeads(xs: seq<Value>, k: nat): Bytes
    requires k <= |xs|
    decreases xs, k
  {
    if k == 0 then []
    else
      StructHeads(xs, k - 1) +
      if IsDynamic(xs[k - 1]) then Word(StructOffset(xs, k - 1)) else Encode(xs[k - 1])
  }

  function StructTails(xs: seq<Value>, k: nat): Bytes
    requires k <= |xs|
    decreases xs, k, 0
  {
    if k == 0 then []
    else StructTails(xs, k - 1) + if IsDynamic(xs[k - 1]) then Encode(xs[k - 1]) else []
  }

  // ---------- deserialize ----------

  // clone() goes through the FixedBytes constructor, which checks the data length.
  predicate Cloneable(v: Value) {
    match v
    case FixedBytes(n, data) => 0 < n <= 32 && |data| == n
    case DynList(xs) => AllCloneable(xs)
    case FixedList(_, xs) => AllCloneable(xs)
    case Struct(xs) => AllCloneable(xs)
    case _ => true
  }

  predicate AllCloneable(xs: seq<Value>) {
    forall i :: 0 <= i < |xs| ==> Cloneable(xs[i])
  }

  datatype Frame = InList | InArray | InStruct

  // The assertions on the offset word of a dynamic element.
  predicate OffsetAccepted(frame: Frame, offset: U256) {
    match frame
    case InList => offset < LONG_MAX
    case InArray => 0 < offset < LONG_MAX
    case InStruct => true
  }

  // deserialize into the template w, reading at off.
  function Decode(w: Value, buf: Bytes, off: nat): Result<Value>
    decreases w, 0, 0
  {
    match w
    case Bool(_) => var word :- ReadWord(buf, off); Ok(Bool(word > 0))
    case Uint(_) => var word :- ReadWord(buf, off); Ok(Uint(word))
    case Int(_) => var word :- ReadWord(buf, off); Ok(Int(U2s(word)))
    case FixedBytes(n, _) =>
      if n > 32 || SizeT(off + 31) >= |buf| then Err
      else
        var data := Crop(buf, off, n);
        if n == 0 || |data| != n then Err else Ok(FixedBytes(n, data))
    case Addr(_) =>
      if SizeT(off + 31) >= |buf| then Err
      else
        var a := Crop(buf, SizeT(off + 12), 20);
        Ok(Addr(if |a| == 20 then a else Zeros(20)))
    case Str(_) => var data :- ReadBytes(buf, off); Ok(Str(data))
    case DynBytes(_) => var data :- ReadBytes(buf, off); Ok(DynBytes(data))
    case DynList(xs) =>
      var size :- ReadWord(buf, off);
      if size >= INT_MAX then Err
      else if xs == [] then Ok(w)
      else
        var base := SizeT(off + 32);
        var items :- DecodeCopies(xs[0], size, buf, base, Int32(base));
        Ok(DynList(items))
    case FixedList(dim, xs) =>
      if dim != |xs| then Err
      else
        var items :- DecodeMembers(xs, InArray, buf, off, Int32(off));
        Ok(FixedList(dim, items))
    case Struct(xs) =>
      var items :- DecodeMembers(xs, InStruct, buf, off, Int32(off));
      Ok(Struct(items))
  }

  // currentOffset after the element v.
  function NextOffset(v: Value, cur: int): Option<int> {
    var size := OffsetAsBytes(v);
    if size.None? then None else Some(Int32(cur + size.value))
  }

  // One element: in place, or behind the offset word found at cur.
  function DecodeMember(w: Value, frame: Frame, buf: Bytes, base: nat, cur: int): Result<Value>
    decreases w, 1, 0
  {
    match DynamicType(w)
    case None => Err
    case Some(false) => Decode(w, buf, SizeT(cur))
    case Some(true) =>
      var offset :- ReadWord(buf, SizeT(cur));
      if OffsetAccepted(frame, offset) then Decode(w, buf, SizeT(base + SizeT(offset))) else Err
  }

  function DecodeMembers(xs: seq<Value>, frame: Frame, buf: Bytes, base: nat, cur: int): Result<seq<Value>>
    decreases xs, 0, 0
  {
    if xs == [] then Ok([])
    else
      var v :- DecodeMember(xs[0], frame, buf, base, cur);
      var next := NextOffset(v, cur);
      if next.None? then Err
      else
        var rest :- DecodeMembers(xs[1..], frame, buf, base, next.value);
        Ok([v] + rest)
  }

  // n elements of a T[], each decoded into a clone of the template w.
  function DecodeCopies(w: Value, n: nat, buf: Bytes, base: nat, cur: int): Result<seq<Value>>
    decreases w, 2, n
  {
    if n == 0 then Ok([])
    else if !Cloneable(w) then Err
    else
      var v :- DecodeMember(w, InList, buf, base, cur);
      var next := NextOffset(v, cur);
      if next.None? then Err
      else
        var rest :- DecodeCopies(w, n - 1, buf, base, next.value);
        Ok([v] + rest)
  }

  // A dynamic element is read where its offset word says, counted from the frame. The offset
  // must be below 2^63 - 1 in lists, and above 0 in a T[N].
  lemma BehindOffset(w: Value, frame: Frame, buf: Bytes, base: nat, cur: int)
    requires DynamicType(w) == Some(true) && ReadWord(buf, SizeT(cur)).Ok?
    ensures var o := ReadWord(buf, SizeT(cur)).value;
            DecodeMember(w, frame, buf, base, cur) ==
            if (frame != InStruct && o >= 0x7fff_ffff_ffff_ffff) || (frame == InArray && o == 0) then Err
            else Decode(w, buf, SizeT(base + SizeT(o)))
  {
    hide Decode, ReadWord, DynamicType;
  }

  // What can be cloned: every bytesN in it holds its N bytes, from 1 to 32.
  lemma {:induction false} CloneableIff(v: Value)
    ensures Cloneable(v) <==> forall n, data :: Holds(v, FixedBytes(n, data)) ==> 1 <= n <= 32 && |data| == n
    decreases v
  {
    match v
    case FixedBytes(n, data) => assert Holds(v, FixedBytes(n, data));
    case DynList(xs) => AllCloneableIff(v, xs);
    case FixedList(_, xs) => AllCloneableIff(v, xs);
    case Struct(xs) => AllCloneableIff(v, xs);
    case _ =>
  }

  // x is v or stands somewhere in it.
  ghost predicate Holds(v: Value, x: Value)
    decreases v
  {
    v == x || ((v.DynList? || v.FixedList? || v.Struct?) && exists i :: 0 <= i < |v.items| && Holds(v.items[i], x))
  }

  lemma {:induction false} AllCloneableIff(v: Value, xs: seq<Value>)
    requires (v.DynList? || v.FixedList? || v.Struct?) && v.items == xs
    ensures AllCloneable(xs) <==> forall n, data :: Holds(v, FixedBytes(n, data)) ==> 1 <= n <= 32 && |data| == n
    decreases xs
  {
    hide Cloneable;
    forall i | 0 <= i < |xs|
      ensures Cloneable(xs[i]) <==> forall n, data :: Holds(xs[i], FixedBytes(n, data)) ==> 1 <= n <= 32 && |data| == n
    {
      CloneableIff(xs[i]);
    }
    if AllCloneable(xs) {
      forall n, data | Holds(v, FixedBytes(n, data)) ensures 1 <= n <= 32 && |data| == n {
        var i :| 0 <= i < |xs| && Holds(xs[i], FixedBytes(n, data));
        assert Cloneable(xs[i]);
      }
    } else {
      var i :| 0 <= i < |xs| && !Cloneable(xs[i]);
      var n, data :| Holds(xs[i], FixedBytes(n, data)) && !(1 <= n <= 32 && |data| == n);
      assert Holds(v, FixedBytes(n, data));
    }
  }

  // ---------- the same as the loops of the source run ----------

  lemma {:induction false} ShapedHasSize(v: Value)
    requires Shaped(v)
    ensures DynamicType(v).Some? && OffsetAsBytes(v).Some?
    decreases v
  {
    match v
    case FixedList(_, xs) => ShapedHasSize(xs[0]);
    case Struct(xs) =>
      AllShapedHaveSize(xs, |xs|);
      AllShapedDynamic(xs);
    case _ =>
  }

  lemma {:induction false} AllShapedHaveSize(xs: seq<Value>, k: nat)
    requires AllShaped(xs) && k <= |xs|
    ensures SumOffsets(xs, k).Some?
    decreases xs, k
  {
    if k == 0 {
    } else {
      AllShapedHaveSize(xs, k - 1);
      ShapedHasSize(xs[k - 1]);
    }
  }

  lemma {:induction false} AllShapedDynamic(xs: seq<Value>)
    requires AllShaped(xs)
    ensures AnyDynamic(xs).Some?
    decreases xs
  {
    if xs == [] {
    } else {
      ShapedHasSize(xs[0]);
      AllShapedDynamic(xs[1..]);
    }
  }

  // The count of a T[N] is checked wherever it stands inside something, and not at the root.
  lemma RootCount(d: nat, d': nat, xs: seq<Value>)
    ensures Serializable(FixedList(d, xs)) <==> Serializable(FixedList(d', xs))
    ensures Serializable(FixedList(d, []))
    ensures Serializable(Struct([FixedList(d, xs)])) ==> d == |xs| > 0
    ensures Serializable(DynList([FixedList(d, xs)])) ==> d == |xs| > 0
  {
    var inner := [FixedList(d, xs)];
    assert AllShaped(inner) ==> Shaped(inner[0]);
  }

  method Serialize(v: Value) returns (r: Result<Bytes>)
    ensures r == if Serializable(v) then Ok(Encode(v)) else Err
    decreases v
  {
    match v
    case DynList(xs) =>
      var list := SerializeList(xs);
      r := if list.Err? then Err else Ok(Word(|xs|) + list.value);
    case FixedList(_, xs) =>
      r := SerializeList(xs);
    case Struct(xs) =>
      r := SerializeStruct(xs);
    case FixedBytes(_, data) =>
      r := if |data| > 32 then Err else Ok(Encode(v));
    case _ =>
      r := Ok(Encode(v));
  }

  method SerializeList(xs: seq<Value>) returns (r: Result<Bytes>)
    ensures r == if AllShaped(xs) then Ok(ListOffsets(xs, |xs|) + ListValues(xs, |xs|)) else Err
    decreases xs
  {
    var offset, offsets, values := 32 * |xs|, [], [];
    for i := 0 to |xs|
      invariant forall j :: 0 <= j < i ==> Shaped(xs[j])
      invariant offset == ListOffset(xs, i)
      invariant offsets == ListOffsets(xs, i)
      invariant values == ListValues(xs, i)
    {
      var temp := Serialize(xs[i]);
      if temp.Err? {
        return Err;
      }
      values := values + temp.value;
      if Shaped(xs[i]) {
        ShapedHasSize(xs[i]);
      }
      match DynamicType(xs[i])
      case None =>
        return Err;
      case Some(dynamic) =>
        if dynamic {
          offsets := offsets + Word(offset);
          offset := offset + |temp.value|;
        }
    }
    r := Ok(offsets + values);
  }

  method SerializeStruct(xs: seq<Value>) returns (r: Result<Bytes>)
    ensures r == if AllShaped(xs) then Ok(StructHeads(xs, |xs|) + StructTails(xs, |xs|)) else Err
    decreases xs
  {
    var offset := 0;
    for i := 0 to |xs|
      invariant SumOffsets(xs, i) == Some(offset)
    {
      if Shaped(xs[i]) {
        ShapedHasSize(xs[i]);
      }
      var size := OffsetAsBytes(xs[i]);
      if size.None? {
        return Err;
      }
      offset := offset + size.value;
    }
    var fixedPart, dynamicPart := [], [];
    for i := 0 to |xs|
      invariant forall j :: 0 <= j < i ==> Shaped(xs[j])
      invariant offset == StructOffset(xs, i)
      invariant fixedPart == StructHeads(xs, i)
      invariant dynamicPart == StructTails(xs, i)
    {
      var temp := Serialize(xs[i]);
      if temp.Err? {
        return Err;
      }
      if Shaped(xs[i]) {
        ShapedHasSize(xs[i]);
      }
      match DynamicType(xs[i])
      case None =>
        return Err;
      case Some(dynamic) =>
        if dynamic {
          fixedPart := fixedPart + Word(offset);
          dynamicPart := dynamicPart + temp.value;
          offset := offset + |temp.value|;
        } else {
          fixedPart := fixedPart + temp.value;
        }
    }
    r := Ok(fixedPart + dynamicPart);
  }

  method Deserialize(w: Value, buf: Bytes, off: nat) returns (r: Result<Value>)
    ensures r == Decode(w, buf, off)
    decreases w, 0
  {
    match w
    case DynList(xs) =>
      var size := ReadWord(buf, off);
      if size.Err? || size.value >= INT_MAX {
        return Err;
      }
      if xs == [] {
        return Ok(w);
      }
      var items := DeserializeCopies(xs[0], size.value, buf, SizeT(off + 32));
      r := if items.Err? then Err else Ok(DynList(items.value));
    case FixedList(dim, xs) =>
      if dim != |xs| {
        return Err;
      }
      var items := DeserializeMembers(xs, InArray, buf, off);
      r := if items.Err? then Err else Ok(FixedList(dim, items.value));
    case Struct(xs) =>
      var items := DeserializeMembers(xs, InStruct, buf, off);
      r := if items.Err? then Err else Ok(Struct(items.value));
    case _ =>
      r := Decode(w, buf, off);
  }

  method DeserializeMember(w: Value, frame: Frame, buf: Bytes, base: nat, cur: int) returns (r: Result<Value>)
    ensures r == DecodeMember(w, frame, buf, base, cur)
    decreases w, 1
  {
    match DynamicType(w)
    case None =>
      r := Err;
    case Some(false) =>
      r := Deserialize(w, buf, SizeT(cur));
    case Some(true) =>
      var offset := ReadWord(buf, SizeT(cur));
      if offset.Err? || !OffsetAccepted(frame, offset.value) {
        return Err;
      }
      r := Deserialize(w, buf, SizeT(base + SizeT(offset.value)));
  }

  method DeserializeCopies(w: Value, n: nat, buf: Bytes, base: nat) returns (r: Result<seq<Value>>)
    ensures r == DecodeCopies(w, n, buf, base, Int32(base))
    decreases w, 2
  {
    var cur := Int32(base);
    var items := [];
    ghost var result := DecodeCopies(w, n, buf, base, cur);
    PrependStep([], w, result);
    for i := 0 to n
      invariant result == Prepend(items, DecodeCopies(w, n - i, buf, base, cur))
    {
      if !Cloneable(w) {
        return Err;
      }
      var v := DeserializeMember(w, InList, buf, base, cur);
      if v.Err? {
        return Err;
      }
      var next := NextOffset(v.value, cur);
      if next.None? {
        return Err;
      }
      cur := next.value;
      PrependStep(items, v.value, DecodeCopies(w, n - i - 1, buf, base, cur));
      items := items + [v.value];
    }
    assert items + [] == items;
    r := Ok(items);
  }

  method DeserializeMembers(xs: seq<Value>, frame: Frame, buf: Bytes, base: nat) returns (r: Result<seq<Value>>)
    ensures r == DecodeMembers(xs, frame, buf, base, Int32(base))
    decreases xs, 0
  {
    var cur := Int32(base);
    var items := [];
    ghost var result := DecodeMembers(xs, frame, buf, base, cur);
    PrependStep([], Bool(false), result);
    assert xs[0..] == xs;
    for i := 0 to |xs|
      invariant result == Prepend(items, DecodeMembers(xs[i..], frame, buf, base, cur))
    {
      var v := DeserializeMember(xs[i], frame, buf, base, cur);
      if v.Err? {
        return Err;
      }
      var next := NextOffset(v.value, cur);
      if next.None? {
        return Err;
      }
      assert xs[i..][1..] == xs[i + 1..];
      cur := next.value;
      PrependStep(items, v.value, DecodeMembers(xs[i + 1..], frame, buf, base, cur));
      items := items + [v.value];
    }
    assert items + [] == items;
    r := Ok(items);
  }
}
