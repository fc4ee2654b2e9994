/** bcos::codec::abi::ContractABICodec: the codec driven by C++ types. */
module TemplateCodec {
  import opened Words
  import opened AbiTypes
  import opened AbiLayout
  import opened AbiReads
  import opened TemplateEncoding
  import TreeCodec
  import TreeCodecTheorems

  // Types without std::tuple; bytesN is string32 alone.
  ghost predicate TupleFree(t: Type) {
    match t
    case TFixedBytes(n) => n == 32
    case TDynList(e) => TupleFree(e)
    case TFixedList(e, _) => TupleFree(e)
    case TStruct(_) => false
    case _ => true
  }

  ghost predicate AllTupleFree(ts: seq<Type>) {
    forall i :: 0 <= i < |ts| ==> TupleFree(ts[i])
  }

  lemma {:induction false} TupleFreeTraits(t: Type)
    requires TupleFree(t)
    ensures !StaticTuple(t) && ABIDynamicType(t) == Dynamic(t) && Stride(t) == HeadLen(t)
  {
    if t.TFixedList? {
      TupleFreeTraits(t.elem);
    }
    TraitsFollowStandard(t);
  }

  lemma {:induction false} TupleFreeConforms(v: Value, t: Type)
    requires HasType(v, t) && TupleFree(t)
    ensures !StaticTuple(t) && Conforms(v, t)
    decreases v
  {
    hide StaticTuple;
    TupleFreeTraits(t);
    match v
    case DynList(xs) =>
      forall i | 0 <= i < |xs| ensures !StaticTuple(t.elem) && Conforms(xs[i], t.elem) { TupleFreeConforms(xs[i], t.elem); }
    case FixedList(_, xs) =>
      forall i | 0 <= i < |xs| ensures !StaticTuple(t.elem) && Conforms(xs[i], t.elem) { TupleFreeConforms(xs[i], t.elem); }
    case _ =>
  }

  lemma {:induction false} TupleFreeSupported(t: Type)
    requires TupleFree(t)
    ensures Supported(t)
  {
    match t
    case TDynList(e) => TupleFreeSupported(e);
    case TFixedList(e, _) => TupleFreeSupported(e);
    case _ =>
  }

  // Arguments without tuples conform and are framed.
  lemma TupleFreeArguments(args: seq<Value>, ts: seq<Type>)
    requires AllTyped(args, ts) && AllTupleFree(ts)
    ensures AllSupported(ts) && AllConform(args, ts) && AllFramed(args, ts)
  {
    hide Conforms, Framed, Supported, HasType, StaticTuple, TupleFree;
    forall i | 0 <= i < |args|
      ensures Supported(ts[i]) && !StaticTuple(ts[i]) && Conforms(args[i], ts[i]) && Framed(args[i], ts[i])
    {
      TupleFreeSupported(ts[i]);
      TupleFreeConforms(args[i], ts[i]);
      ConformingIsFramed(args[i], ts[i]);
    }
  }

  // ---------- serialise ----------

  method Serialise(v: Value, t: Type) returns (b: Bytes)
    requires HasType(v, t) && Supported(t)
    ensures b == Serialised(v, t)
    decreases v
  {
    hide Parts;
    match v
    case DynList(xs) =>
      var body := SerialiseElements(xs, t.elem);
      b := Word(|xs|) + body;
    case FixedList(_, xs) =>
      b := SerialiseElements(xs, t.elem);
    case Struct(xs) =>
      b := SerialiseTuple(xs, t.members);
    case FixedBytes(_, data) =>
      assert data + Zeros(0) == data;
      b := data;
    case Bool(x) => b := Word(if x then 1 else 0);
    case Uint(u) => b := Word(u);
    case Int(i) => b := Word(S2u(i));
    case Addr(a) => b := Zeros(12) + a;
    case Str(data) => b := EncBytes(data);
    case DynBytes(data) => b := EncBytes(data);
  }

  // The loop shared by std::array and std::vector.
  method SerialiseElements(xs: seq<Value>, e: Type) returns (b: Bytes)
    requires AllTyped(xs, Repeat(e, |xs|)) && Supported(e)
    ensures b == Parts(xs, Repeat(e, |xs|), 32 * |xs|)
    decreases xs
  {
    hide Serialised, HasType, Supported, ABIDynamicType;
    ghost var ts := Repeat(e, |xs|);
    var offsets, content := [], [];
    var length := |xs| * 32;
    for i := 0 to |xs|
      invariant ABIDynamicType(e) ==>
                  && offsets == PartHeads(xs, ts, 32 * |xs|, i) && content == PartTails(xs, ts, i)
                  && length == 32 * |xs| + |content|
      invariant !ABIDynamicType(e) ==>
                  offsets == PartTails(xs, ts, i) == [] && content == PartHeads(xs, ts, 32 * |xs|, i)
    {
      assert ts[i] == e;
      var out := Serialise(xs[i], e);
      content := content + out;
      if ABIDynamicType(e) {
        offsets := offsets + Word(length);
        length := length + |out|;
      }
    }
    assert !ABIDynamicType(e) ==> offsets + content == content + offsets;
    b := offsets + content;
  }

  method SerialiseTuple(xs: seq<Value>, ts: seq<Type>) returns (b: Bytes)
    requires AllTyped(xs, ts) && AllSupported(ts)
    ensures b == Parts(xs, ts, 32 * |xs|)
    decreases xs
  {
    hide Serialised, HasType, Supported, ABIDynamicType;
    var offsets, content := [], [];
    var length := |xs| * 32;
    for i := 0 to |xs|
      invariant offsets == PartHeads(xs, ts, 32 * |xs|, i) && content == PartTails(xs, ts, i)
      invariant length == 32 * |xs| + |content|
    {
      var out := Serialise(xs[i], ts[i]);
      if ABIDynamicType(ts[i]) {
        content := content + out;
        offsets := offsets + Word(length);
        length := length + |out|;
      } else {
        offsets := offsets + out;
      }
    }
    b := offsets + content;
  }

  // ---------- deserialize ----------

  // The s256 reader: a word above 0x8fff...f is taken as negative.
  function ReadS256(u: U256): S256 {
    if u > 144 * WORD_TOP - 1 then -((WORD_LIMIT - 1 - u) + 1) else u
  }

  function DecodeValue(t: Type, data: Bytes, off: nat): Result<Value>
    decreases t, 0, 0
  {
    match t
    case TBool => var word :- ReadWord(data, off); Ok(Bool(word > 0))
    case TUint => var word :- ReadWord(data, off); Ok(Uint(word))
    case TInt => var word :- ReadWord(data, off); Ok(Int(ReadS256(word)))
    case TFixedBytes(_) =>
      if SizeT(off + 31) >= |data| then Err
      else
        var bytes := Crop(data, off, 32);
        Ok(FixedBytes(32, if |bytes| == 32 then bytes else Zeros(32)))
    case TAddr =>
      if SizeT(off + 31) >= |data| then Err
      else
        var a := Crop(data, SizeT(off + 12), 20);
        Ok(Addr(if |a| == 20 then a else Zeros(20)))
    case TStr => var bytes :- ReadBytes(data, off); Ok(Str(bytes))
    case TDynBytes => var bytes :- ReadBytes(data, off); Ok(DynBytes(bytes))
    case TDynList(e) =>
      var length :- ReadWord(data, off);
      var items :- DecodeElements(e, SizeT(length), data, SizeT(off + 32), 0);
      Ok(DynList(items))
    case TFixedList(e, n) =>
      var items :- DecodeElements(e, n, data, off, 0);
      Ok(FixedList(n, items))
    case TStruct(ts) =>
      var items :- DecodeTuple(ts, 0, data, off);
      Ok(Struct(items))
  }

  // Members k and on of the tuple at base.
  function DecodeTuple(ts: seq<Type>, k: nat, data: Bytes, base: nat): Result<seq<Value>>
    requires k <= |ts|
    decreases ts, 3, |ts| - k
  {
    if k == |ts| then Ok([])
    else
      var v :- DecodeMemberAt(ts[k], data, base, StrideSum(ts, k));
      var rest :- DecodeTuple(ts, k + 1, data, base);
      Ok([v] + rest)
  }

  // What stands at tupleOffset of the tuple at base, in place or behind an offset.
  function DecodeMemberAt(t: Type, data: Bytes, base: nat, tupleOffset: nat): Result<Value>
    decreases t, 1, 0
  {
    if ABIDynamicType(t) then
      var offset :- ReadWord(data, SizeT(base + tupleOffset));
      DecodeValue(t, data, SizeT(base + SizeT(offset)))
    else DecodeValue(t, data, SizeT(base + tupleOffset))
  }

  // Element u of the array whose elements start at base.
  function DecodeElement(e: Type, data: Bytes, base: nat, u: nat): Result<Value>
    decreases e, 2, 0
  {
    DecodeMemberAt(e, data, base, u * Stride(e))
  }

  // Elements u, u + 1, ..., n - 1.
  function DecodeElements(e: Type, n: nat, data: Bytes, base: nat, u: nat): Result<seq<Value>>
    requires u <= n
    decreases e, 3, n - u
  {
    if u == n then Ok([])
    else
      var v :- DecodeElement(e, data, base, u);
      var rest :- DecodeElements(e, n, data, base, u + 1);
      Ok([v] + rest)
  }

  // abiOutAux for the arguments from k on, the cursor being at offset.
  function DecodeArgs(ts: seq<Type>, k: nat, data: Bytes, offset: nat): Result<seq<Value>>
    requires k <= |ts|
    decreases |ts| - k
  {
    if k == |ts| then Ok([])
    else
      var at :- if ABIDynamicType(ts[k]) then ReadWord(data, offset) else Ok(offset);
      var v :- DecodeValue(ts[k], data, SizeT(at));
      var rest :- DecodeArgs(ts, k + 1, data, SizeT(offset + Stride(ts[k])));
      Ok([v] + rest)
  }

  // ---------- the codec object ----------

  class ContractABICodec {
    // encode or decode offset
    var offset: nat
    // encode temp bytes
    var fixedPart: Bytes
    var dynamicPart: Bytes
    // decode data
    var data: Bytes

    constructor ()
      ensures offset == 0 && fixedPart == [] && dynamicPart == [] && data == []
    {
      offset, fixedPart, dynamicPart, data := 0, [], [], [];
    }

    // abiIn with an empty signature: the tree codec's bytes for the struct of the arguments if
    // and only if the arguments conform, as all those without tuples do.
    method AbiIn(args: seq<Value>, ts: seq<Type>) returns (r: Bytes)
      requires AllTyped(args, ts) && AllSupported(ts)
      modifies this`offset, this`fixedPart, this`dynamicPart
      ensures r == Parts(args, ts, StrideSum(ts, |ts|)) == fixedPart + dynamicPart
      ensures AllConform(args, ts) ==> r == TreeCodec.Encode(Struct(args))
      ensures |TreeCodec.Encode(Struct(args))| < WORD_LIMIT && r == TreeCodec.Encode(Struct(args)) ==> AllConform(args, ts)
      ensures AllTupleFree(ts) ==> r == TreeCodec.Encode(Struct(args))
    {
      hide Conforms, Supported, HasType, StaticTuple, PartHeads, PartTails, TreeCodec.Encode;
      var words := 0;
      for i := 0 to |ts|
        invariant 32 * words == StrideSum(ts, i)
      {
        words := words + Length(ts[i]);
      }
      offset := words * 32;
      fixedPart := [];
      dynamicPart := [];
      NoPartsYet(args, ts, offset);
      AbiInAux(args, ts, 0, offset);
      TreeIsTuple(args, ts);
      ArgumentsConform(args, ts);
      if AllTupleFree(ts) {
        TupleFreeArguments(args, ts);
      }
      r := fixedPart + dynamicPart;
    }

    method AbiInAux(args: seq<Value>, ts: seq<Type>, k: nat, ghost start: nat)
      requires AllTyped(args, ts) && AllSupported(ts) && k <= |args|
      requires fixedPart == PartHeads(args, ts, start, k) && dynamicPart == PartTails(args, ts, k)
      requires offset == start + |PartTails(args, ts, k)|
      modifies this`offset, this`fixedPart, this`dynamicPart
      ensures fixedPart == PartHeads(args, ts, start, |args|) && dynamicPart == PartTails(args, ts, |args|)
      decreases |args| - k
    {
      hide Serialised, HasType, Supported, ABIDynamicType;
      if k < |args| {
        var out := Serialise(args[k], ts[k]);
        if ABIDynamicType(ts[k]) {
          dynamicPart := dynamicPart + out;
          fixedPart := fixedPart + Word(offset);
          offset := offset + |out|;
        } else {
          fixedPart := fixedPart + out;
        }
        AbiInAux(args, ts, k + 1, start);
      }
    }

    // abiOut; Err where it returns false.
    method AbiOut(input: Bytes, ts: seq<Type>) returns (r: Result<seq<Value>>)
      modifies this`offset, this`data
      ensures data == input
      ensures r == DecodeArgs(ts, 0, input, 0)
    {
      data := input;
      offset := 0;
      r := AbiOutAux(ts, 0);
    }

    method AbiOutAux(ts: seq<Type>, k: nat) returns (r: Result<seq<Value>>)
      requires k <= |ts|
      modifies this`offset
      ensures r == DecodeArgs(ts, k, data, old(offset))
      decreases |ts| - k
    {
      if k == |ts| {
        return Ok([]);
      }
      var at := offset;
      if ABIDynamicType(ts[k]) {
        var word := ReadWord(data, offset);
        if word.Err? {
          return Err;
        }
        at := word.value;
      }
      var v := Deserialize(ts[k], data, SizeT(at));
      if v.Err? {
        return Err;
      }
      offset := SizeT(offset + Stride(ts[k]));
      var rest := AbiOutAux(ts, k + 1);
      r := if rest.Err? then Err else Ok([v.value] + rest.value);
    }
  }

  method Deserialize(t: Type, data: Bytes, off: nat) returns (r: Result<Value>)
    ensures r == DecodeValue(t, data, off)
    decreases t, 0
  {
    match t
    case TDynList(e) =>
      var length := ReadWord(data, off);
      if length.Err? {
        return Err;
      }
      var items := DeserializeElements(e, SizeT(length.value), data, SizeT(off + 32));
      r := if items.Err? then Err else Ok(DynList(items.value));
    case TFixedList(e, n) =>
      var items := DeserializeElements(e, n, data, off);
      r := if items.Err? then Err else Ok(FixedList(n, items.value));
    case TStruct(ts) =>
      var items := DeserializeTuple(ts, data, off);
      r := if items.Err? then Err else Ok(Struct(items.value));
    case _ =>
      r := DecodeValue(t, data, off);
  }

  method DeserializeAt(t: Type, data: Bytes, base: nat, tupleOffset: nat) returns (r: Result<Value>)
    ensures r == DecodeMemberAt(t, data, base, tupleOffset)
    decreases t, 1
  {
    hide DecodeValue, ReadWord;
    var at := SizeT(base + tupleOffset);
    if ABIDynamicType(t) {
      var offset := ReadWord(data, at);
      if offset.Err? {
        return Err;
      }
      at := SizeT(base + SizeT(offset.value));
    }
    r := Deserialize(t, data, at);
  }

  method DeserializeTuple(ts: seq<Type>, data: Bytes, base: nat) returns (r: Result<seq<Value>>)
    ensures r == DecodeTuple(ts, 0, data, base)
    decreases ts, 2
  {
    hide DecodeMemberAt;
    var items := [];
    var tupleOffset := 0;
    ghost var result := DecodeTuple(ts, 0, data, base);
    PrependStep([], Bool(false), result);
    for k := 0 to |ts|
      invariant tupleOffset == StrideSum(ts, k)
      invariant result == Prepend(items, DecodeTuple(ts, k, data, base))
    {
      var v := DeserializeAt(ts[k], data, base, tupleOffset);
      if v.Err? {
        return Err;
      }
      PrependStep(items, v.value, DecodeTuple(ts, k + 1, data, base));
      items := items + [v.value];
      tupleOffset := tupleOffset + Stride(ts[k]);
    }
    assert items + [] == items;
    r := Ok(items);
  }

  // The loop shared by std::array and std::vector.
  method DeserializeElements(e: Type, n: nat, data: Bytes, base: nat) returns (r: Result<seq<Value>>)
    ensures r == DecodeElements(e, n, data, base, 0)
    decreases e, 2
  {
    hide DecodeMemberAt;
    var items := [];
    ghost var result := DecodeElements(e, n, data, base, 0);
    PrependStep([], Bool(false), result);
    for u := 0 to n
      invariant result == Prepend(items, DecodeElements(e, n, data, base, u))
    {
      var v := DeserializeAt(e, data, base, u * Stride(e));
      if v.Err? {
        return Err;
      }
      PrependStep(items, v.value, DecodeElements(e, n, data, base, u + 1));
      items := items + [v.value];
    }
    assert items + [] == items;
    r := Ok(items);
  }

  // ---------- the round trip, up to the s256 threshold ----------

  // What the reader makes of an encoded value.
  ghost function Reread(v: Value): Value
    decreases v
  {
    match v
    case Int(i) => Int(ReadS256(S2u(i)))
    case DynList(xs) => DynList(RereadAll(xs))
    case FixedList(n, xs) => FixedList(n, RereadAll(xs))
    case Struct(xs) => Struct(RereadAll(xs))
    case _ => v
  }

  ghost function RereadAll(xs: seq<Value>): (ys: seq<Value>)
    ensures |ys| == |xs|
    decreases xs
  {
    seq(|xs|, i requires 0 <= i < |xs| => Reread(xs[i]))
  }

  // Every signed leaf is at least -7 * 2^252.
  ghost predicate AboveThreshold(v: Value) {
    match v
    case Int(i) => i >= -112 * WORD_TOP
    case DynList(xs) => AllAboveThreshold(xs)
    case FixedList(_, xs) => AllAboveThreshold(xs)
    case Struct(xs) => AllAboveThreshold(xs)
    case _ => true
  }

  ghost predicate AllAboveThreshold(xs: seq<Value>) {
    forall i :: 0 <= i < |xs| ==> AboveThreshold(xs[i])
  }

  lemma {:induction false} RereadFixpoint(v: Value, t: Type)
    requires HasType(v, t)
    ensures Reread(v) == v <==> AboveThreshold(v)
    decreases v
  {
    match v
    case DynList(xs) => RereadAllFixpoint(xs, Repeat(t.elem, |xs|));
    case FixedList(_, xs) => RereadAllFixpoint(xs, Repeat(t.elem, |xs|));
    case Struct(xs) => RereadAllFixpoint(xs, t.members);
    case _ =>
  }

  lemma {:induction false} RereadAllFixpoint(xs: seq<Value>, ts: seq<Type>)
    requires AllTyped(xs, ts)
    ensures RereadAll(xs) == xs <==> AllAboveThreshold(xs)
    decreases xs
  {
    forall i | 0 <= i < |xs| ensures Reread(xs[i]) == xs[i] <==> AboveThreshold(xs[i]) {
      RereadFixpoint(xs[i], ts[i]);
    }
    if RereadAll(xs) == xs {
      forall i | 0 <= i < |xs| ensures Reread(xs[i]) == xs[i] {
        assert RereadAll(xs)[i] == xs[i];
      }
    }
  }

  lemma LeafAt(v: Value, t: Type, data: Bytes, p: nat)
    requires HasType(v, t) && Supported(t) && !v.DynList? && !v.FixedList? && !v.Struct?
    requires |data| <= INT_MAX && At(data, p, AbiEncode(v, t))
    ensures DecodeValue(t, data, p) == Ok(Reread(v))
  {
    hide At, Word, ReadWord, ReadBytes, EncBytes, ReadS256, S2u, SizeT;
    match v
    case Bool(b) =>
      SmallIsWord(1);
      ReadWordAt(data, p, if b then 1 else 0);
    case Uint(u) => ReadWordAt(data, p, u);
    case Int(i) => ReadWordAt(data, p, S2u(i));
    case FixedBytes(_, bytes) =>
      assert bytes + Zeros(0) == bytes;
      BytesAt(bytes, data, p);
    case Addr(a) => AddressAt(a, data, p);
    case Str(bytes) => ReadBytesAt(data, p, bytes);
    case DynBytes(bytes) => ReadBytesAt(data, p, bytes);
  }

  lemma BytesAt(bytes: Bytes, data: Bytes, p: nat)
    requires |bytes| == 32 && |data| <= INT_MAX && At(data, p, bytes)
    ensures SizeT(p + 31) < |data| && Crop(data, p, 32) == bytes
  {
    AtSlice(data, p, bytes);
  }

  lemma AddressAt(a: Address, data: Bytes, p: nat)
    requires |data| <= INT_MAX && At(data, p, Zeros(12) + a)
    ensures SizeT(p + 31) < |data| && Crop(data, SizeT(p + 12), 20) == a
  {
    AtRight(Zeros(12), a, 0, a);
    AtPart(data, p, Zeros(12) + a, 12, a);
    AtSlice(data, p + 12, a);
  }

  lemma {:induction false} DecodeValueAt(v: Value, t: Type, data: Bytes, p: nat)
    requires HasType(v, t) && Supported(t) && Framed(v, t)
    requires |data| <= INT_MAX && At(data, p, Serialised(v, t))
    ensures DecodeValue(t, data, p) == Ok(Reread(v))
    decreases v, 0, 0
  {
    hide ReadWord, At, PartHeads, PartTails, Dynamic, ReadBytes, StartsRight, Parts;
    match v
    case DynList(xs) =>
      AtFits(data, p, Serialised(v, t));
      ListHeader(|xs|, Parts(xs, Repeat(t.elem, |xs|), 32 * |xs|), data, p);
      ElementsAt(xs, t.elem, data, p + 32, 0);
      assert RereadAll(xs)[0..] == RereadAll(xs);
    case FixedList(_, xs) =>
      AtFits(data, p, Serialised(v, t));
      ElementsAt(xs, t.elem, data, p, 0);
      assert RereadAll(xs)[0..] == RereadAll(xs);
    case Struct(xs) =>
      AtFits(data, p, Serialised(v, t));
      TupleAt(xs, t.members, data, p, 0);
      assert RereadAll(xs)[0..] == RereadAll(xs);
    case _ =>
      LeafAt(v, t, data, p);
  }

  // Where the reader finds part k of what lies at base.
  lemma PartFound(xs: seq<Value>, ts: seq<Type>, start: nat, data: Bytes, base: nat, k: nat)
    requires AllTyped(xs, ts) && k < |xs| && StartsRight(ts, start)
    requires |data| <= INT_MAX && At(data, base, Parts(xs, ts, start))
    ensures var head := base + StrideSum(ts, k);
            && head <= |data|
            && if ABIDynamicType(ts[k]) then
                 var offset := start + |PartTails(xs, ts, k)|;
                 && ReadWord(data, head) == Ok(offset) && base + offset <= |data|
                 && At(data, base + offset, Serialised(xs[k], ts[k]))
               else At(data, head, Serialised(xs[k], ts[k]))
  {
    hide Serialised, HasType, ABIDynamicType, At, StrideSum, Parts, PartTails, ReadWord, Word;
    var parts, part := Parts(xs, ts, start), Serialised(xs[k], ts[k]);
    HeadPlace(xs, ts, start, k);
    if ABIDynamicType(ts[k]) {
      TailPlace(xs, ts, start, k);
      OffsetAndPart(data, base, parts, StrideSum(ts, k), start + |PartTails(xs, ts, k)|, part);
    } else {
      AtPart(data, base, parts, StrideSum(ts, k), part);
      AtFits(data, base + StrideSum(ts, k), part);
    }
  }

  lemma {:induction false} MemberReadAt(xs: seq<Value>, ts: seq<Type>, start: nat, data: Bytes, base: nat, k: nat)
    requires AllTyped(xs, ts) && AllSupported(ts) && AllFramed(xs, ts) && k < |xs| && StartsRight(ts, start)
    requires |data| <= INT_MAX && At(data, base, Parts(xs, ts, start))
    ensures DecodeMemberAt(ts[k], data, base, StrideSum(ts, k)) == Ok(Reread(xs[k]))
    decreases xs[k], 1, 0
  {
    hide DecodeValue, ReadWord, At, Serialised, HasType, Reread, Parts, PartTails, StrideSum, ABIDynamicType, Framed, Supported, StartsRight;
    PartFound(xs, ts, start, data, base, k);
    var head := base + StrideSum(ts, k);
    DecodeValueAt(xs[k], ts[k], data, if ABIDynamicType(ts[k]) then base + (start + |PartTails(xs, ts, k)|) else head);
  }

  lemma {:induction false} TupleAt(xs: seq<Value>, ts: seq<Type>, data: Bytes, base: nat, k: nat)
    requires AllTyped(xs, ts) && AllSupported(ts) && AllFramed(xs, ts) && k <= |xs| && StartsRight(ts, 32 * |ts|)
    requires |data| <= INT_MAX && At(data, base, Parts(xs, ts, 32 * |xs|))
    ensures DecodeTuple(ts, k, data, base) == Ok(RereadAll(xs)[k..])
    decreases xs, 2, |xs| - k
  {
    hide DecodeMemberAt, At, HasType, Reread, Parts, Framed, Supported, StartsRight, StrideSum;
    if k < |xs| {
      MemberReadAt(xs, ts, 32 * |xs|, data, base, k);
      TupleAt(xs, ts, data, base, k + 1);
      RereadStep(xs, k);
    } else {
      assert RereadAll(xs)[k..] == [];
    }
  }

  lemma RereadStep(xs: seq<Value>, k: nat)
    requires k < |xs|
    ensures RereadAll(xs)[k..] == [Reread(xs[k])] + RereadAll(xs)[k + 1..]
  {
    hide Reread;
    var ys := RereadAll(xs);
    assert ys[k] == Reread(xs[k]);
    assert ys[k..] == [ys[k]] + ys[k + 1..];
  }

  lemma {:induction false} ElementsAt(xs: seq<Value>, e: Type, data: Bytes, base: nat, u: nat)
    requires AllTyped(xs, Repeat(e, |xs|)) && Supported(e) && AllFramed(xs, Repeat(e, |xs|)) && u <= |xs|
    requires |data| <= INT_MAX && At(data, base, Parts(xs, Repeat(e, |xs|), 32 * |xs|))
    ensures DecodeElements(e, |xs|, data, base, u) == Ok(RereadAll(xs)[u..])
    decreases xs, 2, |xs| - u
  {
    hide DecodeMemberAt, At, HasType, Reread, Parts, Framed, Supported, StartsRight, StrideSum, Stride;
    if u < |xs| {
      ListStartsRight(e, |xs|);
      StrideRepeat(e, |xs|, u);
      MemberReadAt(xs, Repeat(e, |xs|), 32 * |xs|, data, base, u);
      ElementsAt(xs, e, data, base, u + 1);
      RereadStep(xs, u);
    } else {
      assert RereadAll(xs)[u..] == [];
    }
  }

  lemma {:induction false} ArgsAt(args: seq<Value>, ts: seq<Type>, data: Bytes, k: nat)
    requires AllTyped(args, ts) && AllSupported(ts) && AllFramed(args, ts) && k <= |args|
    requires |data| <= INT_MAX && At(data, 0, Parts(args, ts, StrideSum(ts, |ts|)))
    ensures DecodeArgs(ts, k, data, StrideSum(ts, k)) == Ok(RereadAll(args)[k..])
    decreases |args| - k
  {
    hide DecodeValue, ReadWord, At, Serialised, HasType, Reread, Parts, PartTails, ABIDynamicType, Framed, Supported;
    if k < |args| {
      var start := StrideSum(ts, |ts|);
      PartFound(args, ts, start, data, 0, k);
      DecodeValueAt(args[k], ts[k], data, if ABIDynamicType(ts[k]) then start + |PartTails(args, ts, k)| else StrideSum(ts, k));
      if k + 1 < |args| {
        PartFound(args, ts, start, data, 0, k + 1);
      } else {
        AllHeadsFit(args, ts, start, data);
      }
      ArgsAt(args, ts, data, k + 1);
      RereadStep(args, k);
    } else {
      assert RereadAll(args)[k..] == [];
    }
  }

  lemma AllHeadsFit(xs: seq<Value>, ts: seq<Type>, start: nat, data: Bytes)
    requires AllTyped(xs, ts) && At(data, 0, Parts(xs, ts, start))
    ensures StrideSum(ts, |ts|) <= |data|
  {
    hide HasType, At, PartHeads, PartTails, StrideSum;
    PartHeadsSize(xs, ts, start, |xs|);
    AtFits(data, 0, Parts(xs, ts, start));
  }

  // abiOut on abiIn's own bytes, where every tuple with a trait-dynamic member has strides that
  // add up to one word per member, as all argument lists without tuples do: the arguments come
  // back exactly when every signed leaf is at least -7 * 2^252.
  lemma AbiRoundTrip(args: seq<Value>, ts: seq<Type>, suffix: Bytes)
    requires AllTyped(args, ts) && AllSupported(ts) && AllFramed(args, ts)
    requires |Parts(args, ts, StrideSum(ts, |ts|)) + suffix| <= INT_MAX
    ensures var read := DecodeArgs(ts, 0, Parts(args, ts, StrideSum(ts, |ts|)) + suffix, 0);
            read == Ok(RereadAll(args)) && (read == Ok(args) <==> AllAboveThreshold(args))
  {
    hide Parts, At, Framed, Supported, HasType, DecodeArgs, AboveThreshold;
    var bytes := Parts(args, ts, StrideSum(ts, |ts|));
    assert At(bytes, 0, bytes) by { WholeAt(bytes); }
    AtLeft(bytes, suffix, 0, bytes);
    ArgsAt(args, ts, bytes + suffix, 0);
    assert RereadAll(args)[0..] == RereadAll(args);
    RereadAllFixpoint(args, ts);
  }

  lemma WholeAt(b: Bytes)
    ensures At(b, 0, b)
  {
  }

  // Conforming arguments are framed, and their bytes are those of the tree codec.
  lemma ConformingRoundTrip(args: seq<Value>, ts: seq<Type>, suffix: Bytes)
    requires AllTyped(args, ts) && AllSupported(ts) && AllConform(args, ts)
    requires |TreeCodec.Encode(Struct(args)) + suffix| <= INT_MAX
    ensures DecodeArgs(ts, 0, TreeCodec.Encode(Struct(args)) + suffix, 0) == Ok(RereadAll(args))
    ensures DecodeArgs(ts, 0, TreeCodec.Encode(Struct(args)) + suffix, 0) == Ok(args) <==> AllAboveThreshold(args)
  {
    hide Parts, Conforms, Framed, Supported, HasType, DecodeArgs, AboveThreshold, TreeCodec.Encode, StaticTuple;
    TreeIsTuple(args, ts);
    ArgumentsConform(args, ts);
    forall i | 0 <= i < |args| ensures Framed(args[i], ts[i]) {
      ConformingIsFramed(args[i], ts[i]);
    }
    AbiRoundTrip(args, ts, suffix);
  }

  lemma NoPartsYet(xs: seq<Value>, ts: seq<Type>, start: nat)
    requires |xs| == |ts|
    ensures PartHeads(xs, ts, start, 0) == [] == PartTails(xs, ts, 0)
  {
  }

  lemma TreeIsTuple(xs: seq<Value>, ts: seq<Type>)
    requires AllTyped(xs, ts)
    ensures |xs| == |ts| && TreeCodec.Encode(Struct(xs)) == AbiTuple(xs, ts)
  {
    TreeCodecTheorems.EncodeIsStandard(Struct(xs), TStruct(ts));
  }

  // The lowest int256 values are read back as positive numbers.
  lemma ThresholdIsTight(suffix: Bytes)
    requires |suffix| <= INT_MAX - 32
    ensures var low := Int(-112 * WORD_TOP - 1);
            && HasType(low, TInt)
            && DecodeArgs([TInt], 0, TreeCodec.Encode(Struct([low])) + suffix, 0) == Ok([Int(144 * WORD_TOP - 1)])
  {
    hide Heads, Tails, DecodeArgs, AbiEncode, At, TreeCodec.Encode, Reread;
    var low := Int(-112 * WORD_TOP - 1);
    TreeIsTuple([low], [TInt]);
    TupleSize([low], [TInt]);
    assert HeadSum([TInt], 1) == 32;
    TupleFreeArguments([low], [TInt]);
    ConformingRoundTrip([low], [TInt], suffix);
    RereadLow();
    assert RereadAll([low]) == [Reread(low)];
  }

  lemma RereadLow()
    ensures Reread(Int(-112 * WORD_TOP - 1)) == Int(144 * WORD_TOP - 1)
  {
  }

  // A tuple of two numbers in an array and an empty string counts two words for three: its own
  // reader takes the offset for the length of the string and fails.
  lemma MisframedTuple(a: U256, b: U256)
    ensures var v, t := Struct([FixedList(2, [Uint(a), Uint(b)]), Str([])]), TStruct([TFixedList(TUint, 2), TStr]);
            HasType(v, t) && !Framed(v, t) && DecodeValue(t, Serialised(v, t), 0) == Err
  {
    hide Parts, Word, ReadWord, DecodeValue, Serialised, StrideSum, At, Framed;
    var xs, ts := [FixedList(2, [Uint(a), Uint(b)]), Str([])], [TFixedList(TUint, 2), TStr];
    MisframedTypes(xs, ts);
    var data := Parts(xs, ts, 64);
    MisframedStrides(ts);
    MisframedSize(xs, ts);
    HeadPlace(xs, ts, 64, 1);
    SmallIsWord(64);
    ReadWordAt(data, 64, 64);
    MisframedRead(ts, data);
    MisframedWhole(xs, ts);
  }

  lemma MisframedTypes(xs: seq<Value>, ts: seq<Type>)
    requires |xs| == 2 && ts == [TFixedList(TUint, 2), TStr] && xs[1] == Str([])
    requires exists a: U256, b: U256 :: xs[0] == FixedList(2, [Uint(a), Uint(b)])
    ensures HasType(Struct(xs), TStruct(ts)) && AllTyped(xs, ts)
    ensures ABIDynamicType(ts[1]) && !ABIDynamicType(ts[0])
  {
    assert HasType(xs[0], ts[0]) && HasType(xs[1], ts[1]);
  }

  lemma MisframedStrides(ts: seq<Type>)
    requires ts == [TFixedList(TUint, 2), TStr]
    ensures StrideSum(ts, 1) == 64 && StrideSum(ts, 2) == 96
  {
    assert StrideSum(ts, 1) == StrideSum(ts, 0) + Stride(ts[0]);
  }

  lemma MisframedSize(xs: seq<Value>, ts: seq<Type>)
    requires AllTyped(xs, ts) && ts == [TFixedList(TUint, 2), TStr] && xs[1] == Str([])
    ensures |xs| == 2 && PartTails(xs, ts, 1) == [] && |Parts(xs, ts, 64)| == 128
  {
    hide HasType, Word, StrideSum, PartHeads;
    MisframedStrides(ts);
    PartHeadsSize(xs, ts, 64, 2);
    assert !ABIDynamicType(ts[0]) && ABIDynamicType(ts[1]);
    assert PartTails(xs, ts, 1) == PartTails(xs, ts, 0) == [];
    assert PartTails(xs, ts, 2) == [] + Serialised(xs[1], ts[1]);
    assert |Serialised(xs[1], ts[1])| == 32;
  }

  lemma MisframedRead(ts: seq<Type>, data: Bytes)
    requires ts == [TFixedList(TUint, 2), TStr] && |data| == 128 && ReadWord(data, 64) == Ok(64) && StrideSum(ts, 1) == 64
    ensures DecodeTuple(ts, 0, data, 0) == Err
  {
    hide ReadWord, StrideSum;
    assert DecodeValue(TStr, data, 64) == Err;
    assert DecodeMemberAt(ts[1], data, 0, 64) == Err;
    assert DecodeTuple(ts, 1, data, 0) == Err;
  }

  lemma MisframedWhole(xs: seq<Value>, ts: seq<Type>)
    requires |xs| == 2 && ts == [TFixedList(TUint, 2), TStr] && StrideSum(ts, 2) == 96
    requires DecodeTuple(ts, 0, Parts(xs, ts, 64), 0) == Err
    ensures DecodeValue(TStruct(ts), Serialised(Struct(xs), TStruct(ts)), 0) == Err && !Framed(Struct(xs), TStruct(ts))
  {
    hide Parts, DecodeTuple, StrideSum;
    assert ABIDynamicType(ts[1]);
  }
}
