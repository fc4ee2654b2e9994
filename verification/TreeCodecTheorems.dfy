/** The tree codec writes the standard encoding, and reads back whatever it wrote. */
module TreeCodecTheorems {
  import opened Words
  import opened AbiTypes
  import opened AbiLayout
  import opened AbiReads
  import opened TreeCodec

  // ---------- dynamicType and offsetAsBytes follow the type ----------

  // v is built like a value of type t, whatever its lists and bytesN hold.
  ghost predicate Outline(v: Value, t: Type)
    decreases v
  {
    match (v, t)
    case (Bool(_), TBool) => true
    case (Uint(_), TUint) => true
    case (Int(_), TInt) => true
    case (FixedBytes(n, _), TFixedBytes(m)) => n == m
    case (Addr(_), TAddr) => true
    case (Str(_), TStr) => true
    case (DynBytes(_), TDynBytes) => true
    case (DynList(_), TDynList(_)) => true
    case (FixedList(d, xs), TFixedList(e, k)) => 0 < d == k == |xs| && AllOutline(xs, Repeat(e, |xs|))
    case (Struct(xs), TStruct(ts)) => AllOutline(xs, ts)
    case _ => false
  }

  ghost predicate AllOutline(xs: seq<Value>, ts: seq<Type>)
    decreases xs
  {
    |xs| == |ts| && forall i :: 0 <= i < |xs| ==> Outline(xs[i], ts[i])
  }

  lemma {:induction false} OutlineSize(v: Value, t: Type)
    requires Outline(v, t)
    ensures DynamicType(v) == Some(Dynamic(t))
    ensures OffsetAsBytes(v) == Some(HeadLen(t))
    decreases v
  {
    match v
    case FixedList(_, xs) =>
      OutlineSize(xs[0], t.elem);
    case Struct(xs) =>
      OutlineDynamic(xs, t.members);
      OutlineSum(xs, t.members, |xs|);
    case _ =>
  }

  lemma {:induction false} OutlineDynamic(xs: seq<Value>, ts: seq<Type>)
    requires AllOutline(xs, ts)
    ensures AnyDynamic(xs) == Some(exists i :: 0 <= i < |ts| && Dynamic(ts[i]))
    decreases xs
  {
    if xs == [] {
    } else {
      OutlineSize(xs[0], ts[0]);
      if !Dynamic(ts[0]) {
        OutlineDynamic(xs[1..], ts[1..]);
        if i :| 0 <= i < |ts| && Dynamic(ts[i]) {
          assert Dynamic(ts[1..][i - 1]);
        }
      }
    }
  }

  lemma {:induction false} OutlineSum(xs: seq<Value>, ts: seq<Type>, k: nat)
    requires AllOutline(xs, ts) && k <= |xs|
    ensures SumOffsets(xs, k) == Some(HeadSum(ts, k))
    decreases xs, k
  {
    if k == 0 {
    } else {
      OutlineSum(xs, ts, k - 1);
      OutlineSize(xs[k - 1], ts[k - 1]);
    }
  }

  lemma {:induction false} TypedOutline(v: Value, t: Type)
    requires HasType(v, t)
    ensures Outline(v, t) && Shaped(v)
    decreases v
  {
    match v
    case DynList(xs) =>
      forall i | 0 <= i < |xs| ensures Shaped(xs[i]) { TypedOutline(xs[i], t.elem); }
    case FixedList(_, xs) =>
      forall i | 0 <= i < |xs| ensures Shaped(xs[i]) && Outline(xs[i], t.elem) { TypedOutline(xs[i], t.elem); }
    case Struct(xs) =>
      forall i | 0 <= i < |xs| ensures Shaped(xs[i]) && Outline(xs[i], t.members[i]) { TypedOutline(xs[i], t.members[i]); }
    case _ =>
  }

  lemma TypedSize(v: Value, t: Type)
    requires HasType(v, t)
    ensures Shaped(v) && DynamicType(v) == Some(Dynamic(t)) && OffsetAsBytes(v) == Some(HeadLen(t))
  {
    TypedOutline(v, t);
    OutlineSize(v, t);
  }

  // ---------- serialize writes the standard encoding ----------

  lemma {:induction false} EncodeIsStandard(v: Value, t: Type)
    requires HasType(v, t)
    ensures Serializable(v)
    ensures Encode(v) == AbiEncode(v, t)
    decreases v
  {
    TypedSize(v, t);
    match v
    case DynList(xs) => ListIsTuple(xs, t.elem);
    case FixedList(_, xs) => ListIsTuple(xs, t.elem);
    case Struct(xs) => StructIsTuple(xs, t.members, |xs|);
    case _ =>
  }

  // The offsets and values of a homogeneous list are its heads and tails.
  lemma {:induction false} ListIsTuple(xs: seq<Value>, e: Type)
    requires AllTyped(xs, Repeat(e, |xs|))
    ensures ListOffsets(xs, |xs|) + ListValues(xs, |xs|) == AbiTuple(xs, Repeat(e, |xs|))
    decreases xs, |xs| + 1
  {
    HeadSumRepeat(e, |xs|, |xs|);
    if Dynamic(e) {
      DynamicListParts(xs, e, |xs|);
    } else {
      StaticListParts(xs, e, |xs|);
      assert [] + ListValues(xs, |xs|) == ListValues(xs, |xs|) + [];
    }
  }

  lemma {:induction false} DynamicListParts(xs: seq<Value>, e: Type, k: nat)
    requires AllTyped(xs, Repeat(e, |xs|)) && Dynamic(e) && k <= |xs|
    ensures ListOffset(xs, k) == TailPos(xs, Repeat(e, |xs|), k)
    ensures ListOffsets(xs, k) == Heads(xs, Repeat(e, |xs|), k)
    ensures ListValues(xs, k) == Tails(xs, Repeat(e, |xs|), k)
    decreases xs, k
  {
    hide Encode, AbiEncode, HasType, Dynamic, DynamicType, OffsetAsBytes, Shaped, HeadLen;
    var ts := Repeat(e, |xs|);
    if k == 0 {
      HeadSumRepeat(e, |xs|, |xs|);
    } else {
      DynamicListParts(xs, e, k - 1);
      TypedSize(xs[k - 1], e);
      EncodeIsStandard(xs[k - 1], e);
      assert ts[k - 1] == e;
    }
  }

  lemma {:induction false} StaticListParts(xs: seq<Value>, e: Type, k: nat)
    requires AllTyped(xs, Repeat(e, |xs|)) && !Dynamic(e) && k <= |xs|
    ensures ListOffsets(xs, k) == [] == Tails(xs, Repeat(e, |xs|), k)
    ensures ListValues(xs, k) == Heads(xs, Repeat(e, |xs|), k)
    decreases xs, k
  {
    hide Encode, AbiEncode, HasType, Dynamic, DynamicType, OffsetAsBytes, Shaped, HeadLen;
    if k == 0 {
    } else {
      StaticListParts(xs, e, k - 1);
      TypedSize(xs[k - 1], e);
      EncodeIsStandard(xs[k - 1], e);
      assert Repeat(e, |xs|)[k - 1] == e;
    }
  }

  lemma {:induction false} StructIsTuple(xs: seq<Value>, ts: seq<Type>, k: nat)
    requires AllTyped(xs, ts) && k <= |xs|
    ensures StructHeads(xs, k) == Heads(xs, ts, k)
    ensures StructTails(xs, k) == Tails(xs, ts, k)
    ensures StructOffset(xs, k) == TailPos(xs, ts, k)
    decreases xs, k
  {
    hide Encode, AbiEncode, HasType, Dynamic, DynamicType, OffsetAsBytes, Shaped, HeadLen;
    forall i | 0 <= i < |xs| ensures Outline(xs[i], ts[i]) { TypedOutline(xs[i], ts[i]); }
    OutlineSum(xs, ts, |xs|);
    if k == 0 {
    } else {
      StructIsTuple(xs, ts, k - 1);
      TypedSize(xs[k - 1], ts[k - 1]);
      EncodeIsStandard(xs[k - 1], ts[k - 1]);
    }
  }

  // The bytes of a string or bytes: a word with the length, the data, zeros up to whole words.
  lemma BytesContent(v: Value, data: Bytes)
    requires (v == Str(data) || v == DynBytes(data)) && |data| < WORD_LIMIT
    ensures var b := Encode(v);
            && |b| % 32 == 0 && 32 + |data| <= |b| < 64 + |data|
            && FromWord(b[..32]) == |data| && b[32..32 + |data|] == data
            && forall i :: 32 + |data| <= i < |b| ==> b[i] == 0
  {
    hide Word, FromWord;
    var b := Encode(v);
    AlignedSum(32, RoundUp(|data|));
    WordRoundTrip(|data|);
    assert b[..32] == Word(|data|);
  }

  // A bytesN starts its word and zeros fill it; an address ends its word behind zeros, and so the
  // word is the number the address spells; the numbers are their words.
  lemma WordContent(v: Value)
    requires v.FixedBytes? ==> |v.data| <= 32
    requires v.FixedBytes? || v.Addr? || v.Bool? || v.Uint? || v.Int?
    ensures var b := Encode(v);
            && |b| == 32
            && (v.FixedBytes? ==> b[..|v.data|] == v.data && forall i :: |v.data| <= i < 32 ==> b[i] == 0)
            && (v.Addr? ==> FromWord(b) == FromBigEndian(v.addr, 20))
            && (v.Bool? ==> FromWord(b) == if v.b then 1 else 0)
            && (v.Uint? ==> FromWord(b) == v.u)
            && (v.Int? ==> FromWord(b) == v.i || FromWord(b) == v.i + WORD_LIMIT)
  {
    var b := Encode(v);
    match v
    case Addr(a) =>
      assert b[12..] == a;
      LeadingZeros(b, 12, 32);
    case Bool(x) =>
      SmallIsWord(1);
      WordRoundTrip(if x then 1 else 0);
    case Uint(u) => WordRoundTrip(u);
    case Int(i) => WordRoundTrip(S2u(i));
    case FixedBytes(_, data) => assert b[..|data|] == data;
  }

  // A static value takes exactly offsetAsBytes bytes.
  lemma StaticSize(v: Value, t: Type)
    requires HasType(v, t) && !Dynamic(t)
    ensures OffsetAsBytes(v) == Some(|Encode(v)|)
  {
    hide Encode, AbiEncode, OffsetAsBytes;
    TypedSize(v, t);
    EncodeIsStandard(v, t);
    EncodedSize(v, t);
  }

  // T[N] is written like a struct of its elements, and T[] the same behind a length word.
  lemma ListsEncodeAsStructs(xs: seq<Value>, e: Type)
    requires AllTyped(xs, Repeat(e, |xs|))
    ensures Encode(FixedList(|xs|, xs)) == Encode(Struct(xs))
    ensures Encode(DynList(xs)) == Word(|xs|) + Encode(Struct(xs))
  {
    hide ListOffsets, ListValues, StructHeads, StructTails, Heads, Tails, HasType, AllTyped, Word;
    ListIsTuple(xs, e);
    StructIsTuple(xs, Repeat(e, |xs|), |xs|);
  }

  // ---------- deserialize reads back what serialize wrote ----------

  // The tree w can take v in: it has v's shape, and every non-empty list of v finds in w an
  // element to clone, with its bytesN leaves filled.
  predicate Suits(w: Value, v: Value)
    decreases w
  {
    match (w, v)
    case (Bool(_), Bool(_)) => true
    case (Uint(_), Uint(_)) => true
    case (Int(_), Int(_)) => true
    case (FixedBytes(n, _), FixedBytes(m, _)) => n == m
    case (Addr(_), Addr(_)) => true
    case (Str(_), Str(_)) => true
    case (DynBytes(_), DynBytes(_)) => true
    case (DynList(ws), DynList(xs)) =>
      xs == [] || (ws != [] && Cloneable(ws[0]) && forall i :: 0 <= i < |xs| ==> Suits(ws[0], xs[i]))
    case (FixedList(d, ws), FixedList(k, xs)) => d == k == |ws| && AllSuit(ws, xs)
    case (Struct(ws), Struct(xs)) => AllSuit(ws, xs)
    case _ => false
  }

  predicate AllSuit(ws: seq<Value>, xs: seq<Value>)
    decreases ws
  {
    |ws| == |xs| && forall i :: 0 <= i < |ws| ==> Suits(ws[i], xs[i])
  }

  lemma {:induction false} SuitsOutline(w: Value, v: Value, t: Type)
    requires HasType(v, t) && Suits(w, v)
    ensures Outline(w, t)
    decreases w
  {
    match w
    case FixedList(_, ws) =>
      forall i | 0 <= i < |ws| ensures Outline(ws[i], t.elem) { SuitsOutline(ws[i], v.items[i], t.elem); }
    case Struct(ws) =>
      forall i | 0 <= i < |ws| ensures Outline(ws[i], t.members[i]) { SuitsOutline(ws[i], v.items[i], t.members[i]); }
    case _ =>
  }

  lemma LeafRoundTrip(v: Value, t: Type, w: Value, buf: Bytes, p: nat)
    requires HasType(v, t) && Suits(w, v)
    requires !v.DynList? && !v.FixedList? && !v.Struct?
    requires |buf| <= INT_MAX && At(buf, p, AbiEncode(v, t))
    ensures Decode(w, buf, p) == Ok(v)
  {
    match v
    case Bool(b) =>
      SmallIsWord(1);
      ReadWordAt(buf, p, if b then 1 else 0);
    case Uint(u) =>
      ReadWordAt(buf, p, u);
    case Int(i) =>
      ReadWordAt(buf, p, S2u(i));
      TwosComplementRoundTrip(i);
    case FixedBytes(n, data) =>
      AtLeft(data, Zeros(32 - n), 0, data);
      AtPart(buf, p, AbiEncode(v, t), 0, data);
      AtSlice(buf, p, data);
    case Addr(a) =>
      AtRight(Zeros(12), a, 0, a);
      AtPart(buf, p, AbiEncode(v, t), 12, a);
      AtSlice(buf, p + 12, a);
    case Str(data) => ReadBytesAt(buf, p, data);
    case DynBytes(data) => ReadBytesAt(buf, p, data);
  }

  // With v encoded at p, decoding into a tree that suits it gives v back.
  lemma {:induction false} DecodeAt(v: Value, t: Type, w: Value, buf: Bytes, p: nat)
    requires HasType(v, t) && Suits(w, v)
    requires |buf| <= INT_MAX && At(buf, p, AbiEncode(v, t))
    ensures Decode(w, buf, p) == Ok(v)
    decreases v, 0, 0
  {
    hide Decode, ReadWord, At, Heads, Tails, Cloneable, Dynamic, HeadLen, DecodeCopies, DecodeMembers;
    match v
    case DynList(xs) =>
      AtFits(buf, p, AbiEncode(v, t));
      ListHeader(|xs|, AbiTuple(xs, Repeat(t.elem, |xs|)), buf, p);
      if xs != [] {
        CopiesAt(xs, t.elem, w.items[0], buf, p + 32, 0);
      }
      DecodeIntoList(w, xs, buf, p);
    case FixedList(_, xs) =>
      AtFits(buf, p, AbiEncode(v, t));
      MembersAt(xs, Repeat(t.elem, |xs|), w.items, InArray, buf, p, 0);
      DecodeIntoTuple(w, xs, buf, p);
    case Struct(xs) =>
      AtFits(buf, p, AbiEncode(v, t));
      MembersAt(xs, t.members, w.items, InStruct, buf, p, 0);
      DecodeIntoTuple(w, xs, buf, p);
    case _ =>
      LeafRoundTrip(v, t, w, buf, p);
  }

  lemma DecodeIntoList(w: Value, xs: seq<Value>, buf: Bytes, p: nat)
    requires w.DynList? && |buf| <= INT_MAX
    requires ReadWord(buf, p) == Ok(|xs|) && |xs| < INT_MAX && p <= |buf|
    requires xs != [] ==> w.items != [] && DecodeCopies(w.items[0], |xs|, buf, p + 32, p + 32) == Ok(xs[0..])
    ensures Decode(w, buf, p) == Ok(DynList(xs))
  {
    assert xs[0..] == xs;
  }

  lemma DecodeIntoTuple(w: Value, xs: seq<Value>, buf: Bytes, p: nat)
    requires (w.FixedList? && w.dim == |w.items|) || w.Struct?
    requires p <= |buf| <= INT_MAX
    requires DecodeMembers(w.items[0..], if w.Struct? then InStruct else InArray, buf, p, p) == Ok(xs[0..])
    ensures Decode(w, buf, p) == Ok(if w.Struct? then Struct(xs) else FixedList(w.dim, xs))
  {
    assert xs[0..] == xs && w.items[0..] == w.items;
  }

  lemma {:induction false} MemberAt(xs: seq<Value>, ts: seq<Type>, w: Value, frame: Frame, buf: Bytes, base: nat, k: nat)
    requires AllTyped(xs, ts) && k < |xs| && Suits(w, xs[k])
    requires |buf| <= INT_MAX && At(buf, base, AbiTuple(xs, ts))
    ensures DecodeMember(w, frame, buf, base, base + HeadSum(ts, k)) == Ok(xs[k])
    decreases xs[k], 1, 0
  {
    hide Decode, AbiEncode, Suits, At, HasType, ReadWord;
    SuitsOutline(w, xs[k], ts[k]);
    OutlineSize(w, ts[k]);
    MemberPlace(xs, ts, buf, base, k);
    var pos := if Dynamic(ts[k]) then TailPos(xs, ts, k) else HeadSum(ts, k);
    DecodeAt(xs[k], ts[k], w, buf, base + pos);
  }

  // Decoding a member to its value moves on to the next head.
  lemma NextHead(xs: seq<Value>, ts: seq<Type>, base: nat, k: nat)
    requires AllTyped(xs, ts) && k < |xs| && base + HeadSum(ts, k + 1) <= INT_MAX
    ensures NextOffset(xs[k], base + HeadSum(ts, k)) == Some(base + HeadSum(ts, k + 1))
  {
    TypedSize(xs[k], ts[k]);
  }

  lemma {:induction false} MembersAt(xs: seq<Value>, ts: seq<Type>, ws: seq<Value>, frame: Frame, buf: Bytes, base: nat, k: nat)
    requires AllTyped(xs, ts) && AllSuit(ws, xs) && k <= |xs|
    requires |buf| <= INT_MAX && At(buf, base, AbiTuple(xs, ts))
    ensures DecodeMembers(ws[k..], frame, buf, base, base + HeadSum(ts, k)) == Ok(xs[k..])
    decreases xs, 2, |xs| - k
  {
    hide DecodeMember, DecodeMembers, NextOffset, HasType, Suits, At, AbiTuple, HeadSum;
    if k < |xs| {
      var cur, next := base + HeadSum(ts, k), base + HeadSum(ts, k + 1);
      MemberPlace(xs, ts, buf, base, k);
      MemberAt(xs, ts, ws[k], frame, buf, base, k);
      MembersAt(xs, ts, ws, frame, buf, base, k + 1);
      NextHead(xs, ts, base, k);
      MembersStep(ws[k..], frame, buf, base, cur, next, xs[k..]);
      assert ws[k..][1..] == ws[k + 1..] && xs[k..][1..] == xs[k + 1..];
    } else {
      MembersEnd(ws[k..], xs[k..], frame, buf, base, base + HeadSum(ts, k));
    }
  }

  lemma MembersEnd(ws: seq<Value>, xs: seq<Value>, frame: Frame, buf: Bytes, base: nat, cur: int)
    requires |ws| == |xs| == 0
    ensures DecodeMembers(ws, frame, buf, base, cur) == Ok(xs)
  {
    assert ws == [] && xs == [];
  }

  lemma MembersStep(ws: seq<Value>, frame: Frame, buf: Bytes, base: nat, cur: int, next: int, xs: seq<Value>)
    requires ws != [] && xs != [] && NextOffset(xs[0], cur) == Some(next)
    requires DecodeMember(ws[0], frame, buf, base, cur) == Ok(xs[0])
    requires DecodeMembers(ws[1..], frame, buf, base, next) == Ok(xs[1..])
    ensures DecodeMembers(ws, frame, buf, base, cur) == Ok(xs)
  {
    assert xs == [xs[0]] + xs[1..];
  }

  lemma {:induction false} CopiesAt(xs: seq<Value>, e: Type, w: Value, buf: Bytes, base: nat, k: nat)
    requires AllTyped(xs, Repeat(e, |xs|)) && k <= |xs|
    requires Cloneable(w) && forall i :: 0 <= i < |xs| ==> Suits(w, xs[i])
    requires |buf| <= INT_MAX && At(buf, base, AbiTuple(xs, Repeat(e, |xs|)))
    ensures DecodeCopies(w, |xs| - k, buf, base, base + HeadSum(Repeat(e, |xs|), k)) == Ok(xs[k..])
    decreases xs, 2, |xs| - k
  {
    hide DecodeMember, DecodeCopies, AbiTuple, Suits, At, HasType, NextOffset, Cloneable, HeadSum;
    if k < |xs| {
      var ts := Repeat(e, |xs|);
      var cur, next := base + HeadSum(ts, k), base + HeadSum(ts, k + 1);
      MemberPlace(xs, ts, buf, base, k);
      MemberAt(xs, ts, w, InList, buf, base, k);
      CopiesAt(xs, e, w, buf, base, k + 1);
      NextHead(xs, ts, base, k);
      CopiesStep(w, buf, base, cur, next, xs[k..]);
      assert xs[k..][1..] == xs[k + 1..];
    } else {
      CopiesEnd(w, buf, base, base + HeadSum(Repeat(e, |xs|), k));
      assert xs[k..] == [];
    }
  }

  lemma CopiesEnd(w: Value, buf: Bytes, base: nat, cur: int)
    ensures DecodeCopies(w, 0, buf, base, cur) == Ok([])
  {
  }

  lemma CopiesStep(w: Value, buf: Bytes, base: nat, cur: int, next: int, xs: seq<Value>)
    requires xs != [] && NextOffset(xs[0], cur) == Some(next) && Cloneable(w)
    requires DecodeMember(w, InList, buf, base, cur) == Ok(xs[0])
    requires DecodeCopies(w, |xs| - 1, buf, base, next) == Ok(xs[1..])
    ensures DecodeCopies(w, |xs|, buf, base, cur) == Ok(xs)
  {
    hide DecodeMember, NextOffset, Cloneable;
    assert xs == [xs[0]] + xs[1..];
  }

  // ---------- nothing else is ever read ----------

  // Whatever the bytes, a tree suits what was decoded into it.
  lemma {:induction false} DecodedSuits(w: Value, buf: Bytes, off: nat)
    requires Decode(w, buf, off).Ok?
    ensures Suits(w, Decode(w, buf, off).value)
    decreases w, 0, 0
  {
    hide ReadWord, ReadBytes, Cloneable, DecodeCopies, DecodeMembers, Int32, SizeT;
    match w
    case DynList(ws) =>
      if ws != [] {
        var base := SizeT(off + 32);
        CopiesSuit(ws[0], ReadWord(buf, off).value, buf, base, Int32(base));
      }
    case FixedList(_, ws) => MembersSuit(ws, InArray, buf, off, Int32(off));
    case Struct(ws) => MembersSuit(ws, InStruct, buf, off, Int32(off));
    case _ =>
  }

  lemma {:induction false} MemberSuits(w: Value, frame: Frame, buf: Bytes, base: nat, cur: int)
    requires DecodeMember(w, frame, buf, base, cur).Ok?
    ensures Suits(w, DecodeMember(w, frame, buf, base, cur).value)
    decreases w, 1, 0
  {
    hide Decode, ReadWord, Suits, SizeT;
    if DynamicType(w) == Some(true) {
      DecodedSuits(w, buf, SizeT(base + SizeT(ReadWord(buf, SizeT(cur)).value)));
    } else {
      DecodedSuits(w, buf, SizeT(cur));
    }
  }

  lemma {:induction false} MembersSuit(ws: seq<Value>, frame: Frame, buf: Bytes, base: nat, cur: int)
    requires DecodeMembers(ws, frame, buf, base, cur).Ok?
    ensures AllSuit(ws, DecodeMembers(ws, frame, buf, base, cur).value)
    decreases ws, 2, 0
  {
    hide DecodeMember, Suits, NextOffset;
    if ws == [] {
    } else {
      var v := DecodeMember(ws[0], frame, buf, base, cur);
      MemberSuits(ws[0], frame, buf, base, cur);
      MembersSuit(ws[1..], frame, buf, base, NextOffset(v.value, cur).value);
    }
  }

  lemma {:induction false} CopiesSuit(w: Value, n: nat, buf: Bytes, base: nat, cur: int)
    requires DecodeCopies(w, n, buf, base, cur).Ok?
    ensures var xs := DecodeCopies(w, n, buf, base, cur).value;
            (xs != [] ==> Cloneable(w)) && forall i :: 0 <= i < |xs| ==> Suits(w, xs[i])
    decreases w, 2, n
  {
    hide DecodeMember, Suits, NextOffset, Cloneable;
    if n == 0 {
    } else {
      var v := DecodeMember(w, InList, buf, base, cur);
      MemberSuits(w, InList, buf, base, cur);
      CopiesSuit(w, n - 1, buf, base, NextOffset(v.value, cur).value);
    }
  }

  // decode(P + serialize(v) + S, |P|) into any tree at all is v exactly when the tree suits v.
  lemma RoundTrip(v: Value, t: Type, w: Value, prefix: Bytes, suffix: Bytes)
    requires HasType(v, t) && |prefix + Encode(v) + suffix| <= INT_MAX
    ensures Decode(w, prefix + Encode(v) + suffix, |prefix|) == Ok(v) <==> Suits(w, v)
  {
    hide Decode, Suits, HasType;
    EncodeIsStandard(v, t);
    var buf := prefix + Encode(v) + suffix;
    AtRight(prefix, Encode(v), 0, Encode(v));
    AtLeft(prefix + Encode(v), suffix, |prefix|, Encode(v));
    if Suits(w, v) {
      DecodeAt(v, t, w, buf, |prefix|);
    }
    if Decode(w, buf, |prefix|) == Ok(v) {
      DecodedSuits(w, buf, |prefix|);
    }
  }
}
