/** The bytes of SCALE, one by one, and which bytes are accepted for a value. */
module ScaleWire {
  import opened Words
  import opened ScaleIntegers
  import opened ScaleCodec
  import opened ScaleTheorems
  import opened ScaleMinimal

  // ---------- integers ----------

  // Little-endian bytes are big-endian bytes from the other end.
  lemma {:induction false} LittleIsReversed(n: nat, w: nat, k: nat)
    requires k < w
    ensures Little(n, w)[k] == BigEndian(n, w)[w - 1 - k]
    decreases w
  {
    BigEndianEnd(n, w);
    if k == 0 {
    } else {
      LittleIsReversed(n / 256, w - 1, k - 1);
      assert BigEndian(n, w)[..w - 1][w - 1 - k] == BigEndian(n, w)[w - 1 - k];
    }
  }

  // The four modes of a compact integer: the two low bits name the mode.
  lemma CompactFormat(n: nat)
    requires CompactOk(n)
    ensures var b := EncodeCompact(n);
            if n < 0x40 then b == [4 * n]
            else if n < 0x4000 then |b| == 2 && FromLittle(b, 0, 2) == 4 * n + 1
            else if n < 0x4000_0000 then |b| == 4 && FromLittle(b, 0, 4) == 4 * n + 2
            else
              var c := |b| - 1;
              && 4 <= c <= 67 && b[0] == 4 * (c - 4) + 3 && FromLittle(b, 1, c) == n
              && Pow256(c - 1) <= n < Pow256(c)
  {
    hide Little, FromLittle, Pow256, CountBytes;
    var b := EncodeCompact(n);
    SmallPowers();
    if n < 0x40 {
    } else if n < 0x4000 {
      WholeAt(b);
      LittleRoundTrip(4 * n + 1, 2, b, 0);
    } else if n < 0x4000_0000 {
      WholeAt(b);
      LittleRoundTrip(4 * n + 2, 4, b, 0);
    } else {
      BigCount(n);
      CountBytesIsLength(n);
      var c := CountBytes(n);
      WholeAt(b);
      AtCons(b, 0, (c - 4) * 4 + 3, Little(n, c));
      LittleRoundTrip(n, c, b, 1);
    }
  }

  lemma WholeAt(b: Bytes)
    ensures At(b, 0, b)
  {
  }

  // ---------- values ----------

  // One byte for a bool, for nothing and for an optional bool; a mark and the value for something;
  // the index and the value for a variant.
  lemma ByteFormat(x: Value)
    ensures Encode(Bool(false)) == [0] && Encode(Bool(true)) == [1] && Encode(Absent) == [0]
    ensures Encode(Present(Bool(true))) == [1] && Encode(Present(Bool(false))) == [2]
    ensures !x.Bool? && Encodable(x) ==> Encode(Present(x)) == [1] + Encode(x)
    ensures forall ts: seq<Type>, i: nat :: Distinct(ts) && i < |ts| <= 256 && Encodable(x) ==>
              Encode(Variant(ts, i, x)) == [i] + Encode(x)
  {
    forall ts: seq<Type>, i: nat | Distinct(ts) && i < |ts| <= 256 && Encodable(x)
      ensures Encode(Variant(ts, i, x)) == [i] + Encode(x)
    {
      FirstIsOwn(ts, i, 0);
    }
  }

  // Fixed-width integers are the little-endian digits of their two's complement.
  lemma IntFormat(signed: bool, w: Width, n: int)
    requires InRange(signed, w, n)
    ensures var b := Encode(Int(w, n));
            |b| == w && FromLittle(b, 0, w) == if n < 0 then n + Pow256(w) else n
  {
    hide Little, FromLittle, AsUnsigned;
    TruncationInRange(signed, w, n);
    FullIsPower(w);
    WholeAt(Little(AsUnsigned(w, n), w));
    LittleRoundTrip(AsUnsigned(w, n), w, Little(AsUnsigned(w, n), w), 0);
  }

  // Tuples, arrays and the elements of collections follow each other in order.
  function Concatenated(vs: seq<Value>): Bytes
    requires AllEncodable(vs)
  {
    if vs == [] then [] else Concatenated(vs[..|vs| - 1]) + Encode(vs[|vs| - 1])
  }

  lemma {:induction false} InOrder(vs: seq<Value>, k: nat)
    requires AllEncodable(vs) && k <= |vs|
    ensures Concatenated(vs) == Concatenated(vs[..k]) + EncodeFrom(vs, k)
    decreases |vs| - k
  {
    hide Encode, Encodable, Concatenated, EncodeFrom;
    if k == |vs| {
      assert vs[..k] == vs;
      NoneLeft(vs);
    } else {
      InOrder(vs, k + 1);
      OneInOrder(vs, k);
    }
  }

  lemma NoneLeft(vs: seq<Value>)
    requires AllEncodable(vs)
    ensures Concatenated(vs) + EncodeFrom(vs, |vs|) == Concatenated(vs)
  {
    hide Encode, Encodable;
  }

  lemma OneInOrder(vs: seq<Value>, k: nat)
    requires AllEncodable(vs) && k < |vs|
    ensures Concatenated(vs[..k + 1]) + EncodeFrom(vs, k + 1) == Concatenated(vs[..k]) + EncodeFrom(vs, k)
  {
    hide Encode, Encodable;
    assert vs[..k + 1][..k] == vs[..k] && vs[..k + 1][k] == vs[k];
  }

  lemma Elements(vs: seq<Value>)
    requires AllEncodable(vs)
    ensures EncodeFrom(vs, 0) == Concatenated(vs)
  {
    hide Encode, Encodable;
    InOrder(vs, 0);
    assert vs[..0] == [];
  }

  lemma TupleFormat(vs: seq<Value>)
    requires AllEncodable(vs)
    ensures Encodable(Tuple(vs)) && Encode(Tuple(vs)) == Concatenated(vs)
  {
    hide EncodeFrom, Concatenated, AllEncodable;
    Elements(vs);
  }

  lemma CollectionFormat(vs: seq<Value>)
    requires AllEncodable(vs) && CompactOk(|vs|)
    ensures Encodable(Vector(vs)) && Encode(Vector(vs)) == EncodeCompact(|vs|) + Concatenated(vs)
    ensures Encodable(Map(vs)) && Encode(Map(vs)) == EncodeCompact(|vs|) + Concatenated(vs)
  {
    hide EncodeCompact, CompactOk, EncodeFrom, Concatenated, AllEncodable;
    Elements(vs);
  }

  lemma StringFormat(data: Bytes)
    requires CompactOk(|data|)
    ensures Encodable(Str(data)) && Encode(Str(data)) == EncodeCompact(|data|) + data
  {
    hide EncodeCompact, CompactOk;
  }

  // ---------- which bytes are accepted ----------

  // Types whose values have one shortest encoding only: maps can be written in any order, and a
  // vector of bools takes any byte above 0 for true.
  ghost predicate Strict(t: Type) {
    match t
    case TupleT(ts) => forall k :: 0 <= k < |ts| ==> Strict(ts[k])
    case ArrayT(e, _) => Strict(e)
    case VectorT(e) => !e.BoolT? && Strict(e)
    case MapT(_) => false
    case OptionT(e) => Strict(e)
    case VariantT(ts) => |ts| <= 256 && Distinct(ts) && forall k :: 0 <= k < |ts| ==> Strict(ts[k])
    case _ => true
  }

  lemma AtJoin(buf: Bytes, p: nat, a: Bytes, b: Bytes)
    requires At(buf, p, a) && At(buf, p + |a|, b)
    ensures At(buf, p, a + b)
  {
    forall i | 0 <= i < |a + b| ensures (a + b)[i] == buf[p + i] {
      if i >= |a| {
        assert b[i - |a|] == buf[p + |a| + (i - |a|)];
      }
    }
  }

  // A size that takes as many bytes as needed was not cut down to 64 bits.
  lemma CountExact(buf: Bytes, pos: nat, c: (nat, nat))
    requires DecodeCompact(buf, pos) == Ok(c)
    requires CompactOk(SizeT(c.0)) && |EncodeCompact(SizeT(c.0))| == c.1 - pos
    ensures SizeT(c.0) == c.0 && At(buf, pos, EncodeCompact(c.0))
  {
    hide DecodeCompact, EncodeCompact, CountBytes, Pow256, At;
    CompactIsMinimal(buf, pos, c.0, c.1);
    if c.0 >= TWO_64 {
      FullIsPower(8);
      CountBytesAtMost(SizeT(c.0), 8);
      CountBytesAtMost(c.0, 8);
      CompactSize(SizeT(c.0));
      CompactSize(c.0);
    }
  }

  // Of the bytes that decode to v, those of the encoder's length are the encoder's.
  lemma {:induction false} ShortestIsUnique(t: Type, buf: Bytes, pos: nat, v: Value, end: nat)
    requires Strict(t) && pos <= |buf| && Decode(t, buf, pos) == Ok((v, end))
    requires Encodable(v) && end - pos == |Encode(v)|
    ensures At(buf, pos, Encode(v))
    decreases t, 2, 0
  {
    hide Decode, Encode, Strict, At;
    match t
    case TupleT(_) => TupleUnique(t, buf, pos, v, end);
    case ArrayT(_, _) => TupleUnique(t, buf, pos, v, end);
    case VectorT(_) => VectorUnique(t, buf, pos, v, end);
    case MapT(_) => StrictNoMap(t);
    case OptionT(_) => OptionUnique(t, buf, pos, v, end);
    case VariantT(_) => VariantUnique(t, buf, pos, v, end);
    case _ => ScalarUnique(t, buf, pos, v, end);
  }

  lemma StrictNoMap(t: Type)
    requires t.MapT?
    ensures !Strict(t)
  {
  }

  lemma IntUnique(signed: bool, w: Width, buf: Bytes, pos: nat)
    requires pos + w <= |buf|
    ensures var u := FromLittle(buf, pos, w);
            u < Full(w) && At(buf, pos, Little(AsUnsigned(w, Interpret(signed, w, u)), w))
  {
    hide Little, FromLittle, Interpret, AsUnsigned, At;
    FullIsPower(w);
    FromLittleBound(buf, pos, w);
    var u := FromLittle(buf, pos, w);
    TruncationUndoesInterpret(signed, w, u);
    LittleRoundTrip(u, w, buf, pos);
  }

  lemma TruncationUndoesInterpret(signed: bool, w: Width, u: nat)
    requires u < Full(w)
    ensures AsUnsigned(w, Interpret(signed, w, u)) == u
  {
    hide Interpret, AsUnsigned;
    InterpretIsTwosComplement(signed, w, u);
    TruncationInRange(signed, w, Interpret(signed, w, u));
  }

  lemma WordUnique(buf: Bytes, pos: nat)
    requires pos + 32 <= |buf|
    ensures At(buf, pos, Word(FromWord(buf[pos..pos + 32])))
    ensures S2u(U2s(FromWord(buf[pos..pos + 32]))) == FromWord(buf[pos..pos + 32])
  {
    hide At;
    var b := buf[pos..pos + 32];
    BigEndianInverse(b, 32);
    assert b[..32] == b;
    AtSlice(buf, pos, b);
  }

  lemma ScalarUnique(t: Type, buf: Bytes, pos: nat, v: Value, end: nat)
    requires pos <= |buf| && Decode(t, buf, pos) == Ok((v, end)) && Encodable(v) && end - pos == |Encode(v)|
    requires t.BoolT? || t.IntT? || t.CompactT? || t.U256T? || t.S256T? || t.StringT?
    ensures At(buf, pos, Encode(v))
  {
    hide DecodeCompact, EncodeCompact, CompactOk, Little, FromLittle, Word, FromWord, At, SizeT, Interpret, AsUnsigned;
    match t
    case BoolT => OneByteAt(buf, pos, buf[pos]);
    case IntT(signed, w) => IntUnique(signed, w, buf, pos);
    case CompactT => CompactIsMinimal(buf, pos, v.n, end);
    case U256T => WordUnique(buf, pos);
    case S256T => WordUnique(buf, pos);
    case StringT =>
      var c := DecodeCompact(buf, pos).value;
      CountExact(buf, pos, c);
      AtSlice(buf, c.1, v.data);
      AtJoin(buf, pos, EncodeCompact(|v.data|), v.data);
  }

  lemma {:induction false} TupleUnique(t: Type, buf: Bytes, pos: nat, v: Value, end: nat)
    requires (t.TupleT? || t.ArrayT?) && Strict(t) && pos <= |buf| && Decode(t, buf, pos) == Ok((v, end))
    requires Encodable(v) && end - pos == |Encode(v)|
    ensures At(buf, pos, Encode(v))
    decreases t, 1, 0
  {
    hide DecodeMembers, DecodeCopies, EncodeFrom, At, TotalSize, AllEncodable;
    NothingYet();
    EncodeFromSize(v.items, 0);
    assert v.items[0..] == v.items;
    if t.TupleT? {
      MembersUnique(t.members, [], buf, pos, v.items, end);
    } else {
      CopiesUnique(t.element, t.size, [], buf, pos, v.items, end);
    }
  }

  lemma {:induction false} VectorUnique(t: Type, buf: Bytes, pos: nat, v: Value, end: nat)
    requires t.VectorT? && Strict(t) && pos <= |buf| && Decode(t, buf, pos) == Ok((v, end))
    requires Encodable(v) && end - pos == |Encode(v)|
    ensures At(buf, pos, Encode(v))
    decreases t, 1, 0
  {
    hide DecodeCompact, EncodeCompact, CompactOk, DecodeCopies, EncodeFrom, SizeT, At, TotalSize, AllEncodable, FromRaw;
    var c, vs := DecodeCompact(buf, pos).value, v.items;
    NothingYet();
    EncodeFromSize(vs, 0);
    assert vs[0..] == vs;
    if OneByte(t.element) {
      RawSize(vs, t.element, buf, c.1);
      CountIsMinimal(buf, pos, c, SizeT(c.0));
      CountExact(buf, pos, c);
      RawUnique(vs, t.element, buf, c.1, 0);
    } else {
      CopiesMinimal(t.element, SizeT(c.0), [], buf, c.1, vs, end);
      CountIsMinimal(buf, pos, c, SizeT(c.0));
      CountExact(buf, pos, c);
      CopiesUnique(t.element, SizeT(c.0), [], buf, c.1, vs, end);
    }
    AtJoin(buf, pos, EncodeCompact(|vs|), EncodeFrom(vs, 0));
  }

  // Bytes read in bulk as integers are the integers' bytes.
  lemma {:induction false} RawUnique(vs: seq<Value>, t: Type, buf: Bytes, pos: nat, k: nat)
    requires OneByte(t) && !t.BoolT? && AllEncodable(vs) && k <= |vs| && pos + |vs| <= |buf|
    requires forall i :: 0 <= i < |vs| ==> vs[i] == FromRaw(t, buf[pos + i])
    ensures At(buf, pos + k, EncodeFrom(vs, k))
    decreases |vs| - k
  {
    hide At, Interpret, AsUnsigned, Little;
    if k == |vs| {
      AtNothing(buf, pos + k);
    } else {
      RawUnique(vs, t, buf, pos, k + 1);
      var u := buf[pos + k];
      TruncationUndoesInterpret(t.signed, 1, u);
      OneDigit(u);
      OneByteAt(buf, pos + k, u);
      AtJoin(buf, pos + k, [u], EncodeFrom(vs, k + 1));
    }
  }

  lemma AtNothing(buf: Bytes, p: nat)
    requires p <= |buf|
    ensures At(buf, p, [])
  {
  }

  lemma {:induction false} OptionUnique(t: Type, buf: Bytes, pos: nat, v: Value, end: nat)
    requires t.OptionT? && Strict(t) && pos <= |buf| && Decode(t, buf, pos) == Ok((v, end))
    requires Encodable(v) && end - pos == |Encode(v)|
    ensures At(buf, pos, Encode(v))
    decreases t, 1, 0
  {
    hide At, DecodeMembers, DecodeCopies, DecodeEntries, DecodeCompact, DecodeInt, EncodeFrom, AllEncodable;
    if v.Absent? || t.element.BoolT? {
      OneByteAt(buf, pos, buf[pos]);
    } else {
      BoolOnlyFromBool(t.element, buf, pos + 1);
      ShortestIsUnique(t.element, buf, pos + 1, v.item, end);
      OneByteAt(buf, pos, 1);
      AtJoin(buf, pos, [1], Encode(v.item));
    }
  }

  lemma BoolOnlyFromBool(t: Type, buf: Bytes, pos: nat)
    requires pos <= |buf| && Decode(t, buf, pos).Ok?
    ensures Decode(t, buf, pos).value.0.Bool? ==> t.BoolT?
  {
    hide DecodeMembers, DecodeCopies, DecodeEntries, DecodeCompact;
  }

  lemma {:induction false} VariantUnique(t: Type, buf: Bytes, pos: nat, v: Value, end: nat)
    requires t.VariantT? && Strict(t) && pos <= |buf| && Decode(t, buf, pos) == Ok((v, end))
    requires Encodable(v) && end - pos == |Encode(v)|
    ensures At(buf, pos, Encode(v))
    decreases t, 1, 0
  {
    hide At, IndexOf, DecodeMembers, DecodeCopies, DecodeEntries, DecodeCompact, DecodeInt, EncodeFrom, AllEncodable;
    FirstIsOwn(t.alternatives, v.which, 0);
    ShortestIsUnique(t.alternatives[v.which], buf, pos + 1, v.item, end);
    OneByteAt(buf, pos, v.which);
    AtJoin(buf, pos, [v.which], Encode(v.item));
  }

  lemma {:induction false} MembersUnique(ts: seq<Type>, vs: seq<Value>, buf: Bytes, pos: nat, all: seq<Value>, end: nat)
    requires (forall k :: 0 <= k < |ts| ==> Strict(ts[k])) && |vs| <= |ts| && AllEncodable(vs) && pos <= |buf|
    requires DecodeMembers(ts, vs, buf, pos) == Ok((all, end))
    requires AllEncodable(all) && TotalSize(all) == TotalSize(vs) + end - pos
    ensures |vs| <= |all| && all[..|vs|] == vs && At(buf, pos, EncodeFrom(all, |vs|))
    decreases ts, 0, |ts| - |vs|
  {
    hide Encode, Encodable, Decode, At, TotalSize, Strict;
    if |vs| == |ts| {
      AtNothing(buf, pos);
    } else {
      var t := ts[|vs|];
      var x := Decode(t, buf, pos).value;
      EncodingIsMinimal(t, buf, pos, x.0, x.1);
      TotalSizeLast(vs, x.0);
      MembersMinimal(ts, vs + [x.0], buf, x.1, all, end);
      MembersUnique(ts, vs + [x.0], buf, x.1, all, end);
      assert all[..|vs|] == all[..|vs| + 1][..|vs|] == vs && all[|vs|] == x.0;
      ShortestIsUnique(t, buf, pos, x.0, x.1);
      AtJoin(buf, pos, Encode(x.0), EncodeFrom(all, |vs| + 1));
    }
  }

  lemma {:induction false} CopiesUnique(t: Type, n: nat, vs: seq<Value>, buf: Bytes, pos: nat, all: seq<Value>, end: nat)
    requires Strict(t) && |vs| <= n && AllEncodable(vs) && pos <= |buf|
    requires DecodeCopies(t, n, vs, buf, pos) == Ok((all, end))
    requires AllEncodable(all) && TotalSize(all) == TotalSize(vs) + end - pos
    ensures |vs| <= |all| && all[..|vs|] == vs && At(buf, pos, EncodeFrom(all, |vs|))
    decreases t, 3, n - |vs|
  {
    hide Encode, Encodable, Decode, At, TotalSize, Strict;
    if |vs| == n {
      AtNothing(buf, pos);
    } else {
      var x := Decode(t, buf, pos).value;
      EncodingIsMinimal(t, buf, pos, x.0, x.1);
      TotalSizeLast(vs, x.0);
      CopiesMinimal(t, n, vs + [x.0], buf, x.1, all, end);
      CopiesUnique(t, n, vs + [x.0], buf, x.1, all, end);
      assert all[..|vs|] == all[..|vs| + 1][..|vs|] == vs && all[|vs|] == x.0;
      ShortestIsUnique(t, buf, pos, x.0, x.1);
      AtJoin(buf, pos, Encode(x.0), EncodeFrom(all, |vs| + 1));
    }
  }

  // Vectors of bools and of one-byte integers take any bytes, as many as their size says.
  lemma BulkRead(e: Type, buf: Bytes, pos: nat, c: (nat, nat))
    requires e.BoolT? || (e.IntT? && e.width == 1)
    requires pos <= |buf| && DecodeCompact(buf, pos) == Ok(c) && c.1 + SizeT(c.0) <= |buf|
    ensures var n := SizeT(c.0);
            var r := Decode(VectorT(e), buf, pos);
            && r.Ok? && r.value.1 == c.1 + n && r.value.0.Vector? && |r.value.0.items| == n
            && forall i :: 0 <= i < n ==> r.value.0.items[i] == FromRaw(e, buf[c.1 + i])
  {
    hide DecodeCompact, SizeT, FromRaw;
  }

  // Bytes read in bulk: any but 0 is true; as integers they are two's complement.
  lemma RawFormat(b: Byte)
    ensures FromRaw(BoolT, b) == Bool(b != 0) && FromRaw(IntT(false, 1), b) == Int(1, b)
    ensures FromRaw(IntT(true, 1), b) == Int(1, if b < 128 then b else b - 256)
  {
    hide Interpret;
    InterpretIsTwosComplement(true, 1, b);
    InterpretIsTwosComplement(false, 1, b);
  }
}
