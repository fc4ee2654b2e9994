/** Decoding undoes encoding, whatever surrounds the bytes. */
module ScaleTheorems {
  import opened Words
  import opened ScaleIntegers
  import opened ScaleCodec

  // The bytes of v lie at pos, and reading there gives v and ends behind them.
  ghost predicate ReadsBack(v: Value, t: Type, buf: Bytes, pos: nat)
    requires Encodable(v)
  {
    pos <= |buf| && Decode(t, buf, pos) == Ok((v, pos + |Encode(v)|))
  }

  lemma AtBoth(buf: Bytes, pos: nat, a: Bytes, b: Bytes)
    requires At(buf, pos, a + b)
    ensures At(buf, pos, a) && At(buf, pos + |a|, b)
  {
    assert At(a + b, 0, a) && At(a + b, |a|, b);
    AtPart(buf, pos, a + b, 0, a);
    AtPart(buf, pos, a + b, |a|, b);
  }

  // ---------- values without parts ----------

  lemma IntAt(signed: bool, w: Width, n: int, buf: Bytes, pos: nat)
    requires InRange(signed, w, n) && At(buf, pos, Little(AsUnsigned(w, n), w))
    ensures DecodeInt(signed, w, buf, pos) == Ok((Int(w, n), pos + w))
  {
    hide Little, FromLittle, Interpret, AsUnsigned;
    FullIsPower(w);
    AtFits(buf, pos, Little(AsUnsigned(w, n), w));
    LittleRoundTrip(AsUnsigned(w, n), w, buf, pos);
    InterpretUndoesTruncation(signed, w, n);
  }

  lemma WordAt(n: U256, buf: Bytes, pos: nat)
    requires At(buf, pos, Word(n))
    ensures pos + 32 <= |buf| && FromWord(buf[pos..pos + 32]) == n
  {
    hide Word, FromWord;
    AtFits(buf, pos, Word(n));
    AtSlice(buf, pos, Word(n));
    WordRoundTrip(n);
  }

  lemma StringAt(data: Bytes, buf: Bytes, pos: nat)
    requires CompactOk(|data|) && SizeT(|data|) == |data| && At(buf, pos, EncodeCompact(|data|) + data)
    ensures ReadsBack(Str(data), StringT, buf, pos)
  {
    hide EncodeCompact, DecodeCompact, CompactOk;
    AtBoth(buf, pos, EncodeCompact(|data|), data);
    CompactAt(|data|, buf, pos);
    AtSlice(buf, pos + |EncodeCompact(|data|)|, data);
  }

  lemma ScalarAt(v: Value, t: Type, buf: Bytes, pos: nat)
    requires HasType(v, t) && Encodable(v) && At(buf, pos, Encode(v))
    requires t.BoolT? || t.IntT? || t.CompactT? || t.U256T? || t.S256T? || t.StringT?
    ensures ReadsBack(v, t, buf, pos)
  {
    hide EncodeCompact, DecodeCompact, Little, Word, FromWord, DecodeInt, At, U2s, S2u, InRange;
    AtFits(buf, pos, Encode(v));
    match t
    case BoolT => OneByteAt(buf, pos, Encode(v)[0]);
    case IntT(signed, w) => IntAt(signed, w, v.n, buf, pos);
    case CompactT => CompactAt(v.n, buf, pos);
    case U256T => WordAt(v.u, buf, pos);
    case S256T => WordAt(S2u(v.i), buf, pos);
    case StringT => StringAt(v.data, buf, pos);
  }

  // ---------- bulk reads ----------

  // Elements of one byte are that byte each.
  lemma {:induction false} RawEncoding(vs: seq<Value>, t: Type, k: nat)
    requires OneByte(t) && AllHaveType(vs, t) && AllEncodable(vs) && k <= |vs|
    ensures |EncodeFrom(vs, k)| == |vs| - k
    ensures forall i :: k <= i < |vs| ==> FromRaw(t, EncodeFrom(vs, k)[i - k]) == vs[i]
    decreases |vs| - k
  {
    hide Interpret, AsUnsigned, Little, FromRaw;
    if k < |vs| {
      RawEncoding(vs, t, k + 1);
      RawByte(vs[k], t);
    }
  }

  lemma RawByte(v: Value, t: Type)
    requires OneByte(t) && HasType(v, t) && Encodable(v)
    ensures |Encode(v)| == 1 && FromRaw(t, Encode(v)[0]) == v
  {
    hide Interpret, AsUnsigned, InRange;
    if t.IntT? {
      InterpretUndoesTruncation(t.signed, 1, v.n);
      OneDigit(AsUnsigned(1, v.n));
    }
  }

  lemma OneDigit(n: nat)
    requires n < Full(1)
    ensures Little(n, 1) == [n]
  {
  }

  lemma RawAt(vs: seq<Value>, t: Type, buf: Bytes, pos: nat)
    requires OneByte(t) && AllHaveType(vs, t) && AllEncodable(vs) && At(buf, pos, EncodeFrom(vs, 0))
    ensures |EncodeFrom(vs, 0)| == |vs| && pos + |vs| <= |buf| && RawItems(t, buf, pos, |vs|) == vs
  {
    hide FromRaw, AllHaveType, AllEncodable, EncodeFrom;
    RawEncoding(vs, t, 0);
    var b := EncodeFrom(vs, 0);
    forall i | 0 <= i < |vs| ensures RawItems(t, buf, pos, |vs|)[i] == vs[i] {
      assert FromRaw(t, b[i - 0]) == vs[i];
    }
  }

  // ---------- maps ----------

  // A key above all others goes to the end.
  lemma {:induction false} EmplaceLast(entries: seq<Value>, entry: Value)
    requires forall i :: 0 <= i < |entries| ==> Less(Key(entries[i]), Key(entry))
    ensures Emplace(entries, entry) == entries + [entry]
  {
    hide Less, Key;
    if entries == [] {
    } else {
      EmplaceLast(entries[1..], entry);
      assert [entries[0]] + (entries[1..] + [entry]) == entries + [entry];
    }
  }

  // ---------- the round trip ----------

  lemma {:induction false} DecodeAt(v: Value, t: Type, buf: Bytes, pos: nat)
    requires HasType(v, t) && Encodable(v) && At(buf, pos, Encode(v))
    ensures ReadsBack(v, t, buf, pos)
    decreases v, 1
  {
    hide ReadsBack, At;
    match t
    case TupleT(ts) => TupleAt(v, ts, buf, pos);
    case ArrayT(e, _) => ArrayAt(v, t, buf, pos);
    case VectorT(e) => VectorAt(v, e, buf, pos);
    case MapT(e) => MapAt(v, e, buf, pos);
    case OptionT(e) => OptionAt(v, e, buf, pos);
    case VariantT(ts) => VariantAt(v, ts, buf, pos);
    case _ => ScalarAt(v, t, buf, pos);
  }

  lemma {:induction false} TupleAt(v: Value, ts: seq<Type>, buf: Bytes, pos: nat)
    requires HasType(v, TupleT(ts)) && Encodable(v) && At(buf, pos, Encode(v))
    ensures ReadsBack(v, TupleT(ts), buf, pos)
    decreases v, 0
  {
    hide At;
    AtFits(buf, pos, Encode(v));
    assert v.items[..0] == [];
    MembersAt(v.items, ts, 0, buf, pos);
  }

  lemma {:induction false} MembersAt(vs: seq<Value>, ts: seq<Type>, k: nat, buf: Bytes, pos: nat)
    requires k <= |vs| == |ts| && (forall i :: 0 <= i < |ts| ==> HasType(vs[i], ts[i]))
    requires AllEncodable(vs) && At(buf, pos, EncodeFrom(vs, k))
    ensures pos <= |buf| && DecodeMembers(ts, vs[..k], buf, pos) == Ok((vs, pos + |EncodeFrom(vs, k)|))
    decreases vs, |vs| - k
  {
    hide At, Encode, Decode, HasType, Encodable;
    AtFits(buf, pos, EncodeFrom(vs, k));
    if k < |vs| {
      AtBoth(buf, pos, Encode(vs[k]), EncodeFrom(vs, k + 1));
      DecodeAt(vs[k], ts[k], buf, pos);
      MembersAt(vs, ts, k + 1, buf, pos + |Encode(vs[k])|);
      assert vs[..k] + [vs[k]] == vs[..k + 1];
    } else {
      assert vs[..k] == vs;
    }
  }

  lemma {:induction false} CopiesAt(vs: seq<Value>, t: Type, k: nat, buf: Bytes, pos: nat)
    requires k <= |vs| && AllHaveType(vs, t) && AllEncodable(vs) && At(buf, pos, EncodeFrom(vs, k))
    ensures pos <= |buf| && DecodeCopies(t, |vs|, vs[..k], buf, pos) == Ok((vs, pos + |EncodeFrom(vs, k)|))
    decreases vs, |vs| - k
  {
    hide At, Encode, Decode, HasType, Encodable;
    AtFits(buf, pos, EncodeFrom(vs, k));
    if k < |vs| {
      AtBoth(buf, pos, Encode(vs[k]), EncodeFrom(vs, k + 1));
      DecodeAt(vs[k], t, buf, pos);
      CopiesAt(vs, t, k + 1, buf, pos + |Encode(vs[k])|);
      assert vs[..k] + [vs[k]] == vs[..k + 1];
    } else {
      assert vs[..k] == vs;
    }
  }

  lemma {:induction false} EntriesAt(vs: seq<Value>, t: Type, k: nat, buf: Bytes, pos: nat)
    requires k <= |vs| && AllHaveType(vs, t) && AllEncodable(vs) && Sorted(vs) && At(buf, pos, EncodeFrom(vs, k))
    ensures pos <= |buf| && DecodeEntries(t, |vs| - k, vs[..k], buf, pos) == Ok((vs, pos + |EncodeFrom(vs, k)|))
    decreases vs, |vs| - k
  {
    hide At, Encode, Decode, HasType, Encodable, Less, Key, Emplace;
    AtFits(buf, pos, EncodeFrom(vs, k));
    if k < |vs| {
      AtBoth(buf, pos, Encode(vs[k]), EncodeFrom(vs, k + 1));
      DecodeAt(vs[k], t, buf, pos);
      EmplaceLast(vs[..k], vs[k]);
      EntriesAt(vs, t, k + 1, buf, pos + |Encode(vs[k])|);
      assert vs[..k] + [vs[k]] == vs[..k + 1];
    } else {
      assert vs[..k] == vs;
    }
  }

  lemma {:induction false} ArrayAt(v: Value, t: Type, buf: Bytes, pos: nat)
    requires t.ArrayT? && HasType(v, t) && Encodable(v) && At(buf, pos, Encode(v))
    ensures ReadsBack(v, t, buf, pos)
    decreases v, 0
  {
    hide At;
    AtFits(buf, pos, Encode(v));
    assert v.items[..0] == [];
    CopiesAt(v.items, t.element, 0, buf, pos);
  }

  lemma {:induction false} VectorAt(v: Value, e: Type, buf: Bytes, pos: nat)
    requires HasType(v, VectorT(e)) && Encodable(v) && At(buf, pos, Encode(v))
    ensures ReadsBack(v, VectorT(e), buf, pos)
    decreases v, 0
  {
    hide At, EncodeCompact, DecodeCompact, CompactOk, SizeT, EncodeFrom, DecodeCopies, AllHaveType, AllEncodable;
    var vs, size := v.items, EncodeCompact(|v.items|);
    AtFits(buf, pos, Encode(v));
    AtBoth(buf, pos, size, EncodeFrom(vs, 0));
    CompactAt(|vs|, buf, pos);
    if OneByte(e) {
      RawAt(vs, e, buf, pos + |size|);
    } else {
      assert vs[..0] == [];
      CopiesAt(vs, e, 0, buf, pos + |size|);
    }
  }

  lemma {:induction false} MapAt(v: Value, e: Type, buf: Bytes, pos: nat)
    requires HasType(v, MapT(e)) && Encodable(v) && At(buf, pos, Encode(v))
    ensures ReadsBack(v, MapT(e), buf, pos)
    decreases v, 0
  {
    hide At, EncodeCompact, DecodeCompact, CompactOk, SizeT, EncodeFrom, DecodeEntries, AllHaveType, AllEncodable, Sorted;
    var vs, size := v.items, EncodeCompact(|v.items|);
    AtFits(buf, pos, Encode(v));
    AtBoth(buf, pos, size, EncodeFrom(vs, 0));
    CompactAt(|vs|, buf, pos);
    assert vs[..0] == [];
    EntriesAt(vs, e, 0, buf, pos + |size|);
  }

  lemma {:induction false} OptionAt(v: Value, e: Type, buf: Bytes, pos: nat)
    requires HasType(v, OptionT(e)) && Encodable(v) && At(buf, pos, Encode(v))
    ensures ReadsBack(v, OptionT(e), buf, pos)
    decreases v, 0
  {
    hide At, DecodeMembers, DecodeCopies, DecodeEntries, DecodeCompact, EncodeFrom, AllEncodable, AllHaveType, DecodeInt;
    if v.Absent? || v.item.Bool? {
      OneByteOptionAt(v, e, buf, pos);
    } else {
      AtFits(buf, pos, Encode(v));
      AtBoth(buf, pos, [1], Encode(v.item));
      OneByteAt(buf, pos, 1);
      DecodeAt(v.item, e, buf, pos + 1);
    }
  }

  // Nothing, and the optional bools, take one byte.
  lemma OneByteOptionAt(v: Value, e: Type, buf: Bytes, pos: nat)
    requires HasType(v, OptionT(e)) && Encodable(v) && At(buf, pos, Encode(v)) && (v.Absent? || v.item.Bool?)
    ensures ReadsBack(v, OptionT(e), buf, pos)
  {
    hide At, DecodeMembers, DecodeCopies, DecodeEntries, DecodeCompact, EncodeFrom, AllEncodable, AllHaveType, DecodeInt;
    AtFits(buf, pos, Encode(v));
    OneByteAt(buf, pos, Encode(v)[0]);
  }

  lemma {:induction false} FirstIsOwn(ts: seq<Type>, i: nat, k: nat)
    requires Distinct(ts) && k <= i < |ts|
    ensures ts[i] in ts[k..] && IndexOf(ts, ts[i], k) == i
    decreases i - k
  {
    assert ts[k..][i - k] == ts[i];
    if k < i {
      FirstIsOwn(ts, i, k + 1);
    }
  }

  lemma {:induction false} VariantAt(v: Value, ts: seq<Type>, buf: Bytes, pos: nat)
    requires HasType(v, VariantT(ts)) && Encodable(v) && At(buf, pos, Encode(v))
    ensures ReadsBack(v, VariantT(ts), buf, pos)
    decreases v, 0
  {
    hide At, IndexOf;
    FirstIsOwn(ts, v.which, 0);
    AtFits(buf, pos, Encode(v));
    AtBoth(buf, pos, [v.which], Encode(v.item));
    OneByteAt(buf, pos, v.which);
    DecodeAt(v.item, ts[v.which], buf, pos + 1);
  }

  // Decoding a value's bytes gives the value and stops right behind them, whatever surrounds them.
  lemma RoundTrip(v: Value, t: Type, before: Bytes, after: Bytes)
    requires HasType(v, t) && Encodable(v)
    ensures Decode(t, before + Encode(v) + after, |before|) == Ok((v, |before| + |Encode(v)|))
  {
    hide Encode, Decode, HasType, Encodable;
    var buf := before + Encode(v) + after;
    assert At(buf, |before|, Encode(v));
    DecodeAt(v, t, buf, |before|);
  }

  // No value's bytes begin with those of another value of its type.
  lemma PrefixFree(v: Value, w: Value, t: Type, rest: Bytes)
    requires HasType(v, t) && Encodable(v) && HasType(w, t) && Encodable(w)
    requires Encode(w) == Encode(v) + rest
    ensures v == w && rest == []
  {
    hide Encode, Decode, HasType, Encodable;
    RoundTrip(v, t, [], rest);
    RoundTrip(w, t, [], []);
    assert [] + Encode(v) + rest == Encode(w) == [] + Encode(w) + [];
  }
}
