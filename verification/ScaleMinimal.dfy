/** The encoder's bytes are the shortest that decode to a value. */
module ScaleMinimal {
  import opened Words
  import opened ScaleIntegers
  import opened ScaleCodec

  // Whatever bytes decode to v, the encoder's are no longer.
  ghost predicate NoLonger(v: Value, size: int) {
    Encodable(v) && |Encode(v)| <= size
  }

  // The size in front of a collection, cut down to 64 bits.
  lemma CountIsMinimal(buf: Bytes, pos: nat, c: (nat, nat), m: nat)
    requires DecodeCompact(buf, pos) == Ok(c) && m <= SizeT(c.0)
    ensures CompactOk(m) && |EncodeCompact(m)| <= c.1 - pos
  {
    hide DecodeCompact, EncodeCompact, CompactOk;
    CompactIsMinimal(buf, pos, c.0, c.1);
    SizeTSmaller(c.0);
    SmallerCount(m, c.0);
  }

  // The bytes of a list, however its elements are arranged.
  function TotalSize(vs: seq<Value>): nat
    requires AllEncodable(vs)
  {
    if vs == [] then 0 else |Encode(vs[0])| + TotalSize(vs[1..])
  }

  lemma {:induction false} EncodeFromSize(vs: seq<Value>, k: nat)
    requires AllEncodable(vs) && k <= |vs|
    ensures |EncodeFrom(vs, k)| == TotalSize(vs[k..])
    decreases |vs| - k
  {
    hide Encode, Encodable;
    if k < |vs| {
      EncodeFromSize(vs, k + 1);
      assert vs[k..][1..] == vs[k + 1..];
    }
  }

  lemma {:induction false} TotalSizeLast(vs: seq<Value>, v: Value)
    requires AllEncodable(vs) && Encodable(v)
    ensures AllEncodable(vs + [v]) && TotalSize(vs + [v]) == TotalSize(vs) + |Encode(v)|
  {
    hide Encode, Encodable;
    if vs == [] {
      assert [v][1..] == [];
    } else {
      TotalSizeLast(vs[1..], v);
      assert (vs + [v])[1..] == vs[1..] + [v];
    }
  }

  // An entry adds at most itself.
  lemma {:induction false} EmplaceSize(entries: seq<Value>, entry: Value)
    requires AllEncodable(entries) && Encodable(entry)
    ensures var after := Emplace(entries, entry);
            && AllEncodable(after) && |after| <= |entries| + 1
            && TotalSize(after) <= TotalSize(entries) + |Encode(entry)|
  {
    hide Encode, Encodable, Less, Key;
    var after := Emplace(entries, entry);
    if entries == [] {
      TotalSizeLast([], entry);
      assert [] + [entry] == [entry];
    } else if Less(Key(entries[0]), Key(entry)) {
      EmplaceSize(entries[1..], entry);
      assert after[1..] == Emplace(entries[1..], entry);
    } else {
      assert ([entry] + entries)[1..] == entries;
    }
  }

  // No shorter byte string decodes to v than what the encoder writes for it.
  lemma {:induction false} EncodingIsMinimal(t: Type, buf: Bytes, pos: nat, v: Value, end: nat)
    requires pos <= |buf| && Decode(t, buf, pos) == Ok((v, end))
    ensures NoLonger(v, end - pos)
    decreases t, 3
  {
    hide NoLonger, Decode;
    match t
    case VectorT(_) => VectorMinimal(t, buf, pos, v, end);
    case MapT(_) => MapMinimal(t, buf, pos, v, end);
    case OptionT(_) => OptionMinimal(t, buf, pos, v, end);
    case TupleT(_) => TupleMinimal(t, buf, pos, v, end);
    case ArrayT(_, _) => TupleMinimal(t, buf, pos, v, end);
    case VariantT(_) => VariantMinimal(t, buf, pos, v, end);
    case _ => ScalarMinimal(t, buf, pos, v, end);
  }

  lemma ScalarMinimal(t: Type, buf: Bytes, pos: nat, v: Value, end: nat)
    requires pos <= |buf| && Decode(t, buf, pos) == Ok((v, end))
    requires t.BoolT? || t.IntT? || t.CompactT? || t.U256T? || t.S256T? || t.StringT?
    ensures NoLonger(v, end - pos)
  {
    hide DecodeCompact, EncodeCompact, CompactOk, Little, FromLittle, Word, FromWord, SizeT;
    if t.CompactT? {
      CompactIsMinimal(buf, pos, v.n, end);
    } else if t.StringT? {
      CountIsMinimal(buf, pos, DecodeCompact(buf, pos).value, |v.data|);
    }
  }

  lemma {:induction false} TupleMinimal(t: Type, buf: Bytes, pos: nat, v: Value, end: nat)
    requires pos <= |buf| && Decode(t, buf, pos) == Ok((v, end)) && (t.TupleT? || t.ArrayT?)
    ensures NoLonger(v, end - pos)
    decreases t, 2
  {
    hide DecodeMembers, DecodeCopies, EncodeFrom;
    if t.TupleT? {
      MembersMinimal(t.members, [], buf, pos, v.items, end);
    } else {
      CopiesMinimal(t.element, t.size, [], buf, pos, v.items, end);
    }
    EncodeFromSize(v.items, 0);
    assert v.items[0..] == v.items;
  }

  lemma {:induction false} VectorMinimal(t: Type, buf: Bytes, pos: nat, v: Value, end: nat)
    requires pos <= |buf| && Decode(t, buf, pos) == Ok((v, end)) && t.VectorT?
    ensures NoLonger(v, end - pos)
    decreases t, 2
  {
    hide DecodeCompact, EncodeCompact, CompactOk, DecodeCopies, EncodeFrom, SizeT, AllEncodable, TotalSize, FromRaw;
    var c := DecodeCompact(buf, pos).value;
    CountIsMinimal(buf, pos, c, SizeT(c.0));
    if OneByte(t.element) {
      RawSize(v.items, t.element, buf, c.1);
    } else {
      NothingYet();
      CopiesMinimal(t.element, SizeT(c.0), [], buf, c.1, v.items, end);
    }
    EncodeFromSize(v.items, 0);
    assert v.items[0..] == v.items;
  }

  lemma NothingYet()
    ensures AllEncodable([]) && TotalSize([]) == 0
  {
  }

  lemma {:induction false} MapMinimal(t: Type, buf: Bytes, pos: nat, v: Value, end: nat)
    requires pos <= |buf| && Decode(t, buf, pos) == Ok((v, end)) && t.MapT?
    ensures NoLonger(v, end - pos)
    decreases t, 2
  {
    hide DecodeCompact, EncodeCompact, CompactOk, DecodeEntries, EncodeFrom, SizeT, AllEncodable, TotalSize;
    var c := DecodeCompact(buf, pos).value;
    NothingYet();
    EntriesMinimal(t.entry, SizeT(c.0), [], buf, c.1, v.items, end);
    CountIsMinimal(buf, pos, c, |v.items|);
    EncodeFromSize(v.items, 0);
    assert v.items[0..] == v.items;
  }

  lemma {:induction false} OptionMinimal(t: Type, buf: Bytes, pos: nat, v: Value, end: nat)
    requires pos <= |buf| && Decode(t, buf, pos) == Ok((v, end)) && t.OptionT?
    ensures NoLonger(v, end - pos)
    decreases t, 2
  {
    if v.Present? && !t.element.BoolT? {
      EncodingIsMinimal(t.element, buf, pos + 1, v.item, end);
    }
  }

  lemma {:induction false} VariantMinimal(t: Type, buf: Bytes, pos: nat, v: Value, end: nat)
    requires pos <= |buf| && Decode(t, buf, pos) == Ok((v, end)) && t.VariantT?
    ensures NoLonger(v, end - pos)
    decreases t, 2
  {
    hide IndexOf;
    EncodingIsMinimal(t.alternatives[v.which], buf, pos + 1, v.item, end);
  }

  // Elements read in bulk are one byte each again.
  lemma {:induction false} RawSize(vs: seq<Value>, t: Type, buf: Bytes, pos: nat)
    requires OneByte(t) && pos + |vs| <= |buf| && (forall i :: 0 <= i < |vs| ==> vs[i] == FromRaw(t, buf[pos + i]))
    ensures AllEncodable(vs) && TotalSize(vs) == |vs|
    decreases vs
  {
    hide Interpret, AsUnsigned, Little;
    if vs == [] {
    } else {
      RawSize(vs[1..], t, buf, pos + 1);
    }
  }

  lemma {:induction false} MembersMinimal(ts: seq<Type>, vs: seq<Value>, buf: Bytes, pos: nat, all: seq<Value>, end: nat)
    requires pos <= |buf| && AllEncodable(vs) && DecodeMembers(ts, vs, buf, pos) == Ok((all, end))
    ensures AllEncodable(all) && TotalSize(all) <= TotalSize(vs) + end - pos
    decreases ts, 4, |ts| - |vs|
  {
    hide Encode, Encodable, Decode;
    if |vs| < |ts| {
      var x := Decode(ts[|vs|], buf, pos).value;
      EncodingIsMinimal(ts[|vs|], buf, pos, x.0, x.1);
      TotalSizeLast(vs, x.0);
      MembersMinimal(ts, vs + [x.0], buf, x.1, all, end);
    }
  }

  lemma {:induction false} CopiesMinimal(t: Type, n: nat, vs: seq<Value>, buf: Bytes, pos: nat, all: seq<Value>, end: nat)
    requires pos <= |buf| && AllEncodable(vs) && |vs| <= n && DecodeCopies(t, n, vs, buf, pos) == Ok((all, end))
    ensures AllEncodable(all) && TotalSize(all) <= TotalSize(vs) + end - pos && |all| == n
    decreases t, 4, n - |vs|
  {
    hide Encode, Encodable, Decode;
    if |vs| < n {
      var x := Decode(t, buf, pos).value;
      EncodingIsMinimal(t, buf, pos, x.0, x.1);
      TotalSizeLast(vs, x.0);
      CopiesMinimal(t, n, vs + [x.0], buf, x.1, all, end);
    }
  }

  lemma {:induction false} EntriesMinimal(t: Type, n: nat, vs: seq<Value>, buf: Bytes, pos: nat, all: seq<Value>, end: nat)
    requires pos <= |buf| && AllEncodable(vs) && DecodeEntries(t, n, vs, buf, pos) == Ok((all, end))
    ensures AllEncodable(all) && TotalSize(all) <= TotalSize(vs) + end - pos && |all| <= |vs| + n
    decreases t, 4, n
  {
    hide Encode, Encodable, Decode, Emplace;
    if n == 0 {
    } else {
      var x := Decode(t, buf, pos).value;
      EncodingIsMinimal(t, buf, pos, x.0, x.1);
      EmplaceSize(vs, x.0);
      EntriesMinimal(t, n - 1, Emplace(vs, x.0), buf, x.1, all, end);
    }
  }
}
