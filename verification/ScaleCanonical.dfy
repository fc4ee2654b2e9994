/** Which values the SCALE decoder yields, and what encoding them again gives. */
module ScaleCanonical {
  import opened Words
  import opened ScaleIntegers
  import opened ScaleCodec
  import opened ScaleTheorems
  import opened ScaleMinimal

  // Types the templates accept: a variant has at most 256 alternatives, no two of them the same.
  ghost predicate WellFormed(t: Type) {
    match t
    case TupleT(ts) => forall k :: 0 <= k < |ts| ==> WellFormed(ts[k])
    case ArrayT(e, _) => WellFormed(e)
    case VectorT(e) => WellFormed(e)
    case MapT(e) => WellFormed(e)
    case OptionT(e) => WellFormed(e)
    case VariantT(ts) => |ts| <= 256 && Distinct(ts) && forall k :: 0 <= k < |ts| ==> WellFormed(ts[k])
    case _ => true
  }

  // ---------- the order of the keys ----------

  lemma {:induction false} LessTransitive(a: Value, b: Value, c: Value)
    requires Less(a, b) && Less(b, c)
    ensures Less(a, c)
    decreases a
  {
    hide LessFrom, LessBytes;
    match a
    case Str(data) => LessBytesTransitive(data, b.data, c.data);
    case Tuple(vs) => LessFromTransitive(vs, b.items, c.items, 0);
    case Vector(vs) => LessFromTransitive(vs, b.items, c.items, 0);
    case Map(vs) => LessFromTransitive(vs, b.items, c.items, 0);
    case Present(x) => LessTransitive(x, b.item, c.item);
    case Variant(_, i, x) =>
      if i == b.which == c.which {
        LessTransitive(x, b.item, c.item);
      }
    case _ =>
  }

  lemma {:induction false} LessFromTransitive(a: seq<Value>, b: seq<Value>, c: seq<Value>, k: nat)
    requires LessFrom(a, b, k) && LessFrom(b, c, k)
    ensures LessFrom(a, c, k)
    decreases a, |a| - k
  {
    hide Less;
    if k < |a| {
      if Less(a[k], b[k]) && Less(b[k], c[k]) {
        LessTransitive(a[k], b[k], c[k]);
      } else if !Less(a[k], b[k]) && !Less(b[k], c[k]) {
        LessFromTransitive(a, b, c, k + 1);
      }
    }
  }

  lemma {:induction false} LessBytesTransitive(a: Bytes, b: Bytes, c: Bytes)
    requires LessBytes(a, b) && LessBytes(b, c)
    ensures LessBytes(a, c)
  {
    if a != [] && a[0] == b[0] == c[0] {
      LessBytesTransitive(a[1..], b[1..], c[1..]);
    }
  }

  // Emplacing keeps a map a map, and brings in nothing but the entry.
  lemma {:induction false} EmplaceSorted(entries: seq<Value>, entry: Value)
    requires Sorted(entries)
    ensures Sorted(Emplace(entries, entry))
    ensures forall x :: x in Emplace(entries, entry) ==> x == entry || x in entries
  {
    hide Less, Key;
    var after := Emplace(entries, entry);
    if entries == [] {
    } else if Less(Key(entries[0]), Key(entry)) {
      var rest := Emplace(entries[1..], entry);
      EmplaceSorted(entries[1..], entry);
      forall j | 0 <= j < |rest| ensures Less(Key(entries[0]), Key(rest[j])) {
        assert rest[j] in rest;
        if rest[j] != entry {
          var i :| 0 <= i < |entries[1..]| && entries[1..][i] == rest[j];
        }
      }
      SortedCons(entries[0], rest);
    } else if Less(Key(entry), Key(entries[0])) {
      forall j | 0 <= j < |entries| ensures Less(Key(entry), Key(entries[j])) {
        if j > 0 {
          LessTransitive(Key(entry), Key(entries[0]), Key(entries[j]));
        }
      }
      SortedCons(entry, entries);
    }
  }

  lemma SortedCons(x: Value, rest: seq<Value>)
    requires Sorted(rest) && forall j :: 0 <= j < |rest| ==> Less(Key(x), Key(rest[j]))
    ensures Sorted([x] + rest)
  {
    hide Less, Key;
    var all := [x] + rest;
    forall i, j | 0 <= i < j < |all| ensures Less(Key(all[i]), Key(all[j])) {
      assert all[j] == rest[j - 1];
      assert i > 0 ==> all[i] == rest[i - 1];
    }
  }

  // ---------- what decoding yields ----------

  lemma {:induction false} DecodedHasType(t: Type, buf: Bytes, pos: nat, v: Value, end: nat)
    requires WellFormed(t) && pos <= |buf| && Decode(t, buf, pos) == Ok((v, end))
    ensures HasType(v, t)
    decreases t, 2
  {
    match t
    case TupleT(ts) => MembersHaveType(ts, [], buf, pos, v.items, end);
    case ArrayT(e, size) => CopiesHaveType(e, size, [], buf, pos, v.items, end);
    case VectorT(_) => VectorHasType(t, buf, pos, v, end);
    case MapT(e) => MapHasType(t, buf, pos, v, end);
    case OptionT(e) =>
      if v.Present? && !e.BoolT? {
        DecodedHasType(e, buf, pos + 1, v.item, end);
      }
    case VariantT(ts) =>
      DecodedHasType(ts[v.which], buf, pos + 1, v.item, end);
    case _ => ScalarHasType(t, buf, pos, v, end);
  }

  lemma ScalarHasType(t: Type, buf: Bytes, pos: nat, v: Value, end: nat)
    requires pos <= |buf| && Decode(t, buf, pos) == Ok((v, end))
    requires t.BoolT? || t.IntT? || t.CompactT? || t.U256T? || t.S256T? || t.StringT?
    ensures HasType(v, t)
  {
    hide DecodeCompact, FromLittle, FromWord, Interpret;
    if t.IntT? {
      FullIsPower(t.width);
      FromLittleBound(buf, pos, t.width);
      InterpretInRange(t.signed, t.width, FromLittle(buf, pos, t.width));
    }
  }

  lemma InterpretInRange(signed: bool, w: Width, v: nat)
    requires v < Full(w)
    ensures InRange(signed, w, Interpret(signed, w, v))
  {
    hide Interpret;
    InterpretIsTwosComplement(signed, w, v);
  }

  lemma {:induction false} VectorHasType(t: Type, buf: Bytes, pos: nat, v: Value, end: nat)
    requires WellFormed(t) && pos <= |buf| && Decode(t, buf, pos) == Ok((v, end)) && t.VectorT?
    ensures HasType(v, t)
    decreases t, 1
  {
    hide DecodeCompact, DecodeCopies, Interpret, InRange;
    var c := DecodeCompact(buf, pos).value;
    if OneByte(t.element) {
      forall k | 0 <= k < |v.items| ensures HasType(v.items[k], t.element) {
        assert v.items[k] == FromRaw(t.element, buf[c.1 + k]);
        if t.element.IntT? {
          InterpretInRange(t.element.signed, 1, buf[c.1 + k]);
        }
      }
    } else {
      CopiesHaveType(t.element, SizeT(c.0), [], buf, c.1, v.items, end);
    }
  }

  lemma {:induction false} MapHasType(t: Type, buf: Bytes, pos: nat, v: Value, end: nat)
    requires WellFormed(t) && pos <= |buf| && Decode(t, buf, pos) == Ok((v, end)) && t.MapT?
    ensures HasType(v, t)
    decreases t, 1
  {
    hide DecodeCompact, DecodeEntries;
    var c := DecodeCompact(buf, pos).value;
    EntriesHaveType(t.entry, SizeT(c.0), [], buf, c.1, v.items, end);
  }

  lemma {:induction false} MembersHaveType(ts: seq<Type>, vs: seq<Value>, buf: Bytes, pos: nat, all: seq<Value>, end: nat)
    requires |vs| <= |ts| && (forall k :: 0 <= k < |ts| ==> WellFormed(ts[k]))
    requires forall k :: 0 <= k < |vs| ==> HasType(vs[k], ts[k])
    requires pos <= |buf| && DecodeMembers(ts, vs, buf, pos) == Ok((all, end))
    ensures |all| == |ts| && forall k :: 0 <= k < |ts| ==> HasType(all[k], ts[k])
    decreases ts, 0, |ts| - |vs|
  {
    hide HasType, Decode, WellFormed;
    if |vs| < |ts| {
      var x := Decode(ts[|vs|], buf, pos).value;
      DecodedHasType(ts[|vs|], buf, pos, x.0, x.1);
      MembersHaveType(ts, vs + [x.0], buf, x.1, all, end);
    }
  }

  lemma {:induction false} CopiesHaveType(t: Type, n: nat, vs: seq<Value>, buf: Bytes, pos: nat, all: seq<Value>, end: nat)
    requires WellFormed(t) && |vs| <= n && AllHaveType(vs, t)
    requires pos <= |buf| && DecodeCopies(t, n, vs, buf, pos) == Ok((all, end))
    ensures |all| == n && AllHaveType(all, t)
    decreases t, 3, n - |vs|
  {
    hide HasType, Decode, WellFormed;
    if |vs| < n {
      var x := Decode(t, buf, pos).value;
      DecodedHasType(t, buf, pos, x.0, x.1);
      CopiesHaveType(t, n, vs + [x.0], buf, x.1, all, end);
    }
  }

  lemma {:induction false} EntriesHaveType(t: Type, n: nat, vs: seq<Value>, buf: Bytes, pos: nat, all: seq<Value>, end: nat)
    requires WellFormed(t) && AllHaveType(vs, t) && Sorted(vs)
    requires pos <= |buf| && DecodeEntries(t, n, vs, buf, pos) == Ok((all, end))
    ensures |all| <= |vs| + n && AllHaveType(all, t) && Sorted(all)
    decreases t, 3, n
  {
    hide HasType, Decode, WellFormed, Emplace, Sorted;
    if n == 0 {
    } else {
      var x := Decode(t, buf, pos).value;
      DecodedHasType(t, buf, pos, x.0, x.1);
      EmplaceSorted(vs, x.0);
      forall k | 0 <= k < |Emplace(vs, x.0)| ensures HasType(Emplace(vs, x.0)[k], t) {
        assert Emplace(vs, x.0)[k] in Emplace(vs, x.0);
      }
      EmplaceLength(vs, x.0);
      EntriesHaveType(t, n - 1, Emplace(vs, x.0), buf, x.1, all, end);
    }
  }

  lemma {:induction false} EmplaceLength(entries: seq<Value>, entry: Value)
    ensures |Emplace(entries, entry)| <= |entries| + 1
  {
    hide Less, Key;
    if entries == [] {
    } else {
      EmplaceLength(entries[1..], entry);
    }
  }

  // The values decoding can yield are exactly those of the type that can be encoded.
  lemma DecodableIffEncodable(v: Value, t: Type)
    requires WellFormed(t)
    ensures (exists buf, pos: nat, end: nat :: pos <= |buf| && Decode(t, buf, pos) == Ok((v, end)))
            <==> HasType(v, t) && Encodable(v)
  {
    hide Decode, HasType, Encodable, Encode, WellFormed;
    if HasType(v, t) && Encodable(v) {
      RoundTrip(v, t, [], []);
    }
    if buf, pos: nat, end: nat :| pos <= |buf| && Decode(t, buf, pos) == Ok((v, end)) {
      DecodedHasType(t, buf, pos, v, end);
      EncodingIsMinimal(t, buf, pos, v, end);
    }
  }

  // Encoding again what was decoded gives bytes, no longer than before, that decode to the same.
  lemma Reencode(t: Type, buf: Bytes, pos: nat, v: Value, end: nat)
    requires WellFormed(t) && pos <= |buf| && Decode(t, buf, pos) == Ok((v, end))
    ensures Encodable(v) && |Encode(v)| <= end - pos
    ensures Decode(t, Encode(v), 0) == Ok((v, |Encode(v)|))
  {
    hide Decode, HasType, Encodable, Encode, WellFormed;
    DecodedHasType(t, buf, pos, v, end);
    EncodingIsMinimal(t, buf, pos, v, end);
    RoundTrip(v, t, [], []);
    assert [] + Encode(v) + [] == Encode(v);
  }
}
