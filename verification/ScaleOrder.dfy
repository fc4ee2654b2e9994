/** The order of map keys, and what a decoded map holds. */
module ScaleOrder {
  import opened Words
  import opened ScaleIntegers
  import opened ScaleCodec
  import opened ScaleCanonical

  // ---------- the order, said without operator< ----------

  // v comes before w: numbers by size, false before true, lists at the first place where they
  // differ or one of them ends, nothing before something, variants by their index first.
  ghost predicate Before(v: Value, w: Value)
    decreases v
  {
    match (v, w)
    case (Bool(a), Bool(b)) => a == false && b == true
    case (Int(_, m), Int(_, n)) => m < n
    case (Compact(m), Compact(n)) => m < n
    case (Unsigned(m), Unsigned(n)) => m < n
    case (Signed(m), Signed(n)) => m < n
    case (Str(a), Str(b)) => exists p :: FirstDifference(a, b, p) && (p == |a| || a[p] < b[p])
    case (Tuple(vs), Tuple(ws)) => ListBefore(vs, ws)
    case (Vector(vs), Vector(ws)) => ListBefore(vs, ws)
    case (Map(vs), Map(ws)) => ListBefore(vs, ws)
    case (Absent, Present(_)) => true
    case (Present(x), Present(y)) => Before(x, y)
    case (Variant(_, i, x), Variant(_, j, y)) => i < j || (i == j && Before(x, y))
    case _ => false
  }

  ghost predicate ListBefore(vs: seq<Value>, ws: seq<Value>)
    decreases vs
  {
    exists p :: FirstDifference(vs, ws, p) && (p == |vs| || Before(vs[p], ws[p]))
  }

  // a and b agree in front of place p of b, where a may have ended.
  ghost predicate FirstDifference<T(!new)>(a: seq<T>, b: seq<T>, p: int) {
    0 <= p < |b| && p <= |a| && forall i :: 0 <= i < p ==> a[i] == b[i]
  }

  lemma {:induction false} LessIsBefore(v: Value, w: Value)
    ensures Less(v, w) <==> Before(v, w)
    decreases v, 0, 0
  {
    hide LessFrom, LessBytes, ListBefore, FirstDifference;
    match v
    case Str(a) => if w.Str? { LessBytesFirst(a, w.data); }
    case Tuple(vs) => if w.Tuple? { LessListIsBefore(vs, w.items); }
    case Vector(vs) => if w.Vector? { LessListIsBefore(vs, w.items); }
    case Map(vs) => if w.Map? { LessListIsBefore(vs, w.items); }
    case Present(x) => if w.Present? { LessIsBefore(x, w.item); }
    case Variant(_, _, x) => if w.Variant? { LessIsBefore(x, w.item); }
    case _ =>
  }

  lemma {:induction false} LessBytesFirst(a: Bytes, b: Bytes)
    ensures LessBytes(a, b) <==> exists p :: FirstDifference(a, b, p) && (p == |a| || a[p] < b[p])
  {
    if b == [] || a == [] || a[0] != b[0] {
      if b != [] {
        assert FirstDifference(a, b, 0);
      }
    } else {
      var a', b' := a[1..], b[1..];
      LessBytesFirst(a', b');
      if p :| FirstDifference(a', b', p) && (p == |a'| || a'[p] < b'[p]) {
        assert forall i :: 1 <= i < p + 1 ==> a[i] == a'[i - 1] && b[i] == b'[i - 1];
        assert FirstDifference(a, b, p + 1);
      }
      if p :| FirstDifference(a, b, p) && (p == |a| || a[p] < b[p]) {
        assert FirstDifference(a', b', p - 1);
      }
    }
  }

  lemma {:induction false} LessListIsBefore(vs: seq<Value>, ws: seq<Value>)
    ensures LessFrom(vs, ws, 0) <==> ListBefore(vs, ws)
    decreases vs, 2, 0
  {
    hide LessFrom, Less, Before;
    LessFromFirst(vs, ws, 0);
    if p :| DiffersFrom(vs, ws, 0, p) {
      assert FirstDifference(vs, ws, p) && (p == |vs| || Before(vs[p], ws[p]));
    }
    if p :| FirstDifference(vs, ws, p) && (p == |vs| || Before(vs[p], ws[p])) {
      assert DiffersFrom(vs, ws, 0, p);
    }
  }

  // The same from place k on.
  ghost predicate DiffersFrom(vs: seq<Value>, ws: seq<Value>, k: nat, p: int) {
    k <= p < |ws| && p <= |vs| && (forall i :: k <= i < p ==> vs[i] == ws[i]) && (p == |vs| || Before(vs[p], ws[p]))
  }

  lemma {:induction false} LessFromFirst(vs: seq<Value>, ws: seq<Value>, k: nat)
    requires k <= |vs|
    ensures LessFrom(vs, ws, k) <==> exists p :: DiffersFrom(vs, ws, k, p)
    decreases vs, 1, |vs| - k
  {
    hide Less, Before;
    if k < |vs| && k < |ws| {
      LessIsBefore(vs[k], ws[k]);
      LessFromFirst(vs, ws, k + 1);
      if Less(vs[k], ws[k]) {
        assert DiffersFrom(vs, ws, k, k);
      } else {
        if vs[k] == ws[k] {
          var next := k + 1;
          if p :| DiffersFrom(vs, ws, next, p) {
            assert DiffersFrom(vs, ws, k, p);
          }
        }
        if p :| DiffersFrom(vs, ws, k, p) {
          assert DiffersFrom(vs, ws, k + 1, p);
        }
      }
    } else if k < |ws| {
      assert DiffersFrom(vs, ws, k, k);
    }
  }

  // The keys of a decoded map stand in that order.
  lemma KeysAscend(t: Type, buf: Bytes, pos: nat, v: Value, end: nat, i: nat, j: nat)
    requires WellFormed(t) && t.MapT? && pos <= |buf| && Decode(t, buf, pos) == Ok((v, end))
    requires v.Map? && i < j < |v.items|
    ensures var a, b := Key(v.items[i]), Key(v.items[j]);
            && Before(a, b)
            && (a.Int? ==> b.Int? && a.n < b.n) && (a.Compact? ==> b.Compact? && a.n < b.n)
            && (a.Unsigned? ==> b.Unsigned? && a.u < b.u) && (a.Signed? ==> b.Signed? && a.i < b.i)
            && (a.Bool? ==> b.Bool? && !a.b && b.b)
  {
    hide Decode, WellFormed;
    DecodedHasType(t, buf, pos, v, end);
    LessIsBefore(Key(v.items[i]), Key(v.items[j]));
  }

  // ---------- the order is total on the values of a type ----------

  lemma {:induction false} NotBeforeItself(v: Value)
    ensures !Less(v, v)
    decreases v, 0
  {
    hide LessFrom, LessBytes;
    match v
    case Str(data) => NotBeforeItselfBytes(data);
    case Tuple(vs) => NotBeforeItselfFrom(vs, 0);
    case Vector(vs) => NotBeforeItselfFrom(vs, 0);
    case Map(vs) => NotBeforeItselfFrom(vs, 0);
    case Present(x) => NotBeforeItself(x);
    case Variant(_, _, x) => NotBeforeItself(x);
    case _ =>
  }

  lemma {:induction false} NotBeforeItselfFrom(vs: seq<Value>, k: nat)
    requires k <= |vs|
    ensures !LessFrom(vs, vs, k)
    decreases vs, |vs| - k
  {
    hide Less;
    if k < |vs| {
      NotBeforeItself(vs[k]);
      NotBeforeItselfFrom(vs, k + 1);
    }
  }

  lemma {:induction false} NotBeforeItselfBytes(a: Bytes)
    ensures !LessBytes(a, a)
  {
    if a != [] {
      NotBeforeItselfBytes(a[1..]);
    }
  }

  lemma {:induction false} Comparable(v: Value, w: Value, t: Type)
    requires HasType(v, t) && HasType(w, t) && v != w
    ensures Less(v, w) || Less(w, v)
    decreases v, 0
  {
    hide LessFrom, LessBytes, Sorted;
    match t
    case StringT => ComparableBytes(v.data, w.data);
    case TupleT(ts) => ComparableFrom(v.items, w.items, ts, 0);
    case ArrayT(e, _) => ComparableLists(v.items, w.items, e);
    case VectorT(e) => ComparableLists(v.items, w.items, e);
    case MapT(e) => ComparableLists(v.items, w.items, e);
    case OptionT(e) => if v.Present? && w.Present? { Comparable(v.item, w.item, e); }
    case VariantT(ts) => if v.which == w.which { Comparable(v.item, w.item, ts[v.which]); }
    case _ =>
  }

  lemma {:induction false} ComparableBytes(a: Bytes, b: Bytes)
    requires a != b
    ensures LessBytes(a, b) || LessBytes(b, a)
  {
    if a != [] && b != [] && a[0] == b[0] {
      assert a == [a[0]] + a[1..] && b == [b[0]] + b[1..];
      ComparableBytes(a[1..], b[1..]);
    }
  }

  lemma {:induction false} ComparableLists(vs: seq<Value>, ws: seq<Value>, e: Type)
    requires AllHaveType(vs, e) && AllHaveType(ws, e) && vs != ws
    ensures LessFrom(vs, ws, 0) || LessFrom(ws, vs, 0)
    decreases vs, 1
  {
    hide LessFrom, HasType;
    ComparableFrom(vs, ws, seq(|vs| + |ws|, _ => e), 0);
  }

  lemma {:induction false} ComparableFrom(vs: seq<Value>, ws: seq<Value>, ts: seq<Type>, k: nat)
    requires |vs| <= |ts| && |ws| <= |ts| && k <= |vs| && k <= |ws|
    requires forall i :: 0 <= i < |vs| ==> HasType(vs[i], ts[i])
    requires forall i :: 0 <= i < |ws| ==> HasType(ws[i], ts[i])
    requires vs != ws && forall i :: 0 <= i < k ==> vs[i] == ws[i]
    ensures LessFrom(vs, ws, k) || LessFrom(ws, vs, k)
    decreases vs, 0, |vs| - k
  {
    hide Less, HasType;
    if k < |vs| && k < |ws| {
      if vs[k] == ws[k] {
        ComparableFrom(vs, ws, ts, k + 1);
      } else {
        Comparable(vs[k], ws[k], ts[k]);
      }
    }
  }

  // ---------- what a decoded map holds ----------

  ghost predicate HasKey(entries: seq<Value>, key: Value) {
    exists i :: 0 <= i < |entries| && Key(entries[i]) == key
  }

  // Pairs of a key of type k and a value of type v.
  predicate PairType(t: Type, k: Type) {
    t.TupleT? && |t.members| == 2 && t.members[0] == k
  }

  lemma KeyHasType(x: Value, t: Type, k: Type)
    requires PairType(t, k) && HasType(x, t)
    ensures HasType(Key(x), k)
  {
  }

  // An entry with a new key is added, one with a key that is there is not.
  lemma {:induction false} EmplaceContents(entries: seq<Value>, entry: Value, t: Type, k: Type)
    requires PairType(t, k) && AllHaveType(entries, t) && HasType(entry, t) && Sorted(entries)
    ensures HasKey(entries, Key(entry)) ==> Emplace(entries, entry) == entries
    ensures !HasKey(entries, Key(entry)) ==>
              forall x :: x in Emplace(entries, entry) <==> x == entry || x in entries
    decreases entries
  {
    hide Less, Key, HasType, PairType;
    if entries == [] {
    } else {
      var head, rest := entries[0], entries[1..];
      KeyHasType(head, t, k);
      KeyHasType(entry, t, k);
      assert forall i :: 0 <= i < |rest| ==> rest[i] == entries[i + 1];
      if Less(Key(head), Key(entry)) {
        EmplaceContents(rest, entry, t, k);
        NotBeforeItself(Key(entry));
        HasKeyStep(entries, Key(entry));
        assert entries == [head] + rest;
      } else if Less(Key(entry), Key(head)) {
        LaterKeysDiffer(entries, entry);
      } else {
        if Key(head) != Key(entry) {
          Comparable(Key(head), Key(entry), k);
        }
        assert HasKey(entries, Key(entry));
      }
    }
  }

  lemma HasKeyStep(entries: seq<Value>, key: Value)
    requires entries != [] && Key(entries[0]) != key
    ensures HasKey(entries, key) <==> HasKey(entries[1..], key)
  {
    hide Key;
    var rest := entries[1..];
    if i :| 0 <= i < |entries| && Key(entries[i]) == key {
      assert rest[i - 1] == entries[i];
    }
    if i :| 0 <= i < |rest| && Key(rest[i]) == key {
      assert entries[i + 1] == rest[i];
    }
  }

  lemma LaterKeysDiffer(entries: seq<Value>, entry: Value)
    requires entries != [] && Sorted(entries) && Less(Key(entry), Key(entries[0]))
    ensures !HasKey(entries, Key(entry))
  {
    hide Less, Key;
    NotBeforeItself(Key(entry));
    if i :| 0 <= i < |entries| && Key(entries[i]) == Key(entry) {
      if i > 0 {
        LessTransitive(Key(entry), Key(entries[0]), Key(entries[i]));
      }
    }
  }

  // Pair i of ps is the first with its key.
  ghost predicate IsFirst(ps: seq<Value>, i: int) {
    0 <= i < |ps| && forall j :: 0 <= j < i ==> Key(ps[j]) != Key(ps[i])
  }

  // entries are the pairs of ps that are the first with their keys.
  ghost predicate FirstsOf(entries: seq<Value>, ps: seq<Value>) {
    && (forall x :: x in entries ==> exists i :: IsFirst(ps, i) && ps[i] == x)
    && (forall i :: IsFirst(ps, i) ==> ps[i] in entries)
  }

  lemma {:induction false} KeyHasFirst(ps: seq<Value>, n: nat)
    requires n < |ps|
    ensures exists i :: IsFirst(ps, i) && Key(ps[i]) == Key(ps[n])
  {
    hide Key;
    if IsFirst(ps, n) {
    } else {
      var j :| 0 <= j < n && Key(ps[j]) == Key(ps[n]);
      KeyHasFirst(ps, j);
    }
  }

  lemma FirstsStep(entries: seq<Value>, ps: seq<Value>, x: Value, t: Type, k: Type)
    requires PairType(t, k) && AllHaveType(entries, t) && HasType(x, t) && Sorted(entries) && FirstsOf(entries, ps)
    ensures FirstsOf(Emplace(entries, x), ps + [x])
  {
    hide Key, HasType, PairType, Emplace, Sorted, AllHaveType;
    var ps', n := ps + [x], |ps|;
    EmplaceContents(entries, x, t, k);
    SameFirsts(ps, x);
    assert HasKey(entries, Key(x)) <==> !IsFirst(ps', n) by {
      if HasKey(entries, Key(x)) {
        var i :| 0 <= i < |entries| && Key(entries[i]) == Key(x);
        assert entries[i] in entries;
        var j :| IsFirst(ps, j) && ps[j] == entries[i];
        assert Key(ps'[j]) == Key(ps'[n]);
      }
      if !IsFirst(ps', n) {
        var j :| 0 <= j < n && Key(ps'[j]) == Key(ps'[n]);
        KeyHasFirst(ps, j);
        var i :| IsFirst(ps, i) && Key(ps[i]) == Key(ps[j]);
        assert ps[i] in entries;
      }
    }
    forall y | y in Emplace(entries, x) ensures exists i :: IsFirst(ps', i) && ps'[i] == y {
      if y in entries {
        var i :| IsFirst(ps, i) && ps[i] == y;
        assert IsFirst(ps', i) && ps'[i] == y;
      } else {
        assert IsFirst(ps', n) && ps'[n] == y;
      }
    }
    forall i | IsFirst(ps', i) ensures ps'[i] in Emplace(entries, x) {
      if i < n {
        assert IsFirst(ps, i) && ps[i] in entries;
      }
    }
  }

  lemma SameFirsts(ps: seq<Value>, x: Value)
    ensures forall i :: i < |ps| ==> (IsFirst(ps + [x], i) <==> IsFirst(ps, i))
  {
    hide Key;
    var ps' := ps + [x];
    assert forall i :: 0 <= i < |ps| ==> ps'[i] == ps[i];
  }

  lemma {:induction false} EntriesFollowPairs(t: Type, k: Type, n: nat, ps: seq<Value>, entries: seq<Value>, buf: Bytes, pos: nat)
    requires WellFormed(t) && PairType(t, k) && AllHaveType(entries, t) && Sorted(entries) && FirstsOf(entries, ps)
    requires pos <= |buf| && |ps| <= n
    ensures var read, pairs := DecodeEntries(t, n - |ps|, entries, buf, pos), DecodeCopies(t, n, ps, buf, pos);
            && (read.Ok? <==> pairs.Ok?)
            && (read.Ok? ==> read.value.1 == pairs.value.1 && FirstsOf(read.value.0, pairs.value.0))
    decreases n - |ps|
  {
    hide Decode, HasType, WellFormed, PairType, FirstsOf, Emplace, Sorted;
    if |ps| < n {
      var x := Decode(t, buf, pos);
      if x.Ok? {
        DecodedHasType(t, buf, pos, x.value.0, x.value.1);
        FirstsStep(entries, ps, x.value.0, t, k);
        EmplaceSorted(entries, x.value.0);
        forall i | 0 <= i < |Emplace(entries, x.value.0)| ensures HasType(Emplace(entries, x.value.0)[i], t) {
          assert Emplace(entries, x.value.0)[i] in Emplace(entries, x.value.0);
        }
        EntriesFollowPairs(t, k, n, ps + [x.value.0], Emplace(entries, x.value.0), buf, x.value.1);
      }
    }
  }

  // A decoded map holds, of the pairs in the bytes, exactly those that are the first with their
  // key, and ends where they end.
  lemma MapHoldsFirstPairs(t: Type, k: Type, n: nat, buf: Bytes, pos: nat)
    requires WellFormed(t) && PairType(t, k) && pos <= |buf|
    ensures var read, pairs := DecodeEntries(t, n, [], buf, pos), DecodeCopies(t, n, [], buf, pos);
            && (read.Ok? <==> pairs.Ok?)
            && (read.Ok? ==> read.value.1 == pairs.value.1 && FirstsOf(read.value.0, pairs.value.0))
  {
    hide DecodeEntries, DecodeCopies, HasType, WellFormed, PairType;
    EntriesFollowPairs(t, k, n, [], [], buf, pos);
  }
}
