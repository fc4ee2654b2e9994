/** Where the parts of an encoded tuple lie: sizes, heads and tails. */
module AbiLayout {
  import opened Words
  import opened AbiTypes

  ghost predicate AllStatic(ts: seq<Type>, k: nat)
    requires k <= |ts|
  {
    forall i :: 0 <= i < k ==> !Dynamic(ts[i])
  }

  // A static value takes exactly its head size.
  lemma {:induction false} EncodedSize(v: Value, t: Type)
    requires HasType(v, t)
    ensures !Dynamic(t) ==> |AbiEncode(v, t)| == HeadLen(t)
    decreases v
  {
    match v
    case DynList(xs) =>
      TupleSize(xs, Repeat(t.elem, |xs|));
    case FixedList(_, xs) =>
      TupleSize(xs, Repeat(t.elem, |xs|));
      if !Dynamic(t) {
        HeadSumRepeat(t.elem, |xs|, |xs|);
      }
    case Struct(xs) =>
      TupleSize(xs, t.members);
    case _ =>
  }

  lemma {:induction false} TupleSize(xs: seq<Value>, ts: seq<Type>)
    requires AllTyped(xs, ts)
    ensures |AbiTuple(xs, ts)| == TailPos(xs, ts, |xs|)
    ensures AllStatic(ts, |ts|) ==> |AbiTuple(xs, ts)| == HeadSum(ts, |ts|)
    decreases xs, |xs| + 1
  {
    PartSizes(xs, ts, |xs|);
    var h, t := |Heads(xs, ts, |xs|)|, |Tails(xs, ts, |xs|)|;
    assert |AbiTuple(xs, ts)| == h + t;
  }

  lemma {:induction false} PartSizes(xs: seq<Value>, ts: seq<Type>, k: nat)
    requires AllTyped(xs, ts) && k <= |xs|
    ensures |Heads(xs, ts, k)| == HeadSum(ts, k)
    ensures AllStatic(ts, k) ==> Tails(xs, ts, k) == []
    decreases xs, k
  {
    if k == 0 {
    } else {
      PartSizes(xs, ts, k - 1);
      EncodedSize(xs[k - 1], ts[k - 1]);
    }
  }

  lemma {:induction false} PartsArePrefixes(xs: seq<Value>, ts: seq<Type>, j: nat, k: nat)
    requires j <= k <= |xs| == |ts|
    ensures Heads(xs, ts, j) <= Heads(xs, ts, k)
    ensures Tails(xs, ts, j) <= Tails(xs, ts, k)
  {
    if j < k {
      PartsArePrefixes(xs, ts, j, k - 1);
    }
  }

  // The head of member k starts at HeadSum(k) and ends where the next head starts. A static
  // member stands there itself; a dynamic one is represented by the start of its tail.
  lemma HeadLayout(xs: seq<Value>, ts: seq<Type>, k: nat)
    requires AllTyped(xs, ts) && k < |xs|
    ensures var head := if Dynamic(ts[k]) then Word(TailPos(xs, ts, k)) else AbiEncode(xs[k], ts[k]);
            && At(AbiTuple(xs, ts), HeadSum(ts, k), head)
            && HeadSum(ts, k + 1) == HeadSum(ts, k) + |head|
  {
    PartSizes(xs, ts, k);
    PartsArePrefixes(xs, ts, k + 1, |xs|);
    EncodedSize(xs[k], ts[k]);
    var head := if Dynamic(ts[k]) then Word(TailPos(xs, ts, k)) else AbiEncode(xs[k], ts[k]);
    assert Heads(xs, ts, k + 1) == Heads(xs, ts, k) + head;
    PrefixAt(Heads(xs, ts, |xs|), Heads(xs, ts, k), head);
    AtLeft(Heads(xs, ts, |xs|), Tails(xs, ts, |xs|), HeadSum(ts, k), head);
  }

  // The first tail follows the heads, each tail starts where the one before ends, and the last
  // ends with the tuple.
  lemma TailLayout(xs: seq<Value>, ts: seq<Type>, k: nat)
    requires AllTyped(xs, ts) && k < |xs|
    ensures TailPos(xs, ts, 0) == HeadSum(ts, |ts|)
    ensures TailPos(xs, ts, |xs|) == |AbiTuple(xs, ts)|
    ensures Dynamic(ts[k]) ==>
              && At(AbiTuple(xs, ts), TailPos(xs, ts, k), AbiEncode(xs[k], ts[k]))
              && TailPos(xs, ts, k + 1) == TailPos(xs, ts, k) + |AbiEncode(xs[k], ts[k])|
    ensures !Dynamic(ts[k]) ==> TailPos(xs, ts, k + 1) == TailPos(xs, ts, k)
  {
    hide Heads, Tails, AbiEncode, HasType, Dynamic, At;
    TupleSize(xs, ts);
    TailStep(xs, ts, k);
    if Dynamic(ts[k]) {
      PartSizes(xs, ts, |xs|);
      PartsArePrefixes(xs, ts, k + 1, |xs|);
      SecondPartAt(Heads(xs, ts, |xs|), Tails(xs, ts, |xs|), Tails(xs, ts, k), AbiEncode(xs[k], ts[k]));
    }
  }

  lemma TailStep(xs: seq<Value>, ts: seq<Type>, k: nat)
    requires k < |xs| == |ts|
    ensures Tails(xs, ts, 0) == []
    ensures Tails(xs, ts, k + 1) == if Dynamic(ts[k]) then Tails(xs, ts, k) + AbiEncode(xs[k], ts[k]) else Tails(xs, ts, k)
  {
  }

  // Every encoding is a whole number of words.
  lemma {:induction false} EncodingIsAligned(v: Value, t: Type)
    requires HasType(v, t)
    ensures |AbiEncode(v, t)| % 32 == 0
    decreases v
  {
    match v
    case DynList(xs) =>
      var tuple := AbiTuple(xs, Repeat(t.elem, |xs|));
      TupleIsAligned(xs, Repeat(t.elem, |xs|));
      AlignedSum(32, |tuple|);
    case FixedList(_, xs) => TupleIsAligned(xs, Repeat(t.elem, |xs|));
    case Struct(xs) => TupleIsAligned(xs, t.members);
    case Str(data) => AlignedSum(32, RoundUp(|data|));
    case DynBytes(data) => AlignedSum(32, RoundUp(|data|));
    case _ => assert |AbiEncode(v, t)| == 32;
  }

  lemma {:induction false} TupleIsAligned(xs: seq<Value>, ts: seq<Type>)
    requires AllTyped(xs, ts)
    ensures |AbiTuple(xs, ts)| % 32 == 0
    decreases xs, |xs| + 1
  {
    PartsAreAligned(xs, ts, |xs|);
    var heads, tails := |Heads(xs, ts, |xs|)|, |Tails(xs, ts, |xs|)|;
    AlignedSum(heads, tails);
  }

  lemma {:induction false} PartsAreAligned(xs: seq<Value>, ts: seq<Type>, k: nat)
    requires AllTyped(xs, ts) && k <= |xs|
    ensures |Heads(xs, ts, k)| % 32 == 0 && |Tails(xs, ts, k)| % 32 == 0
    decreases xs, k
  {
    hide HasType, AbiEncode, Dynamic;
    if k == 0 {
    } else {
      PartsAreAligned(xs, ts, k - 1);
      EncodingIsAligned(xs[k - 1], ts[k - 1]);
      var size := |AbiEncode(xs[k - 1], ts[k - 1])|;
      AlignedSum(|Heads(xs, ts, k - 1)|, if Dynamic(ts[k - 1]) then 32 else size);
      AlignedSum(|Tails(xs, ts, k - 1)|, if Dynamic(ts[k - 1]) then size else 0);
    }
  }

  lemma AlignedSum(a: nat, b: nat)
    requires a % 32 == 0 && b % 32 == 0
    ensures (a + b) % 32 == 0
  {
  }

  lemma PrefixAt(whole: Bytes, front: Bytes, part: Bytes)
    requires front + part <= whole
    ensures At(whole, |front|, part)
  {
    var fp := front + part;
    forall i | 0 <= i < |part| ensures part[i] == whole[|front| + i] {
      assert fp[|front| + i] == part[i];
    }
  }

  lemma SecondPartAt(first: Bytes, second: Bytes, front: Bytes, part: Bytes)
    requires front + part <= second
    ensures At(first + second, |first| + |front|, part)
  {
    PrefixAt(second, front, part);
    AtRight(first, second, |front|, part);
  }

  lemma AtLeft(a: Bytes, b: Bytes, p: nat, part: Bytes)
    requires At(a, p, part)
    ensures At(a + b, p, part)
  {
  }

  lemma AtRight(a: Bytes, b: Bytes, p: nat, part: Bytes)
    requires At(b, p, part)
    ensures At(a + b, |a| + p, part)
  {
    forall i | 0 <= i < |part| ensures part[i] == (a + b)[|a| + p + i] {
      assert (a + b)[|a| + (p + i)] == b[p + i];
    }
  }
}
