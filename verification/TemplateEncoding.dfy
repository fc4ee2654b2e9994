/** What ContractABICodec writes, std::tuple included, and when that is the standard encoding. */
module TemplateEncoding {
  import opened Words
  import opened AbiTypes
  import opened AbiLayout

  // ---------- the type traits ----------

  // Types the templates accept: bytesN is string32 alone.
  ghost predicate Supported(t: Type) {
    match t
    case TFixedBytes(n) => n == 32
    case TDynList(e) => Supported(e)
    case TFixedList(e, _) => Supported(e)
    case TStruct(ts) => AllSupported(ts)
    case _ => true
  }

  ghost predicate AllSupported(ts: seq<Type>) {
    forall i :: 0 <= i < |ts| ==> Supported(ts[i])
  }

  function RemoveDimension(t: Type): Type {
    match t
    case TFixedList(e, _) => RemoveDimension(e)
    case _ => t
  }

  // Every std::tuple counts as dynamic.
  predicate ABIDynamicType(t: Type) {
    var base := RemoveDimension(t);
    base.TStr? || base.TDynBytes? || base.TDynList? || base.TStruct?
  }

  // Head size in words.
  function Length(t: Type): nat {
    match t
    case TFixedList(e, n) => if ABIDynamicType(t) then 1 else n * Length(e)
    case _ => 1
  }

  // Head size in bytes.
  function Stride(t: Type): nat {
    Length(t) * 32
  }

  // Where the head of argument k starts.
  function StrideSum(ts: seq<Type>, k: nat): nat
    requires k <= |ts|
  {
    if k == 0 then 0 else StrideSum(ts, k - 1) + Stride(ts[k - 1])
  }

  // A tuple that the standard has in place, or an array of such.
  predicate StaticTuple(t: Type) {
    var base := RemoveDimension(t);
    base.TStruct? && !Dynamic(base)
  }

  // The traits follow the standard exactly where no static tuple stands.
  lemma {:induction false} TraitsFollowStandard(t: Type)
    ensures ABIDynamicType(t) == Dynamic(t) <==> !StaticTuple(t)
    ensures Dynamic(t) ==> ABIDynamicType(t)
    ensures !StaticTuple(t) ==> Stride(t) == HeadLen(t)
  {
    if t.TFixedList? {
      TraitsFollowStandard(t.elem);
    }
  }

  lemma {:induction false} StridesAreHeads(ts: seq<Type>, k: nat)
    requires k <= |ts| && forall i :: 0 <= i < k ==> !StaticTuple(ts[i])
    ensures StrideSum(ts, k) == HeadSum(ts, k)
  {
    if k == 0 {
    } else {
      StridesAreHeads(ts, k - 1);
      TraitsFollowStandard(ts[k - 1]);
    }
  }

  // ---------- what is written ----------

  function Serialised(v: Value, t: Type): Bytes
    decreases v
  {
    match (v, t)
    case (DynList(xs), TDynList(e)) => Word(|xs|) + Parts(xs, Repeat(e, |xs|), 32 * |xs|)
    case (FixedList(_, xs), TFixedList(e, _)) => Parts(xs, Repeat(e, |xs|), 32 * |xs|)
    case (Struct(xs), TStruct(ts)) => if |xs| == |ts| then Parts(xs, ts, 32 * |xs|) else []
    case _ => AbiEncode(v, t)
  }

  // The parts of a tuple, a list or the arguments; offsets count from start.
  function Parts(xs: seq<Value>, ts: seq<Type>, start: nat): Bytes
    requires |xs| == |ts|
    decreases xs, |xs| + 1
  {
    PartHeads(xs, ts, start, |xs|) + PartTails(xs, ts, |xs|)
  }

  function PartHeads(xs: seq<Value>, ts: seq<Type>, start: nat, k: nat): Bytes
    requires k <= |xs| == |ts|
    decreases xs, k
  {
    if k == 0 then []
    else
      PartHeads(xs, ts, start, k - 1) +
      if ABIDynamicType(ts[k - 1]) then Word(start + |PartTails(xs, ts, k - 1)|) else Serialised(xs[k - 1], ts[k - 1])
  }

  function PartTails(xs: seq<Value>, ts: seq<Type>, k: nat): Bytes
    requires k <= |xs| == |ts|
    decreases xs, k
  {
    if k == 0 then []
    else PartTails(xs, ts, k - 1) + if ABIDynamicType(ts[k - 1]) then Serialised(xs[k - 1], ts[k - 1]) else []
  }

  // ---------- when it is the standard encoding ----------

  // No static tuple is written, and every tuple with a dynamic member has one word per head.
  ghost predicate Conforms(v: Value, t: Type)
    decreases v
  {
    match (v, t)
    case (DynList(xs), TDynList(e)) => AllConform(xs, Repeat(e, |xs|))
    case (FixedList(_, xs), TFixedList(e, _)) => AllConform(xs, Repeat(e, |xs|))
    case (Struct(xs), TStruct(ts)) => AllConform(xs, ts) && OffsetsRight(ts, 32 * |ts|)
    case _ => true
  }

  ghost predicate AllConform(xs: seq<Value>, ts: seq<Type>)
    decreases xs
  {
    |xs| == |ts| && forall i :: 0 <= i < |xs| ==> !StaticTuple(ts[i]) && Conforms(xs[i], ts[i])
  }

  ghost predicate OffsetsRight(ts: seq<Type>, start: nat) {
    (exists i :: 0 <= i < |ts| && Dynamic(ts[i])) ==> start == HeadSum(ts, |ts|)
  }

  // ---------- conforming values are written as the standard says ----------

  lemma {:induction false} ConformingIsStandard(v: Value, t: Type)
    requires HasType(v, t) && Conforms(v, t)
    ensures Serialised(v, t) == AbiEncode(v, t)
    decreases v, 1
  {
    hide Parts, AbiTuple;
    match v
    case DynList(xs) =>
      ListOffsetsRight(t.elem, |xs|);
      ConformingParts(xs, Repeat(t.elem, |xs|), 32 * |xs|);
    case FixedList(_, xs) =>
      ListOffsetsRight(t.elem, |xs|);
      ConformingParts(xs, Repeat(t.elem, |xs|), 32 * |xs|);
    case Struct(xs) =>
      ConformingParts(xs, t.members, 32 * |xs|);
    case _ =>
  }

  // Lists count one word per element, which is right whenever an offset is written.
  lemma ListOffsetsRight(e: Type, n: nat)
    ensures OffsetsRight(Repeat(e, n), 32 * n)
  {
    if Dynamic(e) {
      HeadSumRepeat(e, n, n);
    }
  }

  lemma {:induction false} ConformingParts(xs: seq<Value>, ts: seq<Type>, start: nat)
    requires AllTyped(xs, ts) && AllConform(xs, ts) && OffsetsRight(ts, start)
    ensures Parts(xs, ts, start) == AbiTuple(xs, ts)
    decreases xs, |xs| + 1
  {
    ConformingHeads(xs, ts, start, |xs|);
  }

  lemma {:induction false} ConformingHeads(xs: seq<Value>, ts: seq<Type>, start: nat, k: nat)
    requires AllTyped(xs, ts) && AllConform(xs, ts) && OffsetsRight(ts, start) && k <= |xs|
    ensures PartHeads(xs, ts, start, k) == Heads(xs, ts, k)
    ensures PartTails(xs, ts, k) == Tails(xs, ts, k)
    decreases xs, k
  {
    hide Serialised, AbiEncode, Conforms, HasType, ABIDynamicType, Dynamic, StaticTuple, Word, HeadSum, HeadLen;
    if k == 0 {
    } else {
      ConformingHeads(xs, ts, start, k - 1);
      ConformingIsStandard(xs[k - 1], ts[k - 1]);
      TraitsFollowStandard(ts[k - 1]);
    }
  }

  // ---------- and no others are ----------

  // Nothing gets shorter than the standard has it.
  lemma {:induction false} Longer(v: Value, t: Type)
    requires HasType(v, t)
    ensures |Serialised(v, t)| >= |AbiEncode(v, t)|
    decreases v, 1
  {
    hide PartHeads, PartTails, Heads, Tails;
    match v
    case DynList(xs) => PartsLonger(xs, Repeat(t.elem, |xs|), 32 * |xs|, |xs|);
    case FixedList(_, xs) => PartsLonger(xs, Repeat(t.elem, |xs|), 32 * |xs|, |xs|);
    case Struct(xs) => PartsLonger(xs, t.members, 32 * |xs|, |xs|);
    case _ =>
  }

  ghost predicate SameSize(v: Value, t: Type) {
    !StaticTuple(t) && |Serialised(v, t)| == |AbiEncode(v, t)|
  }

  // If the parts take as much as in the standard, then each does.
  lemma {:induction false} PartsLonger(xs: seq<Value>, ts: seq<Type>, start: nat, k: nat)
    requires AllTyped(xs, ts) && k <= |xs|
    ensures var mine, standard := |PartHeads(xs, ts, start, k)| + |PartTails(xs, ts, k)|, |Heads(xs, ts, k)| + |Tails(xs, ts, k)|;
            && mine >= standard
            && (mine == standard ==> forall i :: 0 <= i < k ==> SameSize(xs[i], ts[i]))
    decreases xs, k
  {
    hide Serialised, AbiEncode, HasType, ABIDynamicType, Dynamic, StaticTuple;
    if k == 0 {
    } else {
      PartsLonger(xs, ts, start, k - 1);
      Longer(xs[k - 1], ts[k - 1]);
      TraitsFollowStandard(ts[k - 1]);
    }
  }

  lemma {:induction false} SameSplit(xs: seq<Value>, ts: seq<Type>, start: nat, k: nat)
    requires k <= |xs| == |ts| && forall i :: 0 <= i < k ==> SameSize(xs[i], ts[i])
    ensures |PartHeads(xs, ts, start, k)| == |Heads(xs, ts, k)|
    ensures |PartTails(xs, ts, k)| == |Tails(xs, ts, k)|
    decreases k
  {
    hide Serialised, AbiEncode, ABIDynamicType, Dynamic, StaticTuple;
    if k == 0 {
    } else {
      SameSplit(xs, ts, start, k - 1);
      TraitsFollowStandard(ts[k - 1]);
    }
  }

  lemma SplitEqual(a: Bytes, b: Bytes, c: Bytes, d: Bytes)
    requires a + b == c + d && |a| == |c|
    ensures a == c && b == d
  {
    assert a == (a + b)[..|a|] == c;
    assert b == (a + b)[|a|..] == d;
  }

  // Equal heads and tails are equal part by part.
  lemma {:induction false} EqualParts(xs: seq<Value>, ts: seq<Type>, start: nat, k: nat, i: nat)
    requires i < k <= |xs| == |ts| && forall j :: 0 <= j < k ==> SameSize(xs[j], ts[j])
    requires PartHeads(xs, ts, start, k) == Heads(xs, ts, k) && PartTails(xs, ts, k) == Tails(xs, ts, k)
    ensures Serialised(xs[i], ts[i]) == AbiEncode(xs[i], ts[i])
    ensures Dynamic(ts[i]) ==>
              |PartTails(xs, ts, i)| == |Tails(xs, ts, i)| && Word(start + |Tails(xs, ts, i)|) == Word(TailPos(xs, ts, i))
    decreases k
  {
    hide Serialised, AbiEncode, ABIDynamicType, Dynamic, StaticTuple;
    var n := k - 1;
    SameSplit(xs, ts, start, n);
    TraitsFollowStandard(ts[n]);
    PartsStep(xs, ts, start, n);
    var head := if Dynamic(ts[n]) then Word(TailPos(xs, ts, n)) else AbiEncode(xs[n], ts[n]);
    var tail := if Dynamic(ts[n]) then AbiEncode(xs[n], ts[n]) else [];
    var head' := if Dynamic(ts[n]) then Word(start + |PartTails(xs, ts, n)|) else Serialised(xs[n], ts[n]);
    var tail' := if Dynamic(ts[n]) then Serialised(xs[n], ts[n]) else [];
    SplitEqual(PartHeads(xs, ts, start, n), head', Heads(xs, ts, n), head);
    SplitEqual(PartTails(xs, ts, n), tail', Tails(xs, ts, n), tail);
    if i < n {
      EqualParts(xs, ts, start, n, i);
    }
  }

  lemma PartsStep(xs: seq<Value>, ts: seq<Type>, start: nat, n: nat)
    requires n < |xs| == |ts| && ABIDynamicType(ts[n]) == Dynamic(ts[n])
    ensures var dynamic := Dynamic(ts[n]);
            && PartHeads(xs, ts, start, n + 1) == PartHeads(xs, ts, start, n) +
               (if dynamic then Word(start + |PartTails(xs, ts, n)|) else Serialised(xs[n], ts[n]))
            && PartTails(xs, ts, n + 1) == PartTails(xs, ts, n) + (if dynamic then Serialised(xs[n], ts[n]) else [])
            && Heads(xs, ts, n + 1) == Heads(xs, ts, n) + (if dynamic then Word(TailPos(xs, ts, n)) else AbiEncode(xs[n], ts[n]))
            && Tails(xs, ts, n + 1) == Tails(xs, ts, n) + (if dynamic then AbiEncode(xs[n], ts[n]) else [])
  {
  }

  lemma {:induction false} HeadAtLeastWord(v: Value, t: Type)
    requires HasType(v, t) && !StaticTuple(t)
    ensures HeadLen(t) >= 32
  {
    if t.TFixedList? && !Dynamic(t) {
      hide HasType;
      HeadAtLeastWord(v.items[0], t.elem);
      AtLeastOnce(t.dim, HeadLen(t.elem));
    }
  }

  lemma AtLeastOnce(k: nat, n: nat)
    requires k > 0
    ensures k * n >= n
  {
  }

  lemma {:induction false} HeadsAtLeastWords(xs: seq<Value>, ts: seq<Type>, k: nat)
    requires AllTyped(xs, ts) && k <= |xs| && forall i :: 0 <= i < k ==> !StaticTuple(ts[i])
    ensures HeadSum(ts, k) >= 32 * k
  {
    if k == 0 {
    } else {
      HeadsAtLeastWords(xs, ts, k - 1);
      HeadAtLeastWord(xs[k - 1], ts[k - 1]);
    }
  }

  lemma WordInjective(a: nat, b: nat)
    requires a < WORD_LIMIT && b < WORD_LIMIT && Word(a) == Word(b)
    ensures a == b
  {
    hide Word, FromWord;
    WordRoundTrip(a);
    WordRoundTrip(b);
  }

  lemma PartIsSmaller(xs: seq<Value>, ts: seq<Type>, i: nat)
    requires AllTyped(xs, ts) && i < |xs|
    ensures |AbiEncode(xs[i], ts[i])| <= |AbiTuple(xs, ts)|
    ensures Dynamic(ts[i]) ==> TailPos(xs, ts, i) <= |AbiTuple(xs, ts)|
  {
    hide AbiEncode, AbiTuple, TailPos, Dynamic, HasType, HeadSum;
    HeadLayout(xs, ts, i);
    TailLayout(xs, ts, i);
  }

  lemma {:induction false} StandardConforms(v: Value, t: Type)
    requires HasType(v, t) && |AbiEncode(v, t)| < WORD_LIMIT && Serialised(v, t) == AbiEncode(v, t)
    ensures Conforms(v, t)
    decreases v, 1
  {
    hide Parts, AbiTuple, AllConform, OffsetsRight, AllTyped;
    match v
    case DynList(xs) =>
      var ts := Repeat(t.elem, |xs|);
      SplitEqual(Word(|xs|), Parts(xs, ts, 32 * |xs|), Word(|xs|), AbiTuple(xs, ts));
      StandardParts(xs, ts, 32 * |xs|);
    case FixedList(_, xs) =>
      StandardParts(xs, Repeat(t.elem, |xs|), 32 * |xs|);
    case Struct(xs) =>
      SameLength(xs, t.members);
      StandardParts(xs, t.members, 32 * |xs|);
      StandardOffsets(xs, t.members);
    case _ =>
  }

  // Each part is the standard's, and so is each offset.
  lemma StandardPart(xs: seq<Value>, ts: seq<Type>, start: nat, i: nat)
    requires AllTyped(xs, ts) && Parts(xs, ts, start) == AbiTuple(xs, ts) && i < |xs|
    ensures !StaticTuple(ts[i]) && Serialised(xs[i], ts[i]) == AbiEncode(xs[i], ts[i])
    ensures Dynamic(ts[i]) ==> Word(start + |Tails(xs, ts, i)|) == Word(TailPos(xs, ts, i))
  {
    hide PartHeads, PartTails, Heads, Tails, Serialised, AbiEncode, HasType, Dynamic, StaticTuple;
    PartsLonger(xs, ts, start, |xs|);
    SameSplit(xs, ts, start, |xs|);
    SplitEqual(PartHeads(xs, ts, start, |xs|), PartTails(xs, ts, |xs|), Heads(xs, ts, |xs|), Tails(xs, ts, |xs|));
    EqualParts(xs, ts, start, |xs|, i);
    assert SameSize(xs[i], ts[i]);
  }

  lemma {:induction false} StandardParts(xs: seq<Value>, ts: seq<Type>, start: nat)
    requires AllTyped(xs, ts) && |AbiTuple(xs, ts)| < WORD_LIMIT && Parts(xs, ts, start) == AbiTuple(xs, ts)
    ensures AllConform(xs, ts)
    decreases xs, |xs| + 1
  {
    hide Parts, AbiTuple, Serialised, AbiEncode, HasType, Conforms, StaticTuple;
    forall i | 0 <= i < |xs| ensures !StaticTuple(ts[i]) && Conforms(xs[i], ts[i]) {
      StandardPart(xs, ts, start, i);
      PartIsSmaller(xs, ts, i);
      StandardConforms(xs[i], ts[i]);
    }
  }

  lemma StandardOffsets(xs: seq<Value>, ts: seq<Type>)
    requires AllTyped(xs, ts) && |AbiTuple(xs, ts)| < WORD_LIMIT && Parts(xs, ts, 32 * |xs|) == AbiTuple(xs, ts)
    ensures OffsetsRight(ts, 32 * |xs|)
  {
    hide Parts, AbiTuple, Serialised, AbiEncode, HasType, StaticTuple, HeadSum, Word, Tails;
    if i :| 0 <= i < |ts| && Dynamic(ts[i]) {
      forall j | 0 <= j < |xs| ensures !StaticTuple(ts[j]) {
        StandardPart(xs, ts, 32 * |xs|, j);
      }
      HeadsAtLeastWords(xs, ts, |xs|);
      StandardPart(xs, ts, 32 * |xs|, i);
      PartIsSmaller(xs, ts, i);
      WordInjective(32 * |xs| + |Tails(xs, ts, i)|, TailPos(xs, ts, i));
    }
  }

  // ---------- the arguments of abiIn ----------

  // abiIn's bytes, without a signature, are the standard's if and only if the arguments conform.
  lemma ArgumentsConform(args: seq<Value>, ts: seq<Type>)
    requires AllTyped(args, ts)
    ensures AllConform(args, ts) ==> Parts(args, ts, StrideSum(ts, |ts|)) == AbiTuple(args, ts)
    ensures |AbiTuple(args, ts)| < WORD_LIMIT && Parts(args, ts, StrideSum(ts, |ts|)) == AbiTuple(args, ts) ==> AllConform(args, ts)
  {
    hide Parts, AbiTuple, Conforms, HasType, StaticTuple;
    if AllConform(args, ts) {
      StridesAreHeads(ts, |ts|);
      ConformingParts(args, ts, StrideSum(ts, |ts|));
    }
    if |AbiTuple(args, ts)| < WORD_LIMIT && Parts(args, ts, StrideSum(ts, |ts|)) == AbiTuple(args, ts) {
      StandardParts(args, ts, StrideSum(ts, |ts|));
    }
  }

  // ---------- where the parts lie ----------

  lemma StrideOfDynamic(t: Type)
    ensures ABIDynamicType(t) ==> Stride(t) == 32
  {
  }

  lemma {:induction false} StrideRepeat(e: Type, n: nat, k: nat)
    requires k <= n
    ensures StrideSum(Repeat(e, n), k) == k * Stride(e)
  {
    if k == 0 {
    } else {
      StrideRepeat(e, n, k - 1);
    }
  }

  lemma {:induction false} StaticStride(v: Value, t: Type)
    requires HasType(v, t) && !ABIDynamicType(t)
    ensures |Serialised(v, t)| == Stride(t)
    decreases v, 1
  {
    hide PartHeads, PartTails, StrideSum;
    match v
    case FixedList(_, xs) =>
      var ts := Repeat(t.elem, |xs|);
      PartHeadsSize(xs, ts, 32 * |xs|, |xs|);
      NoTails(xs, ts, |xs|);
      StrideRepeat(t.elem, |xs|, |xs|);
    case _ =>
  }

  lemma {:induction false} NoTails(xs: seq<Value>, ts: seq<Type>, k: nat)
    requires k <= |xs| == |ts| && forall i :: 0 <= i < |ts| ==> !ABIDynamicType(ts[i])
    ensures PartTails(xs, ts, k) == []
    decreases k
  {
    if k == 0 {
    } else {
      NoTails(xs, ts, k - 1);
    }
  }

  lemma {:induction false} PartHeadsSize(xs: seq<Value>, ts: seq<Type>, start: nat, k: nat)
    requires AllTyped(xs, ts) && k <= |xs|
    ensures |PartHeads(xs, ts, start, k)| == StrideSum(ts, k)
    decreases xs, k
  {
    hide Serialised, HasType, ABIDynamicType, Stride;
    if k == 0 {
    } else {
      PartHeadsSize(xs, ts, start, k - 1);
      StrideOfDynamic(ts[k - 1]);
      if !ABIDynamicType(ts[k - 1]) {
        StaticStride(xs[k - 1], ts[k - 1]);
      }
    }
  }

  lemma {:induction false} EarlierParts(xs: seq<Value>, ts: seq<Type>, start: nat, j: nat, k: nat)
    requires j <= k <= |xs| == |ts|
    ensures PartHeads(xs, ts, start, j) <= PartHeads(xs, ts, start, k)
    ensures PartTails(xs, ts, j) <= PartTails(xs, ts, k)
  {
    hide Serialised, ABIDynamicType;
    if j < k {
      EarlierParts(xs, ts, start, j, k - 1);
    }
  }

  // Head k lies at the sum of the strides before it.
  lemma HeadPlace(xs: seq<Value>, ts: seq<Type>, start: nat, k: nat)
    requires AllTyped(xs, ts) && k < |xs|
    ensures var head := if ABIDynamicType(ts[k]) then Word(start + |PartTails(xs, ts, k)|) else Serialised(xs[k], ts[k]);
            At(Parts(xs, ts, start), StrideSum(ts, k), head)
  {
    hide Serialised, HasType, ABIDynamicType, At, StrideSum, PartTails, Word;
    var heads, before := PartHeads(xs, ts, start, |xs|), PartHeads(xs, ts, start, k);
    var head := if ABIDynamicType(ts[k]) then Word(start + |PartTails(xs, ts, k)|) else Serialised(xs[k], ts[k]);
    assert PartHeads(xs, ts, start, k + 1) == before + head;
    hide PartHeads;
    PartHeadsSize(xs, ts, start, k);
    EarlierParts(xs, ts, start, k + 1, |xs|);
    PrefixAt(heads, before, head);
    AtLeft(heads, PartTails(xs, ts, |xs|), StrideSum(ts, k), head);
  }

  // Its tail, if any, lies behind all heads and the tails before it.
  lemma TailPlace(xs: seq<Value>, ts: seq<Type>, start: nat, k: nat)
    requires AllTyped(xs, ts) && k < |xs| && ABIDynamicType(ts[k])
    ensures At(Parts(xs, ts, start), StrideSum(ts, |ts|) + |PartTails(xs, ts, k)|, Serialised(xs[k], ts[k]))
  {
    hide Serialised, HasType, At, StrideSum, PartHeads;
    assert PartTails(xs, ts, k + 1) == PartTails(xs, ts, k) + Serialised(xs[k], ts[k]);
    hide PartTails;
    PartHeadsSize(xs, ts, start, |xs|);
    EarlierParts(xs, ts, start, k + 1, |xs|);
    SecondPartAt(PartHeads(xs, ts, start, |xs|), PartTails(xs, ts, |xs|), PartTails(xs, ts, k), Serialised(xs[k], ts[k]));
  }

  // In every tuple with a trait-dynamic member the strides add up to the words counted.
  ghost predicate Framed(v: Value, t: Type)
    decreases v
  {
    match (v, t)
    case (DynList(xs), TDynList(e)) => AllFramed(xs, Repeat(e, |xs|))
    case (FixedList(_, xs), TFixedList(e, _)) => AllFramed(xs, Repeat(e, |xs|))
    case (Struct(xs), TStruct(ts)) => AllFramed(xs, ts) && StartsRight(ts, 32 * |ts|)
    case _ => true
  }

  ghost predicate AllFramed(xs: seq<Value>, ts: seq<Type>)
    decreases xs
  {
    |xs| == |ts| && forall i :: 0 <= i < |xs| ==> Framed(xs[i], ts[i])
  }

  ghost predicate StartsRight(ts: seq<Type>, start: nat) {
    forall i :: 0 <= i < |ts| && ABIDynamicType(ts[i]) ==> start == StrideSum(ts, |ts|)
  }

  lemma ListStartsRight(e: Type, n: nat)
    ensures StartsRight(Repeat(e, n), 32 * n)
  {
    if ABIDynamicType(e) {
      StrideOfDynamic(e);
      StrideRepeat(e, n, n);
    }
  }

  // What is written as the standard says is framed.
  lemma {:induction false} ConformingIsFramed(v: Value, t: Type)
    requires HasType(v, t) && Conforms(v, t)
    ensures Framed(v, t)
    decreases v
  {
    hide StaticTuple, ABIDynamicType, Dynamic, StrideSum, HeadSum;
    match v
    case DynList(xs) =>
      forall i | 0 <= i < |xs| ensures Framed(xs[i], t.elem) { ConformingIsFramed(xs[i], t.elem); }
    case FixedList(_, xs) =>
      forall i | 0 <= i < |xs| ensures Framed(xs[i], t.elem) { ConformingIsFramed(xs[i], t.elem); }
    case Struct(xs) =>
      var ts := t.members;
      forall i | 0 <= i < |xs| ensures Framed(xs[i], ts[i]) { ConformingIsFramed(xs[i], ts[i]); }
      StridesAreHeads(ts, |ts|);
      forall i | 0 <= i < |ts| && ABIDynamicType(ts[i]) ensures 32 * |ts| == StrideSum(ts, |ts|) {
        TraitsFollowStandard(ts[i]);
      }
    case _ =>
  }

  // A tuple of one number as the only argument: the standard has the number, this codec an offset
  // and the number.
  lemma StaticTupleMoved(u: U256)
    ensures var args, ts := [Struct([Uint(u)])], [TStruct([TUint])];
            && AbiTuple(args, ts) == Word(u)
            && Parts(args, ts, StrideSum(ts, |ts|)) == Word(32) + Word(u)
  {
    hide Word;
    var xs, es := [Uint(u)], [TUint];
    var args, ts := [Struct(xs)], [TStruct(es)];
    assert !Dynamic(TUint) && !Dynamic(ts[0]) && ABIDynamicType(ts[0]) && !ABIDynamicType(TUint);
    assert AbiTuple(xs, es) == Word(u) by { OnePart(xs, es, 32); }
    assert Parts(xs, es, 32) == Word(u) by { OnePart(xs, es, 32); }
    OnePart(args, ts, 32);
    assert StrideSum(ts, 1) == StrideSum(ts, 0) + 32;
  }

  lemma OnePart(xs: seq<Value>, ts: seq<Type>, start: nat)
    requires |xs| == |ts| == 1
    ensures !Dynamic(ts[0]) ==> AbiTuple(xs, ts) == AbiEncode(xs[0], ts[0])
    ensures Parts(xs, ts, start) == if ABIDynamicType(ts[0]) then Word(start) + Serialised(xs[0], ts[0]) else Serialised(xs[0], ts[0])
  {
    hide Word, Serialised, AbiEncode, Dynamic, ABIDynamicType;
    assert PartHeads(xs, ts, start, 0) == [] && PartTails(xs, ts, 0) == [];
    assert Heads(xs, ts, 0) == [] && Tails(xs, ts, 0) == [];
  }
}
