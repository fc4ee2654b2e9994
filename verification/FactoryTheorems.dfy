/** Which values come back through the trees the factory builds. */
module FactoryTheorems {
  import opened Words
  import opened AbiTypes
  import opened AbiReads
  import opened TypeStrings
  import opened TypeFactory
  import opened TreeCodec
  import opened TreeCodecTheorems

  // ---------- from type string to decoded value ----------

  // The type a base names, by its spelling alone. The number after "bytes" is N.
  function SpelledType(base: string): Type {
    if "uint" <= base then TUint
    else if "int" <= base then TInt
    else if "bool" <= base then TBool
    else if "string" <= base then TStr
    else if "address" <= base then TAddr
    else if base == "bytes" || !("bytes" <= base) then TDynBytes
    else
      var n := Stoi(base[5..]);
      TFixedBytes(if n.Ok? && n.value > 0 then n.value else 0)
  }

  function ListType(t: Type, es: seq<nat>): Type
    decreases |es|
  {
    if es == [] then t
    else
      var outer, inner := es[|es| - 1], ListType(t, es[..|es| - 1]);
      if outer > 0 then TFixedList(inner, outer) else TDynList(inner)
  }

  // A type string the factory accepts: it parses and its base and those of its components are known.
  ghost predicate Known(nt: NamedType) {
    var parsed := ParseType(nt.typeName);
    && parsed.Ok?
    && if IsTuple(parsed.value.base) then AllKnown(nt.components) else BuildBase(parsed.value.base).Ok?
  }

  ghost predicate AllKnown(nts: seq<NamedType>) {
    forall i :: 0 <= i < |nts| ==> Known(nts[i])
  }

  // The type a string names.
  ghost function TypeOf(nt: NamedType): Type
    requires Known(nt)
    decreases nt, 1
  {
    ListType(BaseType(nt), ParseType(nt.typeName).value.extents)
  }

  ghost function BaseType(nt: NamedType): Type
    requires Known(nt)
    decreases nt, 0
  {
    var base := ParseType(nt.typeName).value.base;
    if IsTuple(base) then TStruct(TypesOf(nt.components)) else SpelledType(base)
  }

  ghost function TypesOf(nts: seq<NamedType>): (ts: seq<Type>)
    requires AllKnown(nts)
    ensures |ts| == |nts|
    decreases nts, 2
  {
    seq(|nts|, i requires 0 <= i < |nts| => TypeOf(nts[i]))
  }

  // The tree of the base alone.
  ghost function Leaf(nt: NamedType): Result<Built>
    requires Known(nt)
  {
    Build(nt, ParseType(nt.typeName).value.base, [])
  }

  // The factory builds a tree for exactly these strings.
  lemma {:induction false} KnownBuilds(nt: NamedType)
    ensures BuildNamed(nt).Ok? <==> Known(nt)
    ensures Known(nt) ==> Leaf(nt).Ok?
    decreases nt, 1
  {
    hide BuildBase, ParseType, IsTuple;
    if ParseType(nt.typeName).Ok? {
      var parsed := ParseType(nt.typeName).value;
      if IsTuple(parsed.base) {
        KnownMembers(nt.components);
      }
      BaseDecides(nt, parsed.base, parsed.extents);
    }
  }

  lemma {:induction false} KnownMembers(nts: seq<NamedType>)
    ensures BuildMembers(nts).Ok? <==> AllKnown(nts)
    ensures AllKnown(nts) ==>
              && |BuildMembers(nts).value| == |nts|
              && forall i :: 0 <= i < |nts| ==> BuildNamed(nts[i]).Ok? && BuildMembers(nts).value[i] == BuildNamed(nts[i]).value
    decreases nts, 0
  {
    hide Known, BuildNamed;
    if nts == [] {
    } else {
      KnownBuilds(nts[0]);
      KnownMembers(nts[1..]);
      KnownStep(nts);
    }
  }

  lemma KnownStep(nts: seq<NamedType>)
    requires nts != []
    ensures AllKnown(nts) <==> Known(nts[0]) && AllKnown(nts[1..])
  {
    hide Known;
    assert forall i :: 0 <= i < |nts[1..]| ==> nts[1..][i] == nts[i + 1];
    assert forall i :: 1 <= i < |nts| ==> nts[i] == nts[1..][i - 1];
  }

  // Whether a tree is built depends on the base alone.
  lemma {:induction false} BaseDecides(nt: NamedType, base: string, es: seq<nat>)
    ensures Build(nt, base, es).Ok? <==> Build(nt, base, []).Ok?
    decreases |es|
  {
    if es == [] {
    } else {
      var outer, inner := es[|es| - 1], es[..|es| - 1];
      BaseDecides(nt, base, inner);
      if outer > 0 && Build(nt, base, []).Ok? {
        CopiesOfLeaf(nt, base, outer - 1, Build(nt, base, []).value.tree);
      }
    }
  }

  // No T[N] that v reaches is misbuilt: N > 1 stands innermost and fits 32 bits.
  ghost predicate WellBuilt(v: Value, nt: NamedType)
    requires Known(nt)
    decreases nt, 1, 0
  {
    WellBuiltFrom(v, nt, ParseType(nt.typeName).value.extents)
  }

  ghost predicate WellBuiltFrom(v: Value, nt: NamedType, es: seq<nat>)
    requires Known(nt)
    decreases nt, 0, |es|
  {
    KnownBase(nt);
    if es == [] then
      IsTuple(ParseType(nt.typeName).value.base) ==> AllWellBuilt(Items(v), nt.components)
    else
      var outer, inner := es[|es| - 1], es[..|es| - 1];
      && (outer > 1 ==> inner == [] && outer < 0x1_0000_0000)
      && forall i :: 0 <= i < |Items(v)| ==> WellBuiltFrom(Items(v)[i], nt, inner)
  }

  ghost predicate AllWellBuilt(xs: seq<Value>, nts: seq<NamedType>)
    requires AllKnown(nts)
    decreases nts, 2, 0
  {
    |xs| == |nts| && forall i :: 0 <= i < |nts| ==> WellBuilt(xs[i], nts[i])
  }

  function Items(v: Value): seq<Value> {
    if v.DynList? || v.FixedList? || v.Struct? then v.items else []
  }

  ghost predicate BytesFree(t: Type) {
    match t
    case TFixedBytes(_) => false
    case TDynList(e) => BytesFree(e)
    case TFixedList(e, _) => BytesFree(e)
    case TStruct(ts) => AllBytesFree(ts)
    case _ => true
  }

  ghost predicate AllBytesFree(ts: seq<Type>) {
    forall i :: 0 <= i < |ts| ==> BytesFree(ts[i])
  }

  // No T[] of v that holds an element has a bytesN in its element type.
  ghost predicate NoBytesInLists(v: Value, t: Type)
    decreases v
  {
    match (v, t)
    case (DynList(xs), TDynList(e)) => xs == [] || BytesFree(e)
    case (FixedList(_, xs), TFixedList(e, _)) => forall i :: 0 <= i < |xs| ==> NoBytesInLists(xs[i], e)
    case (Struct(xs), TStruct(ts)) =>
      |xs| == |ts| && forall i :: 0 <= i < |xs| ==> NoBytesInLists(xs[i], ts[i])
    case _ => true
  }

  lemma {:induction false} BytesFreeEverywhere(v: Value, t: Type)
    requires HasType(v, t) && BytesFree(t)
    ensures NoBytesInLists(v, t)
    decreases v
  {
    match v
    case FixedList(_, xs) =>
      forall i | 0 <= i < |xs| ensures NoBytesInLists(xs[i], t.elem) { BytesFreeEverywhere(xs[i], t.elem); }
    case Struct(xs) =>
      forall i | 0 <= i < |xs| ensures NoBytesInLists(xs[i], t.members[i]) { BytesFreeEverywhere(xs[i], t.members[i]); }
    case _ =>
  }

  lemma {:induction false} ListBytesFree(t: Type, es: seq<nat>)
    ensures BytesFree(ListType(t, es)) <==> BytesFree(t)
    decreases |es|
  {
    if es == [] {
    } else {
      ListBytesFree(t, es[..|es| - 1]);
    }
  }

  // A tree as the factory leaves it can be cloned unless it holds a bytesN.
  lemma {:induction false} NamedCloneable(nt: NamedType)
    requires Known(nt)
    ensures BuildNamed(nt).Ok? && (Cloneable(BuildNamed(nt).value) <==> BytesFree(TypeOf(nt)))
    decreases nt, 2
  {
    hide ParseType, Build, Cloneable, BytesFree, Known, BaseType, ListType;
    KnownBuilds(nt);
    LeafCloneable(nt);
    LeafLeaves(nt);
    var parsed := ParseType(nt.typeName).value;
    BuiltCloneable(nt, parsed.base, parsed.extents, Leaf(nt).value.tree);
    ListBytesFree(BaseType(nt), parsed.extents);
  }

  lemma LeafLeaves(nt: NamedType)
    requires Known(nt) && Leaf(nt).Ok?
    ensures ParseType(nt.typeName).Ok?
    ensures Build(nt, ParseType(nt.typeName).value.base, []) == Ok(Built(Leaf(nt).value.tree, []))
  {
    hide ParseType;
  }

  lemma {:induction false} LeafCloneable(nt: NamedType)
    requires Known(nt) && Leaf(nt).Ok?
    ensures Cloneable(Leaf(nt).value.tree) <==> BytesFree(BaseType(nt))
    decreases nt, 1
  {
    hide ParseType, IsTuple, Known, BuildBase, SpelledType;
    KnownBase(nt);
    var base := ParseType(nt.typeName).value.base;
    if IsTuple(base) {
      MembersCloneable(nt.components);
      assert Leaf(nt).value.tree == Struct(BuildMembers(nt.components).value);
      assert BaseType(nt) == TStruct(TypesOf(nt.components));
    } else {
      BaseIsSpelled(base);
    }
  }

  // What is built for a base is a leaf of the type it spells.
  lemma BaseIsSpelled(base: string)
    requires BuildBase(base).Ok?
    ensures var leaf, t := BuildBase(base).value, SpelledType(base);
            && (Cloneable(leaf) <==> BytesFree(t))
            && !t.TStruct? && !t.TDynList? && !t.TFixedList?
            && forall v :: HasType(v, t) ==> Suits(leaf, v)
  {
    hide Stoi, Cloneable, BytesFree, HasType, Suits;
    LeafKind(base);
    LeafTakes(BuildBase(base).value, SpelledType(base));
  }

  ghost predicate IsLeafOf(leaf: Value, t: Type) {
    match leaf
    case Bool(_) => t == TBool
    case Uint(_) => t == TUint
    case Int(_) => t == TInt
    case FixedBytes(n, data) => t == TFixedBytes(n) && data == []
    case Addr(_) => t == TAddr
    case Str(_) => t == TStr
    case DynBytes(_) => t == TDynBytes
    case _ => false
  }

  lemma LeafKind(base: string)
    requires BuildBase(base).Ok?
    ensures IsLeafOf(BuildBase(base).value, SpelledType(base))
  {
    hide Stoi;
    assert !StartsWith(base, "address") || !StartsWith(base, "bytes") by {
      if StartsWith(base, "address") {
        assert base[0] == 'a' && "bytes"[0] == 'b';
      }
    }
    if StartsWith(base, "bytes") && base != "bytes" {
      StoiRange(base[5..]);
      if Stoi(base[5..]).Ok? {
        IsRemainder(Stoi(base[5..]).value);
      }
    }
  }

  lemma LeafTakes(leaf: Value, t: Type)
    requires IsLeafOf(leaf, t)
    ensures Cloneable(leaf) <==> BytesFree(t)
    ensures !t.TStruct? && !t.TDynList? && !t.TFixedList?
    ensures forall v :: HasType(v, t) ==> Suits(leaf, v)
  {
  }

  lemma {:induction false} MembersCloneable(nts: seq<NamedType>)
    requires AllKnown(nts)
    ensures BuildMembers(nts).Ok? && |BuildMembers(nts).value| == |nts|
    ensures AllCloneable(BuildMembers(nts).value) <==> AllBytesFree(TypesOf(nts))
    decreases nts, 0
  {
    hide Known, TypeOf, Cloneable, BytesFree, BuildNamed;
    KnownMembers(nts);
    var ws, ts := BuildMembers(nts).value, TypesOf(nts);
    forall i | 0 <= i < |nts| ensures Cloneable(ws[i]) <==> BytesFree(ts[i]) {
      NamedCloneable(nts[i]);
    }
    PointByPoint(ws, ts);
  }

  lemma PointByPoint(ws: seq<Value>, ts: seq<Type>)
    requires |ws| == |ts| && forall i :: 0 <= i < |ws| ==> (Cloneable(ws[i]) <==> BytesFree(ts[i]))
    ensures AllCloneable(ws) <==> AllBytesFree(ts)
  {
    hide Cloneable, BytesFree;
    if AllCloneable(ws) {
      forall i | 0 <= i < |ts| ensures BytesFree(ts[i]) {
        assert Cloneable(ws[i]);
      }
    }
  }

  lemma KnownBase(nt: NamedType)
    requires Known(nt)
    ensures ParseType(nt.typeName).Ok?
    ensures var base := ParseType(nt.typeName).value.base;
            if IsTuple(base) then AllKnown(nt.components) else BuildBase(base).Ok?
  {
  }

  lemma {:induction false} BuiltCloneable(nt: NamedType, base: string, es: seq<nat>, leaf: Value)
    requires Build(nt, base, []) == Ok(Built(leaf, []))
    ensures Build(nt, base, es).Ok? && (Cloneable(Build(nt, base, es).value.tree) <==> Cloneable(leaf))
    decreases |es|
  {
    if es == [] {
    } else {
      var outer, inner := es[|es| - 1], es[..|es| - 1];
      BuiltCloneable(nt, base, inner, leaf);
      BuiltOuter(nt, base, es, leaf);
      hide Build;
      var first := Build(nt, base, inner).value.tree;
      var trees := if outer == 0 then [first] else [first] + Repeat(leaf, outer - 1);
      assert trees[0] == first && forall i :: 1 <= i < |trees| ==> trees[i] == leaf;
      if AllCloneable(trees) {
        assert Cloneable(trees[0]);
      }
    }
  }

  // The tree of a T[N] is one element with the inner extents and bare leaves.
  lemma BuiltOuter(nt: NamedType, base: string, es: seq<nat>, leaf: Value)
    requires Build(nt, base, []) == Ok(Built(leaf, [])) && es != []
    requires Build(nt, base, es[..|es| - 1]).Ok?
    ensures var outer, first := es[|es| - 1], Build(nt, base, es[..|es| - 1]).value.tree;
            Build(nt, base, es) ==
            Ok(Built(if outer == 0 then DynList([first]) else FixedList(outer % 0x1_0000_0000, [first] + Repeat(leaf, outer - 1)), []))
  {
    if es[|es| - 1] > 0 {
      CopiesOfLeaf(nt, base, es[|es| - 1] - 1, leaf);
    }
  }

  // ---------- which values the built tree takes ----------

  lemma {:induction false} NamedSuits(nt: NamedType, v: Value)
    requires Known(nt) && HasType(v, TypeOf(nt))
    ensures BuildNamed(nt).Ok?
    ensures Suits(BuildNamed(nt).value, v) <==> WellBuilt(v, nt) && NoBytesInLists(v, TypeOf(nt))
    decreases nt, 3, 0
  {
    hide ParseType, Build, Suits, HasType, NoBytesInLists, WellBuiltFrom, Known, BaseType, ListType;
    KnownBuilds(nt);
    BuiltSuits(nt, ParseType(nt.typeName).value.extents, v);
  }

  lemma {:induction false} BuiltSuits(nt: NamedType, es: seq<nat>, v: Value)
    requires Known(nt) && HasType(v, ListType(BaseType(nt), es))
    ensures var tree := Build(nt, ParseType(nt.typeName).value.base, es);
            tree.Ok? && (Suits(tree.value.tree, v) <==> WellBuiltFrom(v, nt, es) && NoBytesInLists(v, ListType(BaseType(nt), es)))
    decreases nt, 2, |es|
  {
    hide ParseType, Build, Suits, HasType, NoBytesInLists, WellBuiltFrom, Known, BaseType, ListType;
    KnownBuilds(nt);
    LeafLeaves(nt);
    var base := ParseType(nt.typeName).value.base;
    BaseDecides(nt, base, es);
    if es == [] {
      NoExtents(BaseType(nt));
      LeafSuits(nt, v);
    } else {
      var inner := es[..|es| - 1];
      BaseDecides(nt, base, inner);
      ItemsTyped(BaseType(nt), es, v);
      forall i | 0 <= i < |Items(v)|
        ensures Suits(Build(nt, base, inner).value.tree, Items(v)[i]) <==>
                WellBuiltFrom(Items(v)[i], nt, inner) && NoBytesInLists(Items(v)[i], ListType(BaseType(nt), inner))
      {
        BuiltSuits(nt, inner, Items(v)[i]);
      }
      if es[|es| - 1] == 0 {
        DynamicSuits(nt, es, v);
      } else {
        FixedSuits(nt, es, v);
      }
    }
  }

  lemma NoExtents(t: Type)
    ensures ListType(t, []) == t
  {
  }

  lemma ItemsTyped(t: Type, es: seq<nat>, v: Value)
    requires es != [] && HasType(v, ListType(t, es))
    ensures var outer := es[|es| - 1];
            && (if outer == 0 then v.DynList? else v.FixedList? && v.dim == outer == |v.items|)
            && forall i :: 0 <= i < |Items(v)| ==> HasType(Items(v)[i], ListType(t, es[..|es| - 1]))
  {
  }

  lemma {:induction false} LeafSuits(nt: NamedType, v: Value)
    requires Known(nt) && HasType(v, BaseType(nt))
    ensures Leaf(nt).Ok? && (Suits(Leaf(nt).value.tree, v) <==> WellBuiltFrom(v, nt, []) && NoBytesInLists(v, BaseType(nt)))
    decreases nt, 1, 0
  {
    hide ParseType, IsTuple, Known, BuildBase, SpelledType;
    KnownBuilds(nt);
    KnownBase(nt);
    var base := ParseType(nt.typeName).value.base;
    if IsTuple(base) {
      ComponentsSuit(nt.components, v.items);
    } else {
      BaseIsSpelled(base);
    }
  }

  lemma {:induction false} ComponentsSuit(nts: seq<NamedType>, xs: seq<Value>)
    requires AllKnown(nts) && AllTyped(xs, TypesOf(nts))
    ensures BuildMembers(nts).Ok?
    ensures AllSuit(BuildMembers(nts).value, xs) <==>
            AllWellBuilt(xs, nts) && forall i :: 0 <= i < |nts| ==> NoBytesInLists(xs[i], TypesOf(nts)[i])
    decreases nts, 0, 0
  {
    hide Known, TypeOf, BuildNamed, Suits, WellBuilt, NoBytesInLists, HasType;
    KnownMembers(nts);
    var ws, ts := BuildMembers(nts).value, TypesOf(nts);
    forall i | 0 <= i < |nts| ensures Suits(ws[i], xs[i]) <==> WellBuilt(xs[i], nts[i]) && NoBytesInLists(xs[i], ts[i]) {
      NamedSuits(nts[i], xs[i]);
    }
  }

  // What the lists need, with their elements dealt with.
  ghost predicate ElementsSettled(nt: NamedType, es: seq<nat>, v: Value)
    requires Known(nt) && es != []
  {
    var inner := es[..|es| - 1];
    var tree := Build(nt, ParseType(nt.typeName).value.base, inner);
    && tree.Ok? && HasType(v, ListType(BaseType(nt), es))
    && forall i :: 0 <= i < |Items(v)| ==>
         (Suits(tree.value.tree, Items(v)[i]) <==>
          WellBuiltFrom(Items(v)[i], nt, inner) && NoBytesInLists(Items(v)[i], ListType(BaseType(nt), inner)))
  }

  lemma DynamicSuits(nt: NamedType, es: seq<nat>, v: Value)
    requires Known(nt) && es != [] && es[|es| - 1] == 0 && ElementsSettled(nt, es, v)
    ensures var tree := Build(nt, ParseType(nt.typeName).value.base, es);
            tree.Ok? && (Suits(tree.value.tree, v) <==> WellBuiltFrom(v, nt, es) && NoBytesInLists(v, ListType(BaseType(nt), es)))
  {
    hide ParseType, Build, HasType, Known, BaseType, BytesFree, Cloneable;
    KnownBuilds(nt);
    LeafLeaves(nt);
    var base, inner := ParseType(nt.typeName).value.base, es[..|es| - 1];
    var e, xs := ListType(BaseType(nt), inner), Items(v);
    ItemsTyped(BaseType(nt), es, v);
    LeafCloneable(nt);
    BuiltCloneable(nt, base, inner, Leaf(nt).value.tree);
    BuiltOuter(nt, base, es, Leaf(nt).value.tree);
    ListBytesFree(BaseType(nt), inner);
    if BytesFree(e) {
      forall i | 0 <= i < |xs| ensures NoBytesInLists(xs[i], e) { BytesFreeEverywhere(xs[i], e); }
    }
  }

  lemma FixedSuits(nt: NamedType, es: seq<nat>, v: Value)
    requires Known(nt) && es != [] && es[|es| - 1] > 0 && ElementsSettled(nt, es, v)
    ensures var tree := Build(nt, ParseType(nt.typeName).value.base, es);
            tree.Ok? && (Suits(tree.value.tree, v) <==> WellBuiltFrom(v, nt, es) && NoBytesInLists(v, ListType(BaseType(nt), es)))
  {
    hide ParseType, Build, HasType, Known, BaseType;
    KnownBuilds(nt);
    LeafLeaves(nt);
    var base, inner := ParseType(nt.typeName).value.base, es[..|es| - 1];
    var outer, leaf := es[|es| - 1], Leaf(nt).value.tree;
    var e, xs := ListType(BaseType(nt), inner), Items(v);
    var first := Build(nt, base, inner).value.tree;
    ItemsTyped(BaseType(nt), es, v);
    BuiltOuter(nt, base, es, leaf);
    var trees := [first] + Repeat(leaf, outer - 1);
    assert trees[0] == first && forall i :: 1 <= i < outer ==> trees[i] == leaf;
    if outer > 1 && inner != [] {
      hide Suits;
      ItemsTyped(BaseType(nt), inner, xs[1]);
      LeafIsNoList(nt);
      ListInLeaf(leaf, xs[1]);
      NotAllSuit(outer % 0x1_0000_0000, trees, v, 1);
    } else {
      if inner == [] {
        assert first == leaf;
      }
      assert forall i :: 0 <= i < outer ==> trees[i] == first;
      hide Suits, NoBytesInLists, WellBuiltFrom;
      SuitsFixed(outer % 0x1_0000_0000, trees, v, first);
      WellBuiltStep(nt, es, v);
      NoBytesStep(BaseType(nt), es, v);
    }
  }

  lemma SuitsFixedList(d: nat, ws: seq<Value>, v: Value)
    requires v.FixedList?
    ensures Suits(FixedList(d, ws), v) <==> d == v.dim == |ws| && AllSuit(ws, v.items)
  {
  }

  lemma NotAllSuit(d: nat, ws: seq<Value>, v: Value, i: nat)
    requires v.FixedList? && i < |ws| == |v.items| && !Suits(ws[i], v.items[i])
    ensures !Suits(FixedList(d, ws), v)
  {
    hide Suits;
    SuitsFixedList(d, ws, v);
  }

  lemma SuitsFixed(d: nat, ws: seq<Value>, v: Value, w: Value)
    requires v.FixedList? && v.dim == |ws| == |v.items| && forall i :: 0 <= i < |ws| ==> ws[i] == w
    ensures Suits(FixedList(d, ws), v) <==> d == |ws| && forall i :: 0 <= i < |v.items| ==> Suits(w, v.items[i])
  {
    hide Suits;
    SuitsFixedList(d, ws, v);
    if AllSuit(ws, v.items) {
      forall i | 0 <= i < |v.items| ensures Suits(w, v.items[i]) {
        assert Suits(ws[i], v.items[i]);
      }
    }
  }

  lemma WellBuiltStep(nt: NamedType, es: seq<nat>, v: Value)
    requires Known(nt) && es != [] && v.FixedList?
    ensures var outer, inner := es[|es| - 1], es[..|es| - 1];
            WellBuiltFrom(v, nt, es) <==>
            (outer > 1 ==> inner == [] && outer < 0x1_0000_0000) &&
            forall i :: 0 <= i < |v.items| ==> WellBuiltFrom(v.items[i], nt, inner)
  {
    hide Known, ParseType, IsTuple, BuildBase;
    assert Items(v) == v.items;
  }

  lemma NoBytesStep(t: Type, es: seq<nat>, v: Value)
    requires es != [] && es[|es| - 1] > 0 && v.FixedList?
    ensures NoBytesInLists(v, ListType(t, es)) <==>
            forall i :: 0 <= i < |v.items| ==> NoBytesInLists(v.items[i], ListType(t, es[..|es| - 1]))
  {
  }

  lemma ListInLeaf(leaf: Value, x: Value)
    requires !leaf.DynList? && !leaf.FixedList? && (x.DynList? || x.FixedList?)
    ensures !Suits(leaf, x)
  {
  }

  lemma LeafIsNoList(nt: NamedType)
    requires Known(nt) && Leaf(nt).Ok?
    ensures !Leaf(nt).value.tree.DynList? && !Leaf(nt).value.tree.FixedList?
  {
    hide ParseType;
  }

  // End to end, for every string the factory accepts: a value of the type it names, encoded, and
  // decoded into the tree built from it, comes back exactly when it reaches no misbuilt T[N] and
  // none of its non-empty lists holds a bytesN.
  lemma FactoryRoundTrip(nt: NamedType, v: Value, prefix: Bytes, suffix: Bytes)
    requires Known(nt) && HasType(v, TypeOf(nt))
    requires |prefix + Encode(v) + suffix| <= INT_MAX
    ensures BuildNamed(nt).Ok?
    ensures Decode(BuildNamed(nt).value, prefix + Encode(v) + suffix, |prefix|) == Ok(v) <==>
            WellBuilt(v, nt) && NoBytesInLists(v, TypeOf(nt))
  {
    hide *;
    KnownBuilds(nt);
    NamedSuits(nt, v);
    RoundTrip(v, TypeOf(nt), BuildNamed(nt).value, prefix, suffix);
  }

  // ---------- the names of the standard ----------

  lemma SuffixDigits(name: string, n: nat, default: nat)
    requires n <= INT_MAX
    ensures StartsWith(name + Digits(n), name) && Suffix(name + Digits(n), name, default) == Ok(n)
    ensures StartsWith(name, name) && Suffix(name, name, default) == Ok(default)
  {
    hide Digits, Stoi;
    var base := name + Digits(n);
    assert base[..|name|] == name && base[|name|..] == Digits(n);
    StoiDigits(n);
  }

  // uintN and intN are built as unsigned and signed numbers exactly for N = 8, 16, ..., 256.
  lemma NumberNames(n: nat)
    requires n <= INT_MAX
    ensures var valid := 0 < n <= 256 && n % 8 == 0;
            && BuildBase("uint" + Digits(n)) == (if valid then Ok(Uint(0)) else Err)
            && BuildBase("int" + Digits(n)) == (if valid then Ok(Int(0)) else Err)
  {
    hide Suffix, Digits;
    SuffixDigits("uint", n, 256);
    SuffixDigits("int", n, 256);
    OtherStart("int" + Digits(n), "int", "uint");
  }

  // A string that starts with one name does not start with another of another first letter.
  lemma OtherStart(base: string, name: string, other: string)
    requires StartsWith(base, name) && name != [] && other != [] && name[0] != other[0]
    ensures !StartsWith(base, other)
  {
    assert base[0] == name[0];
  }

  // bytesN is built as a fixed N bytes exactly for N = 1, ..., 32.
  lemma BytesNames(n: nat)
    requires n <= INT_MAX
    ensures BuildBase("bytes" + Digits(n)) == if 0 < n <= 32 then Ok(FixedBytes(n, [])) else Err
  {
    hide Suffix, Digits;
    var base := "bytes" + Digits(n);
    SuffixDigits("bytes", n, 0);
    OtherStart(base, "bytes", "uint");
    OtherStart(base, "bytes", "int");
    OtherStart(base, "bytes", "string");
    assert base[1] == 'y' && "bool"[1] == 'o';
    assert |base| > 5;
  }

  lemma PlainNames()
    ensures BuildBase("uint") == Ok(Uint(0)) && BuildBase("int") == Ok(Int(0))
    ensures BuildBase("bool") == Ok(Bool(false)) && BuildBase("string") == Ok(Str([]))
    ensures BuildBase("bytes") == Ok(DynBytes([])) && BuildBase("address") == Ok(Addr(Zeros(20)))
  {
    hide Suffix;
    SuffixDigits("uint", 0, 256);
    SuffixDigits("int", 0, 256);
    OtherStart("int", "int", "uint");
    assert "bytes"[1] == 'y' && "bool"[1] == 'o';
    assert "address"[0] == 'a';
  }

  // Of bool, string and address only the start is looked at.
  lemma LongerNames(x: string)
    ensures BuildBase("bool" + x) == Ok(Bool(false))
    ensures BuildBase("string" + x) == Ok(Str([]))
    ensures BuildBase("address" + x) == Ok(Addr(Zeros(20)))
  {
    assert StartsWith("bool" + x, "bool") && StartsWith("string" + x, "string") && StartsWith("address" + x, "address");
    OtherStart("bool" + x, "bool", "uint");
    OtherStart("bool" + x, "bool", "int");
    OtherStart("string" + x, "string", "uint");
    OtherStart("string" + x, "string", "int");
    OtherStart("string" + x, "string", "bool");
    OtherStart("address" + x, "address", "uint");
    OtherStart("address" + x, "address", "int");
    OtherStart("address" + x, "address", "bool");
    OtherStart("address" + x, "address", "string");
    OtherStart("address" + x, "address", "bytes");
  }

  // A tuple is any base that has the word in it.
  lemma TupleNames(before: string, after: string)
    ensures IsTuple(before + "tuple" + after)
  {
    var base := before + "tuple" + after;
    assert base[|before|..] == "tuple" + after;
  }

  // ---------- where the conditions bite ----------

  // uint[2][2]: the second row is a bare number.
  lemma NestedArrayMisbuilt()
    ensures BuildNamed(NamedType("uint[2][2]", [])) == Ok(FixedList(2, [FixedList(2, [Uint(0), Uint(0)]), Uint(0)]))
  {
    hide ParseType, Build, PrintExtents;
    PrintTwos();
    assert "uint" + "[2][2]" == "uint[2][2]";
    ParseUndoesPrint("uint", [2, 2]);
    BuildTwos(NamedType("uint[2][2]", []));
  }

  lemma BuildTwos(nt: NamedType)
    ensures Build(nt, "uint", [2, 2]) == Ok(Built(FixedList(2, [FixedList(2, [Uint(0), Uint(0)]), Uint(0)]), []))
  {
    hide Build, BuildCopies;
    var row := FixedList(2, [Uint(0), Uint(0)]);
    BuildUint(nt);
    CopiesOfLeaf(nt, "uint", 2, Uint(0));
    CopiesOfLeaf(nt, "uint", 1, Uint(0));
    assert Repeat(Uint(0), 2) == [Uint(0), Uint(0)] && Repeat(Uint(0), 1) == [Uint(0)];
    BuildFixed(nt, "uint", [2]);
    BuildFixed(nt, "uint", [2, 2]);
    assert [2, 2][..1] == [2] && [2][..0] == [];
    assert Build(nt, "uint", [2]) == Ok(Built(row, []));
    CopiesStep(nt, "uint", [2], 2);
    assert [row] + [Uint(0)] == [row, Uint(0)];
  }

  lemma BuildFixed(nt: NamedType, base: string, es: seq<nat>)
    requires es != [] && es[|es| - 1] == 2
    ensures var list := BuildCopies(nt, base, es[..|es| - 1], 2);
            Build(nt, base, es) == if list.Err? then Err else Ok(Built(FixedList(2, list.value.trees), list.value.left))
  {
    hide BuildCopies;
  }

  lemma CopiesStep(nt: NamedType, base: string, es: seq<nat>, n: nat)
    requires n > 0 && Build(nt, base, es).Ok?
    ensures var first := Build(nt, base, es).value;
            BuildCopies(nt, base, es, n) == After([first.tree], BuildCopies(nt, base, first.left, n - 1))
  {
    hide Build;
  }

  lemma PrintTwos()
    ensures PrintExtents([2, 2]) == "[2][2]"
  {
    assert PrintExtent(2) == "[2]";
    assert [2, 2][1..] == [2] && [2][1..] == [];
    assert PrintExtents([2]) == "[2]";
  }

  lemma BuildUint(nt: NamedType)
    ensures Build(nt, "uint", []) == Ok(Built(Uint(0), []))
  {
    assert !IsTuple("uint");
    assert StartsWith("uint", "uint");
  }

  // bytes32[]: no list with elements can be decoded into the tree built for it.
  lemma BytesListLost(buf: Bytes, off: nat)
    requires ReadWord(buf, off).Ok? && ReadWord(buf, off).value > 0
    ensures BuildNamed(NamedType("bytes32[]", [])) == Ok(DynList([FixedBytes(32, [])]))
    ensures Decode(BuildNamed(NamedType("bytes32[]", [])).value, buf, off) == Err
  {
    hide ParseType, BuildBase, ReadWord, IsTuple;
    BytesListType();
    BuildList(NamedType("bytes32[]", []), "bytes32", FixedBytes(32, []));
  }

  lemma BuildList(nt: NamedType, base: string, leaf: Value)
    requires BuildBase(base) == Ok(leaf) && !IsTuple(base)
    ensures Build(nt, base, [0]) == Ok(Built(DynList([leaf]), []))
  {
    hide BuildBase, IsTuple;
    assert [0][..0] == [];
  }

  lemma BytesListType()
    ensures ParseType("bytes32[]") == Ok(Parsed("bytes32", [0]))
    ensures BuildBase("bytes32") == Ok(FixedBytes(32, []))
    ensures !IsTuple("bytes32")
  {
    hide ParseType, PrintExtents, BuildBase;
    PrintEmpty();
    assert "bytes32" + "[]" == "bytes32[]";
    ParseUndoesPrint("bytes32", [0]);
    assert "bytes32"[5..] == "32";
    assert "bytes" <= "bytes32";
    Stoi32();
    BuildBytes("bytes32", 32);
  }

  lemma BuildBytes(base: string, n: nat)
    requires |base| > 5 && base[..5] == "bytes" && Stoi(base[5..]) == Ok(n) && 0 < n <= 32
    ensures BuildBase(base) == Ok(FixedBytes(n, []))
  {
    hide Stoi;
    assert base[0] == base[..5][0] == 'b' && base[1] == base[..5][1] == 'y';
    assert !StartsWith(base, "uint") && !StartsWith(base, "int") && !StartsWith(base, "string");
    assert !StartsWith(base, "bool") by { assert "bool"[1] == 'o'; }
    assert StartsWith(base, "bytes");
  }

  lemma PrintEmpty()
    ensures PrintExtents([0]) == "[]"
  {
    assert PrintExtent(0) == "[]" && [0][1..] == [];
  }

  lemma Stoi32()
    ensures Stoi("32") == Ok(32)
  {
    hide Stoi;
    assert Digits(3) == "3";
    assert Digits(32) == "32";
    StoiDigits(32);
  }
}
