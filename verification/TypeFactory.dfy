/** ContractABIDefinitionFactory::buildAbstractType: from a type string to a template tree. */
module TypeFactory {
  import opened Words
  import opened AbiTypes
  import opened TypeStrings

  datatype NamedType = NamedType(typeName: string, components: seq<NamedType>)

  // A tree, and the extents its shared helper is left with.
  datatype Built = Built(tree: Value, left: seq<nat>)
  datatype BuiltList = BuiltList(trees: seq<Value>, left: seq<nat>)

  predicate StartsWith(s: string, prefix: string) {
    prefix <= s
  }

  predicate IsTuple(base: string) {
    exists i :: 0 <= i <= |base| && StartsWith(base[i..], "tuple")
  }

  // The number after a type name, as uintN and bytesN carry it.
  function Suffix(base: string, name: string, default: nat): Result<nat>
    requires StartsWith(base, name)
  {
    if |base| == |name| then Ok(default)
    else
      var n :- Stoi(base[|name|..]);
      Ok(SizeT(n))
  }

  predicate ValidExtent(extent: nat) {
    1 <= extent <= 256 && extent % 8 == 0
  }

  // buildBaseAbstractType
  function BuildBase(base: string): Result<Value> {
    if StartsWith(base, "uint") then
      var extent :- Suffix(base, "uint", 256);
      if ValidExtent(extent) then Ok(Uint(0)) else Err
    else if StartsWith(base, "int") then
      var extent :- Suffix(base, "int", 256);
      if ValidExtent(extent) then Ok(Int(0)) else Err
    else if StartsWith(base, "bool") then Ok(Bool(false))
    else if StartsWith(base, "string") then Ok(Str([]))
    else if base == "bytes" then Ok(DynBytes([]))
    else if StartsWith(base, "bytes") then
      var n :- Suffix(base, "bytes", 0);
      if 0 < n <= 32 then Ok(FixedBytes(n, [])) else Err
    else if StartsWith(base, "address") then Ok(Addr(Zeros(20)))
    else Err
  }

  // buildAbstractType with a helper that stands at extents es.
  function Build(nt: NamedType, base: string, es: seq<nat>): (r: Result<Built>)
    ensures r.Ok? ==> r.value.left == []
    decreases nt, |es|, 0
  {
    if es == [] then
      if IsTuple(base) then
        var members :- BuildMembers(nt.components);
        Ok(Built(Struct(members), []))
      else
        var leaf :- BuildBase(base);
        Ok(Built(leaf, []))
    else
      var outer, inner := es[|es| - 1], es[..|es| - 1];
      if outer > 0 then
        var list :- BuildCopies(nt, base, inner, outer);
        Ok(Built(FixedList(outer % 0x1_0000_0000, list.trees), list.left))
      else
        var element :- Build(nt, base, inner);
        Ok(Built(DynList([element.tree]), element.left))
  }

  // The n members of a T[N]: each takes up the helper where the one before left it.
  function BuildCopies(nt: NamedType, base: string, es: seq<nat>, n: nat): (r: Result<BuiltList>)
    ensures r.Ok? ==> |r.value.trees| == n && (n > 0 ==> r.value.left == [])
    decreases nt, |es|, n + 1
  {
    if n == 0 then Ok(BuiltList([], es))
    else
      var first :- Build(nt, base, es);
      var rest :- BuildCopies(nt, base, first.left, n - 1);
      Ok(BuiltList([first.tree] + rest.trees, rest.left))
  }

  // buildTuple: every component has a helper of its own.
  function BuildMembers(components: seq<NamedType>): Result<seq<Value>>
    decreases components
  {
    if components == [] then Ok([])
    else
      var first :- BuildNamed(components[0]);
      var rest :- BuildMembers(components[1..]);
      Ok([first] + rest)
  }

  function BuildNamed(nt: NamedType): Result<Value>
    decreases nt
  {
    var parsed :- ParseType(nt.typeName);
    var built :- Build(nt, parsed.base, parsed.extents);
    Ok(built.tree)
  }

  // ---------- the same on a shared helper object ----------

  method BuildAbstractType(nt: NamedType, helper: NamedTypeHelper) returns (r: Result<Value>)
    modifies helper`extents
    ensures var spec := Build(nt, helper.baseType, old(helper.extents));
            && (r.Ok? <==> spec.Ok?)
            && (r.Ok? ==> spec == Ok(Built(r.value, helper.extents)))
    decreases nt, |helper.extents|, 0
  {
    if |helper.extents| > 0 {
      var outer := helper.extents[|helper.extents| - 1];
      var _ := helper.RemoveExtent();
      if outer > 0 {
        var list := BuildFixedList(nt, helper, outer);
        r := if list.Err? then Err else Ok(FixedList(outer % 0x1_0000_0000, list.value));
      } else {
        var element := BuildAbstractType(nt, helper);
        r := if element.Err? then Err else Ok(DynList([element.value]));
      }
    } else if IsTuple(helper.baseType) {
      var members := BuildTuple(nt.components);
      r := if members.Err? then Err else Ok(Struct(members.value));
    } else {
      r := BuildBase(helper.baseType);
    }
  }

  // The loop of buildFixedList; all members use the one helper.
  method BuildFixedList(nt: NamedType, helper: NamedTypeHelper, n: nat) returns (r: Result<seq<Value>>)
    modifies helper`extents
    ensures var spec := BuildCopies(nt, helper.baseType, old(helper.extents), n);
            && (r.Ok? <==> spec.Ok?)
            && (r.Ok? ==> spec == Ok(BuiltList(r.value, helper.extents)))
    decreases nt, |helper.extents|, 1
  {
    var items := [];
    ghost var spec := BuildCopies(nt, helper.baseType, helper.extents, n);
    ghost var start := |helper.extents|;
    AfterStep([], Bool(false), spec);
    for i := 0 to n
      invariant |helper.extents| <= start && helper.baseType == old(helper.baseType)
      invariant spec == After(items, BuildCopies(nt, helper.baseType, helper.extents, n - i))
    {
      var element := BuildAbstractType(nt, helper);
      if element.Err? {
        return Err;
      }
      AfterStep(items, element.value, BuildCopies(nt, helper.baseType, helper.extents, n - i - 1));
      items := items + [element.value];
    }
    assert items + [] == items;
    r := Ok(items);
  }

  ghost function After(front: seq<Value>, rest: Result<BuiltList>): Result<BuiltList> {
    if rest.Err? then Err else Ok(BuiltList(front + rest.value.trees, rest.value.left))
  }

  lemma AfterStep(front: seq<Value>, v: Value, rest: Result<BuiltList>)
    ensures After([], rest) == rest
    ensures After(front + [v], rest) == After(front, After([v], rest))
  {
    if rest.Ok? {
      assert [] + rest.value.trees == rest.value.trees;
      assert front + [v] + rest.value.trees == front + ([v] + rest.value.trees);
    }
  }

  method BuildTuple(components: seq<NamedType>) returns (r: Result<seq<Value>>)
    ensures r == BuildMembers(components)
    decreases components
  {
    var members := [];
    PrependStep([], Bool(false), BuildMembers(components));
    assert components[0..] == components;
    for i := 0 to |components|
      invariant BuildMembers(components) == Prepend(members, BuildMembers(components[i..]))
    {
      var helper := new NamedTypeHelper();
      var ok := helper.Reset(components[i].typeName);
      if !ok {
        return Err;
      }
      var member := BuildAbstractType(components[i], helper);
      if member.Err? {
        return Err;
      }
      assert components[i..][1..] == components[i + 1..];
      PrependStep(members, member.value, BuildMembers(components[i + 1..]));
      members := members + [member.value];
    }
    assert members + [] == members;
    r := Ok(members);
  }

  // ---------- the shape of what is built ----------

  // What a type string with these extents means: the last bracket is the outermost.
  function Homogeneous(leaf: Value, es: seq<nat>): Value
    decreases |es|
  {
    if es == [] then leaf
    else
      var outer, inner := es[|es| - 1], Homogeneous(leaf, es[..|es| - 1]);
      if outer > 0 then FixedList(outer, Repeat(inner, outer)) else DynList([inner])
  }

  // Every fixed extent but the innermost is 1.
  ghost predicate OuterExtentsAreOne(es: seq<nat>) {
    forall i :: 1 <= i < |es| ==> es[i] <= 1
  }

  // Every extent fits the 32 bits of a dimension. A negative one in a string does not.
  ghost predicate ExtentsFit(es: seq<nat>) {
    forall i :: 0 <= i < |es| ==> es[i] < 0x1_0000_0000
  }

  lemma {:induction false} CopiesOfLeaf(nt: NamedType, base: string, n: nat, leaf: Value)
    requires Build(nt, base, []) == Ok(Built(leaf, []))
    ensures BuildCopies(nt, base, [], n) == Ok(BuiltList(Repeat(leaf, n), []))
  {
    if n == 0 {
    } else {
      CopiesOfLeaf(nt, base, n - 1, leaf);
      assert Repeat(leaf, n) == [leaf] + Repeat(leaf, n - 1);
    }
  }

  // The tree has the meaning of its type string exactly when only the innermost fixed extent
  // is above 1, as further members of an outer T[N] find the helper used up, and no extent is
  // cut off.
  lemma {:induction false} BuildShape(nt: NamedType, base: string, es: seq<nat>, leaf: Value)
    requires Build(nt, base, []) == Ok(Built(leaf, []))
    ensures Build(nt, base, es).Ok?
    ensures Build(nt, base, es).value.tree == Homogeneous(leaf, es) <==> OuterExtentsAreOne(es) && ExtentsFit(es)
    decreases |es|
  {
    if es == [] {
    } else {
      var outer, inner := es[|es| - 1], es[..|es| - 1];
      BuildShape(nt, base, inner, leaf);
      ConditionStep(es);
      if outer > 0 {
        CopiesShape(nt, base, inner, outer, leaf);
      }
    }
  }

  lemma ConditionStep(es: seq<nat>)
    requires es != []
    ensures var outer, inner := es[|es| - 1], es[..|es| - 1];
            && (OuterExtentsAreOne(es) <==> OuterExtentsAreOne(inner) && (inner == [] || outer <= 1))
            && (ExtentsFit(es) <==> ExtentsFit(inner) && outer < 0x1_0000_0000)
  {
    var inner := es[..|es| - 1];
    assert forall i :: 0 <= i < |inner| ==> inner[i] == es[i];
    if OuterExtentsAreOne(es) && inner != [] {
      assert es[|es| - 1] <= 1;
    }
  }

  lemma CopiesShape(nt: NamedType, base: string, inner: seq<nat>, n: nat, leaf: Value)
    requires Build(nt, base, []) == Ok(Built(leaf, []))
    requires Build(nt, base, inner).Ok? && n > 0
    ensures BuildCopies(nt, base, inner, n).Ok?
    ensures BuildCopies(nt, base, inner, n).value.trees == Repeat(Homogeneous(leaf, inner), n) <==>
            Build(nt, base, inner).value.tree == Homogeneous(leaf, inner) && (inner == [] || n <= 1)
  {
    CopiesOfLeaf(nt, base, n - 1, leaf);
    var first, h := Build(nt, base, inner).value.tree, Homogeneous(leaf, inner);
    var trees := [first] + Repeat(leaf, n - 1);
    assert BuildCopies(nt, base, inner, n).value.trees == trees;
    assert Repeat(h, n)[0] == h && trees[0] == first;
    if n > 1 {
      assert trees[1] == leaf && Repeat(h, n)[1] == h;
      assert !leaf.DynList? && !leaf.FixedList?;
    }
    if first == h && (inner == [] || n <= 1) {
      assert trees == Repeat(h, n);
    }
  }
}
