/** Service: which endpoint serves which node of which group. */
module Routing {
  import opened Words

  // index is m_group2Node2Endpoints; info is m_endPoint2GroupId2GroupInfo, where of a GroupInfo
  // only the node names matter.
  datatype Routes = Routes(index: map<string, map<string, set<string>>>, info: map<string, map<string, set<string>>>)

  // Endpoints the index holds for a node.
  function Endpoints(r: Routes, g: string, n: string): set<string> {
    if g in r.index && n in r.index[g] then r.index[g][n] else {}
  }

  // Nodes an endpoint has reported for a group.
  function Reported(r: Routes, e: string, g: string): set<string> {
    if e in r.info && g in r.info[e] then r.info[e][g] else {}
  }

  // ---------- steps ----------

  // One group's nodes without an endpoint; nodes left without any are dropped.
  function WithoutEndpoint(nodes: map<string, set<string>>, e: string): map<string, set<string>> {
    map n | n in nodes && nodes[n] - {e} != {} :: nodes[n] - {e}
  }

  // The index without an endpoint; groups left without nodes are dropped.
  function ClearIndex(index: map<string, map<string, set<string>>>, e: string): map<string, map<string, set<string>>> {
    map g | g in index && WithoutEndpoint(index[g], e) != map[] :: WithoutEndpoint(index[g], e)
  }

  // clearGroupInfoByEp(endPoint), on disconnect
  function Disconnect(r: Routes, e: string): Routes {
    if e == "" then r else Routes(ClearIndex(r.index, e), r.info - {e})
  }

  // One group's nodes with e added to each of `names`.
  function WithNodes(nodes: map<string, set<string>>, names: set<string>, e: string): map<string, set<string>> {
    map n | n in nodes.Keys + names ::
      (if n in nodes then nodes[n] else {}) + (if n in names then {e} else {})
  }

  lemma WithNoNodes(nodes: map<string, set<string>>, e: string)
    ensures WithNodes(nodes, {}, e) == nodes
  {
    assert forall n :: n in nodes ==> nodes[n] + {} == nodes[n];
  }

  lemma WithNodesStep(nodes: map<string, set<string>>, names: set<string>, n: string, e: string)
    ensures var with := WithNodes(nodes, names, e);
            WithNodes(nodes, names + {n}, e) == with[n := (if n in with then with[n] else {}) + {e}]
  {
    var with, next := WithNodes(nodes, names, e), WithNodes(nodes, names + {n}, e);
    var step := with[n := (if n in with then with[n] else {}) + {e}];
    assert next.Keys == step.Keys;
    forall m | m in next ensures next[m] == step[m] {
    }
  }

  // updateGroupInfoByEp
  function Update(r: Routes, e: string, g: string, names: set<string>): Routes {
    var groups := if e in r.info then r.info[e] else map[];
    var nodes := if g in r.index then WithoutEndpoint(r.index[g], e) else map[];
    Routes(r.index[g := WithNodes(nodes, names, e)], r.info[e := groups[g := names]])
  }

  datatype Event = Notified(endpoint: string, group: string, names: set<string>) | Disconnected(endpoint: string)

  function Step(r: Routes, ev: Event): Routes {
    match ev
    case Notified(e, g, names) => Update(r, e, g, names)
    case Disconnected(e) => Disconnect(r, e)
  }

  function Run(evs: seq<Event>): Routes {
    if evs == [] then Routes(map[], map[]) else Step(Run(evs[..|evs| - 1]), evs[|evs| - 1])
  }

  // ---------- the index agrees with what endpoints reported ----------

  ghost predicate Consistent(r: Routes) {
    && (forall g, n, e :: e in Endpoints(r, g, n) <==> n in Reported(r, e, g))
    && (forall g, n :: g in r.index && n in r.index[g] ==> r.index[g][n] != {})
  }

  lemma DisconnectKeeps(r: Routes, e: string)
    requires Consistent(r)
    ensures Consistent(Disconnect(r, e))
    ensures forall g, n :: e != "" ==> e !in Endpoints(Disconnect(r, e), g, n)
    ensures forall g, n, o :: o != e ==> (o in Endpoints(Disconnect(r, e), g, n) <==> o in Endpoints(r, g, n))
  {
    if e != "" {
      var r' := Disconnect(r, e);
      forall g, n ensures Endpoints(r', g, n) == Endpoints(r, g, n) - {e} {
        if g in r.index && n in r.index[g] && r.index[g][n] - {e} != {} {
          assert n in WithoutEndpoint(r.index[g], e);
          assert WithoutEndpoint(r.index[g], e) != map[];
        }
      }
      forall o, g ensures Reported(r', o, g) == if o == e then {} else Reported(r, o, g) {
      }
    }
  }

  // A disconnect leaves no group without nodes behind.
  lemma DisconnectDropsGroups(r: Routes, e: string, g: string)
    requires e != "" && g in Disconnect(r, e).index
    ensures Disconnect(r, e).index[g] != map[]
  {
  }

  lemma UpdatedEndpoints(r: Routes, e: string, g: string, names: set<string>, h: string, n: string)
    ensures Endpoints(Update(r, e, g, names), h, n) ==
            if h != g then Endpoints(r, h, n) else (Endpoints(r, g, n) - {e}) + (if n in names then {e} else {})
  {
    if h == g {
      var nodes := if g in r.index then WithoutEndpoint(r.index[g], e) else map[];
      assert (if n in nodes then nodes[n] else {}) == Endpoints(r, g, n) - {e};
      var with := WithNodes(nodes, names, e);
      assert n !in with ==> n !in nodes && n !in names;
    }
  }

  lemma UpdatedReports(r: Routes, e: string, g: string, names: set<string>, o: string, h: string)
    ensures Reported(Update(r, e, g, names), o, h) == if o == e && h == g then names else Reported(r, o, h)
  {
  }

  lemma UpdatedHasNoEmptyNode(r: Routes, e: string, g: string, names: set<string>, h: string, n: string)
    requires Consistent(r)
    requires var index := Update(r, e, g, names).index; h in index && n in index[h]
    ensures Endpoints(Update(r, e, g, names), h, n) != {}
  {
    if h == g {
      var nodes := if g in r.index then WithoutEndpoint(r.index[g], e) else map[];
      assert n in nodes ==> nodes[n] != {};
    }
  }

  lemma UpdateKeeps(r: Routes, e: string, g: string, names: set<string>)
    requires Consistent(r)
    ensures Consistent(Update(r, e, g, names))
    ensures Reported(Update(r, e, g, names), e, g) == names
  {
    hide Update;
    var r' := Update(r, e, g, names);
    UpdatedReports(r, e, g, names, e, g);
    forall h, n, o ensures o in Endpoints(r', h, n) <==> n in Reported(r', o, h) {
      UpdatedEndpoints(r, e, g, names, h, n);
      UpdatedReports(r, e, g, names, o, h);
      assert o in Endpoints(r, h, n) <==> n in Reported(r, o, h);
    }
    forall h, n | h in r'.index && n in r'.index[h] ensures r'.index[h][n] != {} {
      UpdatedHasNoEmptyNode(r, e, g, names, h, n);
    }
  }

  // After any sequence of notifications and disconnects.
  lemma {:induction false} AlwaysConsistent(evs: seq<Event>)
    ensures Consistent(Run(evs))
  {
    if evs == [] {
    } else {
      var before, ev := evs[..|evs| - 1], evs[|evs| - 1];
      AlwaysConsistent(before);
      match ev
      case Notified(e, g, names) => UpdateKeeps(Run(before), e, g, names);
      case Disconnected(e) => DisconnectKeeps(Run(before), e);
    }
  }

  // The nodes e last reported for g, unless it disconnected since.
  function LastReport(evs: seq<Event>, e: string, g: string): set<string> {
    if evs == [] then {}
    else
      match evs[|evs| - 1]
      case Notified(o, h, names) => if o == e && h == g then names else LastReport(evs[..|evs| - 1], e, g)
      case Disconnected(o) => if o == e && e != "" then {} else LastReport(evs[..|evs| - 1], e, g)
  }

  lemma {:induction false} ReportsFollowHistory(evs: seq<Event>, e: string, g: string)
    ensures Reported(Run(evs), e, g) == LastReport(evs, e, g)
  {
    if evs == [] {
    } else {
      var before, ev := evs[..|evs| - 1], evs[|evs| - 1];
      ReportsFollowHistory(before, e, g);
      if ev.Notified? {
        UpdatedReports(Run(before), ev.endpoint, ev.group, ev.names, e, g);
      }
    }
  }

  // The index holds e for node n of g exactly when e's last report for g names n.
  lemma IndexFollowsHistory(evs: seq<Event>, g: string, n: string, e: string)
    ensures e in Endpoints(Run(evs), g, n) <==> n in LastReport(evs, e, g)
  {
    AlwaysConsistent(evs);
    ReportsFollowHistory(evs, e, g);
  }

  // ---------- queries ----------

  predicate HasEndPointOfNode(r: Routes, g: string, n: string) {
    g in r.index && n in r.index[g]
  }

  function EndPointsByGroup(r: Routes, g: string): set<string> {
    if g in r.index then set n, e | n in r.index[g] && e in r.index[g][n] :: e else {}
  }

  // getGroupInfo: the node names of all endpoints that know the group, or nothing.
  function GroupNodes(r: Routes, g: string): Option<set<string>> {
    if exists e :: e in r.info && g in r.info[e]
    then Some(set e, n | e in r.info && g in r.info[e] && n in r.info[e][g] :: n)
    else None
  }

  // A node is available exactly when it has an endpoint, and every endpoint of it reported it.
  lemma AvailableMeansRouted(r: Routes, g: string, n: string)
    requires Consistent(r)
    ensures HasEndPointOfNode(r, g, n) <==> Endpoints(r, g, n) != {}
    ensures HasEndPointOfNode(r, g, n) <==> exists e :: n in Reported(r, e, g)
  {
    if Endpoints(r, g, n) != {} {
      var e :| e in Endpoints(r, g, n);
      assert n in Reported(r, e, g);
    }
    if e :| n in Reported(r, e, g) {
      assert e in Endpoints(r, g, n);
    }
  }

  // getGroupInfo lists exactly the nodes the index has for the group.
  lemma GroupNodesAreIndexed(r: Routes, g: string)
    requires Consistent(r)
    ensures match GroupNodes(r, g)
            case Some(names) => names == if g in r.index then r.index[g].Keys else {}
            case None => g in r.index ==> r.index[g].Keys == {}
  {
    var keys := if g in r.index then r.index[g].Keys else {};
    forall n ensures n in keys <==> exists e :: n in Reported(r, e, g) {
      AvailableMeansRouted(r, g, n);
    }
    match GroupNodes(r, g)
    case Some(names) =>
      forall n ensures n in names <==> n in keys {
        if n in keys {
          var e :| n in Reported(r, e, g);
          assert e in r.info && g in r.info[e] && n in r.info[e][g];
        }
        if n in names {
          var e :| e in r.info && g in r.info[e] && n in r.info[e][g];
          assert n in Reported(r, e, g);
        }
      }
      assert names == keys;
    case None =>
  }
}
