/** Service: the object that holds the routing index and the block heights. */
module Service {
  import opened Words
  import opened Routing
  import BlockHeights

  class Service {
    // group => node => endpoints
    var group2Node2Endpoints: map<string, map<string, set<string>>>
    // endpoint => group => node names of its group info
    var endPoint2Group2Nodes: map<string, map<string, set<string>>>
    // group => block number
    var group2BlockNumber: map<string, int>
    // group => nodes at that block number
    var group2LatestNodes: map<string, set<string>>
    // group => callbacks, by number
    var group2Callbacks: map<string, seq<nat>>

    ghost function Routes(): Routes
      reads this
    {
      Routing.Routes(group2Node2Endpoints, endPoint2Group2Nodes)
    }

    ghost function Heights(): BlockHeights.Heights
      reads this
    {
      BlockHeights.Heights(group2BlockNumber, group2LatestNodes)
    }

    constructor ()
      ensures Routes() == Run([]) && Heights() == BlockHeights.Run([]) && group2Callbacks == map[]
    {
      group2Node2Endpoints, endPoint2Group2Nodes := map[], map[];
      group2BlockNumber, group2LatestNodes, group2Callbacks := map[], map[], map[];
    }

    // ---------- group info ----------

    method OnDisconnect(endPoint: string)
      modifies this`group2Node2Endpoints, this`endPoint2Group2Nodes
      ensures Routes() == Disconnect(old(Routes()), endPoint)
    {
      if endPoint != "" {
        ClearGroupInfoByEp(endPoint);
      }
    }

    method ClearGroupInfoByEp(endPoint: string)
      requires endPoint != ""
      modifies this`group2Node2Endpoints, this`endPoint2Group2Nodes
      ensures Routes() == Disconnect(old(Routes()), endPoint)
    {
      group2Node2Endpoints := ClearGroups(group2Node2Endpoints, endPoint);
      endPoint2Group2Nodes := endPoint2Group2Nodes - {endPoint};
    }

    static method ClearGroups(start: map<string, map<string, set<string>>>, endPoint: string)
      returns (result: map<string, map<string, set<string>>>)
      ensures result == ClearIndex(start, endPoint)
    {
      result := start;
      var todo := start.Keys;
      while todo != {}
        invariant todo <= start.Keys && result.Keys <= start.Keys
        invariant forall g :: g in todo ==> g in result && result[g] == start[g]
        invariant forall g :: g in start.Keys - todo ==>
                    && (g in result <==> WithoutEndpoint(start[g], endPoint) != map[])
                    && (g in result ==> result[g] == WithoutEndpoint(start[g], endPoint))
        decreases todo
      {
        var g :| g in todo;
        var nodes := ClearNodes(result[g], endPoint);
        result := if nodes == map[] then result - {g} else result[g := nodes];
        todo := todo - {g};
      }
    }

    // The inner loop: erase the endpoint from every node, and the nodes left empty.
    static method ClearNodes(nodes: map<string, set<string>>, endPoint: string) returns (result: map<string, set<string>>)
      ensures result == WithoutEndpoint(nodes, endPoint)
    {
      result := nodes;
      var todo := nodes.Keys;
      while todo != {}
        invariant todo <= nodes.Keys && result.Keys <= nodes.Keys
        invariant forall n :: n in todo ==> n in result && result[n] == nodes[n]
        invariant forall n :: n in nodes.Keys - todo ==>
                    && (n in result <==> nodes[n] - {endPoint} != {})
                    && (n in result ==> result[n] == nodes[n] - {endPoint})
        decreases todo
      {
        var n :| n in todo;
        var rest := result[n] - {endPoint};
        result := if rest == {} then result - {n} else result[n := rest];
        todo := todo - {n};
      }
    }

    method UpdateGroupInfoByEp(endPoint: string, group: string, names: set<string>)
      modifies this`group2Node2Endpoints, this`endPoint2Group2Nodes
      ensures Routes() == Update(old(Routes()), endPoint, group, names)
    {
      var groups := if endPoint in endPoint2Group2Nodes then endPoint2Group2Nodes[endPoint] else map[];
      endPoint2Group2Nodes := endPoint2Group2Nodes[endPoint := groups[group := names]];
      // remove first
      var nodes := map[];
      if group in group2Node2Endpoints {
        nodes := ClearNodes(group2Node2Endpoints[group], endPoint);
      }
      // update
      nodes := AddNodes(nodes, names, endPoint);
      group2Node2Endpoints := group2Node2Endpoints[group := nodes];
    }

    static method AddNodes(start: map<string, set<string>>, names: set<string>, endPoint: string)
      returns (nodes: map<string, set<string>>)
      ensures nodes == WithNodes(start, names, endPoint)
    {
      hide WithNodes;
      nodes := start;
      WithNoNodes(start, endPoint);
      var todo, done := names, {};
      while todo != {}
        invariant done + todo == names
        invariant nodes == WithNodes(start, done, endPoint)
        decreases todo
      {
        var n :| n in todo;
        WithNodesStep(start, done, n, endPoint);
        nodes := nodes[n := (if n in nodes then nodes[n] else {}) + {endPoint}];
        todo, done := todo - {n}, done + {n};
      }
      assert done == names;
    }

    // ---------- queries ----------

    method GetGroupInfo(group: string) returns (names: Option<set<string>>)
      ensures names == GroupNodes(Routes(), group)
    {
      var info := endPoint2Group2Nodes;
      var found, all := false, {};
      var todo := info.Keys;
      while todo != {}
        invariant todo <= info.Keys
        invariant found <==> exists e :: e in info.Keys - todo && group in info[e]
        invariant forall n :: n in all <==> exists e :: e in info.Keys - todo && group in info[e] && n in info[e][group]
        decreases todo
      {
        var e :| e in todo;
        if group in info[e] {
          found := true;
          all := all + info[e][group];
        }
        todo := todo - {e};
      }
      assert info.Keys - todo == info.Keys;
      assert all == set e, n | e in info && group in info[e] && n in info[e][group] :: n;
      names := if found then Some(all) else None;
    }

    // asyncSendMessageByGroupAndNode: the endpoint a message goes to, if any.
    method SelectEndPoint(group: string, node: string, sessions: set<string>) returns (endPoint: Option<string>)
      ensures var r := Routes();
              var choices := if group == "" then sessions
                             else if node == "" then EndPointsByGroup(r, group)
                             else Endpoints(r, group, node);
              if choices == {} then endPoint.None? else endPoint.Some? && endPoint.value in choices
    {
      var choices := sessions;
      if group != "" {
        choices := {};
        if group in group2Node2Endpoints {
          var nodes := group2Node2Endpoints[group];
          if node == "" {
            choices := set n, e | n in nodes && e in nodes[n] :: e;
          } else if node in nodes {
            choices := nodes[node];
          }
        }
      }
      if choices == {} {
        return None;
      }
      var e :| e in choices;
      endPoint := Some(e);
    }

    // ---------- block numbers ----------

    method UpdateGroupBlockNumber(group: string, block: int) returns (isNew: bool, isHighest: bool)
      modifies this`group2BlockNumber
      ensures BlockHeights.Outcome(Heights(), isNew, isHighest) == BlockHeights.UpdateHeight(old(Heights()), group, block)
    {
      isNew, isHighest := false, false;
      if group in group2BlockNumber {
        if block > group2BlockNumber[group] {
          group2BlockNumber := group2BlockNumber[group := block];
          isNew, isHighest := true, true;
        } else if block == group2BlockNumber[group] {
          isHighest := true;
        }
      } else {
        group2BlockNumber := group2BlockNumber[group := block];
        isNew, isHighest := true, true;
      }
    }

    method OnRecvBlockNotifier(group: string, node: string, block: int) returns (called: seq<nat>)
      modifies this`group2BlockNumber, this`group2LatestNodes
      ensures Heights() == BlockHeights.Notify(old(Heights()), group, node, block)
      ensures called == if BlockHeights.UpdateHeight(old(Heights()), group, block).isNew then Callbacks(group) else []
    {
      var isNew, isHighest := UpdateGroupBlockNumber(group, block);
      if isNew {
        group2LatestNodes := group2LatestNodes[group := {}];
      }
      if isHighest {
        var nodes := if group in group2LatestNodes then group2LatestNodes[group] else {};
        group2LatestNodes := group2LatestNodes[group := nodes + {node}];
        assert {} + {node} == {node};
        assert isNew ==> group2LatestNodes == old(group2LatestNodes)[group := {node}];
      }
      called := [];
      if isNew && group in group2Callbacks {
        var callbacks := group2Callbacks[group];
        for i := 0 to |callbacks|
          invariant called == callbacks[..i]
        {
          called := called + [callbacks[i]];
        }
        assert callbacks[..|callbacks|] == callbacks;
      }
    }

    function Callbacks(group: string): seq<nat>
      reads this
    {
      if group in group2Callbacks then group2Callbacks[group] else []
    }

    method RegisterBlockNumberNotifier(group: string, callback: nat)
      modifies this`group2Callbacks
      ensures Callbacks(group) == old(Callbacks(group)) + [callback]
      ensures forall g :: g != group ==> Callbacks(g) == old(Callbacks(g))
    {
      group2Callbacks := group2Callbacks[group := Callbacks(group) + [callback]];
    }

    method RemoveBlockNumberInfo(group: string)
      modifies this`group2BlockNumber, this`group2LatestNodes, this`group2Callbacks
      ensures Heights() == BlockHeights.Remove(old(Heights()), group)
      ensures group2Callbacks == old(group2Callbacks) - {group}
    {
      group2Callbacks := group2Callbacks - {group};
      group2BlockNumber := group2BlockNumber - {group};
      group2LatestNodes := group2LatestNodes - {group};
    }

    // The latest nodes that have an endpoint.
    method GetHighestBlockNumberNodes(group: string) returns (nodes: set<string>)
      ensures nodes == set n | n in BlockHeights.Latest(Heights(), group) && HasEndPointOfNode(Routes(), group, n)
    {
      nodes := {};
      var todo := if group in group2LatestNodes then group2LatestNodes[group] else {};
      ghost var all := todo;
      while todo != {}
        invariant todo <= all
        invariant nodes == set n | n in all - todo && HasEndPointOfNode(Routes(), group, n)
        decreases todo
      {
        var n :| n in todo;
        if group in group2Node2Endpoints && n in group2Node2Endpoints[group] {
          nodes := nodes + {n};
        }
        todo := todo - {n};
      }
    }

    method RandomGetHighestBlockNumberNode(group: string) returns (node: Option<string>)
      ensures node.Some? ==>
                node.value in BlockHeights.Latest(Heights(), group) && HasEndPointOfNode(Routes(), group, node.value)
      ensures node.None? ==>
                forall n :: n in BlockHeights.Latest(Heights(), group) ==> !HasEndPointOfNode(Routes(), group, n)
    {
      var nodes := GetHighestBlockNumberNodes(group);
      if nodes == {} {
        assert forall n :: n in BlockHeights.Latest(Heights(), group) && HasEndPointOfNode(Routes(), group, n) ==> n in nodes;
        return None;
      }
      var n :| n in nodes;
      node := Some(n);
    }
  }

  // genericMethod: with no node named, the message goes to a highest node, or, if there is none,
  // with the empty name, which means any node of the group. It reaches an endpoint whenever the
  // group has one, and one whose last report named the node picked.
  method RouteToHighest(service: Service, group: string, sessions: set<string>, ghost evs: seq<Event>)
    returns (node: Option<string>, endPoint: Option<string>)
    requires service.Routes() == Run(evs)
    ensures node.Some? ==> node.value in BlockHeights.Latest(service.Heights(), group)
    ensures group == "" ==> if sessions == {} then endPoint.None? else endPoint.Some? && endPoint.value in sessions
    ensures group != "" && endPoint.Some? ==>
              exists n :: n in LastReport(evs, endPoint.value, group) && (node.Some? && node.value != "" ==> n == node.value)
    ensures group != "" && endPoint.None? ==>
              node.None? && forall e :: LastReport(evs, e, group) == {}
  {
    AlwaysConsistent(evs);
    node := service.RandomGetHighestBlockNumberNode(group);
    var name := if node.Some? then node.value else "";
    GroupHasEndPoint(Run(evs), group, name);
    if node.Some? {
      AvailableMeansRouted(Run(evs), group, name);
    }
    endPoint := service.SelectEndPoint(group, name, sessions);
    if group != "" {
      if endPoint.Some? {
        ghost var n :| endPoint.value in Endpoints(Run(evs), group, n) && (name != "" ==> n == name);
        IndexFollowsHistory(evs, group, n, endPoint.value);
      } else {
        forall e ensures LastReport(evs, e, group) == {} {
          NoReport(evs, group, e);
        }
      }
    }
  }

  lemma NoReport(evs: seq<Event>, group: string, e: string)
    requires EndPointsByGroup(Run(evs), group) == {}
    ensures LastReport(evs, e, group) == {}
  {
    if n :| n in LastReport(evs, e, group) {
      IndexFollowsHistory(evs, group, n, e);
      GroupHasEndPoint(Run(evs), group, n);
    }
  }

  lemma GroupHasEndPoint(r: Routes, g: string, n: string)
    ensures Endpoints(r, g, n) <= EndPointsByGroup(r, g)
    ensures forall e :: e in EndPointsByGroup(r, g) ==> exists m :: e in Endpoints(r, g, m)
  {
    forall e | e in EndPointsByGroup(r, g) ensures exists m :: e in Endpoints(r, g, m) {
      var m :| m in r.index[g] && e in r.index[g][m];
      assert e in Endpoints(r, g, m);
    }
  }
}
