/** Service: the highest block of each group and the nodes that reported it. */
module BlockHeights {

  datatype Heights = Heights(height: map<string, int>, latest: map<string, set<string>>)

  function Latest(h: Heights, g: string): set<string> {
    if g in h.latest then h.latest[g] else {}
  }

  datatype Outcome = Outcome(state: Heights, isNew: bool, isHighest: bool)

  // updateGroupBlockNumber
  function UpdateHeight(h: Heights, g: string, b: int): Outcome {
    if g !in h.height || b > h.height[g] then Outcome(h.(height := h.height[g := b]), true, true)
    else Outcome(h, false, b == h.height[g])
  }

  // onRecvBlockNotifier
  function Notify(h: Heights, g: string, n: string, b: int): Heights {
    var o := UpdateHeight(h, g, b);
    if o.isNew then o.state.(latest := o.state.latest[g := {n}])
    else if o.isHighest then o.state.(latest := o.state.latest[g := Latest(o.state, g) + {n}])
    else o.state
  }

  // removeBlockNumberInfo
  function Remove(h: Heights, g: string): Heights {
    Heights(h.height - {g}, h.latest - {g})
  }

  datatype Event =
    | Notified(group: string, node: string, block: int)
    | Handshaken(group: string, block: int)
    | Removed(group: string)

  function Step(h: Heights, e: Event): Heights {
    match e
    case Notified(g, n, b) => Notify(h, g, n, b)
    case Handshaken(g, b) => UpdateHeight(h, g, b).state
    case Removed(g) => Remove(h, g)
  }

  function Run(es: seq<Event>): Heights {
    if es == [] then Heights(map[], map[]) else Step(Run(es[..|es| - 1]), es[|es| - 1])
  }

  // What was said about g since it was last removed.
  function Since(es: seq<Event>, g: string): (s: seq<Event>)
    ensures forall i :: 0 <= i < |s| ==> !s[i].Removed? && s[i].group == g
  {
    if es == [] then []
    else
      var before, e := Since(es[..|es| - 1], g), es[|es| - 1];
      if e.group != g then before else if e.Removed? then [] else before + [e]
  }

  // ---------- heights ----------

  ghost predicate IsMaximum(b: int, s: seq<Event>)
    requires forall i :: 0 <= i < |s| ==> !s[i].Removed?
  {
    && (exists i :: 0 <= i < |s| && s[i].block == b)
    && (forall i :: 0 <= i < |s| ==> s[i].block <= b)
  }

  // The height is the maximum reported, by anyone, since the last removal.
  lemma {:induction false} HeightIsMaximum(es: seq<Event>, g: string)
    ensures g in Run(es).height <==> Since(es, g) != []
    ensures g in Run(es).height ==> IsMaximum(Run(es).height[g], Since(es, g))
    ensures g in Run(es).latest ==> g in Run(es).height
  {
    if es == [] {
    } else {
      var before, e := es[..|es| - 1], es[|es| - 1];
      HeightIsMaximum(before, g);
      var s, s' := Since(before, g), Since(es, g);
      if e.group == g && !e.Removed? {
        assert s'[|s|] == e;
        assert forall i :: 0 <= i < |s| ==> s'[i] == s[i];
      }
    }
  }

  // The heights announced to the callbacks of g since it was last removed.
  function Announced(es: seq<Event>, g: string): seq<int> {
    if es == [] then []
    else
      var before, e := es[..|es| - 1], es[|es| - 1];
      if e.group != g then Announced(before, g)
      else
        match e
        case Removed(_) => []
        case Handshaken(_, _) => Announced(before, g)
        case Notified(_, _, b) =>
          Announced(before, g) + if UpdateHeight(Run(before), g, b).isNew then [b] else []
  }

  // Strictly increasing, up to the height of g.
  ghost predicate Ascending(a: seq<int>, h: Heights, g: string) {
    && (forall i, j :: 0 <= i < j < |a| ==> a[i] < a[j])
    && (forall i :: 0 <= i < |a| ==> g in h.height && a[i] <= h.height[g])
  }

  lemma {:induction false} AnnouncementsIncrease(es: seq<Event>, g: string)
    ensures Ascending(Announced(es, g), Run(es), g)
  {
    if es == [] {
    } else {
      var before, e := es[..|es| - 1], es[|es| - 1];
      AnnouncementsIncrease(before, g);
      AnnouncementStep(Announced(before, g), Run(before), e, g);
    }
  }

  lemma AnnouncementStep(a: seq<int>, h: Heights, e: Event, g: string)
    requires Ascending(a, h, g)
    ensures e.group != g || e.Handshaken? ==> Ascending(a, Step(h, e), g)
    ensures e.group == g && e.Notified? ==>
              Ascending(a + if UpdateHeight(h, g, e.block).isNew then [e.block] else [], Step(h, e), g)
  {
    var h' := Step(h, e);
    if e.group != g {
      assert g in h'.height <==> g in h.height;
      assert g in h.height ==> h'.height[g] == h.height[g];
    } else if !e.Removed? {
      assert g in h'.height && e.block <= h'.height[g];
      assert g in h.height ==> h.height[g] <= h'.height[g];
      if e.Notified? && UpdateHeight(h, g, e.block).isNew {
        var more := a + [e.block];
        forall i | 0 <= i < |a| ensures more[i] == a[i] < e.block {
        }
      } else {
        assert a + [] == a;
      }
    }
  }

  // ---------- the latest nodes ----------

  // The latest nodes of g are exactly those that reported the current height.
  ghost predicate LatestIsExact(h: Heights, g: string, s: seq<Event>) {
    forall n :: n in Latest(h, g) <==> g in h.height && Reports(s, n, h.height[g])
  }

  ghost predicate Reports(s: seq<Event>, n: string, b: int) {
    exists i :: 0 <= i < |s| && s[i].Notified? && s[i].node == n && s[i].block == b
  }

  // Event i reported n with the highest block said up to then.
  ghost predicate LedAt(s: seq<Event>, i: nat, n: string) {
    && i < |s| && s[i].Notified? && s[i].node == n
    && forall j :: 0 <= j <= i ==> !s[j].Removed? && s[j].block <= s[i].block
  }

  // Event j says more than everything before it.
  ghost predicate Raises(s: seq<Event>, j: nat) {
    j < |s| && !s[j].Removed? && forall i :: 0 <= i < j ==> !s[i].Removed? && s[i].block < s[j].block
  }

  // n led at event k and no notification has raised the height since.
  ghost predicate Leads(s: seq<Event>, k: nat, n: string) {
    LedAt(s, k, n) && forall j: nat :: k < j && Raises(s, j) ==> s[j].Handshaken?
  }

  ghost predicate Leader(s: seq<Event>, n: string) {
    exists k: nat :: Leads(s, k, n)
  }

  lemma PrefixFacts(s: seq<Event>, e: Event, k: nat, n: string)
    requires k < |s|
    ensures Raises(s + [e], k) <==> Raises(s, k)
    ensures LedAt(s + [e], k, n) <==> LedAt(s, k, n)
  {
    var s' := s + [e];
    assert forall i :: 0 <= i < |s| ==> s'[i] == s[i];
  }

  // One more event: earlier leaders lead on unless it is a notification that raises the height,
  // and it leads itself if it is one that is nowhere exceeded.
  lemma LeadsStep(s: seq<Event>, e: Event, k: nat, n: string)
    ensures k < |s| ==> (Leads(s + [e], k, n) <==> Leads(s, k, n) && !(e.Notified? && Raises(s + [e], |s|)))
    ensures k >= |s| ==> (Leads(s + [e], k, n) <==> k == |s| && LedAt(s + [e], k, n))
  {
    hide Raises, LedAt;
    var s' := s + [e];
    RaisesBound(s, s');
    forall j: nat | j < |s| ensures Raises(s', j) <==> Raises(s, j) {
      PrefixFacts(s, e, j, n);
    }
    if k < |s| {
      PrefixFacts(s, e, k, n);
      assert forall j :: 0 <= j < |s| ==> s'[j] == s[j];
      assert Raises(s', |s|) && !e.Notified? ==> e.Handshaken? by { RaisesKind(s', |s|); }
    }
    LedAtBound(s', k, n);
  }

  lemma RaisesBound(s: seq<Event>, s': seq<Event>)
    ensures forall j: nat :: Raises(s, j) ==> j < |s|
    ensures forall j: nat :: Raises(s', j) ==> j < |s'|
  {
  }

  lemma RaisesKind(s: seq<Event>, j: nat)
    ensures Raises(s, j) ==> j < |s| && !s[j].Removed?
  {
  }

  lemma LedAtBound(s: seq<Event>, k: nat, n: string)
    ensures LedAt(s, k, n) ==> k < |s|
  {
  }

  // The last event, against the height before it.
  lemma LastEvent(es: seq<Event>, g: string, e: Event, n: string)
    requires e.group == g && !e.Removed?
    ensures var s, h := Since(es, g), Run(es).height;
            && (Raises(s + [e], |s|) <==> g !in h || e.block > h[g])
            && (LedAt(s + [e], |s|, n) <==> e.Notified? && e.node == n && (g !in h || e.block >= h[g]))
  {
    hide Run;
    HeightIsMaximum(es, g);
    var s := Since(es, g);
    var s' := s + [e];
    assert s'[|s|] == e && forall i :: 0 <= i < |s| ==> s'[i] == s[i];
    assert forall j :: 0 <= j <= |s| ==> s'[j] == if j < |s| then s[j] else e;
  }

  // A notification is announced exactly when it says more than everything since the last removal.
  lemma AnnouncedIffRaises(es: seq<Event>, g: string, n: string, b: int)
    ensures var e := Notified(g, n, b);
            Announced(es + [e], g) == Announced(es, g) + if Raises(Since(es, g) + [e], |Since(es, g)|) then [b] else []
  {
    hide Run, Since, Raises;
    var e := Notified(g, n, b);
    assert (es + [e])[..|es|] == es;
    LastEvent(es, g, e, n);
  }

  // In every run the latest nodes are exactly those that lead.
  lemma {:induction false} LatestNodesLead(es: seq<Event>, g: string, n: string)
    ensures n in Latest(Run(es), g) <==> Leader(Since(es, g), n)
  {
    hide Leader;
    if es == [] {
      NobodyLeads([]);
    } else {
      var before, e := es[..|es| - 1], es[|es| - 1];
      LatestNodesLead(before, g, n);
      assert Run(es) == Step(Run(before), e);
      if e.group != g {
        assert Since(es, g) == Since(before, g);
        assert Latest(Run(es), g) == Latest(Run(before), g);
      } else if e.Removed? {
        NobodyLeads(Since(es, g));
      } else {
        assert Since(es, g) == Since(before, g) + [e];
        LatestStep(before, e, g, n);
      }
    }
  }

  lemma NobodyLeads(s: seq<Event>)
    requires s == []
    ensures forall n :: !Leader(s, n)
  {
  }

  lemma LatestStep(es: seq<Event>, e: Event, g: string, n: string)
    requires e.group == g && !e.Removed?
    requires n in Latest(Run(es), g) <==> Leader(Since(es, g), n)
    ensures n in Latest(Step(Run(es), e), g) <==> Leader(Since(es, g) + [e], n)
  {
    hide Leads, LedAt, Raises, Run, Since;
    var s, h := Since(es, g), Run(es);
    HeightIsMaximum(es, g);
    LastEvent(es, g, e, n);
    var kept := Leader(s, n);
    var raised := e.Notified? && Raises(s + [e], |s|);
    forall k: nat
      ensures k < |s| ==> (Leads(s + [e], k, n) <==> Leads(s, k, n) && !raised)
      ensures k >= |s| ==> (Leads(s + [e], k, n) <==> k == |s| && LedAt(s + [e], k, n))
      ensures Leads(s, k, n) ==> k < |s|
    {
      LeadsStep(s, e, k, n);
      LeadsBound(s, k, n);
    }
    assert Leader(s + [e], n) <==> (kept && !raised) || LedAt(s + [e], |s|, n) by {
      if kept && !raised {
        var k: nat :| Leads(s, k, n);
        assert Leads(s + [e], k, n);
      }
      if LedAt(s + [e], |s|, n) {
        assert Leads(s + [e], |s|, n);
      }
    }
  }

  lemma LeadsBound(s: seq<Event>, k: nat, n: string)
    ensures Leads(s, k, n) ==> k < |s|
  {
  }

  // n leads, a handshake has raised the height since, and n never notified as much.
  ghost predicate PassedBy(s: seq<Event>, j: nat, k: nat, n: string) {
    && Leads(s, k, n) && k < j && Raises(s, j)
    && forall i :: 0 <= i < |s| && s[i].Notified? && s[i].node == n ==> s[i].block < s[j].block
  }

  // The latest nodes are exactly those that reported the height if and only if no handshake has
  // passed a leading node.
  lemma ExactUnlessPassed(es: seq<Event>, g: string)
    ensures LatestIsExact(Run(es), g, Since(es, g)) <==> !exists j: nat, k: nat, n :: PassedBy(Since(es, g), j, k, n)
  {
    hide Run, Since, Latest, Leads, PassedBy, Reports;
    var h, s := Run(es), Since(es, g);
    if j: nat, k: nat, n :| PassedBy(s, j, k, n) {
      PassedIsStale(es, g, j, k, n);
    } else {
      forall n ensures n in Latest(h, g) <==> g in h.height && Reports(s, n, h.height[g]) {
        UnpassedReports(es, g, n);
      }
    }
  }

  lemma PassedIsStale(es: seq<Event>, g: string, j: nat, k: nat, n: string)
    requires PassedBy(Since(es, g), j, k, n)
    ensures n in Latest(Run(es), g) && !(g in Run(es).height && Reports(Since(es, g), n, Run(es).height[g]))
  {
    hide Run, Leads;
    HeightIsMaximum(es, g);
    LatestNodesLead(es, g, n);
  }

  lemma UnpassedReports(es: seq<Event>, g: string, n: string)
    requires forall j: nat, k: nat :: !PassedBy(Since(es, g), j, k, n)
    ensures n in Latest(Run(es), g) <==> g in Run(es).height && Reports(Since(es, g), n, Run(es).height[g])
  {
    hide Run, Since, PassedBy, Leads;
    var s := Since(es, g);
    HeightIsMaximum(es, g);
    LatestNodesLead(es, g, n);
    if k: nat :| Leads(s, k, n) {
      LeadsBound(s, k, n);
      var top := Run(es).height[g];
      if !Reports(s, n, top) {
        var j := FirstAt(s, top);
        LeaderPassed(s, top, j, k, n);
      }
    }
    if g in Run(es).height && Reports(s, n, Run(es).height[g]) {
      var k :| 0 <= k < |s| && s[k].Notified? && s[k].node == n && s[k].block == Run(es).height[g];
      TopLeads(s, k, n);
    }
  }

  // Where the maximum is first said.
  ghost function FirstAt(s: seq<Event>, top: int): (j: nat)
    requires (forall i :: 0 <= i < |s| ==> !s[i].Removed?) && IsMaximum(top, s)
    ensures j < |s| && s[j].block == top && Raises(s, j)
  {
    FirstFrom(s, top, 0)
  }

  ghost function FirstFrom(s: seq<Event>, top: int, from: nat): (j: nat)
    requires (forall i :: 0 <= i < |s| ==> !s[i].Removed?) && IsMaximum(top, s)
    requires from <= |s| && forall i :: 0 <= i < from ==> s[i].block < top
    ensures j < |s| && s[j].block == top && Raises(s, j)
    decreases |s| - from
  {
    if s[from].block == top then from else FirstFrom(s, top, from + 1)
  }

  lemma LeaderPassed(s: seq<Event>, top: int, j: nat, k: nat, n: string)
    requires (forall i :: 0 <= i < |s| ==> !s[i].Removed?) && IsMaximum(top, s)
    requires j < |s| && s[j].block == top && Raises(s, j) && Leads(s, k, n) && !Reports(s, n, top)
    ensures PassedBy(s, j, k, n)
  {
  }

  lemma TopLeads(s: seq<Event>, k: nat, n: string)
    requires (forall i :: 0 <= i < |s| ==> !s[i].Removed?)
    requires k < |s| && s[k].Notified? && s[k].node == n && IsMaximum(s[k].block, s)
    ensures Leads(s, k, n)
  {
  }

  // A handshake that raises the height leaves a node listed that never reported it.
  lemma StaleAfterHandshake()
    ensures var es := [Notified("g", "n", 1), Handshaken("g", 2)];
            && Run(es).height["g"] == 2 && Latest(Run(es), "g") == {"n"}
            && !Reports(Since(es, "g"), "n", 2)
  {
    var e0, e1 := Notified("g", "n", 1), Handshaken("g", 2);
    var es := [e0, e1];
    assert es[..1] == [e0] && es[..1][..0] == [];
    assert Run([e0]) == Heights(map["g" := 1], map["g" := {"n"}]);
    assert Since([e0], "g") == [e0];
  }

  ghost predicate NoHandshakes(s: seq<Event>) {
    forall i :: 0 <= i < |s| ==> !s[i].Handshaken?
  }

  // Without handshakes since the last removal the latest nodes are always exact.
  lemma LatestNodesAreExact(es: seq<Event>, g: string)
    requires NoHandshakes(Since(es, g))
    ensures LatestIsExact(Run(es), g, Since(es, g))
  {
    hide Run, Since, LatestIsExact;
    forall j: nat, k: nat, n ensures !PassedBy(Since(es, g), j, k, n) {
    }
    ExactUnlessPassed(es, g);
  }
}
