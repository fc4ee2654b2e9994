/** EventSub as a state machine: subscriptions that survive disconnects. */
module EventMachine {
  import opened Words

  // Task ids are fresh sequence numbers.
  type Id = nat

  // fromBlock of the params, the latest pushed block, and the endpoint of the session.
  datatype Task = Task(fromBlock: int, current: int, session: Option<string>)

  // A subscribe request under way; timer tells whether doLoop sent it.
  datatype Request = Request(id: Id, timer: bool, start: int)

  // tasks holds every task object ever made; working and suspended are the keys of the two maps.
  datatype State = State(
    tasks: map<Id, Task>,
    working: set<Id>,
    suspended: set<Id>,
    count: int,
    waiting: set<Id>,
    outstanding: multiset<Request>,
    next: nat)

  datatype Status = Success | EndOfPush | Failure

  // The answer to a subscribe request: no usable response, a refusal, or the session it came by.
  datatype Answer = NoResponse | Refused | Accepted(session: Option<string>)

  datatype Event =
    | Subscribe(fromBlock: int)
    | Answered(request: Request, answer: Answer)
    | Pushed(id: Id, status: Status, block: Option<int>)
    | Disconnect(endPoint: string)
    | Tick(connected: bool)
    | Unsubscribe(id: Id)

  // ---------- steps ----------

  // Where a request for the task asks to start.
  function StartBlock(t: Task): int {
    if t.current > 0 then t.current + 1 else t.fromBlock
  }

  function DoSubscribe(s: State, fromBlock: int): State {
    var task := Task(fromBlock, -1, None);
    s.(tasks := s.tasks[s.next := task],
       outstanding := s.outstanding + multiset{Request(s.next, false, fromBlock)},
       next := s.next + 1)
  }

  function RemoveSuspended(s: State, id: Id): State {
    if id in s.suspended then s.(suspended := s.suspended - {id}, count := s.count - 1) else s
  }

  // setSession, then addTask
  function Accept(s: State, id: Id, session: Option<string>): State {
    if id !in s.tasks then s
    else
      var s1 := RemoveSuspended(s, id);
      s1.(tasks := s.tasks[id := s.tasks[id].(session := session)], working := s.working + {id})
  }

  function DoAnswer(s: State, r: Request, a: Answer): State {
    if r !in s.outstanding then s
    else
      var s1 := s.(outstanding := s.outstanding - multiset{r});
      var s2 := if a.Accepted? then Accept(s1, r.id, a.session) else s1;
      if r.timer then s2.(waiting := s2.waiting - {r.id}) else s2
  }

  // getTaskAndRemove
  function RemoveTask(s: State, id: Id): State {
    if id in s.working then s.(working := s.working - {id}) else RemoveSuspended(s, id)
  }

  function DoPush(s: State, id: Id, status: Status, block: Option<int>): State {
    if id !in s.working + s.suspended then s
    else if !status.Success? then RemoveTask(s, id)
    else if block.Some? && id in s.tasks && block.value > s.tasks[id].current
    then s.(tasks := s.tasks[id := s.tasks[id].(current := block.value)])
    else s
  }

  // Working tasks that a lost connection to endPoint suspends.
  predicate Affected(s: State, id: Id, endPoint: string) {
    id in s.working && (id in s.tasks ==> s.tasks[id].session.None? || s.tasks[id].session.value == endPoint)
  }

  function DoDisconnect(s: State, endPoint: string): State {
    SuspendAll(s, set id | id in s.working && Affected(s, id, endPoint))
  }

  // The tasks in `lost` moved to the suspended ones.
  function SuspendAll(s: State, lost: set<Id>): State {
    s.(tasks := map id | id in s.tasks :: if id in lost then s.tasks[id].(session := None) else s.tasks[id],
       working := s.working - lost,
       suspended := s.suspended + lost,
       count := s.count + |lost - s.suspended|)
  }

  // The requests doLoop sends: one per suspended task that has none under way.
  function Resent(s: State): set<Request> {
    RequestsFor(s, s.suspended)
  }

  function RequestsFor(s: State, ids: set<Id>): set<Request> {
    set id | id in ids - s.waiting && id in s.tasks :: Request(id, true, StartBlock(s.tasks[id]))
  }

  function ResendAll(s: State, ids: set<Id>): State {
    s.(waiting := s.waiting + ids, outstanding := s.outstanding + multiset(RequestsFor(s, ids)))
  }

  function DoTick(s: State, connected: bool): State {
    if s.count == 0 || !connected then s else ResendAll(s, s.suspended)
  }

  function Step(s: State, e: Event): State {
    match e
    case Subscribe(fromBlock) => DoSubscribe(s, fromBlock)
    case Answered(r, a) => DoAnswer(s, r, a)
    case Pushed(id, status, block) => DoPush(s, id, status, block)
    case Disconnect(endPoint) => DoDisconnect(s, endPoint)
    case Tick(connected) => DoTick(s, connected)
    case Unsubscribe(id) => RemoveTask(s, id)
  }

  const INIT := State(map[], {}, {}, 0, {}, multiset{}, 0)

  function Run(es: seq<Event>): State {
    if es == [] then INIT else Step(Run(es[..|es| - 1]), es[|es| - 1])
  }

  // ---------- the invariant ----------

  ghost predicate TasksOk(s: State) {
    && s.working !! s.suspended
    && s.count == |s.suspended|
    && s.working + s.suspended <= s.tasks.Keys
    && (forall id :: id in s.suspended ==> s.tasks[id].session.None?)
    && (forall id :: id in s.tasks ==> id < s.next)
  }

  // One request per id; none for a working task; a timer request exactly for the waiting ids,
  // and a first request only for a task that is in neither map.
  ghost predicate RequestsOk(s: State) {
    && (forall r :: r in s.outstanding ==>
          s.outstanding[r] == 1 && r.id in s.tasks && r.id !in s.working && (r.timer || r.id !in s.suspended))
    && (forall r, q :: r in s.outstanding && q in s.outstanding && r.id == q.id ==> r == q)
    && (forall r :: r in s.outstanding && r.timer ==> r.id in s.waiting)
    && (forall id :: id in s.waiting ==> exists r :: r in s.outstanding && r.id == id && r.timer)
  }

  ghost predicate Inv(s: State) {
    TasksOk(s) && RequestsOk(s)
  }

  lemma SubscribeKeeps(s: State, fromBlock: int)
    requires Inv(s)
    ensures Inv(DoSubscribe(s, fromBlock))
  {
    var s' := DoSubscribe(s, fromBlock);
    var q := Request(s.next, false, fromBlock);
    forall r | r in s'.outstanding ensures r in s.outstanding || r == q {
    }
    assert q !in s.outstanding;
    forall id | id in s'.waiting ensures exists r :: r in s'.outstanding && r.id == id && r.timer {
      var r :| r in s.outstanding && r.id == id && r.timer;
      assert r in s'.outstanding;
    }
  }

  lemma AnswerKeepsTasks(s: State, r: Request, a: Answer)
    requires Inv(s)
    ensures TasksOk(DoAnswer(s, r, a))
  {
  }

  lemma AnswerKeepsRequests(s: State, r: Request, a: Answer)
    requires Inv(s) && r in s.outstanding
    ensures RequestsOk(DoAnswer(s, r, a))
  {
    hide RequestsOk, TasksOk, Inv, DoAnswer;
    var s' := DoAnswer(s, r, a);
    AnswerFrame(s, r, a);
    forall q | q in s'.outstanding
      ensures s'.outstanding[q] == 1 && q.id in s'.tasks && q.id !in s'.working && (q.timer || q.id !in s'.suspended)
      ensures q.timer ==> q.id in s'.waiting
    {
      OtherRequest(s, r, q);
    }
    forall q, p | q in s'.outstanding && p in s'.outstanding && q.id == p.id ensures q == p {
      OneRequest(s, q, p);
    }
    forall id | id in s'.waiting ensures exists q :: q in s'.outstanding && q.id == id && q.timer {
      StillWaiting(s, r, id);
    }
    MakeRequestsOk(s');
  }

  lemma AnswerFrame(s: State, r: Request, a: Answer)
    requires r in s.outstanding && Inv(s)
    ensures var s' := DoAnswer(s, r, a);
            && s'.outstanding == s.outstanding - multiset{r}
            && s'.waiting == (if r.timer then s.waiting - {r.id} else s.waiting)
            && s'.tasks.Keys == s.tasks.Keys && s'.working <= s.working + {r.id} && s'.suspended <= s.suspended
            && (s.waiting - {r.id} == s.waiting || r.timer)
  {
    if r.id in s.waiting {
      var q :| q in s.outstanding && q.id == r.id && q.timer;
    }
  }

  lemma OtherRequest(s: State, r: Request, q: Request)
    requires Inv(s) && r in s.outstanding && q in s.outstanding - multiset{r}
    ensures q in s.outstanding && s.outstanding[q] == 1 && q.id != r.id && q != r
    ensures q.id in s.tasks && q.id !in s.working && (q.timer || q.id !in s.suspended)
    ensures q.timer ==> q.id in s.waiting
  {
  }

  lemma OneRequest(s: State, q: Request, p: Request)
    requires Inv(s) && q in s.outstanding && p in s.outstanding && q.id == p.id
    ensures q == p
  {
  }

  lemma StillWaiting(s: State, r: Request, id: Id)
    requires Inv(s) && r in s.outstanding && id in s.waiting && (id != r.id || !r.timer)
    ensures exists q :: q in s.outstanding - multiset{r} && q.id == id && q.timer
  {
    var q :| q in s.outstanding && q.id == id && q.timer;
    assert q in s.outstanding - multiset{r};
  }

  // Steps that send and answer nothing keep the requests in order.
  lemma SameRequests(s: State, s': State)
    requires RequestsOk(s)
    requires s'.outstanding == s.outstanding && s'.waiting == s.waiting && s.tasks.Keys <= s'.tasks.Keys
    requires s'.working <= s.working && s'.working + s'.suspended <= s.working + s.suspended
    ensures RequestsOk(s')
  {
    forall r | r in s'.outstanding
      ensures s'.outstanding[r] == 1 && r.id in s'.tasks && r.id !in s'.working && (r.timer || r.id !in s'.suspended)
    {
      assert r in s.outstanding;
      assert r.id !in s.working && (r.timer || r.id !in s.suspended);
    }
  }

  lemma RemoveKeeps(s: State, id: Id)
    requires Inv(s)
    ensures Inv(RemoveTask(s, id))
  {
    hide RequestsOk;
    SameRequests(s, RemoveTask(s, id));
  }

  lemma PushKeeps(s: State, id: Id, status: Status, block: Option<int>)
    requires Inv(s)
    ensures Inv(DoPush(s, id, status, block))
  {
    hide RequestsOk, RemoveTask;
    RemoveKeeps(s, id);
    if status.Success? {
      SameRequests(s, DoPush(s, id, status, block));
    }
  }

  lemma DisconnectKeeps(s: State, endPoint: string)
    requires Inv(s)
    ensures Inv(DoDisconnect(s, endPoint))
  {
    hide RequestsOk, TasksOk, SuspendAll, Affected;
    var lost := set id | id in s.working && Affected(s, id, endPoint);
    SuspendKeepsTasks(s, lost);
    SuspendFrame(s, lost);
    SameRequests(s, SuspendAll(s, lost));
  }

  lemma SuspendFrame(s: State, lost: set<Id>)
    requires lost <= s.working
    ensures var s' := SuspendAll(s, lost);
            && s'.tasks.Keys == s.tasks.Keys && s'.outstanding == s.outstanding && s'.waiting == s.waiting
            && s'.working <= s.working && s'.working + s'.suspended <= s.working + s.suspended
  {
  }

  lemma SuspendKeepsTasks(s: State, lost: set<Id>)
    requires TasksOk(s) && lost <= s.working
    ensures TasksOk(SuspendAll(s, lost))
  {
    assert lost - s.suspended == lost;
    assert |s.suspended + lost| == |s.suspended| + |lost|;
  }

  lemma TickKeeps(s: State, connected: bool)
    requires Inv(s)
    ensures Inv(DoTick(s, connected))
  {
    if s.count != 0 && connected {
      ResendKeepsRequests(s);
    }
  }

  lemma ResendKeepsRequests(s: State)
    requires Inv(s)
    ensures RequestsOk(ResendAll(s, s.suspended))
  {
    hide RequestsFor, Inv, TasksOk, RequestsOk;
    var s' := ResendAll(s, s.suspended);
    forall r | r in s'.outstanding
      ensures s'.outstanding[r] == 1 && r.id in s.tasks && r.id !in s.working && (r.timer || r.id !in s.suspended)
      ensures r.timer ==> r.id in s'.waiting
    {
      ResentOk(s, r);
    }
    forall r, q | r in s'.outstanding && q in s'.outstanding && r.id == q.id ensures r == q {
      TickUnique(s, r, q);
    }
    forall id | id in s'.waiting ensures exists r :: r in s'.outstanding && r.id == id && r.timer {
      WaitingHasRequest(s, id);
      var r :| (r in s.outstanding || r in Resent(s)) && r.id == id && r.timer;
      assert r in s'.outstanding;
    }
    MakeRequestsOk(s');
  }

  lemma MakeRequestsOk(s: State)
    requires forall r :: r in s.outstanding ==>
      s.outstanding[r] == 1 && r.id in s.tasks && r.id !in s.working && (r.timer || r.id !in s.suspended)
    requires forall r, q :: r in s.outstanding && q in s.outstanding && r.id == q.id ==> r == q
    requires forall r :: r in s.outstanding && r.timer ==> r.id in s.waiting
    requires forall id :: id in s.waiting ==> exists r :: r in s.outstanding && r.id == id && r.timer
    ensures RequestsOk(s)
  {
  }

  // A request is under way already or sent now, and not both.
  lemma ResentOk(s: State, r: Request)
    requires Inv(s) && (r in s.outstanding || r in Resent(s))
    ensures r in s.outstanding <==> r !in Resent(s)
    ensures r in s.outstanding ==> s.outstanding[r] == 1
    ensures r.id in s.tasks && r.id !in s.working && (r.timer || r.id !in s.suspended)
    ensures r.timer ==> r.id in s.waiting + s.suspended
  {
    if r in Resent(s) {
      assert r.id !in s.waiting && r.timer;
    }
  }

  lemma WaitingHasRequest(s: State, id: Id)
    requires Inv(s) && id in s.waiting + s.suspended
    ensures exists r :: (r in s.outstanding || r in Resent(s)) && r.id == id && r.timer
  {
    if id in s.waiting {
      var r :| r in s.outstanding && r.id == id && r.timer;
    } else {
      assert Request(id, true, StartBlock(s.tasks[id])) in Resent(s);
    }
  }

  lemma TickUnique(s: State, r: Request, q: Request)
    requires Inv(s) && r.id == q.id
    requires r in s.outstanding || r in Resent(s)
    requires q in s.outstanding || q in Resent(s)
    ensures r == q
  {
    if r in Resent(s) && q in s.outstanding {
      assert false;
    }
    if q in Resent(s) && r in s.outstanding {
      assert false;
    }
  }

  lemma StepKeeps(s: State, e: Event)
    requires Inv(s)
    ensures Inv(Step(s, e))
  {
    match e
    case Subscribe(fromBlock) => SubscribeKeeps(s, fromBlock);
    case Answered(r, a) =>
      if r in s.outstanding {
        AnswerKeepsTasks(s, r, a);
        AnswerKeepsRequests(s, r, a);
      }
    case Pushed(id, status, block) => PushKeeps(s, id, status, block);
    case Disconnect(endPoint) => DisconnectKeeps(s, endPoint);
    case Tick(connected) => TickKeeps(s, connected);
    case Unsubscribe(id) => RemoveKeeps(s, id);
  }

  lemma {:induction false} RunKeeps(es: seq<Event>)
    ensures Inv(Run(es))
  {
    if es == [] {
    } else {
      RunKeeps(es[..|es| - 1]);
      StepKeeps(Run(es[..|es| - 1]), es[|es| - 1]);
    }
  }

  // ---------- what the invariant means for a run ----------

  // Working and suspended tasks are disjoint, the counter counts the suspended ones, and these
  // have no session.
  lemma TaskMapsAgree(es: seq<Event>)
    ensures var s := Run(es);
            && s.working !! s.suspended && s.count == |s.suspended|
            && forall id :: id in s.suspended ==> id in s.tasks && s.tasks[id].session.None?
  {
    RunKeeps(es);
  }

  // At most one subscribe request is under way for an id, and a task waits exactly while its
  // timer-driven request is.
  lemma OneRequestPerTask(es: seq<Event>, id: Id)
    ensures var s := Run(es);
            && (forall r, q :: r in s.outstanding && q in s.outstanding && r.id == q.id == id ==>
                                 r == q && s.outstanding[r] == 1)
            && (id in s.waiting <==> exists r :: r in s.outstanding && r.id == id && r.timer)
  {
    RunKeeps(es);
  }

  ghost predicate Subscribed(s: State, id: Id) {
    id in s.working || id in s.suspended
  }

  // The events that end a subscription: unsubscribe, end of push, an error push.
  ghost predicate Ends(e: Event, id: Id) {
    e == Unsubscribe(id) || (e.Pushed? && e.id == id && !e.status.Success?)
  }

  lemma StepKeepsSubscribed(s: State, e: Event, id: Id)
    requires Subscribed(s, id) && !Ends(e, id)
    ensures Subscribed(Step(s, e), id)
  {
  }

  // Nothing else does, over any stretch of a run: no disconnect, no failed resubscribe.
  lemma {:induction false} StaysSubscribed(es: seq<Event>, i: nat, j: nat, id: Id)
    requires i <= j <= |es|
    requires Subscribed(Run(es[..i]), id)
    requires forall k :: i <= k < j ==> !Ends(es[k], id)
    ensures Subscribed(Run(es[..j]), id)
    decreases j
  {
    hide Run, Step, Subscribed, Ends;
    if i < j {
      StaysSubscribed(es, i, j - 1, id);
      RunStep(es, j - 1);
      StepKeepsSubscribed(Run(es[..j - 1]), es[j - 1], id);
    }
  }

  lemma RunStep(es: seq<Event>, k: nat)
    requires k < |es|
    ensures Run(es[..k + 1]) == Step(Run(es[..k]), es[k])
  {
    assert es[..k + 1][..k] == es[..k];
  }

  // Nobody is subscribed whose request was not accepted.
  lemma {:induction false} SubscribedWasAccepted(es: seq<Event>, id: Id)
    requires Subscribed(Run(es), id)
    ensures exists k :: 0 <= k < |es| && es[k].Answered? && es[k].request.id == id && es[k].answer.Accepted?
  {
    hide Step;
    var before, e := es[..|es| - 1], es[|es| - 1];
    EntersByAnswer(Run(before), e, id);
    if Subscribed(Run(before), id) {
      SubscribedWasAccepted(before, id);
      var k :| 0 <= k < |before| && before[k].Answered? && before[k].request.id == id && before[k].answer.Accepted?;
      assert es[k] == before[k];
    }
  }

  lemma EntersByAnswer(s: State, e: Event, id: Id)
    requires Subscribed(Step(s, e), id)
    ensures Subscribed(s, id) || (e.Answered? && e.request in s.outstanding && e.request.id == id && e.answer.Accepted?)
  {
  }

  // ---------- what each event does to a task ----------

  // A lost connection suspends the working tasks that came by it, and those without a session,
  // and no others.
  lemma DisconnectEffect(s: State, endPoint: string, id: Id)
    requires Inv(s) && id in s.working
    ensures id in s.tasks
    ensures var s', session := Step(s, Disconnect(endPoint)), s.tasks[id].session;
            && id in s'.tasks
            && if session == None || session == Some(endPoint)
               then id !in s'.working && id in s'.suspended && s'.tasks[id].session == None
               else id in s'.working && id !in s'.suspended && s'.tasks[id].session == session
  {
    hide RequestsOk;
  }

  // An accepted request, the first one or a later one, puts its task to work on the session it
  // came by; any other answer leaves the maps alone.
  lemma AnswerEffect(s: State, r: Request, a: Answer)
    requires Inv(s) && r in s.outstanding
    ensures var s' := Step(s, Answered(r, a));
            && r.id in s'.tasks && r !in s'.outstanding && r.id !in s'.waiting
            && if a.Accepted?
               then r.id in s'.working && r.id !in s'.suspended && s'.tasks[r.id].session == a.session
               else s'.working == s.working && s'.suspended == s.suspended && s'.tasks == s.tasks
  {
    if r.id in s.waiting {
      var q :| q in s.outstanding && q.id == r.id && q.timer;
    }
  }

  // What an event sends is under way behind it.
  lemma SentIsOutstanding(s: State, e: Event, r: Request)
    requires r in Sent(s, e)
    ensures r in Step(s, e).outstanding
  {
  }

  // Unsubscribe, end of push and error pushes end a subscription.
  lemma EndingEnds(s: State, e: Event, id: Id)
    requires Inv(s) && Ends(e, id)
    ensures !Subscribed(Step(s, e), id)
    ensures Step(s, e).outstanding == s.outstanding && Step(s, e).next == s.next
  {
    hide RequestsOk;
  }

  // Over a run: with no request under way for it, an ending event leaves a task gone for the
  // rest of the run.
  lemma EndedForGood(es: seq<Event>, k: nat, j: nat, id: Id)
    requires k < j <= |es| && Ends(es[k], id)
    requires id < Run(es[..k]).next && forall r :: r in Run(es[..k]).outstanding ==> r.id != id
    ensures Gone(Run(es[..j]), id)
  {
    hide Run, Step, Ends, Inv;
    RunKeeps(es[..k]);
    RunStep(es, k);
    EndingEnds(Run(es[..k]), es[k], id);
    GoneForGood(es, k + 1, j, id);
  }

  // Event k of the run put the task to work.
  ghost predicate AcceptedAt(es: seq<Event>, k: nat, id: Id) {
    && k < |es| && es[k].Answered? && es[k].answer.Accepted? && es[k].request.id == id
    && es[k].request in Run(es[..k]).outstanding
  }

  ghost predicate NotEndedSince(es: seq<Event>, k: nat, id: Id) {
    forall j :: k < j < |es| ==> !Ends(es[j], id)
  }

  // In every run a task is subscribed exactly when a request for it was accepted and nothing has
  // ended the subscription since.
  lemma {:induction false} SubscribedIff(es: seq<Event>, id: Id)
    ensures Subscribed(Run(es), id) <==> exists k: nat :: AcceptedAt(es, k, id) && NotEndedSince(es, k, id)
  {
    hide Run, Step, Subscribed, Ends, Inv;
    if k: nat :| AcceptedAt(es, k, id) && NotEndedSince(es, k, id) {
      RunKeeps(es[..k]);
      RunStep(es, k);
      AcceptedSubscribes(Run(es[..k]), es[k]);
      StaysSubscribed(es, k + 1, |es|, id);
      assert es[..|es|] == es;
    }
    if Subscribed(Run(es), id) {
      WhenAccepted(es, id);
    }
  }

  lemma AcceptedSubscribes(s: State, e: Event)
    requires Inv(s) && e.Answered? && e.answer.Accepted? && e.request in s.outstanding
    ensures Subscribed(Step(s, e), e.request.id)
  {
    hide Inv, Step;
    AnswerEffect(s, e.request, e.answer);
  }

  lemma {:induction false} WhenAccepted(es: seq<Event>, id: Id)
    requires Subscribed(Run(es), id)
    ensures exists k: nat :: AcceptedAt(es, k, id) && NotEndedSince(es, k, id)
  {
    hide Run, Step, Subscribed, Ends, Inv;
    if es == [] {
      NobodyAtFirst(id);
    } else {
      var n := |es| - 1;
      var before := es[..n];
      RunStep(es, n);
      assert es[..n + 1] == es;
      RunKeeps(before);
      EntersByAnswer(Run(before), es[n], id);
      if Ends(es[n], id) {
        EndingEnds(Run(before), es[n], id);
      } else if Subscribed(Run(before), id) {
        WhenAccepted(before, id);
        var k: nat :| AcceptedAt(before, k, id) && NotEndedSince(before, k, id);
        assert before[..k] == es[..k];
        assert AcceptedAt(es, k, id) && NotEndedSince(es, k, id);
      } else {
        assert AcceptedAt(es, n, id) && NotEndedSince(es, n, id);
      }
    }
  }

  lemma NobodyAtFirst(id: Id)
    ensures !Subscribed(Run([]), id)
  {
  }

  // ---------- what a lost connection leads to ----------

  // In any run, a task whose connection is lost is asked for again by the next timer step that
  // finds a session, from where it then stands, whatever else happens in between.
  lemma AskedAgain(es: seq<Event>, d: nat, t: nat, id: Id)
    requires d < t < |es|
    requires es[d].Disconnect? && Affected(Run(es[..d]), id, es[d].endPoint)
    requires forall k :: d < k < t ==> !Ends(es[k], id) && es[k] != Tick(true)
    requires es[t] == Tick(true)
    ensures id in Run(es[..t]).tasks
    ensures var r := Request(id, true, StartBlock(Run(es[..t]).tasks[id]));
            r in Sent(Run(es[..t]), es[t]) && r in Run(es[..t + 1]).outstanding
  {
    hide Run, Step, Affected, Inv, Ends;
    RunKeeps(es[..d]);
    RunStep(es, d);
    LostIsSuspended(Run(es[..d]), id, es[d].endPoint);
    StaysIdle(es, d + 1, t, id);
    RunKeeps(es[..t]);
    SuspendedIsRequested(Run(es[..t]), id);
    RunStep(es, t);
  }

  // It works again once that request is accepted, however much later.
  lemma Recovers(es: seq<Event>, d: nat, t: nat, a: nat, id: Id, session: Option<string>)
    requires d < t < a < |es|
    requires es[d].Disconnect? && Affected(Run(es[..d]), id, es[d].endPoint)
    requires forall k :: d < k < t ==> !Ends(es[k], id) && es[k] != Tick(true)
    requires es[t] == Tick(true)
    ensures id in Run(es[..t]).tasks
    ensures var r := Request(id, true, StartBlock(Run(es[..t]).tasks[id]));
            es[a] == Answered(r, Accepted(session)) && Unanswered(es, t, a, r) ==>
              var s := Run(es[..a + 1]);
              id in s.working && id !in s.waiting && id in s.tasks && s.tasks[id].session == session
  {
    hide Run, Step, Affected, Inv, Ends, Unanswered;
    AskedAgain(es, d, t, id);
    var r := Request(id, true, StartBlock(Run(es[..t]).tasks[id]));
    if es[a] == Answered(r, Accepted(session)) && Unanswered(es, t, a, r) {
      StaysOutstanding(es, t, a, r);
      RequestHasTask(es[..a], r);
      RunStep(es, a);
      AcceptedWorks(Run(es[..a]), r, session);
    }
  }

  // Request r gets no answer between events t and a.
  ghost predicate Unanswered(es: seq<Event>, t: nat, a: nat, r: Request)
    requires t < a <= |es|
  {
    forall k :: t < k < a ==> !(es[k].Answered? && es[k].request == r)
  }

  // A suspended task that has no request under way.
  ghost predicate Idle(s: State, id: Id) {
    id in s.suspended && id !in s.waiting && id in s.tasks
  }

  lemma StepKeepsIdle(s: State, e: Event, id: Id)
    requires Inv(s) && Idle(s, id) && !Ends(e, id) && e != Tick(true)
    ensures Idle(Step(s, e), id)
  {
  }

  lemma {:induction false} StaysIdle(es: seq<Event>, i: nat, j: nat, id: Id)
    requires i <= j <= |es| && Idle(Run(es[..i]), id)
    requires forall k :: i <= k < j ==> !Ends(es[k], id) && es[k] != Tick(true)
    ensures Idle(Run(es[..j]), id)
    decreases j
  {
    hide Run, Step, Idle, Ends, Inv;
    if i < j {
      StaysIdle(es, i, j - 1, id);
      RunStep(es, j - 1);
      RunKeeps(es[..j - 1]);
      StepKeepsIdle(Run(es[..j - 1]), es[j - 1], id);
    }
  }

  lemma StepKeepsOutstanding(s: State, e: Event, r: Request)
    requires r in s.outstanding && !(e.Answered? && e.request == r)
    ensures r in Step(s, e).outstanding
  {
  }

  lemma {:induction false} StaysOutstanding(es: seq<Event>, t: nat, a: nat, r: Request)
    requires t < a <= |es| && r in Run(es[..t + 1]).outstanding && Unanswered(es, t, a, r)
    ensures r in Run(es[..a]).outstanding
    decreases a
  {
    hide Run, Step;
    if t + 1 < a {
      StaysOutstanding(es, t, a - 1, r);
      RunStep(es, a - 1);
      StepKeepsOutstanding(Run(es[..a - 1]), es[a - 1], r);
    }
  }

  lemma LostIsSuspended(s: State, id: Id, endPoint: string)
    requires Inv(s) && Affected(s, id, endPoint)
    ensures Idle(Step(s, Disconnect(endPoint)), id)
  {
  }

  lemma SuspendedIsRequested(s: State, id: Id)
    requires Inv(s) && Idle(s, id)
    ensures var r := Request(id, true, StartBlock(s.tasks[id]));
            r in Sent(s, Tick(true)) && r in Step(s, Tick(true)).outstanding
  {
    assert s.count != 0;
    assert Request(id, true, StartBlock(s.tasks[id])) in Resent(s);
  }

  lemma AcceptedWorks(s: State, r: Request, session: Option<string>)
    requires r in s.outstanding && r.timer && r.id in s.tasks
    ensures var s' := Step(s, Answered(r, Accepted(session)));
            r.id in s'.working && r.id !in s'.waiting && r.id in s'.tasks && s'.tasks[r.id].session == session
  {
  }

  // ---------- what unsubscribing achieves ----------

  // The task is in neither map and has no request under way.
  ghost predicate Gone(s: State, id: Id) {
    id < s.next && !Subscribed(s, id) && forall r :: r in s.outstanding ==> r.id != id
  }

  lemma OutstandingStep(s: State, e: Event, r: Request)
    requires r in Step(s, e).outstanding
    ensures r in s.outstanding || r in Sent(s, e)
  {
  }

  lemma SentIds(s: State, e: Event, r: Request)
    requires r in Sent(s, e)
    ensures r.id == s.next || r.id in s.suspended
  {
  }

  lemma NextGrows(s: State, e: Event)
    ensures s.next <= Step(s, e).next
  {
  }

  lemma StepKeepsGone(s: State, e: Event, id: Id)
    requires Gone(s, id)
    ensures Gone(Step(s, e), id)
  {
    hide Step, Sent;
    NextGrows(s, e);
    if Subscribed(Step(s, e), id) {
      EntersByAnswer(s, e, id);
    }
    forall r | r in Step(s, e).outstanding ensures r.id != id {
      OutstandingStep(s, e, r);
      if r in Sent(s, e) {
        SentIds(s, e, r);
      }
    }
  }

  // A task without a request under way that is unsubscribed never comes back.
  lemma {:induction false} GoneForGood(es: seq<Event>, i: nat, j: nat, id: Id)
    requires i <= j <= |es| && Gone(Run(es[..i]), id)
    ensures Gone(Run(es[..j]), id)
    decreases j
  {
    hide Run, Step, Gone;
    if i < j {
      GoneForGood(es, i, j - 1, id);
      RunStep(es, j - 1);
      StepKeepsGone(Run(es[..j - 1]), es[j - 1], id);
    }
  }

  // With a request under way it does come back, if that request is accepted.
  lemma PendingRequestRevives(es: seq<Event>, id: Id, r: Request, session: Option<string>)
    requires r in Run(es).outstanding && r.id == id
    ensures Subscribed(Run(es + [Unsubscribe(id), Answered(r, Accepted(session))]), id)
  {
    hide Run, Subscribed, Step;
    var u, a := Unsubscribe(id), Answered(r, Accepted(session));
    var es2 := es + [u, a];
    assert es2[..|es|] == es && es2[..|es| + 2] == es2;
    RunStep(es2, |es|);
    RunStep(es2, |es| + 1);
    RequestHasTask(es, r);
    Revive(Run(es), id, r, session);
  }

  lemma RequestHasTask(es: seq<Event>, r: Request)
    requires r in Run(es).outstanding
    ensures r.id in Run(es).tasks
  {
    RunKeeps(es);
  }

  lemma Revive(s: State, id: Id, r: Request, session: Option<string>)
    requires r in s.outstanding && r.id == id && id in s.tasks
    ensures Subscribed(Step(Step(s, Unsubscribe(id)), Answered(r, Accepted(session))), id)
  {
  }

  // ---------- where a resubscribe starts ----------

  // Event k recorded block b for the task.
  ghost predicate Records(es: seq<Event>, k: nat, id: Id, b: int) {
    k < |es| && es[k] == Pushed(id, Success, Some(b)) && Subscribed(Run(es[..k]), id)
  }

  lemma RecordsPrefix(es: seq<Event>, k: nat, id: Id, b: int)
    requires es != []
    ensures k < |es| - 1 ==> (Records(es, k, id, b) <==> Records(es[..|es| - 1], k, id, b))
  {
    if k < |es| - 1 {
      assert es[..|es| - 1][..k] == es[..k];
    }
  }

  ghost predicate IsLargest(es: seq<Event>, id: Id, current: int) {
    && current >= -1
    && (current == -1 || exists k: nat :: Records(es, k, id, current))
    && (forall k: nat, b :: Records(es, k, id, b) ==> b <= current)
  }

  // The block that event e records for the task.
  ghost predicate RecordsNow(s: State, e: Event, id: Id, b: int) {
    e == Pushed(id, Success, Some(b)) && Subscribed(s, id)
  }

  // How a step changes what a task has recorded.
  lemma CurrentStep(s: State, e: Event, id: Id)
    requires TasksOk(s)
    ensures Subscribed(s, id) ==> id in s.tasks
    ensures id in s.tasks ==>
              && id in Step(s, e).tasks
              && Step(s, e).tasks[id].current ==
                 if e.Pushed? && e.block.Some? && RecordsNow(s, e, id, e.block.value) && e.block.value > s.tasks[id].current
                 then e.block.value else s.tasks[id].current
    ensures id !in s.tasks && id in Step(s, e).tasks ==> Step(s, e).tasks[id].current == -1
  {
    hide DoAnswer, DoPush, DoDisconnect, DoTick, RemoveTask;
    match e
    case Subscribe(_) =>
    case Answered(r, a) => AnswerKeepsCurrent(s, r, a, id);
    case Pushed(other, status, block) => PushCurrent(s, other, status, block, id);
    case Disconnect(endPoint) => DisconnectKeepsCurrent(s, endPoint, id);
    case Tick(connected) => TickKeepsTasks(s, connected);
    case Unsubscribe(other) => RemoveKeepsTasks(s, other);
  }

  lemma AnswerKeepsCurrent(s: State, r: Request, a: Answer, id: Id)
    ensures var tasks := DoAnswer(s, r, a).tasks;
            && tasks.Keys == s.tasks.Keys
            && (id in s.tasks ==> tasks[id].current == s.tasks[id].current && tasks[id].fromBlock == s.tasks[id].fromBlock)
  {
  }

  lemma PushCurrent(s: State, other: Id, status: Status, block: Option<int>, id: Id)
    ensures var tasks := DoPush(s, other, status, block).tasks;
            && tasks.Keys == s.tasks.Keys
            && (id in s.tasks ==> tasks[id].fromBlock == s.tasks[id].fromBlock)
            && (id in s.tasks ==>
                  tasks[id].current ==
                  if other == id && status.Success? && block.Some? && Subscribed(s, id) && block.value > s.tasks[id].current
                  then block.value else s.tasks[id].current)
  {
  }

  lemma DisconnectKeepsCurrent(s: State, endPoint: string, id: Id)
    ensures var tasks := DoDisconnect(s, endPoint).tasks;
            && tasks.Keys == s.tasks.Keys
            && (id in s.tasks ==> tasks[id].current == s.tasks[id].current && tasks[id].fromBlock == s.tasks[id].fromBlock)
  {
  }

  lemma TickKeepsTasks(s: State, connected: bool)
    ensures DoTick(s, connected).tasks == s.tasks
  {
  }

  lemma RemoveKeepsTasks(s: State, id: Id)
    ensures RemoveTask(s, id).tasks == s.tasks
  {
  }

  // current is the largest block recorded, or -1.
  lemma {:induction false} CurrentIsLargest(es: seq<Event>, id: Id)
    ensures id in Run(es).tasks ==> IsLargest(es, id, Run(es).tasks[id].current)
    ensures id !in Run(es).tasks ==> forall k: nat, b :: !Records(es, k, id, b)
  {
    if es == [] {
    } else {
      var before, e := es[..|es| - 1], es[|es| - 1];
      CurrentIsLargest(before, id);
      RunKeeps(before);
      CurrentStep(Run(before), e, id);
      hide Step, Inv, TasksOk;
      forall k: nat, b ensures k < |es| - 1 ==> (Records(es, k, id, b) <==> Records(before, k, id, b)) {
        RecordsPrefix(es, k, id, b);
      }
      LastRecords(es, id);
      if id in Run(before).tasks {
        LargestStep(es, |es| - 1, id, Run(before).tasks[id].current, Run(es).tasks[id].current);
      }
    }
  }

  lemma LastRecords(es: seq<Event>, id: Id)
    requires es != []
    ensures var before, e := es[..|es| - 1], es[|es| - 1];
            forall b :: Records(es, |es| - 1, id, b) <==> e == Pushed(id, Success, Some(b)) && Subscribed(Run(before), id)
  {
  }

  lemma LargestStep(es: seq<Event>, n: nat, id: Id, c: int, c': int)
    requires n + 1 == |es| && IsLargest(es[..|es| - 1], id, c) && c <= c'
    requires c' == c || Records(es, n, id, c')
    requires forall b :: Records(es, n, id, b) ==> b <= c'
    requires forall k: nat, b :: k < n ==> (Records(es, k, id, b) <==> Records(es[..|es| - 1], k, id, b))
    ensures IsLargest(es, id, c')
  {
    hide Records;
    if c' == c && c != -1 {
      var k: nat :| Records(es[..|es| - 1], k, id, c);
      RecordsBound(es[..|es| - 1], k, id, c);
      assert Records(es, k, id, c);
    }
    forall k: nat, b | Records(es, k, id, b) ensures b <= c' {
      RecordsBound(es, k, id, b);
    }
  }

  lemma RecordsBound(es: seq<Event>, k: nat, id: Id, b: int)
    requires Records(es, k, id, b)
    ensures k < |es|
  {
  }

  // The subscribe requests an event sends.
  function Sent(s: State, e: Event): set<Request> {
    match e
    case Subscribe(fromBlock) => {Request(s.next, false, fromBlock)}
    case Tick(connected) => if s.count == 0 || !connected then {} else Resent(s)
    case _ => {}
  }

  lemma StartOfSent(s: State, e: Event, r: Request)
    requires TasksOk(s) && r in Sent(s, e)
    ensures r.id in s.tasks ==> r.start == StartBlock(s.tasks[r.id])
  {
  }

  // Once a positive block is recorded, a request asks from the largest recorded block plus one.
  lemma ResumesAfterRecorded(es: seq<Event>, e: Event, r: Request, k: nat, b: int)
    requires r in Sent(Run(es), e) && Records(es, k, r.id, b) && b > 0
    ensures r.start > b
    ensures IsLargest(es, r.id, r.start - 1)
  {
    hide Records, Run, Sent, RequestsOk, TasksOk;
    CurrentIsLargest(es, r.id);
    RunKeeps(es);
    StartOfSent(Run(es), e, r);
  }

  // Once a positive block is recorded, later requests never ask for an earlier start.
  lemma StartsNeverDecrease(es: seq<Event>, i: nat, j: nat, r: Request, q: Request, k: nat, b: int)
    requires i <= j < |es| && r.id == q.id
    requires r in Sent(Run(es[..i]), es[i]) && q in Sent(Run(es[..j]), es[j])
    requires Records(es[..i], k, r.id, b) && b > 0
    ensures r.start <= q.start
  {
    hide Run, Sent;
    ResumesAfterRecorded(es[..i], es[i], r, k, b);
    var c := r.start - 1;
    var m: nat :| Records(es[..i], m, r.id, c);
    assert es[..i][..m] == es[..m] == es[..j][..m];
    assert Records(es[..j], m, q.id, c);
    ResumesAfterRecorded(es[..j], es[j], q, m, c);
  }

  // ---------- when a start decreases ----------

  // A task keeps its fromBlock and never forgets a recorded block.
  lemma TaskStep(s: State, e: Event, id: Id)
    requires TasksOk(s) && id in s.tasks
    ensures var s' := Step(s, e);
            && id in s'.tasks && s'.tasks[id].fromBlock == s.tasks[id].fromBlock
            && s'.tasks[id].current >= s.tasks[id].current
  {
    hide DoAnswer, DoPush, DoDisconnect, DoTick, RemoveTask;
    match e
    case Subscribe(_) =>
    case Answered(r, a) => AnswerKeepsCurrent(s, r, a, id);
    case Pushed(other, status, block) => PushCurrent(s, other, status, block, id);
    case Disconnect(endPoint) => DisconnectKeepsCurrent(s, endPoint, id);
    case Tick(connected) => TickKeepsTasks(s, connected);
    case Unsubscribe(other) => RemoveKeepsTasks(s, other);
  }

  lemma {:induction false} TaskLives(es: seq<Event>, i: nat, j: nat, id: Id)
    requires i <= j <= |es| && id in Run(es[..i]).tasks
    ensures var before, after := Run(es[..i]).tasks, Run(es[..j]).tasks;
            && id in after && after[id].fromBlock == before[id].fromBlock && after[id].current >= before[id].current
    decreases j
  {
    hide Run, Step, TasksOk, RequestsOk;
    if i < j {
      TaskLives(es, i, j - 1, id);
      RunKeeps(es[..j - 1]);
      RunStep(es, j - 1);
      TaskStep(Run(es[..j - 1]), es[j - 1], id);
    }
  }

  // A request asks from where its task stands behind the step that sends it.
  lemma SentFrom(s: State, e: Event, r: Request)
    requires TasksOk(s) && r in Sent(s, e)
    ensures r.id in Step(s, e).tasks && r.start == StartBlock(Step(s, e).tasks[r.id])
  {
  }

  lemma LargestIsUnique(es: seq<Event>, id: Id, c: int, c': int)
    requires IsLargest(es, id, c) && IsLargest(es, id, c')
    ensures c == c'
  {
    hide Records;
  }

  // Of two requests for a task, the first one included, the later asks for an earlier start
  // exactly when the largest block recorded by then is positive and below the earlier start
  // minus one.
  lemma WhenStartsDecrease(es: seq<Event>, i: nat, j: nat, r: Request, q: Request, c: int)
    requires i <= j < |es| && r.id == q.id
    requires r in Sent(Run(es[..i]), es[i]) && q in Sent(Run(es[..j]), es[j])
    requires IsLargest(es[..j + 1], q.id, c)
    ensures q.start < r.start <==> 0 < c < r.start - 1
  {
    hide Run, Sent, Step, TasksOk, RequestsOk, IsLargest;
    var id := q.id;
    RunKeeps(es[..i]);
    RunKeeps(es[..j]);
    RunStep(es, i);
    RunStep(es, j);
    SentFrom(Run(es[..i]), es[i], r);
    SentFrom(Run(es[..j]), es[j], q);
    TaskLives(es, i + 1, j + 1, id);
    CurrentIsLargest(es[..j + 1], id);
    LargestIsUnique(es[..j + 1], id, c, Run(es[..j + 1]).tasks[id].current);
  }
}
