/** EventSub: the object with the two task maps, the counter and the waiting set. */
module EventSub {
  import opened Words
  import opened EventMachine

  class EventSub {
    var tasks: map<Id, Task>
    var workingTasks: set<Id>
    var suspendTasks: set<Id>
    var suspendTasksCount: int
    var waitRespTasks: set<Id>
    var outstanding: multiset<Request>
    var nextSeq: nat

    ghost function State(): State
      reads this
    {
      EventMachine.State(tasks, workingTasks, suspendTasks, suspendTasksCount, waitRespTasks, outstanding, nextSeq)
    }

    constructor ()
      ensures State() == INIT
    {
      tasks, workingTasks, suspendTasks, suspendTasksCount := map[], {}, {}, 0;
      waitRespTasks, outstanding, nextSeq := {}, multiset{}, 0;
    }

    // verified is the answer of verifyParams; nothing is subscribed without it.
    method SubscribeEvent(fromBlock: int, verified: bool) returns (r: Option<Id>)
      modifies this
      ensures State() == if verified then DoSubscribe(old(State()), fromBlock) else old(State())
      ensures r == if verified then Some(old(nextSeq)) else None
    {
      if !verified {
        return None;
      }
      var id := nextSeq;
      nextSeq := nextSeq + 1;
      tasks := tasks[id := Task(fromBlock, -1, None)];
      SendSubscribe(id, false);
      r := Some(id);
    }

    // subscribeEvent(task, callback): the request goes out.
    method SendSubscribe(id: Id, timer: bool)
      requires id in tasks
      modifies this`outstanding
      ensures outstanding == old(outstanding) + multiset{Request(id, timer, StartBlock(tasks[id]))}
    {
      outstanding := outstanding + multiset{Request(id, timer, StartBlock(tasks[id]))};
    }

    // The callback of subscribeEvent.
    method OnSubscribeResponse(request: Request, answer: Answer)
      modifies this
      ensures State() == DoAnswer(old(State()), request, answer)
    {
      hide Accept;
      if request !in outstanding {
        return;
      }
      outstanding := outstanding - multiset{request};
      if answer.Accepted? {
        AcceptTask(request.id, answer.session);
      }
      if request.timer {
        var _ := RemoveWaitResp(request.id);
      }
    }

    // setSession, then addTask
    method AcceptTask(id: Id, session: Option<string>)
      modifies this`tasks, this`workingTasks, this`suspendTasks, this`suspendTasksCount
      ensures State() == Accept(old(State()), id, session)
    {
      if id in tasks {
        tasks := tasks[id := tasks[id].(session := session)];
        var _ := AddTask(id);
      }
    }

    method AddTask(id: Id) returns (added: bool)
      modifies this`workingTasks, this`suspendTasks, this`suspendTasksCount
      ensures State() == RemoveSuspended(old(State()), id).(working := old(workingTasks) + {id})
      ensures added == (id !in old(workingTasks))
    {
      var _ := RemoveSuspendTask(id);
      added := id !in workingTasks;
      if added {
        workingTasks := workingTasks + {id};
      }
    }

    method RemoveSuspendTask(id: Id) returns (removed: bool)
      modifies this`suspendTasks, this`suspendTasksCount
      ensures State() == RemoveSuspended(old(State()), id)
      ensures removed == (id in old(suspendTasks))
    {
      removed := id in suspendTasks;
      if removed {
        suspendTasksCount := suspendTasksCount - 1;
        suspendTasks := suspendTasks - {id};
      }
    }

    method AddSuspendTask(id: Id) returns (added: bool)
      modifies this`suspendTasks, this`suspendTasksCount
      ensures suspendTasks == old(suspendTasks) + {id}
      ensures added == (id !in old(suspendTasks))
      ensures suspendTasksCount == old(suspendTasksCount) + if added then 1 else 0
    {
      added := id !in suspendTasks;
      if added {
        suspendTasksCount := suspendTasksCount + 1;
        suspendTasks := suspendTasks + {id};
      }
    }

    method AddWaitResp(id: Id) returns (added: bool)
      modifies this`waitRespTasks
      ensures waitRespTasks == old(waitRespTasks) + {id}
      ensures added == (id !in old(waitRespTasks))
    {
      added := id !in waitRespTasks;
      waitRespTasks := waitRespTasks + {id};
    }

    method RemoveWaitResp(id: Id) returns (removed: bool)
      modifies this`waitRespTasks
      ensures waitRespTasks == old(waitRespTasks) - {id}
      ensures removed == (id in old(waitRespTasks))
    {
      removed := id in waitRespTasks;
      waitRespTasks := waitRespTasks - {id};
    }

    method GetTaskAndRemove(id: Id) returns (found: bool)
      modifies this`workingTasks, this`suspendTasks, this`suspendTasksCount
      ensures State() == RemoveTask(old(State()), id)
      ensures found == (id in old(workingTasks) || id in old(suspendTasks))
    {
      if id in workingTasks {
        workingTasks := workingTasks - {id};
        return true;
      }
      found := RemoveSuspendTask(id);
    }

    // The endpoint that is asked to unsubscribe, if the task was there and has a session.
    method UnsubscribeEvent(id: Id) returns (asked: Option<string>)
      modifies this
      ensures State() == RemoveTask(old(State()), id)
      ensures asked ==
              if id in old(workingTasks) + old(suspendTasks) && id in old(tasks) then old(tasks)[id].session else None
    {
      var found := GetTaskAndRemove(id);
      asked := if found && id in tasks then tasks[id].session else None;
    }

    method OnRecvEventSubMessage(id: Id, status: Status, block: Option<int>)
      modifies this
      ensures State() == DoPush(old(State()), id, status, block)
    {
      if id !in workingTasks && id !in suspendTasks {
        return;
      }
      if !status.Success? {
        var _ := GetTaskAndRemove(id);
      } else if block.Some? && id in tasks {
        // setCurrentBlockNumber
        if block.value > tasks[id].current {
          tasks := tasks[id := tasks[id].(current := block.value)];
        }
      }
    }

    // suspendTasks, when the connection to endPoint is lost.
    method SuspendTasks(endPoint: string) returns (suspended: nat)
      modifies this
      ensures State() == DoDisconnect(old(State()), endPoint)
      ensures suspended == |set id | id in old(workingTasks) && Affected(old(State()), id, endPoint)|
    {
      hide SuspendAll, Affected;
      ghost var s := State();
      ghost var lost: set<Id> := {};
      suspended := 0;
      var todo := workingTasks;
      SuspendNone(s);
      while todo != {}
        invariant todo <= s.working && lost <= s.working - todo
        invariant State() == SuspendAll(s, lost)
        invariant lost == set id | id in s.working - todo && Affected(s, id, endPoint)
        invariant suspended == |lost|
        decreases todo
      {
        var id :| id in todo;
        SuspendOne(s, lost, id);
        StillAffected(s, lost, id, endPoint);
        var affected := SuspendIfLost(id, endPoint);
        if affected {
          suspended := suspended + 1;
          lost := lost + {id};
        }
        todo := todo - {id};
      }
      assert lost == set id | id in s.working && Affected(s, id, endPoint);
    }

    // One turn of the loop.
    method SuspendIfLost(id: Id, endPoint: string) returns (affected: bool)
      requires id in workingTasks
      modifies this
      ensures affected == Affected(old(State()), id, endPoint)
      ensures !affected ==> State() == old(State())
      ensures affected ==> State() == Suspend(old(State()), id)
    {
      var session := if id in tasks then tasks[id].session else None;
      affected := session.None? || session.value == endPoint;
      if affected {
        workingTasks := workingTasks - {id};
        if id in tasks {
          tasks := tasks[id := tasks[id].(session := None)];
        }
        var _ := AddSuspendTask(id);
      }
    }

    // doLoop: subscribe again what is suspended and not already waiting for a response.
    method DoLoop(connected: bool)
      modifies this
      ensures State() == DoTick(old(State()), connected)
    {
      hide ResendAll, ResendFor;
      if suspendTasksCount == 0 || !connected {
        return;
      }
      ghost var s := State();
      ghost var done: set<Id> := {};
      var todo := suspendTasks;
      ResendNone(s);
      while todo != {}
        invariant todo !! done && todo + done == s.suspended
        invariant State() == ResendAll(s, done)
        decreases todo
      {
        var id :| id in todo;
        ResendOne(s, done, id);
        ResendIfIdle(id);
        todo := todo - {id};
        done := done + {id};
      }
      assert done == s.suspended;
    }

    // One turn of the loop.
    method ResendIfIdle(id: Id)
      modifies this`waitRespTasks, this`outstanding
      ensures State() == ResendFor(old(State()), id)
    {
      var added := AddWaitResp(id);
      if added && id in tasks {
        SendSubscribe(id, true);
      }
    }
  }

  lemma SuspendNone(s: State)
    ensures SuspendAll(s, {}) == s
  {
    var s' := SuspendAll(s, {});
    assert s'.tasks == s.tasks && s'.working == s.working && s'.suspended == s.suspended;
    assert {} - s.suspended == {};
  }

  ghost function Suspend(t: State, id: Id): State {
    t.(tasks := if id in t.tasks then t.tasks[id := t.tasks[id].(session := None)] else t.tasks,
       working := t.working - {id},
       suspended := t.suspended + {id},
       count := t.count + if id in t.suspended then 0 else 1)
  }

  lemma SuspendOne(s: State, lost: set<Id>, id: Id)
    requires id !in lost
    ensures SuspendAll(s, lost + {id}) == Suspend(SuspendAll(s, lost), id)
  {
    var t, t' := SuspendAll(s, lost), SuspendAll(s, lost + {id});
    assert t'.working == t.working - {id};
    assert t'.suspended == t.suspended + {id};
    assert t'.tasks == if id in t.tasks then t.tasks[id := t.tasks[id].(session := None)] else t.tasks;
    if id in s.suspended {
      assert lost + {id} - s.suspended == lost - s.suspended;
    } else {
      assert lost + {id} - s.suspended == (lost - s.suspended) + {id};
    }
  }

  lemma StillAffected(s: State, lost: set<Id>, id: Id, endPoint: string)
    requires id in s.working - lost
    ensures id in SuspendAll(s, lost).working
    ensures Affected(SuspendAll(s, lost), id, endPoint) <==> Affected(s, id, endPoint)
  {
  }

  lemma ResendNone(s: State)
    ensures ResendAll(s, {}) == s
  {
    assert RequestsFor(s, {}) == {};
    assert s.waiting + {} == s.waiting;
  }

  ghost function ResendFor(t: State, id: Id): State {
    t.(waiting := t.waiting + {id},
       outstanding :=
         if id in t.waiting || id !in t.tasks then t.outstanding
         else t.outstanding + multiset{Request(id, true, StartBlock(t.tasks[id]))})
  }

  lemma ResendOne(s: State, done: set<Id>, id: Id)
    requires id !in done
    ensures ResendAll(s, done + {id}) == ResendFor(ResendAll(s, done), id)
  {
    hide RequestsFor;
    assert s.waiting + (done + {id}) == s.waiting + done + {id};
    RequestsForOne(s, done, id);
    if !(id in s.waiting || id !in s.tasks) {
      var before, r := RequestsFor(s, done), Request(id, true, StartBlock(s.tasks[id]));
      OneMoreElement(before, r);
    }
  }

  lemma RequestsForOne(s: State, done: set<Id>, id: Id)
    requires id !in done
    ensures RequestsFor(s, done + {id}) ==
            RequestsFor(s, done) +
            if id in s.waiting || id !in s.tasks then {} else {Request(id, true, StartBlock(s.tasks[id]))}
    ensures forall r :: r in RequestsFor(s, done) ==> r.id != id
  {
  }

  lemma OneMoreElement(a: set<Request>, r: Request)
    requires r !in a
    ensures multiset(a + {r}) == multiset(a) + multiset{r}
  {
  }
}
