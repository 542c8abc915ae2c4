/** A task that has been ended does not run again: it leaves the processor at the next switch and stays on the
    wait list until the idle task frees it. */
module Endings {
  import opened TaskState
  import opened TaskSteps
  import opened Reaper
  import opened TaskRuns

  /** Slot `t` holds a task that has ended and has not been freed. */
  ghost predicate Over(s: State, t: nat) {
    t < |s.pool| && IsLive(s.pool[t]) && s.pool[t].ended
  }

  /** Since the ended task of `s`, which has left the processor, nothing has become of it in `r`. */
  ghost predicate StillOver(s: State, r: State, t: nat) {
    && Over(s, t) && Over(r, t) && r.pool[t].id == s.pool[t].id
    && (t != s.running ==> t != r.running && t in r.queues.wait)
  }

  /** Right after its end a task is over; unless it was the running one and nobody else is ready, it waits. */
  lemma EndedIsOver(s: State, id: nat)
    requires Inv(s) && SlotOf(id) < MAX_TASKS && s.pool[SlotOf(id)].id == id && IsLive(s.pool[SlotOf(id)])
    ensures Shape(s)
    ensures var t, r := SlotOf(id), EndTask(s, id);
            && Inv(r) && Over(r, t) && r.pool[t].id == id && t in DoomedSlots(r.pool)
            && (t == r.running <==> t == s.running && forall k :: 0 <= k < LEVELS ==> s.queues.ready[k] == [])
            && (t != r.running ==> t in r.queues.wait)
  {
    hide Inv, EndTask, Doomed;
    var t := SlotOf(id);
    InvIsShape(s);
    HasGeneration(s, id);
    EndTaskExact(s, id);
    if t == s.running {
      RunnerEnds(s, id, 0);
    } else if s.pool[t].ended {
      SecondEnd(s, id);
    } else {
      ReadyTaskEnds(s, id, 0);
    }
    DoomedIfOver(EndTask(s, id), t);
    if t != EndTask(s, id).running {
      EndedIsWaiting(EndTask(s, id), t);
    }
  }

  lemma HasGeneration(s: State, id: nat)
    requires SlotOf(id) < |s.pool| && s.pool[SlotOf(id)].id == id && IsLive(s.pool[SlotOf(id)])
    ensures id / GENERATIONS != 0
  {
  }

  /** Ending a task once more changes nothing. */
  lemma SecondEnd(s: State, id: nat)
    requires Inv(s) && Shape(s) && SlotOf(id) < MAX_TASKS && s.pool[SlotOf(id)].id == id && Over(s, SlotOf(id))
    requires SlotOf(id) != s.running
    ensures EndTask(s, id) == s
  {
    var t := SlotOf(id);
    RunningIdDiffers(s, t);
    EndedIsWaiting(s, t);
    assert s.pool[t := s.pool[t].(ended := true, priority := WAIT)] == s.pool;
  }

  lemma DoomedIfOver(s: State, t: nat)
    requires Over(s, t)
    ensures t in DoomedSlots(s.pool)
  {
  }

  /** An ended task left alone on the processor leaves it as soon as another one is ready. */
  lemma LeavesAtNextSwitch(s: State, t: nat, l: nat)
    requires Inv(s) && Shape(s) && Over(s, t) && t == s.running && l < LEVELS && s.queues.ready[l] != []
    ensures Dispatch(s).running != t && t in Dispatch(s).queues.wait
  {
    hide Inv, Pick;
    PickFindsTask(s.queues.ready, s.executed);
    PickedIsReady(s, Pick(s.queues.ready, s.executed).0);
  }

  /** Whatever happens next, the task is freed or stays over; once off the processor it does not come back. */
  lemma StaysOver(s: State, e: Event, t: nat)
    requires Inv(s) && Shape(s) && Allowed(s, e) && Over(s, t)
    ensures StillOver(s, Next(s, e), t) || (t < |Next(s, e).pool| && !IsLive(Next(s, e).pool[t]))
  {
    hide Inv, Dispatch, Reap, EndTask, ChangePriority, Create, RunnerStays;
    NextKeeps(s, e);
    SizeOfPool(s);
    match e {
      case TimerInterrupt => DispatchLeaves(s, t);
      case GiveUp => DispatchLeaves(s, t);
      case CreateOne(kind, p) => CreateKeeps(s, kind, p);
      case Change(id, p) => ChangeLeaves(s, id, p, t);
      case End(id) => EndLeaves(s, id, t);
      case ReapTurn => ReapLeaves(s, t);
    }
    var r := Next(s, e);
    if Over(r, t) && t != r.running {
      EndedIsWaiting(r, t);
    }
  }

  lemma SizeOfPool(s: State)
    requires Inv(s)
    ensures |s.pool| == MAX_TASKS
  {
  }

  lemma DispatchLeaves(s: State, t: nat)
    requires Inv(s) && Shape(s) && Over(s, t)
    ensures Dispatch(s).pool == s.pool && (t != s.running ==> t != Dispatch(s).running)
  {
    hide Inv, Pick;
    DispatchKeeps(s);
    var l := Pick(s.queues.ready, s.executed).0;
    SizeOfPool(s);
    if l < LEVELS && t != s.running {
      PickedIsReady(s, l);
      EndedIsWaiting(s, t);
    }
  }

  lemma ChangeLeaves(s: State, id: nat, p: nat, t: nat)
    requires Inv(s) && Shape(s) && Allowed(s, Change(id, p)) && Over(s, t)
    ensures ChangePriority(s, id, p).pool[t] == s.pool[t] && ChangePriority(s, id, p).running == s.running
  {
    assert SlotOk(s.pool[t], t) && SlotOk(s.pool[s.running], s.running);
  }

  lemma EndLeaves(s: State, id: nat, t: nat)
    requires Inv(s) && Shape(s) && Allowed(s, End(id)) && Over(s, t)
    ensures var r := EndTask(s, id);
            && |r.pool| == MAX_TASKS && r.pool[t].id == s.pool[t].id && r.pool[t].ended
            && (t != s.running ==> t != r.running)
  {
    hide Families, Placed, LiveCount, Pick;
    assert SlotOk(s.pool[t], t) && SlotOk(s.pool[s.running], s.running);
    if s.pool[s.running].id == id {
      RunnerEnds(s, id, 0);
    }
  }

  lemma ReapLeaves(s: State, t: nat)
    requires Inv(s) && Shape(s) && Allowed(s, ReapTurn) && Over(s, t)
    ensures var r := Reap(s);
            && |r.pool| == MAX_TASKS && r.running == s.running
            && (IsLive(r.pool[t]) ==> r.pool[t].id == s.pool[t].id && r.pool[t].ended)
  {
    hide Inv, EndAll, RunnerStays;
    var u := s.queues.wait[0];
    if s.pool[u].kind == Process && s.pool[u].children != [] {
      FirstChildren(s);
      EndAllEnds(s, s.pool[u].children);
    }
  }

  /** Somewhere in the run slot `t` is freed. */
  ghost predicate FreedIn(s: State, events: seq<Event>, t: nat)
    requires Inv(s) && IsRun(s, events)
    decreases |events|
  {
    InvIsShape(s);
    || (t < |s.pool| && !IsLive(s.pool[t]))
    || (events != [] && (NextKeeps(s, events[0]); FreedIn(Next(s, events[0]), events[1..], t)))
  }

  /** In every run a task that is over is freed or stays over, off the processor once it has left it, and the
      next pass of the idle task over the wait list frees it. */
  lemma {:induction false} NeverRunsAgain(s: State, events: seq<Event>, t: nat)
    requires Inv(s) && IsRun(s, events) && Over(s, t)
    ensures FreedIn(s, events, t) ||
            (StillOver(s, EndOf(s, events), t) && t in DoomedSlots(EndOf(s, events).pool))
    decreases |events|
  {
    hide Inv, Next, Allowed, Doomed;
    InvIsShape(s);
    if events == [] {
      DoomedIfOver(s, t);
      if t != s.running {
        SizeOfPool(s);
        EndedIsWaiting(s, t);
      }
    } else {
      NextKeeps(s, events[0]);
      StaysOver(s, events[0], t);
      var r := Next(s, events[0]);
      if IsLive(r.pool[t]) {
        NeverRunsAgain(r, events[1..], t);
      } else {
        assert FreedIn(r, events[1..], t);
      }
    }
  }

  /** So after the end of a task, in every run that follows: it is freed, or it is still over and, if it was
      not left alone on the processor, does not run and waits to be freed. */
  lemma EndIsForGood(s: State, id: nat, events: seq<Event>)
    requires Inv(s) && Shape(s) && SlotOf(id) < MAX_TASKS && s.pool[SlotOf(id)].id == id && IsLive(s.pool[SlotOf(id)])
    requires Inv(EndTask(s, id)) && IsRun(EndTask(s, id), events)
    ensures var t, r := SlotOf(id), EndOf(EndTask(s, id), events);
            || FreedIn(EndTask(s, id), events, t)
            || (&& Over(r, t) && r.pool[t].id == id && t in DoomedSlots(r.pool)
                && (t != s.running || (exists k :: 0 <= k < LEVELS && s.queues.ready[k] != []) ==>
                      t != r.running && t in r.queues.wait))
  {
    hide Inv, IsRun, EndOf, EndTask, FreedIn, Doomed;
    EndedIsOver(s, id);
    NeverRunsAgain(EndTask(s, id), events, SlotOf(id));
  }
}
