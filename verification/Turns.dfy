/** Which level the scheduler picks from, in terms of the turns the levels have had: in every run a lower level
    gets a turn only when every higher one has had as many as it has tasks. */
module Turns {
  import opened TaskState
  import opened TaskSteps
  import opened Reaper
  import opened TaskRuns

  /** A turn of a level, or a new start for all of them. */
  datatype Turn = Taken(level: nat) | Reset

  /** The turns level `k` has had since a lower level had one or all started anew. */
  function Since(history: seq<Turn>, k: nat): nat {
    if history == [] then 0
    else
      var last, before := history[|history| - 1], history[..|history| - 1];
      if last.Reset? || last.level > k then 0
      else if last.level == k then Since(before, k) + 1
      else Since(before, k)
  }

  /** Level `k` has not had as many turns as it has tasks. */
  predicate Due(s: State, history: seq<Turn>, k: nat)
    requires Shape(s) && k < LEVELS
  {
    Since(history, k) < |s.queues.ready[k]|
  }

  predicate SomeoneReady(s: State)
    requires Shape(s)
  {
    exists k :: 0 <= k < LEVELS && s.queues.ready[k] != []
  }

  /** The event makes the scheduler look for another task. */
  predicate Looks(s: State, e: Event)
    requires Shape(s)
  {
    match e
    case TimerInterrupt => true
    case GiveUp => SomeoneReady(s)
    case End(id) => s.pool[s.running].id == id && SomeoneReady(s)
    case _ => false
  }

  /** What a switch to a task of priority `level` adds to the history: all levels start anew if none is due. */
  function Recorded(s: State, history: seq<Turn>, level: nat): seq<Turn>
    requires Shape(s)
  {
    history + (if exists k :: 0 <= k < LEVELS && Due(s, history, k) then [] else [Reset])
            + (if SomeoneReady(s) then [Taken(level)] else [])
  }

  ghost function After(s: State, e: Event, history: seq<Turn>): seq<Turn>
    requires Shape(s) && Allowed(s, e) && Shape(Next(s, e))
  {
    if Looks(s, e) then Recorded(s, history, s.pool[Next(s, e).running].priority) else history
  }

  /** The counts the scheduler keeps are the turns of its history. */
  predicate Counts(s: State, history: seq<Turn>)
    requires Shape(s)
  {
    forall k :: 0 <= k < LEVELS ==> s.executed[k] == Since(history, k)
  }

  /** The rule: the next task is the first of the highest level that is due, or, if none is, of the highest that
      has a task. */
  ghost predicate IsFair(s: State, history: seq<Turn>, next: nat)
    requires Shape(s) && next < MAX_TASKS
  {
    var l := s.pool[next].priority;
    && l < LEVELS && s.queues.ready[l] != [] && next == s.queues.ready[l][0]
    && if exists k :: 0 <= k < LEVELS && Due(s, history, k) then
         Due(s, history, l) && forall k :: 0 <= k < l ==> !Due(s, history, k)
       else
         forall k :: 0 <= k < l ==> s.queues.ready[k] == []
  }

  lemma SinceRecorded(s: State, history: seq<Turn>, level: nat, k: nat)
    requires Shape(s) && k < LEVELS && level < LEVELS
    ensures Since(history + [Reset], k) == 0
    ensures Since(history + [Reset] + [Taken(level)], k) == if k == level then 1 else 0
    ensures Since(history + [Taken(level)], k) ==
            if k < level then 0 else if k == level then Since(history, k) + 1 else Since(history, k)
  {
    assert (history + [Taken(level)])[..|history|] == history;
    assert (history + [Reset] + [Taken(level)])[..|history| + 1] == history + [Reset];
  }

  /** A switch follows the rule and keeps the counts right. */
  lemma DispatchIsFair(s: State, history: seq<Turn>)
    requires Inv(s) && Shape(s) && Counts(s, history)
    ensures Shape(Dispatch(s))
    ensures var r := Dispatch(s);
            && Counts(r, Recorded(s, history, s.pool[r.running].priority))
            && (SomeoneReady(s) ==> IsFair(s, history, r.running))
  {
    hide Inv, Pick;
    DispatchKeeps(s);
    InvIsShape(Dispatch(s));
    PickFindsTask(s.queues.ready, s.executed);
    LevelPicked(s.queues.ready, s.executed);
    var r, l := Dispatch(s), Pick(s.queues.ready, s.executed).0;
    assert forall k :: 0 <= k < LEVELS ==> (Due(s, history, k) <==> s.executed[k] < |s.queues.ready[k]|);
    if l < LEVELS {
      PickedPriority(s, l);
    }
    forall k | 0 <= k < LEVELS
      ensures r.executed[k] == Since(Recorded(s, history, s.pool[r.running].priority), k)
    {
      SinceRecorded(s, history, if l < LEVELS then l else 0, k);
      assert history + [] == history && history + [Reset] + [] == history + [Reset];
    }
  }

  lemma PickedPriority(s: State, l: nat)
    requires Inv(s) && l < LEVELS && |s.queues.ready| == LEVELS && s.queues.ready[l] != []
    ensures s.queues.ready[l][0] < MAX_TASKS && s.pool[s.queues.ready[l][0]].priority == l
  {
    PickedIsReady(s, l);
    OnePlace(s, s.queues.ready[l][0], l, l);
  }

  /** The same for every event. */
  lemma NextIsFair(s: State, e: Event, history: seq<Turn>)
    requires Inv(s) && Shape(s) && Allowed(s, e) && Counts(s, history)
    ensures Shape(Next(s, e)) && Counts(Next(s, e), After(s, e, history))
    ensures Looks(s, e) && SomeoneReady(s) ==> IsFair(s, history, Next(s, e).running)
    ensures !Looks(s, e) ==> Next(s, e).running == s.running
  {
    hide Inv, Dispatch, RunnerStays, Reap;
    NextKeeps(s, e);
    InvIsShape(s);
    DispatchIsFair(s, history);
    match e {
      case TimerInterrupt =>
      case GiveUp =>
      case CreateOne(kind, p) => CreateKeeps(s, kind, p);
      case Change(id, p) =>
      case End(id) => EndIsFair(s, id, history);
      case ReapTurn => ReapTakesNoTurn(s);
    }
  }

  lemma EndIsFair(s: State, id: nat, history: seq<Turn>)
    requires Inv(s) && Shape(s) && Allowed(s, End(id)) && Counts(s, history) && Shape(Next(s, End(id)))
    ensures Counts(Next(s, End(id)), After(s, End(id), history))
    ensures Looks(s, End(id)) ==> IsFair(s, history, Next(s, End(id)).running)
    ensures !Looks(s, End(id)) ==> Next(s, End(id)).running == s.running
  {
    hide Inv, Dispatch;
    if Looks(s, End(id)) {
      var m := Marked(s, s.running);
      MarkedIsSound(s, id);
      DispatchIsFair(m, history);
      var next := Dispatch(m).running;
      assert IsFair(m, history, next);
      ReadyIsNotRunning(s, next);
      assert forall k :: 0 <= k < LEVELS ==> (Due(m, history, k) <==> Due(s, history, k));
      assert SomeoneReady(m);
    }
  }

  lemma MarkedIsSound(s: State, id: nat)
    requires Inv(s) && Shape(s) && s.pool[s.running].id == id && SlotOf(id) < MAX_TASKS && id / GENERATIONS != 0
    ensures Inv(Marked(s, s.running)) && Shape(Marked(s, s.running))
  {
    hide Families, InPlace, Placed, PlacedBut, QueuesOk, LiveCount;
    var t := s.running;
    var tcb := s.pool[t].(ended := true, priority := WAIT);
    assert SlotOk(s.pool[t], t);
    CountUpdate(s.pool, t, tcb);
    SlotsStayOk(s.pool, t, tcb);
    SameFamilies(s.pool, t, tcb);
    NowhereNow(s.pool, s.running, s.queues, t);
    BlockChanged(s.pool, s.running, s.queues, t, tcb);
    StaysNowhere(s.pool[t := tcb], s.running, s.queues, t);
  }

  lemma ReadyIsNotRunning(s: State, next: nat)
    requires Inv(s) && Shape(s) && next < MAX_TASKS
    ensures forall l :: 0 <= l < LEVELS && s.queues.ready[l] != [] && s.queues.ready[l][0] == next ==> next != s.running
  {
    forall l | 0 <= l < LEVELS && s.queues.ready[l] != [] && s.queues.ready[l][0] == next
      ensures next != s.running
    {
      PickedIsReady(s, l);
    }
  }

  lemma ReapTakesNoTurn(s: State)
    requires Inv(s) && Shape(s) && s.queues.wait != [] && s.queues.wait[0] < MAX_TASKS && s.useCount > 0
    requires RunnerStays(s)
    ensures Reap(s).executed == s.executed && Reap(s).running == s.running
  {
    hide Inv, EndAll, RunnerStays;
    if s.pool[s.queues.wait[0]].kind == Process {
      FirstChildren(s);
      EndAllEnds(s, s.pool[s.queues.wait[0]].children);
    }
  }

  // ----- whole runs -----

  /** The history of a run. */
  ghost function History(s: State, events: seq<Event>, history: seq<Turn>): seq<Turn>
    requires Inv(s) && IsRun(s, events)
    decreases |events|
  {
    InvIsShape(s);
    if events == [] then history
    else NextKeeps(s, events[0]); History(Next(s, events[0]), events[1..], After(s, events[0], history))
  }

  lemma {:induction false} RunCounts(s: State, events: seq<Event>, history: seq<Turn>)
    requires Inv(s) && IsRun(s, events) && Shape(s) && Counts(s, history)
    ensures Inv(EndOf(s, events)) && Shape(EndOf(s, events))
    ensures Counts(EndOf(s, events), History(s, events, history))
    decreases |events|
  {
    hide Inv, Next, Allowed, After, Counts;
    if events == [] {
    } else {
      NextKeeps(s, events[0]);
      NextIsFair(s, events[0], history);
      RunCounts(Next(s, events[0]), events[1..], After(s, events[0], history));
    }
  }

  /** After every run, whatever happens next: if the scheduler looks for another task and one is ready, the next
      to run is the first task of the highest level that is due by the turns the levels have had, or of the
      highest that has a task if none is due.  At no other event does another task run. */
  lemma EveryTurnIsFair(o: State, before: seq<Turn>, events: seq<Event>, e: Event)
    requires Inv(o) && Shape(o) && Counts(o, before) && IsRun(o, events)
    requires Shape(EndOf(o, events)) && Allowed(EndOf(o, events), e)
    ensures var s, history := EndOf(o, events), History(o, events, before);
            && Shape(Next(s, e))
            && (Looks(s, e) && SomeoneReady(s) ==> IsFair(s, history, Next(s, e).running))
            && (!Looks(s, e) ==> Next(s, e).running == s.running)
  {
    hide IsRun, EndOf, History, IsFair, Looks, Counts, Allowed, Next;
    RunCounts(o, events, before);
    NextIsFair(EndOf(o, events), e, History(o, events, before));
  }

  /** At start-up no level has had a turn. */
  lemma NoTurnsAtStart()
    ensures Inv(Initial()) && Shape(Initial()) && Counts(Initial(), [])
  {
    InitialIsSound();
  }

  /** So a lower level gets a turn only when every higher one that has tasks has had at least as many turns as it
      has tasks, since a lower level last had one or all started anew. */
  lemma HigherLevelsFirst(s: State, history: seq<Turn>, next: nat, k: nat)
    requires Shape(s) && next < MAX_TASKS && IsFair(s, history, next)
    requires k < s.pool[next].priority && s.queues.ready[k] != []
    ensures Since(history, k) >= |s.queues.ready[k]|
  {
    assert Due(s, history, k) <==> Since(history, k) < |s.queues.ready[k]|;
  }
}
