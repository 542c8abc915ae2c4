/** Whole runs of the scheduler: whatever tasks do, in any order, the invariant holds and ids are not given
    out twice. */
module TaskRuns {
  import opened TaskState
  import opened TaskSteps
  import opened Reaper

  datatype Event =
    | TimerInterrupt
    | GiveUp
    | CreateOne(kind: Kind, newPriority: nat)
    | Change(id: nat, priority: nat)
    | End(victim: nat)
    | ReapTurn

  /** What callers keep to: priorities of new tasks are real ones; ids given to a change or an end are of
      tasks for which it is harmless; the wait list is cleared by a task that does not belong on it. */
  ghost predicate Allowed(s: State, e: Event)
    requires Shape(s)
  {
    match e
    case TimerInterrupt => true
    case GiveUp => true
    case CreateOne(_, p) => p < LEVELS
    case Change(id, p) => SlotOf(id) < MAX_TASKS && id / GENERATIONS != 0 && p <= LEVELS && HarmlessChange(s, id, p)
    case End(id) => SlotOf(id) < MAX_TASKS && id / GENERATIONS != 0 && HarmlessEnd(s, id)
    case ReapTurn => s.queues.wait != [] && s.queues.wait[0] < MAX_TASKS && s.useCount > 0 && RunnerStays(s)
  }

  ghost function Next(s: State, e: Event): State
    requires Shape(s) && Allowed(s, e)
  {
    match e
    case TimerInterrupt => Dispatch(s)
    case GiveUp => Yield(s)
    case CreateOne(kind, p) => Create(s, kind, p)
    case Change(id, p) => ChangePriority(s, id, p)
    case End(id) => EndTask(s, id)
    case ReapTurn => Reap(s)
  }

  /** Every allowed step keeps the invariant and gives out at most the id of the current generation. */
  lemma NextKeeps(s: State, e: Event)
    requires Inv(s) && Shape(s) && Allowed(s, e)
    ensures Inv(Next(s, e)) && Shape(Next(s, e))
    ensures Next(s, e).generation ==
            if e.CreateOne? && s.useCount < MAX_TASKS then NextGeneration(s.generation) else s.generation
  {
    hide Inv, Reap, EndAll, RunnerStays;
    match e {
      case TimerInterrupt => DispatchKeeps(s);
      case GiveUp => DispatchKeeps(s);
      case CreateOne(kind, p) =>
        CreateKeeps(s, kind, p);
        UseCountBound(s);
      case Change(id, p) => ChangePriorityExact(s, id, p);
      case End(id) => EndTaskExact(s, id);
      case ReapTurn =>
        ReapKeeps(s);
        ReapKeepsGeneration(s);
    }
    InvIsShape(Next(s, e));
  }

  lemma UseCountBound(s: State)
    requires Inv(s)
    ensures s.useCount <= MAX_TASKS
  {
    CountAtMost(s.pool);
  }

  lemma ReapKeepsGeneration(s: State)
    requires Inv(s) && Shape(s) && s.queues.wait != [] && s.queues.wait[0] < MAX_TASKS && s.useCount > 0 &&
        RunnerStays(s)
    ensures Reap(s).generation == s.generation
  {
    hide Inv, EndAll, RunnerStays;
    if s.pool[s.queues.wait[0]].kind == Process {
      FirstChildren(s);
      EndAllEnds(s, s.pool[s.queues.wait[0]].children);
    }
  }

  ghost predicate IsRun(s: State, events: seq<Event>)
    requires Inv(s)
    decreases |events|
  {
    InvIsShape(s);
    events == [] ||
    (Allowed(s, events[0]) && (NextKeeps(s, events[0]); IsRun(Next(s, events[0]), events[1..])))
  }

  ghost function EndOf(s: State, events: seq<Event>): State
    requires Inv(s) && IsRun(s, events)
    decreases |events|
  {
    InvIsShape(s);
    if events == [] then s else NextKeeps(s, events[0]); EndOf(Next(s, events[0]), events[1..])
  }

  /** The ids given out in a run. */
  ghost function Issued(s: State, events: seq<Event>): seq<nat>
    requires Inv(s) && IsRun(s, events)
    decreases |events|
  {
    InvIsShape(s);
    if events == [] then []
    else
      NextKeeps(s, events[0]);
      var rest := Issued(Next(s, events[0]), events[1..]);
      if events[0].CreateOne? && s.useCount < MAX_TASKS then [MakeId(s.generation, FirstFree(s.pool, 0))] + rest
      else rest
  }

  /** In every run from start-up every allocated task stays in exactly one place. */
  lemma {:induction false} RunKeeps(s: State, events: seq<Event>)
    requires Inv(s) && IsRun(s, events)
    ensures Inv(EndOf(s, events))
    decreases |events|
  {
    hide Inv, Next, Allowed;
    InvIsShape(s);
    if events == [] {
    } else {
      NextKeeps(s, events[0]);
      RunKeeps(Next(s, events[0]), events[1..]);
    }
  }

  lemma {:induction false} IssuedGenerations(s: State, events: seq<Event>, k: nat)
    requires Inv(s) && IsRun(s, events) && k < |Issued(s, events)|
    ensures 0 < s.generation < GENERATIONS
    ensures Issued(s, events)[k] / GENERATIONS == GenerationAfter(s.generation, k)
    decreases |events|
  {
    hide Next, Allowed, Families, Placed, SlotsOk, QueuesOk;
    InvIsShape(s);
    if events == [] {
    } else {
      NextKeeps(s, events[0]);
      var created := events[0].CreateOne? && s.useCount < MAX_TASKS;
      if !created {
        IssuedGenerations(Next(s, events[0]), events[1..], k);
      } else if k == 0 {
        IdParts(s.generation, FirstFree(s.pool, 0));
      } else {
        IssuedGenerations(Next(s, events[0]), events[1..], k - 1);
        GenerationFromNext(s.generation, k - 1);
      }
    }
  }

  lemma {:induction false} GenerationFromNext(g: nat, k: nat)
    ensures GenerationAfter(NextGeneration(g), k) == GenerationAfter(g, k + 1)
  {
    if k > 0 {
      GenerationFromNext(g, k - 1);
    } else {
      assert GenerationAfter(g, 1) == NextGeneration(GenerationAfter(g, 0));
    }
  }

  /** Two ids given out in a run are the same only if a whole round of the generation counter, 2^32 - 1
      creations, lies between them. */
  lemma IdsAreNotReissued(s: State, events: seq<Event>, j: nat, k: nat)
    requires Inv(s) && IsRun(s, events) && j < k < |Issued(s, events)|
    requires Issued(s, events)[j] == Issued(s, events)[k]
    ensures (k - j) % (GENERATIONS - 1) == 0
  {
    hide Inv, IsRun, Issued, GenerationAfter;
    IssuedGenerations(s, events, j);
    IssuedGenerations(s, events, k);
    GenerationCounts(s.generation, j);
    GenerationCounts(s.generation, k);
    SameRemainder(s.generation - 1 + j, k - j);
  }

  lemma SameRemainder(x: nat, d: nat)
    requires (x + d) % (GENERATIONS - 1) == x % (GENERATIONS - 1)
    ensures d % (GENERATIONS - 1) == 0
  {
  }
}
