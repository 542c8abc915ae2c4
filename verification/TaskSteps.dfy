/** The scheduler's steps on values, and which of them keep the invariant. */
module TaskSteps {
  import opened TaskState
  import opened Sequences

  predicate Shape(s: State) {
    |s.pool| == MAX_TASKS && s.running < MAX_TASKS && |s.queues.ready| == LEVELS && |s.executed| == LEVELS
  }

  // ----- picking the next task -----

  /** The first level from `i` on that has been picked less often than it has tasks, or LEVELS. */
  function FirstLevel(ready: seq<seq<nat>>, executed: seq<nat>, i: nat): (l: nat)
    requires |ready| == |executed| == LEVELS && i <= LEVELS
    ensures i <= l <= LEVELS
    ensures l < LEVELS ==> executed[l] < |ready[l]|
    ensures forall k :: i <= k < l ==> executed[k] >= |ready[k]|
    decreases LEVELS - i
  {
    if i == LEVELS || executed[i] < |ready[i]| then i else FirstLevel(ready, executed, i + 1)
  }

  /** A pick from level `l` counts there and resets the levels above it. */
  function Counted(executed: seq<nat>, l: nat): (r: seq<nat>)
    ensures |r| == |executed|
    ensures forall k :: 0 <= k < |r| ==> r[k] == if k < l then 0 else if k == l then executed[k] + 1 else executed[k]
  {
    seq(|executed|, k requires 0 <= k < |executed| => if k < l then 0 else if k == l then executed[k] +
        1 else executed[k])
  }

  /** The level picked from, LEVELS if there is none, and the new counts: when every level has had its
      turn all counts are reset and the search is made once more. */
  function Pick(ready: seq<seq<nat>>, executed: seq<nat>): (r: (nat, seq<nat>))
    requires |ready| == |executed| == LEVELS
    ensures r.0 <= LEVELS && |r.1| == LEVELS
    ensures r.0 < LEVELS ==> ready[r.0] != []
  {
    var l := FirstLevel(ready, executed, 0);
    if l < LEVELS then (l, Counted(executed, l))
    else
      var m := FirstLevel(ready, Counted(executed, LEVELS), 0);
      (m, Counted(Counted(executed, LEVELS), m))
  }

  /** A task is picked exactly when some ready list has one. */
  lemma PickFindsTask(ready: seq<seq<nat>>, executed: seq<nat>)
    requires |ready| == |executed| == LEVELS
    ensures Pick(ready, executed).0 < LEVELS <==> exists l :: 0 <= l < LEVELS && ready[l] != []
  {
    if l :| 0 <= l < LEVELS && ready[l] != [] {
      var none := Counted(executed, LEVELS);
      var m := FirstLevel(ready, none, 0);
      assert none[l] == 0 < |ready[l]|;
    }
  }

  /** Which level is picked: the least one that has had fewer turns than it has tasks.  If there is none, all
      counts start anew and it is the least level that has a task at all. */
  lemma LevelPicked(ready: seq<seq<nat>>, executed: seq<nat>)
    requires |ready| == |executed| == LEVELS
    ensures var (l, next) := Pick(ready, executed);
            if exists k :: 0 <= k < LEVELS && executed[k] < |ready[k]| then
              && l < LEVELS && executed[l] < |ready[l]| && (forall k :: 0 <= k < l ==> executed[k] >= |ready[k]|)
              && forall k :: 0 <= k < LEVELS ==>
                   next[k] == if k < l then 0 else if k == l then executed[l] + 1 else executed[k]
            else
              && (l < LEVELS ==> ready[l] != []) && (forall k :: 0 <= k < l ==> ready[k] == [])
              && forall k :: 0 <= k < LEVELS ==> next[k] == if k == l then 1 else 0
  {
    var l := FirstLevel(ready, executed, 0);
    if l == LEVELS {
      var none := Counted(executed, LEVELS);
      assert forall k :: 0 <= k < LEVELS ==> none[k] == 0;
    }
  }

  // ----- switching -----

  /** The running task goes back to the queue it now belongs to and the picked one runs. */
  function Switched(s: State, l: nat, executed: seq<nat>): State
    requires Shape(s) && l < LEVELS && s.queues.ready[l] != []
  {
    var next := s.queues.ready[l][0];
    var q := s.queues.(ready := s.queues.ready[l := s.queues.ready[l][1..]]);
    var r := s.pool[s.running];
    s.(running := next, executed := executed,
       queues := if r.ended then q.(wait := q.wait + [s.running]) else Added(q, s.running, r.priority))
  }

  /** The switch made by the timer interrupt. */
  function Dispatch(s: State): State
    requires Shape(s)
  {
    var p := Pick(s.queues.ready, s.executed);
    if p.0 == LEVELS then s.(executed := p.1) else Switched(s, p.0, p.1)
  }

  /** The switch a task asks for itself. */
  function Yield(s: State): State
    requires Shape(s)
  {
    if forall l :: 0 <= l < LEVELS ==> s.queues.ready[l] == [] then s else Dispatch(s)
  }

  lemma DispatchKeeps(s: State)
    requires Inv(s)
    ensures Inv(Dispatch(s)) && Dispatch(s).pool == s.pool
  {
    hide Families, SlotsOk, InPlace;
    var p := Pick(s.queues.ready, s.executed);
    if p.0 < LEVELS {
      SwitchKeeps(s, p.0, p.1);
    }
  }

  lemma SwitchKeeps(s: State, l: nat, executed: seq<nat>)
    requires Inv(s) && l < LEVELS && s.queues.ready[l] != [] && |executed| == LEVELS
    ensures Inv(Switched(s, l, executed))
  {
    hide Families, InPlace, LiveCount, Placed, PlacedBut, ListOk;
    PickedIsReady(s, l);
    var next := s.queues.ready[l][0];
    TakeOut(s.pool, s.running, s.queues, next, l);
    var q := Removed(s.queues, next, l);
    RunsNow(s.pool, s.running, q, next);
    assert SlotOk(s.pool[s.running], s.running);
    PutIn(s.pool, next, q, s.running);
  }

  lemma PickedIsReady(s: State, l: nat)
    requires Inv(s) && l < LEVELS && s.queues.ready[l] != []
    ensures var next := s.queues.ready[l][0];
            && next in s.queues.ready[l] && next < MAX_TASKS && next != s.running && IsLive(s.pool[next])
            && Removed(s.queues, next, l) == s.queues.(ready := s.queues.ready[l := s.queues.ready[l][1..]])
  {
    var next := s.queues.ready[l][0];
    assert next in s.queues.ready[l];
    assert ListOk(s.queues.ready[l]);
    assert InPlace(s.queues, next, Home(s.pool, s.running, next));
    WithoutHead(s.queues.ready[l]);
  }

  // ----- creating -----

  /** The slot of the process a task belongs to, or -1. */
  function ProcessOf(pool: seq<Tcb>, t: nat): int
    requires t < |pool|
  {
    if pool[t].kind == Process then t
    else
      var p := SlotOf(pool[t].parent);
      if p < |pool| && pool[p].id == pool[t].parent then p else -1
  }

  /** Appends a thread to its process's list. */
  function WithChild(pool: seq<Tcb>, p: nat, c: nat): (r: seq<Tcb>)
    requires p < |pool|
    ensures |r| == |pool|
  {
    pool[p := pool[p].(children := pool[p].children + [c])]
  }

  /** A new task of the running task's process in the first free slot. */
  function Create(s: State, kind: Kind, priority: nat): State
    requires Shape(s)
  {
    var i := FirstFree(s.pool, 0);
    if s.useCount == MAX_TASKS || i == MAX_TASKS then s
    else
      var p := ProcessOf(s.pool, s.running);
      var next := s.(generation := NextGeneration(s.generation));
      if p == -1 then next
      else
        var tcb := Tcb(MakeId(s.generation, i), priority, false, kind, s.pool[p].id, []);
        var pool := s.pool[i := tcb];
        next.(pool := if kind == Thread then WithChild(pool, p, i) else pool,
              useCount := s.useCount + 1,
              queues := Added(s.queues, i, priority))
  }

  /** Creation fails only on a full pool; else it keeps the invariant and gives a fresh id. */
  lemma CreateKeeps(s: State, kind: Kind, priority: nat)
    requires Inv(s) && priority < LEVELS
    ensures var r, i := Create(s, kind, priority), FirstFree(s.pool, 0);
            && Inv(r)
            && (r == s <==> s.useCount == MAX_TASKS)
            && (r != s ==>
                  && i < MAX_TASKS && !IsLive(s.pool[i]) && r.pool[i].id == MakeId(s.generation, i)
                  && r.pool[i].kind == kind && !r.pool[i].ended && r.pool[i].priority == priority
                  && r.queues == s.queues.(ready := s.queues.ready[priority := s.queues.ready[priority] + [i]])
                  && r.executed == s.executed && r.useCount == s.useCount + 1
                  && (var p := ProcessOf(s.pool, s.running); 0 <= p < MAX_TASKS && r.pool[i].parent == s.pool[p].id)
                  && r.running == s.running && r.generation == NextGeneration(s.generation)
                  && forall t :: 0 <= t < MAX_TASKS && t != i ==>
                       r.pool[t] == s.pool[t] || r.pool[t] == s.pool[t].(children := s.pool[t].children + [i]))
  {
    hide Families, InPlace, Placed, PlacedBut, QueuesOk, LiveCount;
    if s.useCount < MAX_TASKS {
      FreeSlotExists(s.pool);
      var i := FirstFree(s.pool, 0);
      ProcessFound(s.pool, s.running);
      var p := ProcessOf(s.pool, s.running);
      var tcb := Tcb(MakeId(s.generation, i), priority, false, kind, s.pool[p].id, []);
      IdParts(s.generation, i);
      var pool := s.pool[i := tcb];
      NowhereNow(s.pool, s.running, s.queues, i);
      BlockChanged(s.pool, s.running, s.queues, i, tcb);
      PutIn(pool, s.running, s.queues, i);
      CountUpdate(s.pool, i, tcb);
      FamilyGrows(s.pool, i, p, tcb);
      if kind == Thread {
        CountUpdate(pool, p, WithChild(pool, p, i)[p]);
        SamePlaces(pool, WithChild(pool, p, i), s.running, Added(s.queues, i, priority));
      }
      SlotsStayOk(s.pool, i, tcb);
    } else {
      CountAtMost(s.pool);
    }
  }

  /** Nothing checks the priority in the flags of a new task: a creation keeps the invariant exactly if the
      priority is a real one or no task is created. */
  lemma CreateExact(s: State, kind: Kind, priority: nat)
    requires Inv(s)
    ensures Inv(Create(s, kind, priority)) <==> priority < LEVELS || s.useCount == MAX_TASKS
  {
    hide Families, Placed, LiveCount;
    if priority < LEVELS {
      CreateKeeps(s, kind, priority);
    } else if s.useCount != MAX_TASKS {
      CountAtMost(s.pool);
      FreeSlotExists(s.pool);
      ProcessFound(s.pool, s.running);
      var i := FirstFree(s.pool, 0);
      IdParts(s.generation, i);
      assert !SlotOk(Create(s, kind, priority).pool[i], i);
    }
  }

  lemma CountAtMost(pool: seq<Tcb>)
    ensures LiveCount(pool) <= |pool|
  {
  }

  lemma SlotsStayOk(pool: seq<Tcb>, i: nat, tcb: Tcb)
    requires SlotsOk(pool) && i < |pool| && SlotOk(tcb, i)
    ensures SlotsOk(pool[i := tcb])
  {
  }

  lemma ProcessFound(pool: seq<Tcb>, t: nat)
    requires SlotsOk(pool) && Families(pool) && t < |pool| && IsLive(pool[t])
    ensures var p := ProcessOf(pool, t);
            && 0 <= p < |pool| && IsLive(pool[p]) && pool[p].kind == Process && SlotOf(pool[p].id) == p
            && (pool[t].kind == Thread ==> pool[t].parent == pool[p].id)
  {
    assert FamilyOk(pool, t) && SlotOk(pool[t], t);
    var p := SlotOf(pool[t].parent);
    assert p < |pool| ==> SlotOk(pool[p], p);
  }

  lemma FamilyGrows(pool: seq<Tcb>, i: nat, p: nat, tcb: Tcb)
    requires SlotsOk(pool) && Families(pool) && i < |pool| && p < |pool| && !IsLive(pool[i])
    requires IsLive(pool[p]) && pool[p].kind == Process
    requires IsLive(tcb) && SlotOf(tcb.id) == i && tcb.parent == pool[p].id && tcb.children == []
    ensures Families(if tcb.kind == Thread then WithChild(pool[i := tcb], p, i) else pool[i := tcb])
  {
    var next := if tcb.kind == Thread then WithChild(pool[i := tcb], p, i) else pool[i := tcb];
    forall t | 0 <= t < |next|
      ensures FamilyOk(next, t)
    {
      assert FamilyOk(pool, t) && SlotOk(pool[t], t) && SlotOk(pool[p], p);
      if t == i {
        if tcb.kind == Process {
          NoThreadsYet(pool, next, i, tcb);
        }
      } else if IsLive(pool[t]) && pool[t].kind == Process {
        ChildrenGrow(pool, next, i, p, tcb, t);
      }
    }
  }

  lemma NoThreadsYet(pool: seq<Tcb>, next: seq<Tcb>, i: nat, tcb: Tcb)
    requires SlotsOk(pool) && Families(pool) && i < |pool| && !IsLive(pool[i]) && SlotOf(tcb.id) == i
    requires tcb.kind == Process && next == pool[i := tcb]
    ensures forall c: nat :: !ChildOf(next, c, i)
  {
    forall c: nat
      ensures !ChildOf(next, c, i)
    {
      if c < |pool| {
        assert FamilyOk(pool, c);
      }
    }
  }

  lemma ChildrenGrow(pool: seq<Tcb>, next: seq<Tcb>, i: nat, p: nat, tcb: Tcb, t: nat)
    requires SlotsOk(pool) && Families(pool) && i < |pool| && p < |pool| && !IsLive(pool[i])
    requires IsLive(pool[p]) && pool[p].kind == Process && t < |pool| && t != i
    requires IsLive(tcb) && tcb.parent == pool[p].id
    requires next == if tcb.kind == Thread then WithChild(pool[i := tcb], p, i) else pool[i := tcb]
    requires IsLive(pool[t]) && pool[t].kind == Process
    ensures FamilyOk(next, t)
  {
    assert FamilyOk(pool, t) && SlotOk(pool[t], t) && SlotOk(pool[p], p);
    assert !ChildOf(pool, i, t);
    forall c
      ensures c in next[t].children <==> 0 <= c && ChildOf(next, c, t)
    {
      if 0 <= c < |pool| && c != i {
        assert ChildOf(next, c, t) <==> ChildOf(pool, c, t);
      }
    }
  }

  // ----- changing a priority -----

  function SetPriority(s: State, t: nat, p: nat): State
    requires t < |s.pool|
  {
    s.(pool := s.pool[t := s.pool[t].(priority := p)])
  }

  /** The slot named by `id` holds it and is in the ready list of its priority. */
  predicate FoundReady(s: State, id: nat)
    requires Shape(s)
  {
    var t := SlotOf(id);
    t < MAX_TASKS && s.pool[t].id == id && s.pool[t].priority < LEVELS && t in s.queues.ready[s.pool[t].priority]
  }

  function ChangePriority(s: State, id: nat, p: nat): State
    requires Shape(s) && SlotOf(id) < MAX_TASKS
  {
    var t := SlotOf(id);
    if p > LEVELS then s
    else if s.pool[s.running].id == id then SetPriority(s, s.running, p)
    else if FoundReady(s, id) then
      SetPriority(s, t, p).(queues := Added(Removed(s.queues, t, s.pool[t].priority), t, p))
    else SetPriority(s, t, p)
  }

  /** For a live task that has not ended and a real priority the invariant is kept, and the task has the
      priority asked for. */
  lemma ChangePriorityKeeps(s: State, id: nat, p: nat)
    requires Inv(s) && SlotOf(id) < MAX_TASKS && s.pool[SlotOf(id)].id == id && IsLive(s.pool[SlotOf(id)])
    requires !s.pool[SlotOf(id)].ended && p < LEVELS
    ensures Inv(ChangePriority(s, id, p)) && ChangePriority(s, id, p).pool == SetPriority(s, SlotOf(id), p).pool
  {
    hide Families, InPlace, Placed, PlacedBut, QueuesOk, LiveCount;
    var t := SlotOf(id);
    var tcb := s.pool[t].(priority := p);
    CountUpdate(s.pool, t, tcb);
    SlotsStayOk(s.pool, t, tcb);
    SameFamilies(s.pool, t, tcb);
    if t == s.running {
      NowhereNow(s.pool, s.running, s.queues, t);
      BlockChanged(s.pool, s.running, s.queues, t, tcb);
      StaysNowhere(s.pool[t := tcb], s.running, s.queues, t);
    } else {
      LiveIsReady(s, t);
      RunningIdDiffers(s, t);
      TakeOut(s.pool, s.running, s.queues, t, s.pool[t].priority);
      var q := Removed(s.queues, t, s.pool[t].priority);
      BlockChanged(s.pool, s.running, q, t, tcb);
      PutIn(s.pool[t := tcb], s.running, q, t);
    }
  }

  /** A ready task leaves its list and goes to the end of the list of its new priority, even if that is the
      same one; for the running task only the priority changes. */
  lemma ChangedGoesLast(s: State, id: nat, p: nat, l: nat)
    requires Inv(s) && SlotOf(id) < MAX_TASKS && s.pool[SlotOf(id)].id == id && IsLive(s.pool[SlotOf(id)])
    requires !s.pool[SlotOf(id)].ended && p < LEVELS && l < LEVELS
    ensures var t, r := SlotOf(id), ChangePriority(s, id, p);
            && r.pool == s.pool[t := s.pool[t].(priority := p)] && r.running == s.running && r.executed == s.executed
            && |r.queues.ready| == LEVELS && r.queues.wait == s.queues.wait
            && (if t == s.running then r.queues == s.queues
                else r.queues.ready[l] == Without(s.queues.ready[l], t) + if l == p then [t] else [])
  {
    hide Families, Placed, LiveCount;
    var t := SlotOf(id);
    if t != s.running {
      LiveIsReady(s, t);
      RunningIdDiffers(s, t);
      if l != s.pool[t].priority {
        assert InPlace(s.queues, t, Home(s.pool, s.running, t)) by { PlacedAt(s, t); }
        WithoutAbsent(s.queues.ready[l], t);
      }
    }
  }

  lemma PlacedAt(s: State, t: nat)
    requires Inv(s) && t < MAX_TASKS
    ensures InPlace(s.queues, t, Home(s.pool, s.running, t))
  {
  }

  lemma RunningIdDiffers(s: State, t: nat)
    requires Inv(s) && t < MAX_TASKS && t != s.running && IsLive(s.pool[t])
    ensures s.pool[s.running].id != s.pool[t].id
  {
    assert SlotOk(s.pool[t], t) && SlotOk(s.pool[s.running], s.running);
  }

  /** A live task that has not ended and does not run is ready. */
  lemma LiveIsReady(s: State, t: nat)
    requires Inv(s) && t < MAX_TASKS && IsLive(s.pool[t]) && !s.pool[t].ended && t != s.running
    ensures s.pool[t].priority < LEVELS && t in s.queues.ready[s.pool[t].priority]
    ensures SlotOf(s.pool[t].id) == t && |s.queues.ready| == LEVELS
  {
    assert SlotOk(s.pool[t], t) && InPlace(s.queues, t, Home(s.pool, s.running, t));
  }

  lemma SameFamilies(pool: seq<Tcb>, t: nat, tcb: Tcb)
    requires Families(pool) && t < |pool|
    requires tcb.id == pool[t].id && tcb.kind == pool[t].kind && tcb.parent == pool[t].parent &&
        tcb.children == pool[t].children
    ensures Families(pool[t := tcb])
  {
    var next := pool[t := tcb];
    forall u | 0 <= u < |next|
      ensures FamilyOk(next, u)
    {
      assert FamilyOk(pool, u);
      forall c
        ensures 0 <= c && ChildOf(next, c, u) <==> 0 <= c && ChildOf(pool, c, u)
      {
      }
    }
  }

  /** When a priority change is harmless: the slot is free, or it holds the running task, which has not
      ended and gets a real priority, or it holds a ready task that either has this very id and gets a real
      priority or has that priority already.  Any id is allowed, that of a dead task too, and so is the
      priority 5 that the bounds check lets through. */
  predicate HarmlessChange(s: State, id: nat, p: nat)
    requires Shape(s) && SlotOf(id) < MAX_TASKS
  {
    var t := SlotOf(id);
    var tcb := s.pool[t];
    || !IsLive(tcb)
    || (t == s.running && !tcb.ended && p < LEVELS)
    || (t != s.running && tcb.priority < LEVELS && if tcb.id == id then p < LEVELS else p == tcb.priority)
  }

  lemma ChangePriorityExact(s: State, id: nat, p: nat)
    requires Inv(s) && SlotOf(id) < MAX_TASKS && id / GENERATIONS != 0 && p <= LEVELS
    ensures Inv(ChangePriority(s, id, p)) <==> HarmlessChange(s, id, p)
  {
    hide Families, InPlace, Placed, PlacedBut, QueuesOk, LiveCount;
    var t := SlotOf(id);
    assert SlotOk(s.pool[t], t) && SlotOk(s.pool[s.running], s.running);
    if s.pool[t].id == id && !s.pool[t].ended && p < LEVELS {
      ChangePriorityKeeps(s, id, p);
    } else if !IsLive(s.pool[t]) {
      FreeSlotChange(s, t, p);
    } else if t == s.running {
      RunningChange(s, t, p);
    } else if s.pool[t].priority == WAIT {
      EndedChange(s, t, p);
    } else if s.pool[t].id == id {
      DroppedChange(s, id, t, p);
    } else {
      StrangerChange(s, t, p);
    }
  }

  lemma FreeSlotChange(s: State, t: nat, p: nat)
    requires Inv(s) && t < MAX_TASKS && !IsLive(s.pool[t])
    ensures Inv(SetPriority(s, t, p))
  {
    hide Families, InPlace, Placed, PlacedBut, QueuesOk, LiveCount;
    var tcb := s.pool[t].(priority := p);
    assert SlotOk(s.pool[t], t);
    CountUpdate(s.pool, t, tcb);
    SlotsStayOk(s.pool, t, tcb);
    SameFamilies(s.pool, t, tcb);
    NowhereNow(s.pool, s.running, s.queues, t);
    BlockChanged(s.pool, s.running, s.queues, t, tcb);
    StaysNowhere(s.pool[t := tcb], s.running, s.queues, t);
  }

  lemma RunningChange(s: State, t: nat, p: nat)
    requires Inv(s) && t == s.running && p <= LEVELS
    ensures Inv(SetPriority(s, t, p)) <==> !s.pool[t].ended && p < LEVELS
  {
    hide Families, InPlace, Placed, PlacedBut, QueuesOk, LiveCount;
    var tcb := s.pool[t].(priority := p);
    if !s.pool[t].ended && p < LEVELS {
      assert SlotOk(s.pool[t], t);
      CountUpdate(s.pool, t, tcb);
      SlotsStayOk(s.pool, t, tcb);
      SameFamilies(s.pool, t, tcb);
      NowhereNow(s.pool, s.running, s.queues, t);
      BlockChanged(s.pool, s.running, s.queues, t, tcb);
      StaysNowhere(s.pool[t := tcb], s.running, s.queues, t);
    } else {
      assert !SlotOk(s.pool[t := tcb][t], t);
    }
  }

  lemma EndedChange(s: State, t: nat, p: nat)
    requires Inv(s) && t < MAX_TASKS && IsLive(s.pool[t]) && s.pool[t].priority == WAIT && p <= LEVELS
    ensures !Inv(SetPriority(s, t, p))
  {
    assert SlotOk(s.pool[t], t);
    assert !SlotOk(SetPriority(s, t, p).pool[t], t);
  }

  lemma DroppedChange(s: State, id: nat, t: nat, p: nat)
    requires Inv(s) && t == SlotOf(id) < MAX_TASKS && s.pool[t].id == id && IsLive(s.pool[t]) && t != s.running
    requires s.pool[t].priority < LEVELS && p == LEVELS
    ensures !Inv(ChangePriority(s, id, p))
  {
    assert SlotOk(s.pool[t], t);
    RunningIdDiffers(s, t);
    assert !SlotOk(ChangePriority(s, id, p).pool[t], t);
  }

  lemma StrangerChange(s: State, t: nat, p: nat)
    requires Inv(s) && t < MAX_TASKS && IsLive(s.pool[t]) && t != s.running && s.pool[t].priority < LEVELS &&
        p <= LEVELS
    ensures Inv(SetPriority(s, t, p)) <==> p == s.pool[t].priority
  {
    var r := SetPriority(s, t, p);
    if p == s.pool[t].priority {
      assert r.pool == s.pool;
    } else if p == LEVELS {
      assert !SlotOk(r.pool[t], t);
    } else {
      assert InPlace(s.queues, t, Home(s.pool, s.running, t));
      assert !InPlace(r.queues, t, Home(r.pool, r.running, t));
    }
  }

  // ----- ending -----

  function Marked(s: State, t: nat): State
    requires t < |s.pool|
  {
    s.(pool := s.pool[t := s.pool[t].(ended := true, priority := WAIT)])
  }

  function EndTask(s: State, id: nat): State
    requires Shape(s) && SlotOf(id) < MAX_TASKS
  {
    var t := SlotOf(id);
    if s.pool[s.running].id == id then Yield(Marked(s, s.running))
    else if FoundReady(s, id) then
      Marked(s, t).(queues := Added(Removed(s.queues, t, s.pool[t].priority), t, WAIT))
    else Marked(s, t)
  }

  /** Ending a task by the id of a dead one would mark whatever task has its slot now: the invariant is lost
      exactly if that task is ready. */
  predicate HarmlessEnd(s: State, id: nat)
    requires Shape(s) && SlotOf(id) < MAX_TASKS
  {
    var t := SlotOf(id);
    s.pool[t].id == id || t == s.running || !IsLive(s.pool[t]) || s.pool[t].ended
  }

  lemma EndTaskExact(s: State, id: nat)
    requires Inv(s) && SlotOf(id) < MAX_TASKS && id / GENERATIONS != 0
    ensures Inv(EndTask(s, id)) <==> HarmlessEnd(s, id)
  {
    hide Families, InPlace, Placed, PlacedBut, QueuesOk, LiveCount;
    var t := SlotOf(id);
    var tcb := s.pool[t].(ended := true, priority := WAIT);
    assert SlotOk(s.pool[t], t) && SlotOk(s.pool[s.running], s.running);
    CountUpdate(s.pool, t, tcb);
    SlotsStayOk(s.pool, t, tcb);
    SameFamilies(s.pool, t, tcb);
    if t == s.running || !IsLive(s.pool[t]) {
      NowhereNow(s.pool, s.running, s.queues, t);
      BlockChanged(s.pool, s.running, s.queues, t, tcb);
      StaysNowhere(s.pool[t := tcb], s.running, s.queues, t);
      assert Inv(Marked(s, t));
      DispatchKeeps(Marked(s, t));
    } else if s.pool[t].ended {
      assert Marked(s, t) == s;
    } else if s.pool[t].id == id {
      EndReady(s, id, t);
    } else {
      StrangerEnds(s, t);
    }
  }

  lemma EndReady(s: State, id: nat, t: nat)
    requires Inv(s) && t == SlotOf(id) < MAX_TASKS && s.pool[t].id == id && IsLive(s.pool[t]) && !s.pool[t].ended
    requires t != s.running
    ensures FoundReady(s, id) && s.pool[s.running].id != id
    ensures Inv(Marked(s, t).(queues := Added(Removed(s.queues, t, s.pool[t].priority), t, WAIT)))
  {
    hide Families, InPlace, Placed, PlacedBut, LiveCount;
    var tcb := s.pool[t].(ended := true, priority := WAIT);
    LiveIsReady(s, t);
    RunningIdDiffers(s, t);
    CountUpdate(s.pool, t, tcb);
    SlotsStayOk(s.pool, t, tcb);
    SameFamilies(s.pool, t, tcb);
    TakeOut(s.pool, s.running, s.queues, t, s.pool[t].priority);
    var q := Removed(s.queues, t, s.pool[t].priority);
    BlockChanged(s.pool, s.running, q, t, tcb);
    PutIn(s.pool[t := tcb], s.running, q, t);
  }

  lemma StrangerEnds(s: State, t: nat)
    requires Inv(s) && t < MAX_TASKS && IsLive(s.pool[t]) && !s.pool[t].ended && t != s.running
    ensures !Inv(Marked(s, t))
  {
    var r := Marked(s, t);
    LiveIsReady(s, t);
    assert !InPlace(r.queues, t, Home(r.pool, r.running, t));
  }

  /** The running task's end: it is marked, and if any task is ready it waits and another task runs; else it
      goes on to be the running one. */
  lemma RunnerEnds(s: State, id: nat, l: nat)
    requires Inv(s) && s.pool[s.running].id == id && l < LEVELS
    ensures Shape(s) && SlotOf(id) == s.running
    ensures var t, r := s.running, EndTask(s, id);
            && r.pool == s.pool[t := s.pool[t].(ended := true, priority := WAIT)]
            && (if exists k :: 0 <= k < LEVELS && s.queues.ready[k] != [] then
                  && r.running != t && r.queues.wait == s.queues.wait + [t]
                  && |r.queues.ready| == LEVELS && t !in r.queues.ready[l]
                  && r.running < MAX_TASKS && !r.pool[r.running].ended
                else r.running == t && r.queues == s.queues)
  {
    hide Families, Placed, LiveCount, Pick;
    var t, m := s.running, Marked(s, s.running);
    assert SlotOk(s.pool[t], t);
    PickFindsTask(s.queues.ready, s.executed);
    PlacedAt(s, t);
    if exists k :: 0 <= k < LEVELS && s.queues.ready[k] != [] {
      var pick := Pick(s.queues.ready, s.executed);
      PickedIsReady(s, pick.0);
      var next := s.queues.ready[pick.0][0];
      PlacedAt(s, next);
      assert SlotOk(s.pool[next], next);
    }
  }

  /** The end of a ready task: it is marked, leaves its ready list and goes to the end of the wait list. */
  lemma ReadyTaskEnds(s: State, id: nat, l: nat)
    requires Inv(s) && SlotOf(id) < MAX_TASKS && s.pool[SlotOf(id)].id == id && IsLive(s.pool[SlotOf(id)])
    requires SlotOf(id) != s.running && !s.pool[SlotOf(id)].ended && l < LEVELS
    ensures Shape(s)
    ensures var t, r := SlotOf(id), EndTask(s, id);
            && r.pool == s.pool[t := s.pool[t].(ended := true, priority := WAIT)] && r.running == s.running
            && r.queues.wait == s.queues.wait + [t] && |r.queues.ready| == LEVELS
            && r.queues.ready[l] == Without(s.queues.ready[l], t) && r.executed == s.executed
  {
    hide Families, Placed, LiveCount;
    var t := SlotOf(id);
    LiveIsReady(s, t);
    RunningIdDiffers(s, t);
    if l != s.pool[t].priority {
      PlacedAt(s, t);
      WithoutAbsent(s.queues.ready[l], t);
    }
  }

  /** Whatever the id, exactly the block of its slot changes. */
  lemma ChangedBlock(s: State, id: nat, p: nat)
    requires Inv(s) && SlotOf(id) < MAX_TASKS && p <= LEVELS
    ensures Shape(s)
    ensures var t := SlotOf(id); ChangePriority(s, id, p).pool == s.pool[t := s.pool[t].(priority := p)]
  {
    assert SlotOk(s.pool[s.running], s.running);
  }

  lemma EndedBlock(s: State, id: nat)
    requires Inv(s) && SlotOf(id) < MAX_TASKS
    ensures Shape(s)
    ensures var t := SlotOf(id); EndTask(s, id).pool == s.pool[t := s.pool[t].(ended := true, priority := WAIT)]
  {
    hide Pick;
    assert SlotOk(s.pool[s.running], s.running);
  }
}
