/** The task pool and the scheduler. */
module Task {
  import opened TaskState
  import opened TaskSteps
  import opened Reaper
  import opened Endings
  import opened Sequences

  class Scheduler {
    const pool: array<Tcb>
    var useCount: int
    var generation: nat
    var running: nat
    const ready: array<seq<nat>>
    var wait: seq<nat>
    const executed: array<nat>

    ghost function Footprint(): set<object> {
      {this, pool, ready, executed}
    }

    ghost predicate Layout()
      reads Footprint()
    {
      && pool.Length == MAX_TASKS && ready.Length == LEVELS && executed.Length == LEVELS
      && pool as object != ready as object && pool as object != executed as object &&
          ready as object != executed as object
      && useCount >= 0
    }

    ghost function Snapshot(): State
      reads Footprint()
    {
      State(pool[..], if useCount >= 0 then useCount else 0, generation, running, Queues(ready[..], wait), executed[..])
    }

    /** What every step needs of the pool and the lists. */
    ghost predicate Ready()
      reads Footprint()
    {
      Layout() && running < MAX_TASKS && SlotsOk(pool[..]) && QueuesOk(Queues(ready[..], wait))
    }

    ghost predicate Valid()
      reads Footprint()
    {
      Layout() && Inv(Snapshot())
    }

    lemma ValidIsReady()
      requires Valid()
      ensures Ready() && Shape(Snapshot())
    {
    }

    constructor Initialize()
      ensures Valid() && Snapshot() == Initial() && fresh(Footprint())
    {
      pool := new Tcb[MAX_TASKS](InitialTcb);
      ready := new seq<nat>[LEVELS](_ => []);
      executed := new nat[LEVELS](_ => 0);
      useCount, generation, running, wait := 1, 2, 0, [];
      new;
      InitialIsSound();
      assert pool[..] == Initial().pool && ready[..] == Initial().queues.ready && executed[..] == Initial().executed;
    }

    // ----- the pool -----

    /** The first free block, marked with a new id, or -1. */
    method AllocateTcb() returns (r: int)
      requires Layout() && (useCount == MAX_TASKS || FirstFree(pool[..], 0) < MAX_TASKS)
      modifies this`useCount, this`generation, pool
      ensures Layout()
      ensures old(useCount) == MAX_TASKS ==> r == -1 && Snapshot() == old(Snapshot())
      ensures old(useCount) != MAX_TASKS ==>
                && r == FirstFree(old(pool[..]), 0) < MAX_TASKS
                && pool[..] == old(pool[..])[r := old(pool[r]).(id := MakeId(old(generation), r))]
                && useCount == old(useCount) + 1 && generation == NextGeneration(old(generation))
    {
      if useCount == MAX_TASKS {
        return -1;
      }
      var i := 0;
      while i < MAX_TASKS
        invariant 0 <= i < MAX_TASKS && FirstFree(pool[..], i) == FirstFree(pool[..], 0)
      {
        if pool[i].id / GENERATIONS == 0 {
          break;
        }
        i := i + 1;
      }
      pool[i] := pool[i].(id := MakeId(generation, i));
      useCount := useCount + 1;
      generation := (generation + 1) % GENERATIONS;
      if generation == 0 {
        generation := 1;
      }
      r := i;
    }

    method FreeTcb(t: nat)
      requires Layout() && t < MAX_TASKS && useCount > 0
      modifies this`useCount, pool
      ensures Layout() && Snapshot() == Reaper.FreeTcb(old(Snapshot()), t)
    {
      pool[t] := pool[t].(id := t);
      useCount := useCount - 1;
    }

    /** The slot of the process of a task, or -1. */
    method GetProcessByThread(t: nat) returns (p: int)
      requires Layout() && t < MAX_TASKS
      requires pool[t].kind == Thread ==> SlotOf(pool[t].parent) < MAX_TASKS
      ensures p == ProcessOf(pool[..], t)
    {
      if pool[t].kind == Process {
        return t;
      }
      p := SlotOf(pool[t].parent);
      if pool[p].id != pool[t].parent {
        p := -1;
      }
    }

    /** Puts a task into the queue of its priority; a priority of neither kind puts it nowhere. */
    method AddTaskToReadyList(t: nat) returns (ok: bool)
      requires Layout() && t < MAX_TASKS
      modifies this`wait, ready
      ensures Layout()
      ensures Snapshot() == old(Snapshot()).(queues := Added(old(Snapshot()).queues, t, pool[t].priority))
      ensures ok <==> pool[t].priority == WAIT || pool[t].priority < LEVELS
      ensures wait == old(wait) + if pool[t].priority == WAIT then [t] else []
      ensures forall l :: 0 <= l < LEVELS ==>
                ready[..][l] == old(ready[..])[l] + if pool[t].priority == l then [t] else []
    {
      var priority := pool[t].priority;
      if priority == WAIT {
        wait := wait + [t];
        return true;
      } else if priority >= LEVELS {
        return false;
      }
      ready[priority] := ready[priority] + [t];
      ok := true;
    }

    /** Creates a task of the running task's process, ready with the given priority. */
    method CreateTask(kind: Kind, priority: nat) returns (r: int)
      requires Valid()
      modifies this, pool, ready
      ensures Layout() && Snapshot() == Create(old(Snapshot()), kind, priority)
      ensures Valid() <==> priority < LEVELS || old(useCount) == MAX_TASKS
      ensures r == if old(useCount) == MAX_TASKS then -1 else FirstFree(old(pool[..]), 0)
    {
      hide Inv;
      ghost var s := Snapshot();
      CreateExact(s, kind, priority);
      CanCreate();
      r := AllocateTcb();
      if r == -1 {
        UnchangedByFull(s, kind, priority);
        return;
      }
      FillBlock(s, kind, priority, r);
    }

    /** What creation may rely on. */
    lemma CanCreate()
      requires Valid()
      ensures Ready() && Shape(Snapshot()) && (useCount == MAX_TASKS || FirstFree(pool[..], 0) < MAX_TASKS)
      ensures Families(pool[..]) && IsLive(pool[running]) && Snapshot().useCount == useCount
    {
      CountAtMost(pool[..]);
      if useCount != MAX_TASKS {
        FreeSlotExists(pool[..]);
      }
    }

    lemma UnchangedByFull(s: State, kind: Kind, priority: nat)
      requires Shape(s) && s.useCount == MAX_TASKS
      ensures Create(s, kind, priority) == s
    {
    }

    /** The part of the creation that fills in the allocated block. */
    method FillBlock(ghost s: State, kind: Kind, priority: nat, i: nat)
      requires Layout() && Shape(s) && SlotsOk(s.pool) && Families(s.pool) && IsLive(s.pool[s.running])
      requires s.useCount != MAX_TASKS && i == FirstFree(s.pool, 0) < MAX_TASKS
      requires pool[..] == s.pool[i := s.pool[i].(id := MakeId(s.generation, i))]
      requires useCount == s.useCount + 1 && generation == NextGeneration(s.generation)
      requires running == s.running && ready[..] == s.queues.ready && wait == s.queues.wait &&
          executed[..] == s.executed
      modifies this`wait, pool, ready
      ensures Layout() && Snapshot() == Create(s, kind, priority)
    {
      hide Families, SlotsOk;
      ProcessFound(s.pool, s.running);
      RunnersProcess(s, i);
      var p := GetProcessByThread(running);
      var id := pool[i].id;
      pool[i] := Tcb(id, priority, false, kind, pool[p].id, []);
      if kind == Thread {
        pool[p] := pool[p].(children := pool[p].children + [i]);
      }
      var ok := AddTaskToReadyList(i);
    }

    lemma RunnersProcess(s: State, i: nat)
      requires Shape(s) && SlotsOk(s.pool) && Families(s.pool) && IsLive(s.pool[s.running])
      requires i < MAX_TASKS && !IsLive(s.pool[i])
      requires pool.Length == MAX_TASKS && running == s.running
      requires pool[..] == s.pool[i := s.pool[i].(id := MakeId(s.generation, i))]
      ensures pool[running].kind == Thread ==> SlotOf(pool[running].parent) < MAX_TASKS
      ensures 0 <= ProcessOf(pool[..], running) < MAX_TASKS
      ensures ProcessOf(pool[..], running) == ProcessOf(s.pool, s.running) != i
    {
      ProcessFound(s.pool, s.running);
      assert FamilyOk(s.pool, s.running);
    }

    // ----- picking and switching -----

    /** One round over the levels from the highest to the lowest: takes the first task of the first level that
        has had fewer turns than it has tasks, and resets the levels before. */
    method PickRound() returns (r: int, ghost l: nat)
      requires Layout()
      modifies ready, executed
      ensures Layout()
      ensures l == FirstLevel(old(ready[..]), old(executed[..]), 0)
      ensures executed[..] == Counted(old(executed[..]), l)
      ensures r == if l < LEVELS then old(ready[..])[l][0] else -1
      ensures ready[..] == if l < LEVELS then old(ready[..])[l := old(ready[..])[l][1..]] else old(ready[..])
    {
      ghost var was := executed[..];
      var i := 0;
      while i < LEVELS
        invariant 0 <= i <= LEVELS
        invariant Layout() && ready[..] == old(ready[..])
        invariant forall k :: 0 <= k < LEVELS ==> executed[k] == if k < i then 0 else was[k]
        invariant FirstLevel(old(ready[..]), was, i) == FirstLevel(old(ready[..]), was, 0)
      {
        if executed[i] < |ready[i]| {
          r, l := ready[i][0], i;
          ready[i] := ready[i][1..];
          executed[i] := executed[i] + 1;
          assert executed[..] == Counted(was, i);
          return;
        }
        executed[i] := 0;
        i := i + 1;
      }
      r, l := -1, LEVELS;
      assert executed[..] == Counted(was, LEVELS);
    }

    /** The next task, taken off its list, or -1.  If all levels have had their turns a second round is made. */
    method GetNextTaskToRun() returns (r: int, ghost l: nat)
      requires Layout()
      modifies ready, executed
      ensures Layout()
      ensures (l, executed[..]) == Pick(old(ready[..]), old(executed[..]))
      ensures r == if l < LEVELS then old(ready[..])[l][0] else -1
      ensures ready[..] == if l < LEVELS then old(ready[..])[l := old(ready[..])[l][1..]] else old(ready[..])
      ensures r != -1 <==> exists k :: 0 <= k < LEVELS && old(ready[..])[k] != []
      ensures (exists k :: 0 <= k < LEVELS && old(executed[..])[k] < |old(ready[..])[k]|) ==>
                && l < LEVELS && old(executed[..])[l] < |old(ready[..])[l]|
                && (forall k :: 0 <= k < l ==> old(executed[..])[k] >= |old(ready[..])[k]|)
                && forall k :: 0 <= k < LEVELS ==>
                     executed[..][k] == (if k < l then 0 else if k == l then old(executed[..])[l] + 1
                                         else old(executed[..])[k])
      ensures (forall k :: 0 <= k < LEVELS ==> old(executed[..])[k] >= |old(ready[..])[k]|) ==>
                && (forall k :: 0 <= k < l && k < LEVELS ==> old(ready[..])[k] == [])
                && forall k :: 0 <= k < LEVELS ==> executed[..][k] == if k == l then 1 else 0
    {
      PickFindsTask(ready[..], executed[..]);
      LevelPicked(ready[..], executed[..]);
      r, l := PickRound();
      if r == -1 {
        r, l := PickRound();
      }
    }

    /** Makes the picked task run and puts the one that ran into the queue it now belongs to. */
    method SwitchTo(next: nat)
      requires Layout() && running < MAX_TASKS
      modifies this`running, this`wait, ready
      ensures Layout() && running == next
      ensures Snapshot() ==
              var s, t := old(Snapshot()), old(running);
              s.(running := next, queues := if s.pool[t].ended then s.queues.(wait := s.queues.wait + [t])
                                            else Added(s.queues, t, s.pool[t].priority))
    {
      var was := running;
      running := next;
      if pool[was].ended {
        wait := wait + [was];
      } else {
        var ok := AddTaskToReadyList(was);
      }
    }

    /** The switch made by the timer interrupt. */
    method ScheduleInInterrupt() returns (switched: bool)
      requires Ready()
      modifies this`running, this`wait, ready, executed
      ensures Layout() && Snapshot() == Dispatch(old(Snapshot()))
      ensures switched <==> exists l :: 0 <= l < LEVELS && old(ready[..])[l] != []
      ensures old(Valid()) ==> Valid()
    {
      hide Inv, SlotsOk, QueuesOk;
      ghost var s := Snapshot();
      if Valid() {
        DispatchKeeps(s);
      }
      var next, l := GetNextTaskToRun();
      if next == -1 {
        return false;
      }
      SwitchTo(next);
      switched := true;
    }

    method GetReadyTaskCount() returns (n: nat)
      requires Layout()
      ensures n == 0 <==> forall l :: 0 <= l < LEVELS ==> ready[..][l] == []
    {
      n := 0;
      var i := 0;
      assert |ready[..]| == LEVELS;
      while i < LEVELS
        invariant 0 <= i <= LEVELS
        invariant n == 0 ==> forall l :: 0 <= l < i ==> ready[..][l] == []
        invariant n > 0 ==> exists l :: 0 <= l < i && ready[..][l] != []
      {
        n := n + |ready[i]|;
        assert ready[..][i] == ready[i];
        i := i + 1;
      }
    }

    /** The switch a task asks for. */
    method Schedule()
      requires Ready()
      modifies this`running, this`wait, ready, executed
      ensures Layout() && Snapshot() == Yield(old(Snapshot()))
      ensures old(Valid()) ==> Valid()
    {
      hide Inv, SlotsOk, QueuesOk;
      var count := GetReadyTaskCount();
      if count < 1 {
        return;
      }
      var switched := ScheduleInInterrupt();
    }

    // ----- priorities and ends -----

    /** Removes the task with an id from a ready list, comparing ids from the front. */
    method RemoveFromReadyList(l: nat, id: nat) returns (r: int)
      requires Ready() && l < LEVELS && SlotOf(id) < MAX_TASKS
      modifies ready
      ensures Layout()
      ensures pool[SlotOf(id)].id == id && SlotOf(id) in old(ready[l]) ==>
                r == SlotOf(id) && ready[..] == old(ready[..])[l := Without(old(ready[l]), r)]
      ensures !(pool[SlotOf(id)].id == id && SlotOf(id) in old(ready[l])) ==> r == -1 && ready[..] == old(ready[..])
    {
      var list := ready[l];
      assert ListOk(ready[..][l]);
      assert forall t :: t in list ==> SlotOk(pool[..][t], t);
      assert forall k :: 0 <= k < |list| ==> list[k] in list;
      var i := 0;
      while i < |list|
        invariant 0 <= i <= |list|
        invariant forall k :: 0 <= k < i ==> list[k] < pool.Length && pool[list[k]].id != id
      {
        assert list[i] in list;
        if pool[list[i]].id == id {
          WithoutAt(list, i);
          ready[l] := list[..i] + list[i + 1..];
          return list[i];
        }
        i := i + 1;
      }
      r := -1;
    }

    method RemoveTaskFromReadyList(id: nat) returns (r: int)
      requires Ready()
      modifies ready
      ensures Layout()
      ensures r == if FoundReady(old(Snapshot()), id) then SlotOf(id) else -1
      ensures Snapshot() == if r == -1 then old(Snapshot())
                            else old(Snapshot()).(queues := Removed(old(Snapshot()).queues, r, pool[r].priority))
    {
      hide SlotsOk, QueuesOk;
      var t := SlotOf(id);
      if t >= MAX_TASKS {
        return -1;
      }
      if pool[t].id != id {
        return -1;
      }
      var priority := pool[t].priority;
      if priority >= LEVELS {
        return -1;
      }
      r := RemoveFromReadyList(priority, id);
    }

    /** Sets the priority of the task an id names and moves it to the list of its new priority.  The bounds
        check lets priority 5 through, and an id of a dead task changes the slot's new task. */
    method ChangePriority(id: nat, priority: nat) returns (ok: bool)
      requires Ready() && SlotOf(id) < MAX_TASKS
      modifies this`wait, pool, ready
      ensures Layout() && Snapshot() == TaskSteps.ChangePriority(old(Snapshot()), id, priority)
      ensures old(Valid()) && id / GENERATIONS != 0 && priority <= LEVELS ==>
                (Valid() <==> HarmlessChange(old(Snapshot()), id, priority))
      ensures old(Valid()) && priority <= LEVELS ==>
                pool[..] == old(pool[..])[SlotOf(id) := old(pool[SlotOf(id)]).(priority := priority)]
      ensures old(Valid()) && priority < LEVELS && old(pool[SlotOf(id)]).id == id && IsLive(old(pool[SlotOf(id)])) &&
              !old(pool[SlotOf(id)]).ended && old(running) != SlotOf(id) ==>
                ready[..][priority] == Without(old(ready[..])[priority], SlotOf(id)) + [SlotOf(id)]
      ensures ok <==> priority <= LEVELS
    {
      hide Inv, SlotsOk, QueuesOk;
      if priority > LEVELS {
        return false;
      }
      ChangeLast(id, priority);
      if Valid() && id / GENERATIONS != 0 {
        ChangePriorityExact(Snapshot(), id, priority);
      }
      if pool[running].id == id {
        pool[running] := pool[running].(priority := priority);
      } else {
        var t := RemoveTaskFromReadyList(id);
        if t == -1 {
          t := SlotOf(id);
          pool[t] := pool[t].(priority := priority);
        } else {
          pool[t] := pool[t].(priority := priority);
          var added := AddTaskToReadyList(t);
        }
      }
      ok := true;
    }

    lemma ChangeLast(id: nat, priority: nat)
      requires Layout() && SlotOf(id) < MAX_TASKS
      ensures Valid() && priority < LEVELS && pool[SlotOf(id)].id == id && IsLive(pool[SlotOf(id)]) &&
              !pool[SlotOf(id)].ended ==>
                var t, r := SlotOf(id), TaskSteps.ChangePriority(Snapshot(), id, priority);
                && |r.queues.ready| == LEVELS
                && (running != t ==> r.queues.ready[priority] == Without(ready[..][priority], t) + [t])
      ensures Valid() && priority <= LEVELS ==>
                var t := SlotOf(id);
                TaskSteps.ChangePriority(Snapshot(), id, priority).pool == pool[..][t := pool[t].(priority := priority)]
    {
      hide Inv, TaskSteps.ChangePriority;
      if Valid() && priority <= LEVELS {
        ChangedBlock(Snapshot(), id, priority);
      }
      if Valid() && priority < LEVELS && pool[SlotOf(id)].id == id && IsLive(pool[SlotOf(id)]) &&
         !pool[SlotOf(id)].ended {
        ChangedGoesLast(Snapshot(), id, priority, priority);
      }
    }

    /** Ends the task an id names: the running one gives up the processor, a ready one goes to the wait list. */
    method EndTask(id: nat) returns (ok: bool)
      requires Ready() && SlotOf(id) < MAX_TASKS
      modifies this`running, this`wait, pool, ready, executed
      ensures Layout() && Snapshot() == TaskSteps.EndTask(old(Snapshot()), id)
      ensures old(Valid()) && id / GENERATIONS != 0 ==> (Valid() <==> HarmlessEnd(old(Snapshot()), id))
      ensures old(Valid()) ==>
                pool[..] == old(pool[..])[SlotOf(id) := old(pool[SlotOf(id)]).(ended := true, priority := WAIT)]
      ensures old(Valid()) && old(pool[SlotOf(id)]).id == id && IsLive(old(pool[SlotOf(id)])) ==>
                && (running == SlotOf(id) <==>
                    old(running) == SlotOf(id) && forall l :: 0 <= l < LEVELS ==> old(ready[..])[l] == [])
                && (running != SlotOf(id) ==> SlotOf(id) in wait)
      ensures ok
    {
      hide Inv, QueuesOk;
      if Valid() && id / GENERATIONS != 0 {
        EndTaskExact(Snapshot(), id);
      }
      EndedHere(id);
      if pool[running].id == id {
        pool[running] := pool[running].(ended := true, priority := WAIT);
        Schedule();
      } else {
        var t := RemoveTaskFromReadyList(id);
        if t == -1 {
          t := SlotOf(id);
          pool[t] := pool[t].(ended := true, priority := WAIT);
          return true;
        }
        pool[t] := pool[t].(ended := true, priority := WAIT);
        wait := wait + [t];
      }
      ok := true;
    }

    lemma EndedHere(id: nat)
      requires Layout() && SlotOf(id) < MAX_TASKS && Shape(Snapshot())
      ensures Valid() && pool[SlotOf(id)].id == id && IsLive(pool[SlotOf(id)]) ==>
                var t, r := SlotOf(id), TaskSteps.EndTask(Snapshot(), id);
                && (r.running == t <==> running == t && forall l :: 0 <= l < LEVELS ==> ready[..][l] == [])
                && (r.running != t ==> t in r.queues.wait)
      ensures Valid() ==>
                var t := SlotOf(id);
                TaskSteps.EndTask(Snapshot(), id).pool == pool[..][t := pool[t].(ended := true, priority := WAIT)]
    {
      hide Inv, TaskSteps.EndTask;
      if Valid() {
        EndedBlock(Snapshot(), id);
      }
      if Valid() && pool[SlotOf(id)].id == id && IsLive(pool[SlotOf(id)]) {
        EndedIsOver(Snapshot(), id);
      }
    }

    // ----- the idle task -----

    /** Ends every thread of the dead process `t`, which has been taken off the wait list, moving each one's
        link from the front to the end of the process's list. */
    method EndThreads(t: nat, ghost s: State)
      requires Layout() && Inv(s) && RunnerStays(s) && s.queues.wait != [] && s.queues.wait[0] == t < MAX_TASKS
      requires s.pool[t].kind == Process && s.pool[t].children != [] && running == s.running
      requires Snapshot() == TakenOff(s, t, s.pool[t].children)
      modifies this`running, this`wait, pool, ready, executed
      ensures Layout() && Shape(s) && Snapshot() == TakenOff(EndAll(s, s.pool[t].children), t, s.pool[t].children)
    {
      hide Inv, RunnerStays, AllEnded, TaskSteps.EndTask, EndAll;
      InvIsShape(s);
      FirstWaits(s);
      var count := |pool[t].children|;
      ghost var v, list := s, s.pool[t].children;
      assert SameIds(s.pool, s.pool);
      assert list[0..] + list[..0] == list && list[0..] == list && count == |list|;
      hide TakenOff, Scheduler.Snapshot, IsLive, SlotOf, SameIds, ListOk, PlacedBut;
      var i := 0;
      while i < count
        invariant 0 <= i <= count == |list| && Layout()
        invariant Inv(v) && Shape(v) && EndAll(v, list[i..]) == EndAll(s, list)
        invariant v.running == s.running && v.queues.wait != [] && SameIds(s.pool, v.pool) && v.running != t
        invariant Snapshot() == TakenOff(v, t, list[i..] + list[..i])
      {
        ghost var now, child := list[i..] + list[..i], list[i];
        OneLinkRound(list, i);
        ThreadStillThere(s, v, t, child);
        EndThread(t, v, now);
        EndAllStep(v, list[i..]);
        SameIdsTwice(s.pool, v.pool, TaskSteps.EndTask(v, v.pool[child].id).pool);
        v := TaskSteps.EndTask(v, v.pool[child].id);
        i := i + 1;
      }
      assert list[count..] + list[..count] == list;
      EndAllNone(v, list[count..]);
    }

    lemma ThreadStillThere(s: State, v: State, t: nat, c: nat)
      requires Inv(s) && RunnerStays(s) && s.queues.wait != [] && s.queues.wait[0] == t < MAX_TASKS
      requires Shape(s) && s.pool[t].kind == Process && c in s.pool[t].children
      requires SameIds(s.pool, v.pool) && v.running == s.running
      ensures c < MAX_TASKS == |v.pool| && IsLive(v.pool[c]) && c != t && c != v.running
    {
      hide Inv, RunnerStays;
      FirstChildren(s);
    }

    lemma SameIdsTwice(a: seq<Tcb>, b: seq<Tcb>, c: seq<Tcb>)
      requires SameIds(a, b) && SameIds(b, c)
      ensures SameIds(a, c)
    {
    }

    lemma OneLinkRound(list: seq<nat>, i: nat)
      requires i < |list|
      ensures var now := list[i..] + list[..i];
              && now != [] && now[0] == list[i] && list[i] in list
              && now[1..] + [list[i]] == list[i + 1..] + list[..i + 1]
              && list[i..] != [] && list[i..][0] == list[i] && list[i..][1..] == list[i + 1..]
    {
    }

    /** Moves the first link of the process's list to its end and ends that thread. */
    method EndThread(t: nat, ghost v: State, ghost children: seq<nat>)
      requires Layout() && Inv(v) && Shape(v) && t < MAX_TASKS && v.queues.wait != [] && v.running != t
      requires children != [] && children[0] < MAX_TASKS && IsLive(v.pool[children[0]])
      requires children[0] != t && children[0] != v.running && Snapshot() == TakenOff(v, t, children)
      modifies this`running, this`wait, pool, ready, executed
      ensures var r := TaskSteps.EndTask(v, v.pool[children[0]].id);
              && Layout() && Snapshot() == TakenOff(r, t, children[1..] + [children[0]])
              && Inv(r) && Shape(r) && r.running == v.running && r.queues.wait != [] && SameIds(v.pool, r.pool)
    {
      hide Inv, TaskSteps.EndTask, SlotOf, IsLive, SameIds;
      ThreadIdFits(v, children[0]);
      var child := pool[t].children[0];
      pool[t] := pool[t].(children := pool[t].children[1..] + [child]);
      EndOneHidden(v, t, child, children[1..] + [child]);
      var ok := EndTask(pool[child].id);
    }

    lemma ThreadIdFits(v: State, child: nat)
      requires Inv(v) && child < MAX_TASKS && IsLive(v.pool[child])
      ensures SlotOf(v.pool[child].id) == child
    {
      assert SlotOk(v.pool[child], child);
    }

    ghost predicate SameIds(a: seq<Tcb>, b: seq<Tcb>) {
      |a| == |b| && forall t :: 0 <= t < |a| ==> b[t].id == a[t].id
    }

    lemma EndAllStep(v: State, list: seq<nat>)
      requires Inv(v) && list != [] && list[0] < MAX_TASKS && IsLive(v.pool[list[0]]) && list[0] != v.running
      ensures Shape(v) && SlotOf(v.pool[list[0]].id) == list[0]
      ensures EndAll(v, list) == EndAll(TaskSteps.EndTask(v, v.pool[list[0]].id), list[1..])
    {
      hide Inv, TaskSteps.EndTask;
      EndOne(v, list[0]);
      InvIsShape(TaskSteps.EndTask(v, v.pool[list[0]].id));
    }

    lemma EndAllNone(v: State, list: seq<nat>)
      requires Shape(v) && list == []
      ensures EndAll(v, list) == v
    {
    }

    lemma EndOneHidden(v: State, t: nat, child: nat, children: seq<nat>)
      requires Layout() && Inv(v) && Shape(v) && t < MAX_TASKS && v.queues.wait != [] && v.running != t
      requires child < MAX_TASKS && IsLive(v.pool[child]) && child != t && child != v.running
      requires Snapshot() == TakenOff(v, t, children)
      ensures SlotOf(v.pool[child].id) == child && pool[child].id == v.pool[child].id && Ready()
      ensures TaskSteps.EndTask(Snapshot(), v.pool[child].id) ==
              TakenOff(TaskSteps.EndTask(v, v.pool[child].id), t, children)
      ensures var r := TaskSteps.EndTask(v, v.pool[child].id);
              Inv(r) && Shape(r) && r.running == v.running && r.queues.wait != [] && SameIds(v.pool, r.pool)
    {
      hide TaskSteps.EndTask, Families, LiveCount, Placed;
      EndOne(v, child);
      RunningIdDiffers(v, child);
      EndWhileTakenOff(v, t, children, v.pool[child].id);
      FirstWaits(v);
      forall u | 0 <= u < MAX_TASKS
        ensures SlotOk(pool[..][u], u)
      {
        assert SlotOk(v.pool[u], u);
      }
      assert ListOk(v.queues.wait[1..]);
    }

    /** One turn of the loop over the wait list. */
    method ReapFirst()
      requires Valid() && wait != [] && RunnerStays(Snapshot())
      modifies this, pool, ready, executed
      ensures Layout() && Shape(old(Snapshot())) && old(wait)[0] < MAX_TASKS && old(useCount) > 0
      ensures Snapshot() == Reap(old(Snapshot()))
    {
      hide Inv, RunnerStays, EndAll, AllEnded;
      ghost var s := Snapshot();
      ValidIsReady();
      FirstWaits(s);
      var t := wait[0];
      wait := wait[1..];
      if pool[t].kind == Process {
        if |pool[t].children| > 0 {
          assert pool[..][t := pool[t].(children := pool[t].children)] == pool[..];
          EndThreads(t, s);
          wait := wait + [t];
          LinksMovedRound(s, t);
          return;
        }
      } else {
        ParentsAreProcesses(s);
        var p := GetProcessByThread(t);
        if p != -1 {
          pool[p] := pool[p].(children := Without(pool[p].children, t));
        }
      }
      FreeTcb(t);
    }

    /** Moving every link round leaves the list as it was. */
    lemma LinksMovedRound(s: State, t: nat)
      requires Layout() && Inv(s) && RunnerStays(s) && s.queues.wait != [] && s.queues.wait[0] == t < MAX_TASKS
      requires Shape(s) && s.pool[t].kind == Process && s.pool[t].children != [] && s.useCount > 0
      requires var r := TakenOff(EndAll(s, s.pool[t].children), t, s.pool[t].children);
               Snapshot() == r.(queues := r.queues.(wait := r.queues.wait + [t]))
      ensures Snapshot() == Reap(s)
    {
      hide Inv, RunnerStays, EndAll;
      FirstChildren(s);
      EndAllEnds(s, s.pool[t].children);
      var r := EndAll(s, s.pool[t].children);
      FirstWaits(s);
      assert t !in s.pool[t].children;
      assert r.pool[t := r.pool[t].(children := s.pool[t].children)] == r.pool;
    }

    /** The idle task's loop over the wait list.  It ends, and then exactly the tasks that had ended and the
        threads of processes that had ended have been freed. */
    method ReapWaitingTasks() returns (ghost freed: set<nat>)
      requires Valid() && RunnerStays(Snapshot())
      modifies this, pool, ready, executed
      ensures Valid() && wait == [] && running == old(running) && freed == DoomedSlots(old(pool[..]))
      ensures forall t :: 0 <= t < MAX_TASKS ==>
                if t in freed then !IsLive(pool[..][t]) else pool[..][t] == Thinned(old(pool[..])[t], freed)
      ensures forall l :: 0 <= l < LEVELS ==> ready[..][l] == Keep(old(ready[..])[l], freed)
    {
      hide Inv, RunnerStays, Reap, SlotReaped;
      ghost var o := Snapshot();
      freed := {};
      ReapingStarts(o);
      while wait != []
        invariant Valid() && RunnerStays(Snapshot()) && Reaped(o, Snapshot(), freed)
        decreases useCount, Unready(Snapshot())
      {
        ghost var s := Snapshot();
        ReapKeeps(s);
        ReapGetsOn(s);
        ReapGoesOn(o, s, freed);
        freed := freed + FreedBy(s);
        ReapFirst();
      }
      ReapingEnds(o, Snapshot(), freed);
      FreedSlots(o, Snapshot(), freed);
    }

    lemma FreedSlots(o: State, s: State, freed: set<nat>)
      requires Reaped(o, s, freed)
      ensures forall t :: 0 <= t < MAX_TASKS && t in freed ==> !IsLive(s.pool[t])
    {
      forall t | 0 <= t < MAX_TASKS && t in freed
        ensures !IsLive(s.pool[t])
      {
        assert SlotReaped(o.pool, s.pool, freed, t);
      }
    }

    /** A task that is ended is freed when the idle task next clears the wait list. */
    method EndAndReap(id: nat)
      requires Valid() && SlotOf(id) < MAX_TASKS && pool[SlotOf(id)].id == id && IsLive(pool[SlotOf(id)])
      requires running != SlotOf(id) && RunnerStays(Snapshot())
      requires pool[running].kind == Thread ==> SlotOf(pool[running].parent) != SlotOf(id)
      modifies this, pool, ready, executed
      ensures Valid() && !IsLive(pool[SlotOf(id)]) && wait == [] && running == old(running)
    {
      hide Inv, TaskSteps.EndTask;
      ghost var s := Snapshot();
      ValidIsReady();
      EndedIsOver(s, id);
      RunnerStillStays(s, id);
      var ok := EndTask(id);
      ghost var freed := ReapWaitingTasks();
      assert !IsLive(pool[..][SlotOf(id)]);
    }

    lemma RunnerStillStays(s: State, id: nat)
      requires Inv(s) && Shape(s) && SlotOf(id) < MAX_TASKS && s.pool[SlotOf(id)].id == id
      requires IsLive(s.pool[SlotOf(id)]) && s.running != SlotOf(id) && RunnerStays(s)
      requires s.pool[s.running].kind == Thread ==> SlotOf(s.pool[s.running].parent) != SlotOf(id)
      ensures RunnerStays(TaskSteps.EndTask(s, id)) && TaskSteps.EndTask(s, id).running == s.running
    {
      hide Families, Placed, LiveCount;
      RunningIdDiffers(s, SlotOf(id));
    }
  }
}
