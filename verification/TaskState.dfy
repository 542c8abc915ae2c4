/** Tasks and their queues on values: the control blocks, the five ready lists and the wait list, and the
    invariant that ties them together. */
module TaskState {
  import opened Sequences

  const MAX_TASKS: nat := 1024
  const LEVELS: nat := 5
  const WAIT: nat := 0xFF
  const GENERATIONS: nat := 0x1_0000_0000

  datatype Kind = Process | Thread

  /** A task control block.  `parent` is the id of the process, `children` the slots of a process's threads. */
  datatype Tcb = Tcb(id: nat, priority: nat, ended: bool, kind: Kind, parent: nat, children: seq<nat>)

  /** The ready lists, the wait list, and how often each level has been picked since its last reset. */
  datatype Queues = Queues(ready: seq<seq<nat>>, wait: seq<nat>)

  datatype State = State(pool: seq<Tcb>, useCount: nat, generation: nat, running: nat, queues: Queues,
      executed: seq<nat>)

  datatype Place = Nowhere | Running | Waiting | Ready(level: nat)

  // ----- ids -----

  /** The slot an id names. */
  function SlotOf(id: nat): nat {
    id % GENERATIONS
  }

  predicate IsLive(tcb: Tcb) {
    tcb.id / GENERATIONS != 0
  }

  function MakeId(generation: nat, slot: nat): nat {
    generation * GENERATIONS + slot
  }

  lemma IdParts(generation: nat, slot: nat)
    requires slot < GENERATIONS
    ensures SlotOf(MakeId(generation, slot)) == slot && MakeId(generation, slot) / GENERATIONS == generation
  {
  }

  /** The generation counter counts up in 32 bits and skips 0. */
  function NextGeneration(g: nat): nat {
    if (g + 1) % GENERATIONS == 0 then 1 else (g + 1) % GENERATIONS
  }

  function GenerationAfter(g: nat, k: nat): nat {
    if k == 0 then g else NextGeneration(GenerationAfter(g, k - 1))
  }

  lemma NextCounts(x: nat)
    ensures NextGeneration(x % (GENERATIONS - 1) + 1) == (x + 1) % (GENERATIONS - 1) + 1
  {
    var q, r := x / (GENERATIONS - 1), x % (GENERATIONS - 1);
    assert x == q * (GENERATIONS - 1) + r;
  }

  lemma {:induction false} GenerationCounts(g: nat, k: nat)
    requires 0 < g < GENERATIONS
    ensures GenerationAfter(g, k) == (g - 1 + k) % (GENERATIONS - 1) + 1
  {
    if k == 0 {
    } else {
      GenerationCounts(g, k - 1);
      NextCounts(g - 1 + (k - 1));
    }
  }

  /** Two allocations get the same generation exactly when a multiple of 2^32 - 1 allocations lies between
      them. */
  lemma GenerationsRepeat(g: nat, k: nat)
    requires 0 < g < GENERATIONS
    ensures GenerationAfter(g, k) == g <==> k % (GENERATIONS - 1) == 0
  {
    GenerationCounts(g, k);
  }

  /** So no id is given out again, for any slot, before the counter has gone round. */
  lemma IdsDiffer(g: nat, k: nat, i: nat, j: nat)
    requires 0 < g < GENERATIONS && 0 < k < GENERATIONS - 1 && i < GENERATIONS && j < GENERATIONS
    ensures MakeId(GenerationAfter(g, k), i) != MakeId(g, j)
  {
    GenerationsRepeat(g, k);
    IdParts(GenerationAfter(g, k), i);
    IdParts(g, j);
  }

  // ----- lists -----

  /** The list without slot `t`. */
  function Without(list: seq<nat>, t: nat): (r: seq<nat>)
    ensures forall x :: x in r <==> x in list && x != t
  {
    if list == [] then []
    else
      assert list == [list[0]] + list[1..];
      if list[0] == t then Without(list[1..], t) else [list[0]] + Without(list[1..], t)
  }

  lemma {:induction false} WithoutDistinct(list: seq<nat>, t: nat)
    requires Distinct(list)
    ensures Distinct(Without(list, t))
  {
    if list == [] {
    } else {
      WithoutDistinct(list[1..], t);
      assert list == [list[0]] + list[1..];
      assert list[0] !in list[1..];
    }
  }

  lemma {:induction false} WithoutAbsent(list: seq<nat>, t: nat)
    requires t !in list
    ensures Without(list, t) == list
  {
    if list == [] {
    } else {
      WithoutAbsent(list[1..], t);
    }
  }

  lemma WithoutHead(list: seq<nat>)
    requires list != [] && Distinct(list)
    ensures Without(list, list[0]) == list[1..]
  {
    assert forall i :: 0 <= i < |list| - 1 ==> list[1..][i] == list[i + 1];
    WithoutAbsent(list[1..], list[0]);
  }

  lemma {:induction false} WithoutAt(list: seq<nat>, i: nat)
    requires i < |list| && Distinct(list)
    ensures Without(list, list[i]) == list[..i] + list[i + 1..]
  {
    if i == 0 {
      WithoutHead(list);
    } else {
      WithoutAt(list[1..], i - 1);
      assert list[1..][..i - 1] == list[1..i] && list[1..][i..] == list[i + 1..];
    }
  }

  /** The list without the slots of `gone`. */
  function Keep(list: seq<nat>, gone: set<nat>): (r: seq<nat>)
    ensures forall x :: x in r <==> x in list && x !in gone
  {
    if list == [] then []
    else
      assert list == [list[0]] + list[1..];
      if list[0] in gone then Keep(list[1..], gone) else [list[0]] + Keep(list[1..], gone)
  }

  lemma {:induction false} KeepWithout(list: seq<nat>, gone: set<nat>, t: nat)
    ensures Without(Keep(list, gone), t) == Keep(list, gone + {t})
  {
    if list == [] {
    } else {
      KeepWithout(list[1..], gone, t);
    }
  }

  lemma {:induction false} KeepAll(list: seq<nat>)
    ensures Keep(list, {}) == list
  {
    if list == [] {
    } else {
      KeepAll(list[1..]);
    }
  }

  // ----- the invariant -----

  /** A live block carries its slot in its id and has ended exactly when its priority is the waiting one;
      a free block has its slot as id. */
  ghost predicate SlotOk(tcb: Tcb, t: nat) {
    if IsLive(tcb) then
      SlotOf(tcb.id) == t && (tcb.ended <==> tcb.priority == WAIT) && (tcb.priority < LEVELS || tcb.priority == WAIT)
    else
      tcb.id == t
  }

  ghost predicate SlotsOk(pool: seq<Tcb>) {
    |pool| == MAX_TASKS && forall t :: 0 <= t < |pool| ==> SlotOk(pool[t], t)
  }

  /** Where a task belongs, by its control block alone. */
  ghost function Home(pool: seq<Tcb>, running: nat, t: nat): Place
    requires t < |pool|
  {
    if t == running then Running
    else if !IsLive(pool[t]) then Nowhere
    else if pool[t].priority == WAIT then Waiting
    else Ready(pool[t].priority)
  }

  /** Slot `t` is in the list it belongs to and in no other. */
  ghost predicate InPlace(q: Queues, t: nat, place: Place) {
    && (forall l :: 0 <= l < |q.ready| ==> (t in q.ready[l] <==> place == Ready(l)))
    && (t in q.wait <==> place == Waiting)
  }

  /** Every slot but `x` is where it belongs, and `x` is nowhere. */
  ghost predicate PlacedBut(pool: seq<Tcb>, running: nat, q: Queues, x: nat) {
    && (forall t :: 0 <= t < |pool| && t != x ==> InPlace(q, t, Home(pool, running, t)))
    && InPlace(q, x, Nowhere)
  }

  ghost predicate Placed(pool: seq<Tcb>, running: nat, q: Queues) {
    forall t :: 0 <= t < |pool| ==> InPlace(q, t, Home(pool, running, t))
  }

  ghost predicate ListOk(list: seq<nat>) {
    Distinct(list) && forall t :: t in list ==> t < MAX_TASKS
  }

  ghost predicate QueuesOk(q: Queues) {
    |q.ready| == LEVELS && ListOk(q.wait) && forall l :: 0 <= l < LEVELS ==> ListOk(q.ready[l])
  }

  function LiveCount(pool: seq<Tcb>): (n: nat)
    ensures n <= |pool|
  {
    if pool == [] then 0 else LiveCount(pool[..|pool| - 1]) + if IsLive(pool[|pool| - 1]) then 1 else 0
  }

  /** Slot `c` is a live thread of the live process in slot `p`. */
  ghost predicate ChildOf(pool: seq<Tcb>, c: nat, p: nat)
    requires p < |pool|
  {
    c < |pool| && IsLive(pool[c]) && pool[c].kind == Thread && pool[c].parent == pool[p].id
  }

  /** A live process's list holds exactly its threads, and a thread's process is live. */
  ghost predicate FamilyOk(pool: seq<Tcb>, t: nat)
    requires t < |pool|
  {
    IsLive(pool[t]) ==>
      if pool[t].kind == Process then
        Distinct(pool[t].children) && forall c :: c in pool[t].children <==> ChildOf(pool, c, t)
      else
        var p := SlotOf(pool[t].parent);
        p < |pool| && IsLive(pool[p]) && pool[p].kind == Process && pool[p].id == pool[t].parent
  }

  ghost predicate Families(pool: seq<Tcb>) {
    forall t :: 0 <= t < |pool| ==> FamilyOk(pool, t)
  }

  /** Every allocated task is in exactly one place: running, the ready list of its own priority, or the wait
      list; the use count is the number of allocated blocks; process lists and parents agree. */
  ghost predicate Inv(s: State) {
    && SlotsOk(s.pool) && QueuesOk(s.queues) && Placed(s.pool, s.running, s.queues)
    && s.running < MAX_TASKS && IsLive(s.pool[s.running])
    && s.useCount == LiveCount(s.pool) && 0 < s.generation < GENERATIONS
    && |s.executed| == LEVELS && Families(s.pool)
  }

  /** A task is in one place only. */
  lemma OnePlace(s: State, t: nat, l: nat, m: nat)
    requires Inv(s) && t < MAX_TASKS && l < LEVELS && m < LEVELS
    ensures IsLive(s.pool[t]) ==>
              t == s.running || t in s.queues.wait || exists k :: 0 <= k < LEVELS && t in s.queues.ready[k]
    ensures t in s.queues.ready[l] ==>
              s.pool[t].priority == l && IsLive(s.pool[t]) && t !in s.queues.wait && t != s.running
    ensures t in s.queues.ready[l] && t in s.queues.ready[m] ==> l == m
    ensures t in s.queues.wait ==> s.pool[t].ended && IsLive(s.pool[t]) && t != s.running
    ensures !IsLive(s.pool[t]) ==> t !in s.queues.wait && t !in s.queues.ready[l]
  {
    assert InPlace(s.queues, t, Home(s.pool, s.running, t));
    assert SlotOk(s.pool[t], t);
    if IsLive(s.pool[t]) && t != s.running && t !in s.queues.wait {
      assert t in s.queues.ready[s.pool[t].priority];
    }
  }

  // ----- moving one slot -----

  /** The queues after slot `t` has been added according to its priority; a priority of neither kind drops it. */
  function Added(q: Queues, t: nat, priority: nat): Queues {
    if priority == WAIT then q.(wait := q.wait + [t])
    else if priority >= LEVELS || priority >= |q.ready| then q
    else q.(ready := q.ready[priority := q.ready[priority] + [t]])
  }

  function Removed(q: Queues, t: nat, level: nat): Queues
    requires level < |q.ready|
  {
    q.(ready := q.ready[level := Without(q.ready[level], t)])
  }

  lemma TakeOut(pool: seq<Tcb>, running: nat, q: Queues, t: nat, l: nat)
    requires QueuesOk(q) && Placed(pool, running, q) && t < |pool| && l < LEVELS && t in q.ready[l]
    ensures QueuesOk(Removed(q, t, l)) && PlacedBut(pool, running, Removed(q, t, l), t)
  {
    var r := Removed(q, t, l);
    WithoutDistinct(q.ready[l], t);
    assert InPlace(q, t, Home(pool, running, t));
    forall u | 0 <= u < |pool| && u != t
      ensures InPlace(r, u, Home(pool, running, u))
    {
      assert InPlace(q, u, Home(pool, running, u));
    }
  }

  lemma AppendOk(list: seq<nat>, t: nat)
    requires ListOk(list) && t !in list && t < MAX_TASKS
    ensures ListOk(list + [t])
  {
  }

  lemma PutIn(pool: seq<Tcb>, running: nat, q: Queues, t: nat)
    requires QueuesOk(q) && PlacedBut(pool, running, q, t) && t < |pool| <= MAX_TASKS
    requires IsLive(pool[t]) && t != running && (pool[t].priority == WAIT || pool[t].priority < LEVELS)
    ensures QueuesOk(Added(q, t, pool[t].priority)) && Placed(pool, running, Added(q, t, pool[t].priority))
  {
    var r := Added(q, t, pool[t].priority);
    AppendOk(q.wait, t);
    if pool[t].priority < LEVELS {
      AppendOk(q.ready[pool[t].priority], t);
    }
    forall u | 0 <= u < |pool|
      ensures InPlace(r, u, Home(pool, running, u))
    {
      if u != t {
        assert InPlace(q, u, Home(pool, running, u));
      }
    }
  }

  /** The slot that is nowhere may change its block. */
  lemma BlockChanged(pool: seq<Tcb>, running: nat, q: Queues, t: nat, tcb: Tcb)
    requires PlacedBut(pool, running, q, t) && t < |pool|
    ensures PlacedBut(pool[t := tcb], running, q, t)
  {
    var next := pool[t := tcb];
    forall u | 0 <= u < |pool| && u != t
      ensures InPlace(q, u, Home(next, running, u))
    {
      assert InPlace(q, u, Home(pool, running, u));
    }
  }

  /** The running task, or a free slot, is nowhere. */
  lemma NowhereNow(pool: seq<Tcb>, running: nat, q: Queues, t: nat)
    requires Placed(pool, running, q) && t < |pool| && (t == running || !IsLive(pool[t]))
    ensures PlacedBut(pool, running, q, t)
  {
    assert InPlace(q, t, Home(pool, running, t));
  }

  /** A slot that is nowhere may stay so if it is free or running. */
  lemma StaysNowhere(pool: seq<Tcb>, running: nat, q: Queues, t: nat)
    requires PlacedBut(pool, running, q, t) && t < |pool| && (t == running || !IsLive(pool[t]))
    ensures Placed(pool, running, q)
  {
    forall u | 0 <= u < |pool|
      ensures InPlace(q, u, Home(pool, running, u))
    {
    }
  }

  /** The slot that is nowhere starts to run; now the old running task is nowhere. */
  lemma RunsNow(pool: seq<Tcb>, running: nat, q: Queues, t: nat)
    requires PlacedBut(pool, running, q, t) && t < |pool| && running < |pool| && t != running
    ensures PlacedBut(pool, t, q, running)
  {
    forall u | 0 <= u < |pool| && u != running
      ensures InPlace(q, u, Home(pool, t, u))
    {
      assert u != t ==> InPlace(q, u, Home(pool, running, u));
    }
    assert InPlace(q, running, Home(pool, running, running));
  }

  /** Changing blocks without touching id and priority moves nothing. */
  lemma SamePlaces(pool: seq<Tcb>, next: seq<Tcb>, running: nat, q: Queues)
    requires Placed(pool, running, q) && |next| == |pool|
    requires forall t :: 0 <= t < |pool| ==> next[t].id == pool[t].id && next[t].priority == pool[t].priority
    ensures Placed(next, running, q)
  {
    forall t | 0 <= t < |pool|
      ensures InPlace(q, t, Home(next, running, t))
    {
      assert InPlace(q, t, Home(pool, running, t));
    }
  }

  // ----- counting -----

  lemma {:induction false} CountUpdate(pool: seq<Tcb>, t: nat, tcb: Tcb)
    requires t < |pool|
    ensures LiveCount(pool[t := tcb]) + (if IsLive(pool[t]) then 1 else 0) == LiveCount(pool) +
        (if IsLive(tcb) then 1 else 0)
  {
    var n := |pool| - 1;
    if t < n {
      CountUpdate(pool[..n], t, tcb);
      assert pool[t := tcb][..n] == pool[..n][t := tcb];
    } else {
      assert pool[t := tcb][..n] == pool[..n];
    }
  }

  /** The first free slot, or the length of the pool. */
  function FirstFree(pool: seq<Tcb>, i: nat): (r: nat)
    requires i <= |pool|
    ensures i <= r <= |pool|
    ensures r < |pool| ==> !IsLive(pool[r])
    ensures forall k :: i <= k < r ==> IsLive(pool[k])
    decreases |pool| - i
  {
    if i == |pool| || !IsLive(pool[i]) then i else FirstFree(pool, i + 1)
  }

  lemma {:induction false} AllLiveCount(pool: seq<Tcb>)
    requires forall k :: 0 <= k < |pool| ==> IsLive(pool[k])
    ensures LiveCount(pool) == |pool|
  {
    if pool == [] {
    } else {
      AllLiveCount(pool[..|pool| - 1]);
    }
  }

  /** The use count says whether a slot is free. */
  lemma FreeSlotExists(pool: seq<Tcb>)
    requires LiveCount(pool) < |pool|
    ensures FirstFree(pool, 0) < |pool|
  {
    if FirstFree(pool, 0) == |pool| {
      AllLiveCount(pool);
    }
  }

  // ----- the start -----

  /** After start-up the boot task runs in slot 0 with the highest priority, and all else is free. */
  ghost function Initial(): State {
    State(seq(MAX_TASKS, i requires 0 <= i < MAX_TASKS => InitialTcb(i)), 1, 2, 0, Queues([[], [], [], [], []], []),
          [0, 0, 0, 0, 0])
  }

  function InitialTcb(i: nat): Tcb {
    if i == 0 then Tcb(MakeId(1, 0), 0, false, Process, MakeId(1, 0), []) else Tcb(i, 0, false, Process, 0, [])
  }

  lemma InitialIsSound()
    ensures Inv(Initial())
  {
    var s := Initial();
    forall t | 0 <= t < MAX_TASKS
      ensures SlotOk(s.pool[t], t) && InPlace(s.queues, t, Home(s.pool, s.running, t)) && FamilyOk(s.pool, t)
    {
      assert s.pool[t] == InitialTcb(t);
    }
    OneLive(s.pool);
  }

  lemma {:induction false} OneLive(pool: seq<Tcb>)
    requires 0 < |pool| && IsLive(pool[0]) && forall t :: 0 < t < |pool| ==> !IsLive(pool[t])
    ensures LiveCount(pool) == 1
  {
    if |pool| > 1 {
      OneLive(pool[..|pool| - 1]);
    } else {
      assert pool[..0] == [];
    }
  }
}
