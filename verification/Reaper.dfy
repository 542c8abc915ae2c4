/** How the idle task clears the wait list: threads of a dead process are ended first, and a process is freed
    only when its last thread is. */
module Reaper {
  import opened TaskState
  import opened TaskSteps
  import opened Sequences

  // ----- one turn of the loop -----

  function FreeTcb(s: State, t: nat): State
    requires t < |s.pool| && s.useCount > 0
  {
    s.(pool := s.pool[t := s.pool[t].(id := t)], useCount := s.useCount - 1)
  }

  /** Ends the tasks of the slots of `list` one after the other. */
  function EndAll(s: State, list: seq<nat>): State
    requires Shape(s)
    decreases |list|
  {
    if list == [] || list[0] >= MAX_TASKS || SlotOf(s.pool[list[0]].id) >= MAX_TASKS then s
    else
      var next := EndTask(s, s.pool[list[0]].id);
      if Shape(next) then EndAll(next, list[1..]) else s
  }

  function WithoutChild(pool: seq<Tcb>, p: int, t: nat): (r: seq<Tcb>)
    ensures |r| == |pool|
  {
    if 0 <= p < |pool| then pool[p := pool[p].(children := Without(pool[p].children, t))] else pool
  }

  /** The first waiting task is freed, or, if it is a process that still has threads, these are ended and the
      process goes to the end of the list. */
  function Reap(s: State): State
    requires Shape(s) && s.queues.wait != [] && s.queues.wait[0] < MAX_TASKS && s.useCount > 0
  {
    var t, rest := s.queues.wait[0], s.queues.(wait := s.queues.wait[1..]);
    if s.pool[t].kind == Process then
      if s.pool[t].children == [] then FreeTcb(s.(queues := rest), t)
      else
        var r := EndAll(s, s.pool[t].children);
        r.(queues := r.queues.(wait := (if r.queues.wait == [] then [] else r.queues.wait[1..]) + [t]))
    else
      FreeTcb(s.(queues := rest, pool := WithoutChild(s.pool, ProcessOf(s.pool, t), t)), t)
  }

  /** The state in the middle of a turn: the first waiting task `t` has been taken off the wait list, and the
      threads in its list have been moved round to `children`. */
  function TakenOff(v: State, t: nat, children: seq<nat>): State {
    v.(pool := if t < |v.pool| then v.pool[t := v.pool[t].(children := children)] else v.pool,
       queues := v.queues.(wait := if v.queues.wait == [] then [] else v.queues.wait[1..]))
  }

  /** Ending another task does not mind. */
  lemma EndWhileTakenOff(v: State, t: nat, children: seq<nat>, id: nat)
    requires Shape(v) && t < MAX_TASKS && v.queues.wait != [] && SlotOf(id) < MAX_TASKS && SlotOf(id) != t
    requires v.running != t && v.pool[v.running].id != id
    ensures Shape(TakenOff(v, t, children))
    ensures EndTask(TakenOff(v, t, children), id) == TakenOff(EndTask(v, id), t, children)
  {
    var u := SlotOf(id);
    assert v.queues.wait[1..] + [u] == (v.queues.wait + [u])[1..];
    UpdatesCommute(v.pool, t, v.pool[t].(children := children), u, v.pool[u].(ended := true, priority := WAIT));
  }

  lemma UpdatesCommute(pool: seq<Tcb>, t: nat, a: Tcb, u: nat, b: Tcb)
    requires t < |pool| && u < |pool| && t != u
    ensures pool[t := a][u := b] == pool[u := b][t := a]
  {
  }

  // ----- who is to go -----

  /** Tasks that have ended, and threads of a process that has. */
  ghost predicate Doomed(pool: seq<Tcb>, t: nat) {
    && t < |pool| && IsLive(pool[t])
    && (pool[t].ended ||
        (pool[t].kind == Thread && SlotOf(pool[t].parent) < |pool| && pool[SlotOf(pool[t].parent)].ended))
  }

  ghost function DoomedSlots(pool: seq<Tcb>): set<nat> {
    set t | 0 <= t < |pool| && Doomed(pool, t)
  }

  /** Slots that hold no task that may still run. */
  ghost function Gone(pool: seq<Tcb>): set<nat> {
    set t | 0 <= t < |pool| && (!IsLive(pool[t]) || pool[t].ended)
  }

  // ----- ending the threads of one process -----

  ghost function SlotsIn(list: seq<nat>): set<nat> {
    set t | t in list
  }

  /** What ending all tasks of a list leaves and changes. */
  ghost predicate AllEnded(s: State, list: seq<nat>, r: State) {
    && |r.pool| == |s.pool| == MAX_TASKS && |r.queues.ready| == |s.queues.ready| == LEVELS
    && (forall u :: 0 <= u < MAX_TASKS ==>
          r.pool[u] == if u in list then s.pool[u].(ended := true, priority := WAIT) else s.pool[u])
    && (forall l :: 0 <= l < LEVELS ==> r.queues.ready[l] == Keep(s.queues.ready[l], SlotsIn(list)))
    && s.queues.wait <= r.queues.wait && (forall u :: u in r.queues.wait <==> u in s.queues.wait || u in list)
    && r.running == s.running && r.useCount == s.useCount && r.generation == s.generation && r.executed == s.executed
  }

  lemma EndOne(s: State, t: nat)
    requires Inv(s) && t < MAX_TASKS && IsLive(s.pool[t]) && t != s.running
    ensures SlotOf(s.pool[t].id) == t && Shape(s)
    ensures Inv(EndTask(s, s.pool[t].id)) && AllEnded(s, [t], EndTask(s, s.pool[t].id))
  {
    hide Families, LiveCount, Placed;
    assert SlotOk(s.pool[t], t);
    var id := s.pool[t].id;
    EndTaskExact(s, id);
    RunningIdDiffers(s, t);
    OneSlot(t);
    if s.pool[t].ended {
      EndedIsWaiting(s, t);
      forall l | 0 <= l < LEVELS
        ensures Keep(s.queues.ready[l], {t}) == s.queues.ready[l]
      {
        KeepOne(s.queues.ready[l], t);
        WithoutAbsent(s.queues.ready[l], t);
      }
    } else {
      LiveIsReady(s, t);
      forall l | 0 <= l < LEVELS
        ensures EndTask(s, id).queues.ready[l] == Keep(s.queues.ready[l], {t})
      {
        KeepOne(s.queues.ready[l], t);
        if l != s.pool[t].priority {
          OnlyOwnLevel(s, t, l);
          WithoutAbsent(s.queues.ready[l], t);
        }
      }
    }
  }

  lemma OneSlot(t: nat)
    ensures SlotsIn([t]) == {t}
  {
  }

  lemma KeepOne(list: seq<nat>, t: nat)
    ensures Keep(list, {t}) == Without(list, t)
  {
    KeepAll(list);
    KeepWithout(list, {}, t);
    assert {} + {t} == {t};
  }

  lemma EndedIsWaiting(s: State, t: nat)
    requires Inv(s) && t < MAX_TASKS && IsLive(s.pool[t]) && t != s.running && s.pool[t].ended
    ensures t in s.queues.wait && forall l :: 0 <= l < LEVELS ==> t !in s.queues.ready[l]
    ensures s.pool[t].priority == WAIT
  {
    assert SlotOk(s.pool[t], t) && InPlace(s.queues, t, Home(s.pool, s.running, t));
  }

  lemma OnlyOwnLevel(s: State, t: nat, l: nat)
    requires Inv(s) && t < MAX_TASKS && l < LEVELS && s.pool[t].priority != l
    ensures t !in s.queues.ready[l]
  {
    assert InPlace(s.queues, t, Home(s.pool, s.running, t));
  }

  lemma {:induction false} KeepKeep(list: seq<nat>, a: set<nat>, b: set<nat>)
    ensures Keep(Keep(list, a), b) == Keep(list, a + b)
  {
    if list == [] {
    } else {
      KeepKeep(list[1..], a, b);
    }
  }

  lemma AllEndedTwice(s: State, t: nat, r: State, list: seq<nat>, q: State)
    requires AllEnded(s, [t], r) && AllEnded(r, list, q)
    ensures AllEnded(s, [t] + list, q)
  {
    assert SlotsIn([t]) + SlotsIn(list) == SlotsIn([t] + list);
    forall l | 0 <= l < LEVELS
      ensures q.queues.ready[l] == Keep(s.queues.ready[l], SlotsIn([t] + list))
    {
      KeepKeep(s.queues.ready[l], SlotsIn([t]), SlotsIn(list));
    }
  }

  lemma {:induction false} EndAllEnds(s: State, list: seq<nat>)
    requires Inv(s) && forall t :: t in list ==> t < MAX_TASKS && IsLive(s.pool[t]) && t != s.running
    ensures Shape(s) && Inv(EndAll(s, list)) && AllEnded(s, list, EndAll(s, list))
    decreases |list|
  {
    hide Inv, EndTask, SlotsIn;
    InvIsShape(s);
    if list == [] {
      NothingEnded(s);
    } else {
      var t := list[0];
      assert t in list;
      EndOne(s, t);
      var next := EndTask(s, s.pool[t].id);
      InvIsShape(next);
      assert forall u :: u in list[1..] ==> u in list;
      EndAllEnds(next, list[1..]);
      AllEndedTwice(s, t, next, list[1..], EndAll(next, list[1..]));
      assert [t] + list[1..] == list;
    }
  }

  lemma InvIsShape(s: State)
    requires Inv(s)
    ensures Shape(s)
  {
  }

  lemma NothingEnded(s: State)
    requires Shape(s)
    ensures AllEnded(s, [], s)
  {
    assert SlotsIn([]) == {};
    forall l | 0 <= l < LEVELS
      ensures Keep(s.queues.ready[l], SlotsIn([])) == s.queues.ready[l]
    {
      KeepAll(s.queues.ready[l]);
    }
  }

  // ----- every turn keeps the invariant -----

  lemma FirstWaits(s: State)
    requires Inv(s) && s.queues.wait != []
    ensures var t := s.queues.wait[0];
            && Shape(s) && t < MAX_TASKS && IsLive(s.pool[t]) && s.pool[t].ended && t != s.running && s.useCount > 0
            && ListOk(s.queues.wait[1..]) && t !in s.queues.wait[1..]
            && PlacedBut(s.pool, s.running, s.queues.(wait := s.queues.wait[1..]), t)
  {
    var t := s.queues.wait[0];
    assert t in s.queues.wait;
    var q := s.queues.(wait := s.queues.wait[1..]);
    assert InPlace(s.queues, t, Home(s.pool, s.running, t)) && SlotOk(s.pool[t], t);
    assert s.queues.wait == [t] + s.queues.wait[1..];
    assert forall u :: u in q.wait ==> u in s.queues.wait;
    forall u | 0 <= u < |s.pool| && u != t
      ensures InPlace(q, u, Home(s.pool, s.running, u))
    {
      assert InPlace(s.queues, u, Home(s.pool, s.running, u));
    }
    CountUpdate(s.pool, t, s.pool[t].(id := t));
  }

  lemma FreeKeeps(s: State, t: nat)
    requires SlotsOk(s.pool) && QueuesOk(s.queues) && PlacedBut(s.pool, s.running, s.queues, t)
    requires s.running < MAX_TASKS && IsLive(s.pool[s.running]) && s.useCount == LiveCount(s.pool) > 0
    requires 0 < s.generation < GENERATIONS && |s.executed| == LEVELS
    requires t < MAX_TASKS && IsLive(s.pool[t]) && t != s.running && Families(s.pool[t := s.pool[t].(id := t)])
    ensures Inv(FreeTcb(s, t))
  {
    hide Families, InPlace, Placed, PlacedBut, QueuesOk, LiveCount;
    var tcb := s.pool[t].(id := t);
    CountUpdate(s.pool, t, tcb);
    SlotsStayOk(s.pool, t, tcb);
    BlockChanged(s.pool, s.running, s.queues, t, tcb);
    StaysNowhere(s.pool[t := tcb], s.running, s.queues, t);
  }

  /** A process without threads may go. */
  lemma ProcessLeaves(pool: seq<Tcb>, t: nat)
    requires SlotsOk(pool) && Families(pool) && t < |pool| && IsLive(pool[t]) && pool[t].kind == Process
    requires pool[t].children == []
    ensures Families(pool[t := pool[t].(id := t)])
  {
    var next := pool[t := pool[t].(id := t)];
    forall u | 0 <= u < |next|
      ensures FamilyOk(next, u)
    {
      assert FamilyOk(pool, u) && FamilyOk(pool, t) && SlotOk(pool[t], t) && SlotOk(pool[u], u);
      if u != t && IsLive(pool[u]) && pool[u].kind == Process {
        forall c
          ensures c in next[u].children <==> 0 <= c && ChildOf(next, c, u)
        {
          if 0 <= c < |pool| {
            assert ChildOf(next, c, u) <==> ChildOf(pool, c, u);
          }
        }
      } else if u != t && IsLive(pool[u]) {
        assert !ChildOf(pool, u, t);
      }
    }
  }

  /** A thread leaves its process's list and goes. */
  lemma ThreadLeaves(pool: seq<Tcb>, p: nat, t: nat)
    requires SlotsOk(pool) && Families(pool) && t < |pool| && IsLive(pool[t]) && pool[t].kind == Thread
    requires p == ProcessOf(pool, t) < |pool| && IsLive(pool[p]) && pool[p].kind == Process
    ensures Families(WithoutChild(pool, p, t)[t := pool[t].(id := t)])
  {
    var next := WithoutChild(pool, p, t)[t := pool[t].(id := t)];
    assert SlotOk(pool[t], t) && SlotOk(pool[p], p) && FamilyOk(pool, t) && FamilyOk(pool, p);
    WithoutDistinct(pool[p].children, t);
    forall u | 0 <= u < |next|
      ensures FamilyOk(next, u)
    {
      assert FamilyOk(pool, u) && SlotOk(pool[u], u);
      if u != t && IsLive(pool[u]) && pool[u].kind == Process {
        assert u != p ==> !ChildOf(pool, t, u);
        forall c
          ensures c in next[u].children <==> 0 <= c && ChildOf(next, c, u)
        {
          if 0 <= c < |pool| && c != t {
            assert ChildOf(next, c, u) <==> ChildOf(pool, c, u);
          }
        }
      }
    }
  }

  lemma Rotated(s: State)
    requires Inv(s) && s.queues.wait != []
    ensures Inv(s.(queues := s.queues.(wait := s.queues.wait[1..] + [s.queues.wait[0]])))
  {
    hide Families, LiveCount, SlotsOk;
    var list, t := s.queues.wait, s.queues.wait[0];
    var q := s.queues.(wait := list[1..] + [t]);
    assert list == [t] + list[1..];
    assert forall u :: u in q.wait <==> u in list;
    forall u | 0 <= u < |s.pool|
      ensures InPlace(q, u, Home(s.pool, s.running, u))
    {
      assert InPlace(s.queues, u, Home(s.pool, s.running, u));
    }
  }

  /** The running task, which is the idle task, is not to go. */
  ghost predicate RunnerStays(s: State) {
    !Doomed(s.pool, s.running)
  }

  /** The threads of the first waiting process. */
  lemma FirstChildren(s: State)
    requires Inv(s) && s.queues.wait != [] && RunnerStays(s) && s.queues.wait[0] < MAX_TASKS
    requires s.pool[s.queues.wait[0]].kind == Process
    ensures var t := s.queues.wait[0];
            forall c :: c in s.pool[t].children ==>
              c < MAX_TASKS && IsLive(s.pool[c]) && s.pool[c].kind == Thread && c != s.running && c != t
  {
    FirstWaits(s);
    var t := s.queues.wait[0];
    assert FamilyOk(s.pool, t) && SlotOk(s.pool[t], t);
    forall c | c in s.pool[t].children
      ensures c < MAX_TASKS && IsLive(s.pool[c]) && s.pool[c].kind == Thread && c != s.running && c != t
    {
      assert ChildOf(s.pool, c, t);
    }
  }

  lemma ReapKeeps(s: State)
    requires Inv(s) && s.queues.wait != [] && RunnerStays(s)
    ensures Shape(s) && s.queues.wait[0] < MAX_TASKS && s.useCount > 0 && Inv(Reap(s))
  {
    hide Families, InPlace, Placed, PlacedBut, LiveCount, EndAll, Doomed, ListOk;
    FirstWaits(s);
    var t := s.queues.wait[0];
    var q := s.queues.(wait := s.queues.wait[1..]);
    if s.pool[t].kind == Process {
      if s.pool[t].children == [] {
        ProcessLeaves(s.pool, t);
        FreeKeeps(s.(queues := q), t);
      } else {
        FirstChildren(s);
        EndAllEnds(s, s.pool[t].children);
        var r := EndAll(s, s.pool[t].children);
        assert r.queues.wait[0] == t;
        Rotated(r);
      }
    } else {
      ProcessFound(s.pool, t);
      ThreadGoes(s, t, q);
    }
  }

  lemma ThreadGoes(s: State, t: nat, q: Queues)
    requires Inv(s) && t < MAX_TASKS && IsLive(s.pool[t]) && s.pool[t].kind == Thread && t != s.running
    requires QueuesOk(q) && PlacedBut(s.pool, s.running, q, t) && s.useCount > 0
    ensures Inv(FreeTcb(s.(queues := q, pool := WithoutChild(s.pool, ProcessOf(s.pool, t), t)), t))
  {
    hide Families, InPlace, Placed, PlacedBut, LiveCount, QueuesOk;
    ProcessFound(s.pool, t);
    var p := ProcessOf(s.pool, t);
    var pool := WithoutChild(s.pool, p, t);
    ThreadLeaves(s.pool, p, t);
    CountUpdate(s.pool, p, pool[p]);
    assert SlotOk(s.pool[p], p);
    SlotsStayOk(s.pool, p, pool[p]);
    SamePlacesBut(s.pool, pool, s.running, q, t);
    FreeKeeps(s.(queues := q, pool := pool), t);
  }

  lemma SamePlacesBut(pool: seq<Tcb>, next: seq<Tcb>, running: nat, q: Queues, x: nat)
    requires PlacedBut(pool, running, q, x) && |next| == |pool|
    requires forall t :: 0 <= t < |pool| ==> next[t].id == pool[t].id && next[t].priority == pool[t].priority
    ensures PlacedBut(next, running, q, x)
  {
    forall t | 0 <= t < |pool| && t != x
      ensures InPlace(q, t, Home(next, running, t))
    {
      assert InPlace(q, t, Home(pool, running, t));
    }
  }

  // ----- the loop ends -----

  ghost predicate Before(list: seq<nat>, c: nat, t: nat) {
    exists i, j :: 0 <= i < j < |list| && list[i] == c && list[j] == t
  }

  /** All threads of the waiting process `t` wait before it. */
  ghost predicate ThreadsBefore(s: State, t: nat) {
    t < |s.pool| && forall c :: c in s.pool[t].children ==> Before(s.queues.wait, c, t)
  }

  /** Waiting processes that will have to go to the end of the list once more. */
  ghost function Unready(s: State): set<nat> {
    set t | t in s.queues.wait && t < |s.pool| && s.pool[t].kind == Process && !ThreadsBefore(s, t)
  }

  /** Every turn frees a task or leaves fewer processes to be put off. */
  lemma ReapGetsOn(s: State)
    requires Inv(s) && s.queues.wait != [] && RunnerStays(s)
    ensures Shape(s) && s.queues.wait[0] < MAX_TASKS && s.useCount > 0
    ensures Reap(s).useCount < s.useCount || (Reap(s).useCount == s.useCount && Unready(Reap(s)) < Unready(s))
  {
    hide Inv, EndAll, Doomed, Unready;
    FirstWaits(s);
    var t := s.queues.wait[0];
    if s.pool[t].kind == Process && s.pool[t].children != [] {
      FirstChildren(s);
      EndAllEnds(s, s.pool[t].children);
      var r := EndAll(s, s.pool[t].children);
      assert r.queues.wait[0] == t;
      ThreadsAreNoProcesses(s, t);
      PutOff(s, r, t);
    }
  }

  lemma ThreadsAreNoProcesses(s: State, t: nat)
    requires Inv(s) && t < MAX_TASKS && s.pool[t].kind == Process
    ensures forall u :: u in s.queues.wait && u < |s.pool| && s.pool[u].kind == Process ==>
              forall c :: c in s.pool[u].children ==> c != t
  {
    forall u, c | u in s.queues.wait && u < |s.pool| && s.pool[u].kind == Process && c in s.pool[u].children
      ensures c != t
    {
      assert InPlace(s.queues, u, Home(s.pool, s.running, u)) && FamilyOk(s.pool, u);
      assert ChildOf(s.pool, c, u);
    }
  }

  lemma PutOff(s: State, r: State, t: nat)
    requires t < |s.pool| && s.pool[t].kind == Process && s.pool[t].children != [] && AllEnded(s, s.pool[t].children, r)
    requires |s.queues.wait| > 0 && s.queues.wait[0] == t && t !in s.queues.wait[1..]
    requires forall c :: c in s.pool[t].children ==> c < |s.pool| && s.pool[c].kind == Thread && c != t
    requires forall u :: u in s.queues.wait && u < |s.pool| && s.pool[u].kind == Process ==>
               forall c :: c in s.pool[u].children ==> c != t
    ensures Unready(r.(queues := r.queues.(wait := r.queues.wait[1..] + [t]))) < Unready(s)
  {
    var q := r.(queues := r.queues.(wait := r.queues.wait[1..] + [t]));
    NotBeforeFirst(s, t);
    ChildrenNowBefore(s, r, q, t);
    forall u | u in Unready(q)
      ensures u in Unready(s)
    {
      if u in r.queues.wait[1..] {
        assert u in r.queues.wait;
      }
      assert u in s.queues.wait;
      if ThreadsBefore(s, u) && u != t {
        StillBefore(s, r, q, t, u);
      }
    }
    assert t in Unready(s) && t !in Unready(q);
  }

  lemma NotBeforeFirst(s: State, t: nat)
    requires t < |s.pool| && s.pool[t].children != []
    requires |s.queues.wait| > 0 && s.queues.wait[0] == t && t !in s.queues.wait[1..]
    ensures !ThreadsBefore(s, t)
  {
    var c := s.pool[t].children[0];
    assert c in s.pool[t].children && s.queues.wait == [t] + s.queues.wait[1..];
  }

  lemma ChildrenNowBefore(s: State, r: State, q: State, t: nat)
    requires t < |s.pool| && AllEnded(s, s.pool[t].children, r)
    requires |s.queues.wait| > 0 && s.queues.wait[0] == t
    requires forall c :: c in s.pool[t].children ==> c != t
    requires q == r.(queues := r.queues.(wait := r.queues.wait[1..] + [t]))
    ensures ThreadsBefore(q, t)
  {
    var w := r.queues.wait;
    forall c | c in q.pool[t].children
      ensures Before(q.queues.wait, c, t)
    {
      assert c in w;
      var i :| 0 <= i < |w| && w[i] == c;
      assert w[0] == t;
      assert q.queues.wait[i - 1] == c && q.queues.wait[|w| - 1] == t;
    }
  }

  lemma StillBefore(s: State, r: State, q: State, t: nat, u: nat)
    requires t < |s.pool| && u < |s.pool| && AllEnded(s, s.pool[t].children, r) && ThreadsBefore(s, u)
    requires |s.queues.wait| > 0 && s.queues.wait[0] == t
    requires forall c :: c in s.pool[u].children ==> c != t
    requires q == r.(queues := r.queues.(wait := r.queues.wait[1..] + [t]))
    ensures ThreadsBefore(q, u)
  {
    var w := s.queues.wait;
    forall c | c in q.pool[u].children
      ensures Before(q.queues.wait, c, u)
    {
      var i, j :| 0 <= i < j < |w| && w[i] == c && w[j] == u;
      assert r.queues.wait[i] == c && r.queues.wait[j] == u;
      assert q.queues.wait[i - 1] == c && q.queues.wait[j - 1] == u;
    }
  }

  // ----- what the loop leaves -----

  /** The slot a turn frees, if any. */
  ghost function FreedBy(s: State): set<nat>
    requires s.queues.wait != [] && s.queues.wait[0] < |s.pool|
  {
    var t := s.queues.wait[0];
    if s.pool[t].kind == Process && s.pool[t].children != [] then {} else {t}
  }

  /** A process is freed only when it has no live thread left. */
  lemma ProcessGoesLast(s: State, c: nat)
    requires Inv(s) && s.queues.wait != [] && s.queues.wait[0] < MAX_TASKS
    requires s.pool[s.queues.wait[0]].kind == Process && FreedBy(s) == {s.queues.wait[0]}
    ensures !ChildOf(s.pool, c, s.queues.wait[0])
  {
    FirstWaits(s);
    assert FamilyOk(s.pool, s.queues.wait[0]);
  }

  /** A block that stays, with the freed threads gone from its list. */
  function Thinned(tcb: Tcb, freed: set<nat>): Tcb {
    if IsLive(tcb) && tcb.kind == Process then tcb.(children := Keep(tcb.children, freed)) else tcb
  }

  /** Since `a` the slots of `freed` have been freed; every other block keeps its identity, and is exactly
      as it was but for its list if it was not to go. */
  ghost predicate SlotReaped(a: seq<Tcb>, b: seq<Tcb>, freed: set<nat>, t: nat)
    requires t < |a| == |b|
  {
    if t in freed then !IsLive(b[t])
    else
      && b[t].id == a[t].id && b[t].kind == a[t].kind && b[t].parent == a[t].parent
      && b[t].children == Thinned(a[t], freed).children
      && (Doomed(b, t) <==> Doomed(a, t))
      && (!Doomed(a, t) ==> b[t] == Thinned(a[t], freed))
  }

  ghost predicate Reaped(o: State, s: State, freed: set<nat>) {
    && |o.pool| == |s.pool| == MAX_TASKS && |o.queues.ready| == |s.queues.ready| == LEVELS
    && s.running == o.running && freed <= DoomedSlots(o.pool)
    && (forall t :: 0 <= t < MAX_TASKS ==> SlotReaped(o.pool, s.pool, freed, t))
    && (forall l :: 0 <= l < LEVELS ==> s.queues.ready[l] == Keep(o.queues.ready[l], Gone(s.pool)))
  }

  lemma {:induction false} KeepSame(list: seq<nat>, a: set<nat>, b: set<nat>)
    requires forall t :: t in list ==> (t in a <==> t in b)
    ensures Keep(list, a) == Keep(list, b)
  {
    if list == [] {
    } else {
      KeepSame(list[1..], a, b);
    }
  }

  lemma ReapingStarts(s: State)
    requires Inv(s)
    ensures Reaped(s, s, {})
  {
    forall t | 0 <= t < MAX_TASKS
      ensures SlotReaped(s.pool, s.pool, {}, t)
    {
      KeepAll(s.pool[t].children);
    }
    forall l | 0 <= l < LEVELS
      ensures s.queues.ready[l] == Keep(s.queues.ready[l], Gone(s.pool))
    {
      ReadyIsNotGone(s, l);
      KeepSame(s.queues.ready[l], {}, Gone(s.pool));
      KeepAll(s.queues.ready[l]);
    }
  }

  lemma ReadyIsNotGone(s: State, l: nat)
    requires Inv(s) && l < LEVELS
    ensures forall t :: t in s.queues.ready[l] ==> t < MAX_TASKS && IsLive(s.pool[t]) && !s.pool[t].ended
  {
    forall t | t in s.queues.ready[l]
      ensures t < MAX_TASKS && IsLive(s.pool[t]) && !s.pool[t].ended
    {
      assert ListOk(s.queues.ready[l]);
      assert InPlace(s.queues, t, Home(s.pool, s.running, t)) && SlotOk(s.pool[t], t);
    }
  }

  /** One turn of the loop. */
  lemma ReapGoesOn(o: State, s: State, freed: set<nat>)
    requires Reaped(o, s, freed) && Inv(s) && s.queues.wait != [] && RunnerStays(s)
    ensures Shape(s) && s.queues.wait[0] < MAX_TASKS && s.useCount > 0
    ensures Reaped(o, Reap(s), freed + FreedBy(s)) && RunnerStays(Reap(s))
  {
    hide Inv, EndAll, Reaped, FreeTcb;
    FirstWaits(s);
    var t := s.queues.wait[0];
    if s.pool[t].kind == Process && s.pool[t].children != [] {
      FirstChildren(s);
      EndAllEnds(s, s.pool[t].children);
      var r := EndAll(s, s.pool[t].children);
      assert r.queues.wait[0] == t;
      FamilyOfFirst(s, t);
      ParentsAreProcesses(s);
      RotatedReaped(o, s, r, freed, t);
      assert freed + FreedBy(s) == freed;
      SameButWait(o, r, Reap(s), freed);
    } else {
      FreedReaped(o, s, freed, t);
    }
  }

  lemma SameButWait(o: State, r: State, q: State, freed: set<nat>)
    requires Reaped(o, r, freed) && RunnerStays(r)
    requires q.pool == r.pool && q.running == r.running && q.queues.ready == r.queues.ready
    ensures Reaped(o, q, freed) && RunnerStays(q)
  {
  }

  lemma FamilyOfFirst(s: State, t: nat)
    requires Inv(s) && t < MAX_TASKS && IsLive(s.pool[t]) && s.pool[t].kind == Process && s.pool[t].ended
    ensures forall c :: c in s.pool[t].children ==> Doomed(s.pool, c) && SlotOf(s.pool[c].parent) == t
  {
    assert FamilyOk(s.pool, t) && SlotOk(s.pool[t], t);
    forall c | c in s.pool[t].children
      ensures Doomed(s.pool, c) && SlotOf(s.pool[c].parent) == t
    {
      assert ChildOf(s.pool, c, t);
    }
  }

  lemma ParentsAreProcesses(s: State)
    requires Inv(s)
    ensures forall u :: 0 <= u < MAX_TASKS && IsLive(s.pool[u]) && s.pool[u].kind == Thread ==>
              SlotOf(s.pool[u].parent) < MAX_TASKS && s.pool[SlotOf(s.pool[u].parent)].kind == Process
  {
    forall u | 0 <= u < MAX_TASKS && IsLive(s.pool[u]) && s.pool[u].kind == Thread
      ensures SlotOf(s.pool[u].parent) < MAX_TASKS && s.pool[SlotOf(s.pool[u].parent)].kind == Process
    {
      assert FamilyOk(s.pool, u);
    }
  }

  /** Ending threads that are to go anyway. */
  lemma RotatedReaped(o: State, s: State, r: State, freed: set<nat>, t: nat)
    requires Reaped(o, s, freed) && RunnerStays(s) && t < MAX_TASKS && AllEnded(s, s.pool[t].children, r)
    requires forall c :: c in s.pool[t].children ==>
               c < MAX_TASKS && Doomed(s.pool, c) && IsLive(s.pool[c]) && s.pool[c].kind == Thread && c != s.running
    requires forall u :: 0 <= u < MAX_TASKS && IsLive(s.pool[u]) && s.pool[u].kind == Thread ==>
               SlotOf(s.pool[u].parent) < MAX_TASKS && s.pool[SlotOf(s.pool[u].parent)].kind == Process
    ensures Reaped(o, r, freed) && RunnerStays(r)
  {
    var list := s.pool[t].children;
    forall u: nat | u < MAX_TASKS
      ensures Doomed(r.pool, u) <==> Doomed(s.pool, u)
    {
    }
    forall u | 0 <= u < MAX_TASKS
      ensures SlotReaped(o.pool, r.pool, freed, u)
    {
      assert SlotReaped(o.pool, s.pool, freed, u);
    }
    GoneGrows(s, r, list);
    forall l | 0 <= l < LEVELS
      ensures r.queues.ready[l] == Keep(o.queues.ready[l], Gone(r.pool))
    {
      KeepKeep(o.queues.ready[l], Gone(s.pool), SlotsIn(list));
    }
  }

  lemma GoneGrows(s: State, r: State, list: seq<nat>)
    requires AllEnded(s, list, r) && forall c :: c in list ==> c < MAX_TASKS
    ensures Gone(r.pool) == Gone(s.pool) + SlotsIn(list)
  {
  }

  /** Freeing a task that is to go. */
  lemma FreedReaped(o: State, s: State, freed: set<nat>, t: nat)
    requires Reaped(o, s, freed) && Inv(s) && RunnerStays(s) && s.queues.wait != [] && s.queues.wait[0] == t < MAX_TASKS
    requires s.pool[t].kind == Thread || s.pool[t].children == []
    ensures Shape(s) && s.useCount > 0 && Reaped(o, Reap(s), freed + {t}) && RunnerStays(Reap(s))
  {
    hide Inv;
    FirstWaits(s);
    var r := Reap(s);
    assert SlotReaped(o.pool, s.pool, freed, t);
    BlocksAfterFree(s, r, t);
    forall u | 0 <= u < MAX_TASKS
      ensures SlotReaped(o.pool, r.pool, freed + {t}, u)
    {
      assert SlotReaped(o.pool, s.pool, freed, u);
      KeepWithout(o.pool[u].children, freed, t);
    }
    assert Gone(r.pool) == Gone(s.pool);
  }

  /** The freed slot goes out of every list of threads; nothing else changes. */
  lemma BlocksAfterFree(s: State, r: State, t: nat)
    requires Inv(s) && s.queues.wait != [] && s.queues.wait[0] == t < MAX_TASKS && Shape(s) && s.useCount > 0
    requires IsLive(s.pool[t]) && s.pool[t].ended && r == Reap(s)
    requires s.pool[t].kind == Thread || s.pool[t].children == []
    ensures |r.pool| == MAX_TASKS && !IsLive(r.pool[t]) && r.pool[t].ended
    ensures forall u :: 0 <= u < MAX_TASKS && u != t ==>
              r.pool[u] == if IsLive(s.pool[u]) && s.pool[u].kind == Process
                           then s.pool[u].(children := Without(s.pool[u].children, t)) else s.pool[u]
  {
    if s.pool[t].kind == Thread {
      ProcessFound(s.pool, t);
    }
    assert SlotOk(s.pool[t], t);
    forall u | 0 <= u < MAX_TASKS && u != t
      ensures r.pool[u] == if IsLive(s.pool[u]) && s.pool[u].kind == Process
                           then s.pool[u].(children := Without(s.pool[u].children, t)) else s.pool[u]
    {
      assert FamilyOk(s.pool, u) && SlotOk(s.pool[u], u);
      if IsLive(s.pool[u]) && s.pool[u].kind == Process && t !in s.pool[u].children {
        WithoutAbsent(s.pool[u].children, t);
      } else if IsLive(s.pool[u]) && s.pool[u].kind == Process {
        assert ChildOf(s.pool, t, u);
      }
    }
  }

  /** When the wait list is empty, exactly the tasks that had ended and the threads of processes that had
      ended are gone; the ready lists are what they were without these. */
  lemma ReapingEnds(o: State, s: State, freed: set<nat>)
    requires Reaped(o, s, freed) && Inv(o) && Inv(s) && RunnerStays(s) && s.queues.wait == []
    ensures freed == DoomedSlots(o.pool)
    ensures forall t :: 0 <= t < MAX_TASKS && t !in freed ==> s.pool[t] == Thinned(o.pool[t], freed)
    ensures forall l :: 0 <= l < LEVELS ==> s.queues.ready[l] == Keep(o.queues.ready[l], freed)
  {
    forall t | t in DoomedSlots(o.pool)
      ensures t in freed
    {
      if t !in freed {
        assert SlotReaped(o.pool, s.pool, freed, t);
        NobodyDoomed(s, t);
      }
    }
    forall t | 0 <= t < MAX_TASKS && t !in freed
      ensures s.pool[t] == Thinned(o.pool[t], freed)
    {
      assert SlotReaped(o.pool, s.pool, freed, t);
    }
    forall l | 0 <= l < LEVELS
      ensures s.queues.ready[l] == Keep(o.queues.ready[l], freed)
    {
      ReadyIsNotGone(o, l);
      assert forall t :: t in o.queues.ready[l] ==> SlotReaped(o.pool, s.pool, freed, t);
      KeepSame(o.queues.ready[l], Gone(s.pool), freed);
    }
  }

  lemma NobodyDoomed(s: State, t: nat)
    requires Inv(s) && RunnerStays(s) && s.queues.wait == [] && t < MAX_TASKS
    ensures !Doomed(s.pool, t)
  {
    if Doomed(s.pool, t) {
      if s.pool[t].ended {
        if t != s.running {
          EndedIsWaiting(s, t);
        }
      } else {
        var p := SlotOf(s.pool[t].parent);
        assert FamilyOk(s.pool, t);
        if p != s.running {
          EndedIsWaiting(s, p);
        }
      }
    }
  }
}
