/** The re-entrant lock protocol that mutex and spin lock share, as a system of actors (tasks or cores) whose
    single memory operations interleave freely. */
module Locks {
  const COUNT_LIMIT: nat := 0x1_0000_0000
  const NOBODY: int := -1

  /** The lock in shared memory; an actor's own number stands for its task or APIC id. */
  datatype Lock = Lock(flag: bool, count: nat, owner: int)

  /** Where an actor is in the lock or the unlock program; each step does one memory operation. */
  datatype Pc =
    | Idle
    | TrySet | CheckOwner | LoadCount | StoreMore | Waiting | SetCount | SetOwner
    | CheckFlag | CheckHolder | TestCount | LoadLess | StoreLess | ClearOwner | ClearCount | ClearFlag

  /** `depth` is how often the actor has locked without unlocking. */
  datatype Actor = Actor(pc: Pc, register: nat, depth: nat)

  datatype System = System(lock: Lock, actors: seq<Actor>)

  datatype Call = CallLock | CallUnlock

  /** What one step does to the lock and to the actor that makes it. */
  function Act(l: Lock, a: Actor, me: nat, call: Call): (Lock, Actor) {
    match a.pc
    case Idle => (l, a.(pc := if call == CallLock then TrySet else CheckFlag))
    case TrySet => if l.flag then (l, a.(pc := CheckOwner)) else (l.(flag := true), a.(pc := SetCount))
    case CheckOwner => (l, a.(pc := if l.owner == me then LoadCount else Waiting))
    case LoadCount => (l, a.(register := l.count, pc := StoreMore))
    case StoreMore => (l.(count := (a.register + 1) % COUNT_LIMIT), a.(pc := Idle, depth := a.depth + 1))
    case Waiting => if l.flag then (l, a) else (l.(flag := true), a.(pc := SetCount))
    case SetCount => (l.(count := 1), a.(pc := SetOwner))
    case SetOwner => (l.(owner := me), a.(pc := Idle, depth := a.depth + 1))
    case CheckFlag => (l, a.(pc := if l.flag then CheckHolder else Idle))
    case CheckHolder => (l, a.(pc := if l.owner == me then TestCount else Idle))
    case TestCount => (l, a.(pc := if l.count > 1 then LoadLess else ClearOwner))
    case LoadLess => (l, a.(register := l.count, pc := StoreLess))
    case StoreLess =>
      (l.(count := if a.register == 0 then COUNT_LIMIT - 1 else a.register - 1),
       a.(pc := Idle, depth := if a.depth == 0 then 0 else a.depth - 1))
    case ClearOwner => (l.(owner := NOBODY), a.(pc := ClearCount))
    case ClearCount => (l.(count := 0), a.(pc := ClearFlag))
    case ClearFlag => (l.(flag := false), a.(pc := Idle, depth := if a.depth == 0 then 0 else a.depth - 1))
  }

  function Step(s: System, t: nat, call: Call): System
    requires t < |s.actors|
  {
    var r := Act(s.lock, s.actors[t], t, call);
    System(r.0, s.actors[t := r.1])
  }

  function Initial(n: nat): System {
    System(Lock(false, 0, NOBODY), seq(n, _ => Actor(Idle, 0, 0)))
  }

  // ----- the invariant -----

  /** The actor has won the flag and not yet given it back. */
  predicate Holds(a: Actor) {
    a.depth > 0 || a.pc == SetCount || a.pc == SetOwner
  }

  predicate Releasing(pc: Pc) {
    pc == ClearOwner || pc == ClearCount || pc == ClearFlag
  }

  /** An actor at this place has found itself to be the owner. */
  predicate PastTest(pc: Pc) {
    pc == LoadCount || pc == StoreMore || pc == TestCount || pc == LoadLess || pc == StoreLess || Releasing(pc)
  }

  ghost predicate ActorOk(l: Lock, a: Actor, t: nat) {
    && (Holds(a) ==> l.flag)
    && (l.owner == t <==> a.depth > 0 && a.pc != ClearCount && a.pc != ClearFlag)
    && (a.pc == SetCount || a.pc == SetOwner || a.pc == Waiting ==> a.depth == 0)
    && (a.pc == SetOwner ==> l.count == 1)
    && (a.depth > 0 && a.pc != ClearFlag ==> l.count == a.depth % COUNT_LIMIT)
    && (PastTest(a.pc) ==> a.depth > 0)
    && (a.pc == LoadLess || a.pc == StoreLess ==> a.depth % COUNT_LIMIT > 1)
    && (Releasing(a.pc) ==> a.depth == 1)
    && (a.pc == StoreMore || a.pc == StoreLess ==> a.register == l.count)
  }

  ghost predicate Inv(s: System) {
    && (forall t :: 0 <= t < |s.actors| ==> ActorOk(s.lock, s.actors[t], t))
    && (forall t, u :: 0 <= t < u < |s.actors| ==> !(Holds(s.actors[t]) && Holds(s.actors[u])))
    && (s.lock.flag ==> exists t :: 0 <= t < |s.actors| && Holds(s.actors[t]))
    && NOBODY <= s.lock.owner < |s.actors|
  }

  /** The actor does not take the branch that gives the lock back while it has locked more than once: the
      32-bit count, which wraps, is tested at no depth 2^32 k or 2^32 k + 1 but 1. */
  predicate NotTooEarly(a: Actor) {
    a.pc == TestCount ==> a.depth == 1 || a.depth % COUNT_LIMIT > 1
  }

  lemma InitialIsSound(n: nat)
    ensures Inv(Initial(n))
  {
  }

  lemma ActKeepsSelf(l: Lock, a: Actor, t: nat, call: Call)
    requires ActorOk(l, a, t) && NotTooEarly(a)
    requires !l.flag ==> l.owner == NOBODY
    ensures var r := Act(l, a, t, call); ActorOk(r.0, r.1, t)
  {
    CountsWrap(a.depth);
  }

  lemma CountsWrap(depth: nat)
    ensures (depth % COUNT_LIMIT + 1) % COUNT_LIMIT == (depth + 1) % COUNT_LIMIT
    ensures depth % COUNT_LIMIT > 0 ==> (depth - 1) % COUNT_LIMIT == depth % COUNT_LIMIT - 1
  {
  }

  /** A step by `t` is harmless to an actor that does not hold the lock while `t` does. */
  lemma ActKeepsOther(l: Lock, a: Actor, t: nat, call: Call, b: Actor, u: nat)
    requires ActorOk(l, a, t) && ActorOk(l, b, u) && t != u && !(Holds(a) && Holds(b))
    ensures var r := Act(l, a, t, call); ActorOk(r.0, b, u) && !(Holds(r.1) && Holds(b))
  {
  }

  /** Every single memory operation of any actor keeps the invariant, except one that gives the lock back too
      early. */
  lemma StepKeeps(s: System, t: nat, call: Call)
    requires Inv(s) && t < |s.actors| && NotTooEarly(s.actors[t])
    ensures Inv(Step(s, t, call))
  {
    hide ActorOk, Act, Holds;
    var r := Step(s, t, call);
    OwnerHolds(s);
    ActKeepsSelf(s.lock, s.actors[t], t, call);
    forall u | 0 <= u < |s.actors| && u != t
      ensures ActorOk(r.lock, r.actors[u], u) && !(Holds(r.actors[t]) && Holds(r.actors[u]))
    {
      assert !(Holds(s.actors[t]) && Holds(s.actors[u])) by {
        assert t < u ==> !(Holds(s.actors[t]) && Holds(s.actors[u]));
      }
      ActKeepsOther(s.lock, s.actors[t], t, call, s.actors[u], u);
    }
    FlagHasHolder(s, t, call);
  }

  /** So the invariant is lost exactly at such a step. */
  lemma StepExact(s: System, t: nat, call: Call)
    requires Inv(s) && t < |s.actors|
    ensures Inv(Step(s, t, call)) <==> NotTooEarly(s.actors[t])
  {
    if NotTooEarly(s.actors[t]) {
      StepKeeps(s, t, call);
    } else {
      var r := Step(s, t, call);
      assert ActorOk(s.lock, s.actors[t], t);
      assert !ActorOk(r.lock, r.actors[t], t);
    }
  }

  lemma OwnerHolds(s: System)
    requires Inv(s)
    ensures s.lock.owner != NOBODY ==> s.lock.owner >= 0 && s.actors[s.lock.owner].depth > 0 && s.lock.flag
  {
    if s.lock.owner != NOBODY {
      assert ActorOk(s.lock, s.actors[s.lock.owner], s.lock.owner);
    }
  }

  lemma OneHolder(s: System, t: nat, u: nat)
    requires Inv(s) && t < |s.actors| && u < |s.actors| && t != u
    ensures !(Holds(s.actors[t]) && Holds(s.actors[u]))
  {
    assert t < u ==> !(Holds(s.actors[t]) && Holds(s.actors[u]));
    assert u < t ==> !(Holds(s.actors[u]) && Holds(s.actors[t]));
  }

  lemma FlagHasHolder(s: System, t: nat, call: Call)
    requires Inv(s) && t < |s.actors|
    ensures var r := Step(s, t, call);
            && (r.lock.flag ==> exists u :: 0 <= u < |r.actors| && Holds(r.actors[u]))
            && NOBODY <= r.lock.owner < |r.actors|
  {
    var r := Step(s, t, call);
    assert ActorOk(s.lock, s.actors[t], t);
    if r.lock.flag && !Holds(r.actors[t]) {
      var u :| 0 <= u < |s.actors| && Holds(s.actors[u]);
      assert r.actors[u] == s.actors[u];
    }
  }

  // ----- whole runs -----

  predicate IsRun(s: System, steps: seq<(nat, Call)>)
    decreases |steps|
  {
    steps == [] || (steps[0].0 < |s.actors| && IsRun(Step(s, steps[0].0, steps[0].1), steps[1..]))
  }

  function EndOf(s: System, steps: seq<(nat, Call)>): System
    requires IsRun(s, steps)
    decreases |steps|
  {
    if steps == [] then s else EndOf(Step(s, steps[0].0, steps[0].1), steps[1..])
  }

  /** A run in which the lock is never given back too early. */
  predicate IsTimely(s: System, steps: seq<(nat, Call)>)
    requires IsRun(s, steps)
    decreases |steps|
  {
    steps == [] ||
    (NotTooEarly(s.actors[steps[0].0]) && IsTimely(Step(s, steps[0].0, steps[0].1), steps[1..]))
  }

  lemma {:induction false} RunKeeps(s: System, steps: seq<(nat, Call)>)
    requires Inv(s) && IsRun(s, steps) && IsTimely(s, steps)
    ensures Inv(EndOf(s, steps))
    decreases |steps|
  {
    hide Inv, Step, NotTooEarly;
    if steps == [] {
    } else {
      StepKeeps(s, steps[0].0, steps[0].1);
      RunKeeps(Step(s, steps[0].0, steps[0].1), steps[1..]);
    }
  }

  lemma {:induction false} RunsJoin(s: System, a: seq<(nat, Call)>, b: seq<(nat, Call)>)
    requires IsRun(s, a) && IsRun(EndOf(s, a), b)
    ensures IsRun(s, a + b) && EndOf(s, a + b) == EndOf(EndOf(s, a), b)
    decreases |a|
  {
    hide Step;
    if a == [] {
      assert a + b == b;
    } else {
      RunsJoin(Step(s, a[0].0, a[0].1), a[1..], b);
      assert (a + b)[1..] == a[1..] + b;
    }
  }

  /** Mutual exclusion: in every run of any number of actors, up to the first release that comes too early, at
      most one is between lock and unlock, the test for being the owner succeeds exactly for it, and the
      count is its depth in 32 bits. */
  lemma MutualExclusion(n: nat, steps: seq<(nat, Call)>, t: nat, u: nat)
    requires IsRun(Initial(n), steps) && IsTimely(Initial(n), steps)
    requires t < |EndOf(Initial(n), steps).actors| && u < |EndOf(Initial(n), steps).actors|
    ensures var s := EndOf(Initial(n), steps);
            && (s.actors[t].depth > 0 && s.actors[u].depth > 0 ==> t == u)
            && (s.actors[t].pc == CheckOwner || s.actors[t].pc == CheckHolder ==>
                  (s.lock.owner == t <==> s.actors[t].depth > 0))
            && (s.actors[t].depth > 0 && s.actors[t].pc == Idle ==>
                  s.lock.flag && s.lock.count == s.actors[t].depth % COUNT_LIMIT)
  {
    hide EndOf, IsRun, IsTimely;
    InitialIsSound(n);
    RunKeeps(Initial(n), steps);
    var s := EndOf(Initial(n), steps);
    assert ActorOk(s.lock, s.actors[t], t);
    assert t < u ==> !(Holds(s.actors[t]) && Holds(s.actors[u]));
    assert u < t ==> !(Holds(s.actors[u]) && Holds(s.actors[t]));
  }

  // ----- what unlocking does -----

  /** A non-holder's unlock changes nothing and returns. */
  lemma StrangersUnlockDoesNothing(s: System, t: nat)
    requires Inv(s) && t < |s.actors| && s.actors[t].depth == 0
    requires s.actors[t].pc == CheckFlag || s.actors[t].pc == CheckHolder
    ensures var r := Step(s, t, CallUnlock);
            && r.lock == s.lock && r.actors[t].depth == 0
            && (r.actors[t].pc == Idle || (s.actors[t].pc == CheckFlag && r.actors[t].pc == CheckHolder))
  {
    assert ActorOk(s.lock, s.actors[t], t);
  }

  /** Up to the first release that comes too early, the lock is given back by the last step of an unlock at
      depth 1 and by nothing else. */
  lemma ReleasedAtOutermostUnlock(s: System, t: nat, call: Call)
    requires Inv(s) && t < |s.actors|
    ensures var a, r := s.actors[t], Step(s, t, call);
            && (s.lock.flag && !r.lock.flag <==> a.pc == ClearFlag)
            && (a.pc == ClearFlag ==> a.depth == 1 && r.actors[t].depth == 0)
            && (a.pc == TestCount && NotTooEarly(a) ==> (r.actors[t].pc == ClearOwner <==> a.depth == 1))
  {
    assert ActorOk(s.lock, s.actors[t], t);
  }

  /** In every run without an earlier such release, an unlock of a holder at depth d goes on to give the lock
      back exactly if d modulo 2^32 is 0 or 1. */
  lemma ReleaseByWrappedCount(n: nat, steps: seq<(nat, Call)>, t: nat, call: Call)
    requires IsRun(Initial(n), steps) && IsTimely(Initial(n), steps) && t < |EndOf(Initial(n), steps).actors|
    requires EndOf(Initial(n), steps).actors[t].pc == TestCount
    ensures var s := EndOf(Initial(n), steps);
            && s.actors[t].depth > 0
            && (Step(s, t, call).actors[t].pc == ClearOwner <==> s.actors[t].depth % COUNT_LIMIT <= 1)
  {
    hide EndOf, IsRun, IsTimely;
    InitialIsSound(n);
    RunKeeps(Initial(n), steps);
    var s := EndOf(Initial(n), steps);
    assert ActorOk(s.lock, s.actors[t], t);
  }

  // ----- the count does wrap -----

  /** Actor `t` makes `k` steps in a row. */
  function Repeat(t: nat, call: Call, k: nat): seq<(nat, Call)> {
    seq(k, _ => (t, call))
  }

  function Times(s: System, t: nat, call: Call, k: nat): (r: System)
    requires t < |s.actors|
    ensures |r.actors| == |s.actors|
    decreases k
  {
    if k == 0 then s else Times(Step(s, t, call), t, call, k - 1)
  }

  lemma {:induction false} TimesIsRun(s: System, t: nat, call: Call, k: nat)
    requires t < |s.actors|
    ensures IsRun(s, Repeat(t, call, k)) && EndOf(s, Repeat(t, call, k)) == Times(s, t, call, k)
    decreases k
  {
    hide Act;
    if k == 0 {
    } else {
      TimesIsRun(Step(s, t, call), t, call, k - 1);
      assert Repeat(t, call, k)[1..] == Repeat(t, call, k - 1);
    }
  }

  /** The lock program of an actor that need not wait takes four steps at first and five steps again. */
  lemma LockOnceMore(s: System, t: nat)
    requires t < |s.actors| && s.actors[t].pc == Idle
    requires if s.actors[t].depth == 0 then s.lock == Lock(false, 0, NOBODY) else s.lock.flag && s.lock.owner == t
    ensures var depth := s.actors[t].depth;
            var r := Times(s, t, CallLock, if depth == 0 then 4 else 5);
            && r.lock == Lock(true, if depth == 0 then 1 else (s.lock.count + 1) % COUNT_LIMIT, t)
            && r.actors == s.actors[t := r.actors[t]]
            && r.actors[t].pc == Idle && r.actors[t].depth == depth + 1
  {
    var s1 := Step(s, t, CallLock);
    var s2 := Step(s1, t, CallLock);
    var s3 := Step(s2, t, CallLock);
    var s4 := Step(s3, t, CallLock);
    if s.actors[t].depth == 0 {
      assert Times(s, t, CallLock, 4) == Times(s2, t, CallLock, 2) == Times(s4, t, CallLock, 0);
    } else {
      assert Times(s, t, CallLock, 5) == Times(s2, t, CallLock, 3) == Times(s4, t, CallLock, 1);
    }
  }

  /** The unlock program of the owner whose count is 0 or 1 takes seven steps and gives the lock back. */
  lemma UnlockAtLowCount(s: System, t: nat)
    requires t < |s.actors| && s.actors[t].pc == Idle && s.lock.flag && s.lock.owner == t && s.lock.count <= 1
    ensures var r := Times(s, t, CallUnlock, 7);
            && r.lock == Lock(false, 0, NOBODY) && r.actors == s.actors[t := r.actors[t]]
            && r.actors[t].pc == Idle
            && r.actors[t].depth == if s.actors[t].depth == 0 then 0 else s.actors[t].depth - 1
  {
    var s1 := Step(s, t, CallUnlock);
    var s2 := Step(s1, t, CallUnlock);
    var s3 := Step(s2, t, CallUnlock);
    var s4 := Step(s3, t, CallUnlock);
    var s5 := Step(s4, t, CallUnlock);
    var s6 := Step(s5, t, CallUnlock);
    var s7 := Step(s6, t, CallUnlock);
    assert Times(s, t, CallUnlock, 7) == Times(s2, t, CallUnlock, 5) == Times(s4, t, CallUnlock, 3);
    assert Times(s4, t, CallUnlock, 3) == Times(s6, t, CallUnlock, 1) == s7;
  }

  lemma RunThenTimes(s: System, steps: seq<(nat, Call)>, t: nat, call: Call, k: nat) returns (longer: seq<(nat, Call)>)
    requires IsRun(s, steps) && t < |EndOf(s, steps).actors|
    ensures IsRun(s, longer) && EndOf(s, longer) == Times(EndOf(s, steps), t, call, k)
  {
    TimesIsRun(EndOf(s, steps), t, call, k);
    longer := steps + Repeat(t, call, k);
    RunsJoin(s, steps, Repeat(t, call, k));
  }

  /** From the start the first of two actors can lock any number of times, and the count is that number
      in 32 bits. */
  lemma {:induction false} NestedLocks(d: nat) returns (steps: seq<(nat, Call)>)
    ensures IsRun(Initial(2), steps)
    ensures var s := EndOf(Initial(2), steps);
            && s.lock == (if d == 0 then Lock(false, 0, NOBODY) else Lock(true, d % COUNT_LIMIT, 0))
            && |s.actors| == 2 && s.actors[0].pc == Idle && s.actors[0].depth == d && s.actors[1] == Actor(Idle, 0, 0)
    decreases d
  {
    hide IsRun, EndOf, Times;
    if d == 0 {
      steps := [];
      NoSteps(Initial(2));
    } else {
      var before := NestedLocks(d - 1);
      var s := EndOf(Initial(2), before);
      LockOnceMore(s, 0);
      CountsWrap(d - 1);
      steps := RunThenTimes(Initial(2), before, 0, CallLock, if d == 1 then 4 else 5);
    }
  }

  lemma NoSteps(s: System)
    ensures IsRun(s, []) && EndOf(s, []) == s
  {
  }

  /** Whenever the first actor has locked d > 1 times with d modulo 2^32 being 0 or 1, one unlock gives the
      lock back and the second actor can take it: both are between lock and unlock. */
  lemma WrappingBreaksExclusion(d: nat) returns (steps: seq<(nat, Call)>)
    requires d > 1 && d % COUNT_LIMIT <= 1
    ensures IsRun(Initial(2), steps)
    ensures var s := EndOf(Initial(2), steps);
            |s.actors| == 2 && s.actors[0].depth == d - 1 > 0 && s.actors[1].depth == 1
  {
    hide IsRun, EndOf, Times;
    var nested := NestedLocks(d);
    UnlockAtLowCount(EndOf(Initial(2), nested), 0);
    var given := RunThenTimes(Initial(2), nested, 0, CallUnlock, 7);
    LockOnceMore(EndOf(Initial(2), given), 1);
    steps := RunThenTimes(Initial(2), given, 1, CallLock, 4);
  }
}
