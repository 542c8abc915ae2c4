/** Nobody waits for a lock in vain: from every state the holder's unlocks set the lock free, and a waiting actor
    takes a free lock with its next step. */
module LockProgress {
  import opened Locks
  import opened SpinLock

  /** A waiting actor takes a free lock with its next step. */
  lemma FreeLockIsTaken(s: System, t: nat, call: Call)
    requires Inv(s) && t < |s.actors| && s.actors[t].pc == Waiting && !s.lock.flag
    ensures var r := Step(s, t, call);
            r.lock.flag && Holds(r.actors[t]) && forall u :: 0 <= u < |s.actors| && u != t ==> !Holds(r.actors[u])
  {
    forall u | 0 <= u < |s.actors| && u != t
      ensures !Holds(s.actors[u])
    {
      assert ActorOk(s.lock, s.actors[u], u);
    }
  }

  // ----- the holder can always finish -----

  /** The depth the actor has when it has finished a lock call it is in. */
  function Peak(a: Actor): nat {
    a.depth + if IsLockPc(a.pc) then 1 else 0
  }

  /** How far the actor is from the end of its lock call, and then of its next unlock call. */
  function Distance(pc: Pc): nat {
    match pc
    case TrySet => 10
    case CheckOwner => 9
    case Waiting => 9
    case LoadCount => 8
    case StoreMore => 7
    case SetCount => 8
    case SetOwner => 7
    case Idle => 6
    case CheckFlag => 5
    case CheckHolder => 4
    case TestCount => 3
    case LoadLess => 2
    case StoreLess => 1
    case ClearOwner => 2
    case ClearCount => 1
    case ClearFlag => 0
  }

  /** A step of a holder that goes on unlocking: it still holds the lock and has come nearer to giving it back. */
  lemma HolderGetsOn(s: System, u: nat)
    requires Inv(s) && u < |s.actors| && Holds(s.actors[u]) && NotTooEarly(s.actors[u]) && s.actors[u].pc != ClearFlag
    ensures var a, b := s.actors[u], Step(s, u, CallUnlock).actors[u];
            && Holds(b) && (Peak(b) < Peak(a) || (Peak(b) == Peak(a) && Distance(b.pc) < Distance(a.pc)))
  {
    assert ActorOk(s.lock, s.actors[u], u);
  }

  lemma LastStep(s: System, u: nat)
    requires Inv(s) && u < |s.actors| && s.actors[u].pc == ClearFlag
    ensures var r := Step(s, u, CallUnlock); !r.lock.flag && r.actors[u].pc == Idle && r.actors[u].depth == 0
  {
    assert ActorOk(s.lock, s.actors[u], u);
  }

  /** The release that comes too early, in one go. */
  lemma EarlyRelease(s: System, u: nat)
    requires Inv(s) && u < |s.actors| && s.actors[u].pc == TestCount && !NotTooEarly(s.actors[u])
    ensures Peak(s.actors[u]) >= COUNT_LIMIT
    ensures var r := Times(s, u, CallUnlock, 4);
            !r.lock.flag && r.actors[u].pc == Idle && r.actors == s.actors[u := r.actors[u]]
  {
    assert ActorOk(s.lock, s.actors[u], u);
    var s2 := Step(Step(s, u, CallUnlock), u, CallUnlock);
    var s4 := Step(Step(s2, u, CallUnlock), u, CallUnlock);
    assert Times(s, u, CallUnlock, 4) == Times(s2, u, CallUnlock, 2) == Times(s4, u, CallUnlock, 0);
  }

  lemma OneStep(s: System, t: nat, call: Call, rest: seq<(nat, Call)>)
    requires t < |s.actors| && IsRun(Step(s, t, call), rest)
    ensures IsRun(s, [(t, call)] + rest) && EndOf(s, [(t, call)] + rest) == EndOf(Step(s, t, call), rest)
    ensures NotTooEarly(s.actors[t]) && IsTimely(Step(s, t, call), rest) ==> IsTimely(s, [(t, call)] + rest)
  {
    assert ([(t, call)] + rest)[1..] == rest;
  }

  lemma NothingDone(s: System)
    ensures IsRun(s, []) && IsTimely(s, []) && EndOf(s, []) == s
  {
  }

  /** The holder can set the lock free on its own, whatever it is doing, by finishing its call and unlocking as
      often as it has locked; if it has locked fewer than 2^32 times, no release on the way comes too early. */
  lemma {:induction false} HolderReleases(s: System, u: nat) returns (steps: seq<(nat, Call)>)
    requires Inv(s) && u < |s.actors| && Holds(s.actors[u])
    ensures IsRun(s, steps)
    ensures var r := EndOf(s, steps);
            !r.lock.flag && |r.actors| == |s.actors| && r.actors == s.actors[u := r.actors[u]] && r.actors[u].pc == Idle
    ensures Peak(s.actors[u]) < COUNT_LIMIT ==> IsTimely(s, steps) && EndOf(s, steps).actors[u].depth == 0
    decreases Peak(s.actors[u]), Distance(s.actors[u].pc)
  {
    hide Inv, IsRun, EndOf, IsTimely, Act, Holds, Times, Distance;
    var next := Step(s, u, CallUnlock);
    if s.actors[u].pc == ClearFlag {
      LastStep(s, u);
      NothingDone(next);
      OneStep(s, u, CallUnlock, []);
      steps := [(u, CallUnlock)] + [];
    } else if NotTooEarly(s.actors[u]) {
      HolderGetsOn(s, u);
      StepKeeps(s, u, CallUnlock);
      var rest := HolderReleases(next, u);
      OneStep(s, u, CallUnlock, rest);
      steps := [(u, CallUnlock)] + rest;
    } else {
      EarlyRelease(s, u);
      TimesIsRun(s, u, CallUnlock, 4);
      steps := Repeat(u, CallUnlock, 4);
    }
  }

  /** A waiting actor has the lock three steps after it has become free. */
  lemma WaiterTakes(s: System, t: nat) returns (steps: seq<(nat, Call)>)
    requires t < |s.actors| && s.actors[t].pc == Waiting && s.actors[t].depth == 0 && !s.lock.flag
    ensures IsRun(s, steps) && IsTimely(s, steps)
    ensures var r := EndOf(s, steps);
            && r.lock == Lock(true, 1, t) && |r.actors| == |s.actors| && r.actors == s.actors[t := r.actors[t]]
            && r.actors[t].pc == Idle && r.actors[t].depth == 1
  {
    hide IsRun, EndOf, IsTimely;
    var s1 := Step(s, t, CallLock);
    var s2 := Step(s1, t, CallLock);
    var s3 := Step(s2, t, CallLock);
    NothingDone(s3);
    OneStep(s2, t, CallLock, []);
    OneStep(s1, t, CallLock, [(t, CallLock)] + []);
    OneStep(s, t, CallLock, [(t, CallLock)] + ([(t, CallLock)] + []));
    steps := [(t, CallLock)] + ([(t, CallLock)] + ([(t, CallLock)] + []));
  }

  lemma {:induction false} TimelyJoin(s: System, a: seq<(nat, Call)>, b: seq<(nat, Call)>)
    requires IsRun(s, a) && IsRun(EndOf(s, a), b)
    ensures IsRun(s, a + b) && EndOf(s, a + b) == EndOf(EndOf(s, a), b)
    ensures IsTimely(s, a) && IsTimely(EndOf(s, a), b) ==> IsTimely(s, a + b)
    decreases |a|
  {
    hide Step, NotTooEarly;
    RunsJoin(s, a, b);
    if a == [] {
      assert a + b == b;
    } else {
      TimelyJoin(Step(s, a[0].0, a[0].1), a[1..], b);
      assert (a + b)[1..] == a[1..] + b;
    }
  }

  /** No lock call of a holder that is under way takes the depth to 2^32. */
  ghost predicate DepthsFit(s: System) {
    forall u :: 0 <= u < |s.actors| && Holds(s.actors[u]) ==> Peak(s.actors[u]) < COUNT_LIMIT
  }

  /** Nobody waits in vain: the holder, if there is one, can unlock, and then the waiting actor is inside and
      nobody else holds the lock; with depths below 2^32 no release on the way comes too early. */
  lemma WaiterGetsLock(s: System, t: nat) returns (steps: seq<(nat, Call)>)
    requires Inv(s) && t < |s.actors| && s.actors[t].pc == Waiting
    ensures IsRun(s, steps)
    ensures var r := EndOf(s, steps);
            && r.lock == Lock(true, 1, t) && |r.actors| == |s.actors|
            && r.actors[t].pc == Idle && r.actors[t].depth == 1
            && (DepthsFit(s) ==>
                  IsTimely(s, steps) && forall u :: 0 <= u < |s.actors| && u != t ==> r.actors[u].depth == 0)
  {
    hide IsRun, EndOf, IsTimely, Act, Peak;
    assert ActorOk(s.lock, s.actors[t], t);
    var released := [];
    NothingDone(s);
    if s.lock.flag {
      var u :| 0 <= u < |s.actors| && Holds(s.actors[u]);
      released := HolderReleases(s, u);
      OthersOutside(s, u);
    } else {
      forall u | 0 <= u < |s.actors|
        ensures s.actors[u].depth == 0
      {
        assert ActorOk(s.lock, s.actors[u], u);
      }
    }
    var taken := WaiterTakes(EndOf(s, released), t);
    TimelyJoin(s, released, taken);
    steps := released + taken;
  }

  lemma OthersOutside(s: System, u: nat)
    requires Inv(s) && u < |s.actors| && Holds(s.actors[u])
    ensures forall t :: 0 <= t < |s.actors| && t != u ==> s.actors[t].depth == 0
  {
    forall t | 0 <= t < |s.actors| && t != u
      ensures s.actors[t].depth == 0
    {
      OneHolder(s, t, u);
    }
  }

  /** The same after every run. */
  lemma NobodyWaitsInVain(n: nat, steps: seq<(nat, Call)>, t: nat) returns (more: seq<(nat, Call)>)
    requires IsRun(Initial(n), steps) && IsTimely(Initial(n), steps) && t < |EndOf(Initial(n), steps).actors|
    requires EndOf(Initial(n), steps).actors[t].pc == Waiting
    ensures IsRun(Initial(n), steps + more)
    ensures var r := EndOf(Initial(n), steps + more);
            t < |r.actors| && r.lock == Lock(true, 1, t) && r.actors[t].pc == Idle && r.actors[t].depth == 1
    ensures DepthsFit(EndOf(Initial(n), steps)) ==> IsTimely(Initial(n), steps + more)
  {
    hide IsRun, EndOf, IsTimely, DepthsFit;
    InitialIsSound(n);
    RunKeeps(Initial(n), steps);
    more := WaiterGetsLock(EndOf(Initial(n), steps), t);
    TimelyJoin(Initial(n), steps, more);
  }
}
