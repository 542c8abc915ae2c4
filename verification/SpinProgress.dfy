/** Nobody waits for a spin lock in vain: the core that holds it can always unlock, and a waiting core takes the
    free lock with its next step. */
module SpinProgress {
  import opened Locks
  import opened SpinLock
  import opened LockProgress

  /** A waiting core takes a free lock with its next step. */
  lemma FreeSpinLockIsTaken(s: SpinSystem, t: nat, call: SpinCall)
    requires SpinInv(s) && t < |s.cores| && s.cores[t].stage == Locking && s.cores[t].actor.pc == Waiting
    requires !s.lock.flag
    ensures var r := SpinStep(s, t, call); r.lock.flag && Holds(r.cores[t].actor) && !r.cores[t].enabled
  {
    assert CoreOk(s.interruptFlag, s.cores[t]);
  }

  // ----- steps, timely or not -----

  ghost predicate IsSteps(s: SpinSystem, steps: seq<(nat, SpinCall)>)
    decreases |steps|
  {
    steps == [] || (steps[0].0 < |s.cores| && IsSteps(SpinStep(s, steps[0].0, steps[0].1), steps[1..]))
  }

  function AfterSteps(s: SpinSystem, steps: seq<(nat, SpinCall)>): SpinSystem
    requires IsSteps(s, steps)
    decreases |steps|
  {
    if steps == [] then s else AfterSteps(SpinStep(s, steps[0].0, steps[0].1), steps[1..])
  }

  /** A run is steps of which none gives the lock back too early. */
  lemma {:induction false} RunIsSteps(s: SpinSystem, steps: seq<(nat, SpinCall)>)
    requires IsSpinRun(s, steps)
    ensures IsSteps(s, steps) && AfterSteps(s, steps) == SpinEnd(s, steps)
    decreases |steps|
  {
    hide SpinStep;
    if steps == [] {
    } else {
      RunIsSteps(SpinStep(s, steps[0].0, steps[0].1), steps[1..]);
    }
  }

  lemma OneMoreStep(s: SpinSystem, t: nat, call: SpinCall, rest: seq<(nat, SpinCall)>)
    requires t < |s.cores| && IsSteps(SpinStep(s, t, call), rest)
    ensures IsSteps(s, [(t, call)] + rest)
    ensures AfterSteps(s, [(t, call)] + rest) == AfterSteps(SpinStep(s, t, call), rest)
    ensures NotTooEarly(s.cores[t].actor) && IsSpinRun(SpinStep(s, t, call), rest) ==> IsSpinRun(s, [(t, call)] + rest)
  {
    assert ([(t, call)] + rest)[1..] == rest;
  }

  lemma NoSteps(s: SpinSystem)
    ensures IsSteps(s, []) && IsSpinRun(s, []) && AfterSteps(s, []) == s
  {
  }

  lemma {:induction false} StepsJoin(s: SpinSystem, a: seq<(nat, SpinCall)>, b: seq<(nat, SpinCall)>)
    requires IsSteps(s, a) && IsSteps(AfterSteps(s, a), b)
    ensures IsSteps(s, a + b) && AfterSteps(s, a + b) == AfterSteps(AfterSteps(s, a), b)
    ensures IsSpinRun(s, a) && IsSpinRun(AfterSteps(s, a), b) ==> IsSpinRun(s, a + b)
    decreases |a|
  {
    hide SpinStep, NotTooEarly;
    if a == [] {
      assert a + b == b;
    } else {
      StepsJoin(SpinStep(s, a[0].0, a[0].1), a[1..], b);
      assert (a + b)[1..] == a[1..] + b;
    }
  }

  // ----- the holder can always finish -----

  /** How far the core is from the end of its lock call, and then of its next unlock call. */
  function ToGo(c: Core): nat {
    match c.stage
    case Locking => 20 + Distance(c.actor.pc)
    case KeepFlag => 19
    case Outside => 18
    case Unlocking => 10 + Distance(c.actor.pc)
    case LoadFlag => 9
    case Clearing => 6 + Distance(c.actor.pc)
    case DropFlag => 6
    case LastClear => 5
    case RestoreOwn => 4
    case RestoreStranger => 4
  }

  /** The core has decided to give the lock back. */
  predicate IsClearing(s: SpinSystem, c: Core) {
    match c.stage
    case LoadFlag => c.actor.pc == ClearOwner
    case Clearing => c.actor.pc == ClearOwner || c.actor.pc == ClearCount
    case DropFlag => c.actor.pc == ClearFlag
    case LastClear => c.actor.pc == ClearFlag
    case RestoreOwn => c.actor.pc == Idle && !s.lock.flag
    case _ => false
  }

  lemma ClearingGoesOn(s: SpinSystem, u: nat)
    requires u < |s.cores| && IsClearing(s, s.cores[u])
    ensures var c, r := s.cores[u], SpinStep(s, u, Release);
            && r.cores == s.cores[u := r.cores[u]] && NotTooEarly(c.actor)
            && if c.stage == RestoreOwn then
                 !r.lock.flag && r.cores[u].stage == Outside && r.cores[u].actor.depth == c.actor.depth
               else
                 && IsClearing(r, r.cores[u]) && ToGo(r.cores[u]) < ToGo(c)
                 && r.cores[u].actor.depth == (if c.stage == LastClear && c.actor.depth > 0 then c.actor.depth - 1
                                               else c.actor.depth)
                 && (r.cores[u].stage == RestoreOwn <==> c.stage == LastClear)
  {
  }

  lemma {:induction false} ClearingEnds(s: SpinSystem, u: nat) returns (steps: seq<(nat, SpinCall)>)
    requires u < |s.cores| && IsClearing(s, s.cores[u])
    ensures IsSteps(s, steps) && IsSpinRun(s, steps)
    ensures var c, r := s.cores[u], AfterSteps(s, steps);
            && !r.lock.flag && |r.cores| == |s.cores| && r.cores == s.cores[u := r.cores[u]]
            && r.cores[u].stage == Outside
            && r.cores[u].actor.depth ==
               if c.stage == RestoreOwn || c.actor.depth == 0 then c.actor.depth else c.actor.depth - 1
    decreases ToGo(s.cores[u])
  {
    hide IsSteps, AfterSteps, IsSpinRun, IsClearing, ToGo, SpinStep, NotTooEarly;
    var next := SpinStep(s, u, Release);
    ClearingGoesOn(s, u);
    if s.cores[u].stage == RestoreOwn {
      NoSteps(next);
      OneMoreStep(s, u, Release, []);
      steps := [(u, Release)] + [];
    } else {
      var rest := ClearingEnds(next, u);
      OneMoreStep(s, u, Release, rest);
      steps := [(u, Release)] + rest;
    }
  }

  /** A step of a holder that goes on unlocking. */
  lemma SpinHolderGetsOn(s: SpinSystem, u: nat)
    requires SpinInv(s) && u < |s.cores| && Holds(s.cores[u].actor) && !IsClearing(s, s.cores[u])
    requires NotTooEarly(s.cores[u].actor)
    ensures var c, d := s.cores[u], SpinStep(s, u, Release).cores[u];
            && Holds(d.actor)
            && (Peak(d.actor) < Peak(c.actor) || (Peak(d.actor) == Peak(c.actor) && ToGo(d) < ToGo(c)))
  {
    assert CoreOk(s.interruptFlag, s.cores[u]);
    assert ActorOk(Actors(s).lock, Actors(s).actors[u], u);
  }

  lemma EarlyReleaseClears(s: SpinSystem, u: nat)
    requires SpinInv(s) && u < |s.cores| && Holds(s.cores[u].actor) && !IsClearing(s, s.cores[u])
    requires !NotTooEarly(s.cores[u].actor)
    ensures Peak(s.cores[u].actor) >= COUNT_LIMIT
    ensures var r := SpinStep(s, u, Release); IsClearing(r, r.cores[u]) && r.cores == s.cores[u := r.cores[u]]
  {
    assert CoreOk(s.interruptFlag, s.cores[u]);
    assert ActorOk(Actors(s).lock, Actors(s).actors[u], u);
  }

  lemma ClearingAtDepthOne(s: SpinSystem, u: nat)
    requires SpinInv(s) && u < |s.cores| && Holds(s.cores[u].actor) && IsClearing(s, s.cores[u])
    ensures s.cores[u].actor.depth == 1 && s.cores[u].stage != RestoreOwn
  {
    assert CoreOk(s.interruptFlag, s.cores[u]);
    assert ActorOk(Actors(s).lock, Actors(s).actors[u], u);
  }

  /** The core that holds the lock can set it free on its own, whatever it is doing; if it has locked fewer than
      2^32 times, no release on the way comes too early. */
  lemma {:induction false} SpinHolderReleases(s: SpinSystem, u: nat) returns (steps: seq<(nat, SpinCall)>)
    requires SpinInv(s) && u < |s.cores| && Holds(s.cores[u].actor)
    ensures IsSteps(s, steps)
    ensures var r := AfterSteps(s, steps);
            && !r.lock.flag && |r.cores| == |s.cores| && r.cores == s.cores[u := r.cores[u]]
            && r.cores[u].stage == Outside
    ensures Peak(s.cores[u].actor) < COUNT_LIMIT ==>
              IsSpinRun(s, steps) && AfterSteps(s, steps).cores[u].actor.depth == 0
    decreases Peak(s.cores[u].actor), ToGo(s.cores[u])
  {
    hide SpinInv, IsSteps, AfterSteps, IsSpinRun, SpinAct, Holds, ToGo, IsClearing, Peak, NotTooEarly;
    if IsClearing(s, s.cores[u]) {
      ClearingAtDepthOne(s, u);
      steps := ClearingEnds(s, u);
    } else if NotTooEarly(s.cores[u].actor) {
      SpinHolderGetsOn(s, u);
      SpinStepKeeps(s, u, Release);
      var rest := SpinHolderReleases(SpinStep(s, u, Release), u);
      OneMoreStep(s, u, Release, rest);
      steps := [(u, Release)] + rest;
    } else {
      EarlyReleaseClears(s, u);
      var rest := ClearingEnds(SpinStep(s, u, Release), u);
      OneMoreStep(s, u, Release, rest);
      steps := [(u, Release)] + rest;
    }
  }

  // ----- the waiting core -----

  /** A core that waits for a free lock, or has just taken it. */
  predicate IsTaking(s: SpinSystem, c: Core, t: nat) {
    if c.stage == KeepFlag then s.lock == Lock(true, 1, t) && c.actor.depth == 1
    else
      && c.stage == Locking && c.actor.depth == 0
      && (if c.actor.pc == Waiting then !s.lock.flag
          else s.lock.flag && (c.actor.pc == SetCount || (c.actor.pc == SetOwner && s.lock.count == 1)))
  }

  lemma {:induction false} TakingEnds(s: SpinSystem, t: nat) returns (steps: seq<(nat, SpinCall)>)
    requires t < |s.cores| && IsTaking(s, s.cores[t], t)
    ensures IsSteps(s, steps) && IsSpinRun(s, steps)
    ensures var r := AfterSteps(s, steps);
            && r.lock == Lock(true, 1, t) && |r.cores| == |s.cores| && r.cores == s.cores[t := r.cores[t]]
            && r.cores[t].stage == Outside && r.cores[t].actor.depth == 1 && r.cores[t].enabled == s.cores[t].enabled
    decreases ToGo(s.cores[t])
  {
    hide IsSteps, AfterSteps, IsSpinRun;
    var next := SpinStep(s, t, Acquire);
    if s.cores[t].stage == KeepFlag {
      NoSteps(next);
      OneMoreStep(s, t, Acquire, []);
      steps := [(t, Acquire)] + [];
    } else {
      if s.cores[t].actor.pc == Waiting {
        assert IsTaking(next, next.cores[t], t);
      }
      var rest := TakingEnds(next, t);
      OneMoreStep(s, t, Acquire, rest);
      steps := [(t, Acquire)] + rest;
    }
  }

  ghost predicate SpinDepthsFit(s: SpinSystem) {
    forall u :: 0 <= u < |s.cores| && Holds(s.cores[u].actor) ==> Peak(s.cores[u].actor) < COUNT_LIMIT
  }

  /** Nobody waits in vain for a spin lock: the holder, if there is one, can unlock, and then the waiting core is
      inside, with interrupts off, and nobody else holds the lock. */
  lemma WaitingCoreGetsLock(s: SpinSystem, t: nat) returns (steps: seq<(nat, SpinCall)>)
    requires SpinInv(s) && t < |s.cores| && s.cores[t].stage == Locking && s.cores[t].actor.pc == Waiting
    ensures IsSteps(s, steps)
    ensures var r := AfterSteps(s, steps);
            && r.lock == Lock(true, 1, t) && |r.cores| == |s.cores|
            && r.cores[t].stage == Outside && r.cores[t].actor.depth == 1 && !r.cores[t].enabled
            && (SpinDepthsFit(s) ==>
                  IsSpinRun(s, steps) && forall u :: 0 <= u < |s.cores| && u != t ==> r.cores[u].actor.depth == 0)
  {
    hide IsSteps, AfterSteps, IsSpinRun, SpinAct, Peak;
    assert CoreOk(s.interruptFlag, s.cores[t]);
    assert ActorOk(Actors(s).lock, Actors(s).actors[t], t);
    var released := [];
    NoSteps(s);
    if s.lock.flag {
      var u :| 0 <= u < |s.cores| && Holds(Actors(s).actors[u]);
      released := SpinHolderReleases(s, u);
      OthersOutside(Actors(s), u);
      assert forall k :: 0 <= k < |s.cores| ==> Actors(s).actors[k] == s.cores[k].actor;
    } else {
      forall u | 0 <= u < |s.cores|
        ensures s.cores[u].actor.depth == 0
      {
        assert ActorOk(Actors(s).lock, Actors(s).actors[u], u);
      }
    }
    var taken := TakingEnds(AfterSteps(s, released), t);
    StepsJoin(s, released, taken);
    steps := released + taken;
  }

  /** The same after every run. */
  lemma NoCoreWaitsInVain(n: nat, on: bool, steps: seq<(nat, SpinCall)>, t: nat) returns (more: seq<(nat, SpinCall)>)
    requires IsSpinRun(InitialCores(n, on), steps) && t < |SpinEnd(InitialCores(n, on), steps).cores|
    requires var c := SpinEnd(InitialCores(n, on), steps).cores[t]; c.stage == Locking && c.actor.pc == Waiting
    ensures IsSteps(InitialCores(n, on), steps + more)
    ensures var r := AfterSteps(InitialCores(n, on), steps + more);
            && t < |r.cores| && r.lock == Lock(true, 1, t)
            && r.cores[t].stage == Outside && r.cores[t].actor.depth == 1 && !r.cores[t].enabled
    ensures SpinDepthsFit(SpinEnd(InitialCores(n, on), steps)) ==> IsSpinRun(InitialCores(n, on), steps + more)
  {
    hide IsSteps, AfterSteps, IsSpinRun, SpinEnd, SpinDepthsFit, SpinInv;
    InitialSpinIsSound(n, on);
    SpinRunKeeps(InitialCores(n, on), steps);
    RunIsSteps(InitialCores(n, on), steps);
    more := WaitingCoreGetsLock(SpinEnd(InitialCores(n, on), steps), t);
    StepsJoin(InitialCores(n, on), steps, more);
  }
}
