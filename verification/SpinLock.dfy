/** The spin lock: the re-entrant lock protocol between cores, with the core's interrupt flag cleared before it
    and put back by the outermost unlock. */
module SpinLock {
  import opened Locks

  /** Where a core is besides its place in the lock protocol. */
  datatype Stage =
    | Outside | Locking | KeepFlag
    | Unlocking | LoadFlag | Clearing | DropFlag | LastClear | RestoreOwn | RestoreStranger

  /** `enabled` is the core's interrupt flag, `saved` the local copy; `original` is the flag at the outermost
      lock, `before` and `depthBefore` the flag and the depth at the last call. */
  datatype Core = Core(actor: Actor, stage: Stage, enabled: bool, saved: bool, original: bool, before: bool,
                       depthBefore: nat)

  /** `interruptFlag` is the copy kept in the lock. */
  datatype SpinSystem = SpinSystem(lock: Lock, interruptFlag: bool, cores: seq<Core>)

  /** A core outside the lock may also set its interrupt flag. */
  datatype SpinCall = Acquire | Release | SetInterrupts(on: bool)

  function SpinAct(l: Lock, f: bool, c: Core, me: nat, call: SpinCall): (Lock, bool, Core) {
    match c.stage
    case Outside =>
      (match call
       case Acquire =>
         (l, f, c.(actor := Act(l, c.actor, me, CallLock).1, stage := Locking, saved := c.enabled, enabled := false,
                   original := if c.actor.depth == 0 then c.enabled else c.original,
                   before := c.enabled, depthBefore := c.actor.depth))
       case Release =>
         (l, f, c.(actor := Act(l, c.actor, me, CallUnlock).1, stage := Unlocking, saved := c.enabled, enabled := false,
                   before := c.enabled, depthBefore := c.actor.depth))
       case SetInterrupts(on) => (l, f, if c.actor.depth == 0 then c.(enabled := on) else c))
    case Locking =>
      var r := Act(l, c.actor, me, CallLock);
      (r.0, f, c.(actor := r.1, stage := if r.1.pc != Idle then Locking
                                         else if c.actor.pc == SetOwner then KeepFlag else Outside))
    case KeepFlag => (l, c.saved, c.(stage := Outside))
    case Unlocking =>
      var r := Act(l, c.actor, me, CallUnlock);
      (r.0, f, c.(actor := r.1, stage := if r.1.pc == ClearOwner then LoadFlag
                                         else if r.1.pc != Idle then Unlocking
                                         else if c.actor.pc == StoreLess then Outside else RestoreStranger))
    case LoadFlag => (l, f, c.(saved := f, stage := Clearing))
    case Clearing =>
      var r := Act(l, c.actor, me, CallUnlock);
      (r.0, f, c.(actor := r.1, stage := if r.1.pc == ClearFlag then DropFlag else Clearing))
    case DropFlag => (l, false, c.(stage := LastClear))
    case LastClear =>
      var r := Act(l, c.actor, me, CallUnlock);
      (r.0, f, c.(actor := r.1, stage := RestoreOwn))
    case RestoreOwn => (l, f, c.(enabled := c.saved, stage := Outside))
    case RestoreStranger => (l, f, c.(enabled := c.saved, stage := Outside))
  }

  function SpinStep(s: SpinSystem, t: nat, call: SpinCall): SpinSystem
    requires t < |s.cores|
  {
    var r := SpinAct(s.lock, s.interruptFlag, s.cores[t], t, call);
    SpinSystem(r.0, r.1, s.cores[t := r.2])
  }

  function Actors(s: SpinSystem): (r: System)
    ensures r.lock == s.lock && |r.actors| == |s.cores| &&
        forall t :: 0 <= t < |s.cores| ==> r.actors[t] == s.cores[t].actor
  {
    System(s.lock, seq(|s.cores|, t requires 0 <= t < |s.cores| => s.cores[t].actor))
  }

  predicate IsLockPc(pc: Pc) {
    || pc == TrySet || pc == CheckOwner || pc == LoadCount || pc == StoreMore
    || pc == Waiting || pc == SetCount || pc == SetOwner
  }

  predicate IsUnlockPc(pc: Pc) {
    pc == CheckFlag || pc == CheckHolder || pc == TestCount || pc == LoadLess || pc == StoreLess
  }

  /** The flag that the outermost lock found is kept in the lock, or in the local copy when the lock does not
      have it yet or has it no more; during a call interrupts are off. */
  ghost predicate CoreOk(f: bool, c: Core) {
    var a, d := c.actor, c.depthBefore;
    match c.stage
    case Outside => a.pc == Idle && (a.depth > 0 ==> f == c.original)
    case Locking =>
      && IsLockPc(a.pc) && !c.enabled && a.depth == d
      && (if d > 0 then f == c.original else c.saved == c.original == c.before)
    case KeepFlag => a.pc == Idle && a.depth == 1 && d == 0 && !c.enabled && c.saved == c.original == c.before
    case Unlocking =>
      IsUnlockPc(a.pc) && !c.enabled && a.depth == d && c.saved == c.before && (d > 0 ==> f == c.original)
    case LoadFlag => a.pc == ClearOwner && d == 1 && !c.enabled && f == c.original
    case Clearing => (a.pc == ClearOwner || a.pc == ClearCount) && d == 1 && !c.enabled && c.saved == c.original
    case DropFlag => a.pc == ClearFlag && d == 1 && !c.enabled && c.saved == c.original
    case LastClear => a.pc == ClearFlag && d == 1 && !c.enabled && c.saved == c.original && !f
    case RestoreOwn => a.pc == Idle && a.depth == 0 && d == 1 && !c.enabled && c.saved == c.original
    case RestoreStranger => a.pc == Idle && a.depth == 0 && d == 0 && !c.enabled && c.saved == c.before
  }

  /** With one lock, whoever holds it has interrupts off. */
  ghost predicate Quiet(c: Core) {
    && (c.actor.depth > 0 ==> !c.enabled)
    && (c.stage == Locking || c.stage == Unlocking ==> c.depthBefore > 0 ==> !c.before)
  }

  ghost predicate SpinInv(s: SpinSystem) {
    && Inv(Actors(s)) && (!s.lock.flag ==> !s.interruptFlag)
    && forall t :: 0 <= t < |s.cores| ==> CoreOk(s.interruptFlag, s.cores[t]) && Quiet(s.cores[t])
  }

  /** A step of the spin lock is a step of the lock protocol or none. */
  lemma StepIsLockStep(s: SpinSystem, t: nat, call: SpinCall)
    requires SpinInv(s) && t < |s.cores|
    ensures Actors(SpinStep(s, t, call)) == Actors(s) ||
            (exists lockCall: Call :: Actors(SpinStep(s, t, call)) == Step(Actors(s), t, lockCall))
  {
    var r := Actors(SpinStep(s, t, call));
    assert CoreOk(s.interruptFlag, s.cores[t]);
    if s.cores[t].stage == Locking || (s.cores[t].stage == Outside && call == Acquire) {
      assert r == Step(Actors(s), t, CallLock);
    } else if r != Actors(s) {
      assert r == Step(Actors(s), t, CallUnlock);
    }
  }

  lemma CoreKeepsSelf(l: Lock, f: bool, c: Core, t: nat, call: SpinCall)
    requires CoreOk(f, c) && ActorOk(l, c.actor, t) && (!l.flag ==> l.owner == NOBODY)
    requires NotTooEarly(c.actor)
    ensures var r := SpinAct(l, f, c, t, call); CoreOk(r.1, r.2)
  {
    hide CoreOk, SpinAct, ActorOk;
    if c.stage == Outside || c.stage == Locking || c.stage == KeepFlag {
      LockingKeeps(l, f, c, t, call);
    } else {
      UnlockingKeeps(l, f, c, t, call);
    }
  }

  lemma LockingKeeps(l: Lock, f: bool, c: Core, t: nat, call: SpinCall)
    requires CoreOk(f, c) && ActorOk(l, c.actor, t) && (!l.flag ==> l.owner == NOBODY)
    requires c.stage == Outside || c.stage == Locking || c.stage == KeepFlag
    ensures var r := SpinAct(l, f, c, t, call); CoreOk(r.1, r.2)
  {
  }

  lemma UnlockingKeeps(l: Lock, f: bool, c: Core, t: nat, call: SpinCall)
    requires CoreOk(f, c) && ActorOk(l, c.actor, t) && NotTooEarly(c.actor)
    requires !(c.stage == Outside || c.stage == Locking || c.stage == KeepFlag)
    ensures var r := SpinAct(l, f, c, t, call); CoreOk(r.1, r.2)
  {
  }

  lemma StaysQuiet(l: Lock, f: bool, c: Core, t: nat, call: SpinCall)
    requires CoreOk(f, c) && ActorOk(l, c.actor, t) && NotTooEarly(c.actor) && Quiet(c)
    ensures Quiet(SpinAct(l, f, c, t, call).2)
  {
  }

  /** A free lock keeps no interrupt flag. */
  lemma FreeMeansCleared(l: Lock, f: bool, c: Core, t: nat, call: SpinCall)
    requires CoreOk(f, c) && ActorOk(l, c.actor, t) && (!l.flag ==> !f)
    ensures var r := SpinAct(l, f, c, t, call); !r.0.flag ==> !r.1
  {
  }

  /** What a call has done when it returns: to the interrupt flag, the depth and the kept flag. */
  lemma CallReturns(l: Lock, f: bool, c: Core, t: nat, call: SpinCall)
    requires CoreOk(f, c) && ActorOk(l, c.actor, t) && NotTooEarly(c.actor) && c.stage != Outside
    requires SpinAct(l, f, c, t, call).2.stage == Outside
    ensures var r, d := SpinAct(l, f, c, t, call).2, c.depthBefore;
            && r.original == c.original
            && (if c.stage == Locking || c.stage == KeepFlag then r.actor.depth == d + 1 && !r.enabled
                else if d == 0 then r.actor.depth == 0 && r.enabled == c.before
                else if d == 1 then r.actor.depth == 0 && r.enabled == c.original
                else r.actor.depth == d - 1 && !r.enabled)
  {
  }

  lemma CoreKeepsOther(l: Lock, f: bool, c: Core, t: nat, call: SpinCall, d: Core, u: nat)
    requires CoreOk(f, c) && CoreOk(f, d) && ActorOk(l, c.actor, t) && ActorOk(l, d.actor, u)
    requires !(Holds(c.actor) && Holds(d.actor))
    ensures CoreOk(SpinAct(l, f, c, t, call).1, d)
  {
  }

  /** Every step of any core keeps mutual exclusion and the interrupt bookkeeping. */
  lemma SpinStepKeeps(s: SpinSystem, t: nat, call: SpinCall)
    requires SpinInv(s) && t < |s.cores| && NotTooEarly(s.cores[t].actor)
    ensures SpinInv(SpinStep(s, t, call))
  {
    hide CoreOk, ActorOk, SpinAct, Act, Holds, Quiet;
    var r, a := SpinStep(s, t, call), Actors(s);
    StepIsLockStep(s, t, call);
    if Actors(r) != a {
      var lockCall: Call :| Actors(r) == Step(a, t, lockCall);
      StepKeeps(a, t, lockCall);
    }
    OwnerHolds(a);
    assert ActorOk(a.lock, a.actors[t], t);
    CoreKeepsSelf(s.lock, s.interruptFlag, s.cores[t], t, call);
    StaysQuiet(s.lock, s.interruptFlag, s.cores[t], t, call);
    FreeMeansCleared(s.lock, s.interruptFlag, s.cores[t], t, call);
    forall u | 0 <= u < |s.cores| && u != t
      ensures CoreOk(r.interruptFlag, r.cores[u])
    {
      assert ActorOk(a.lock, a.actors[u], u);
      assert t < u ==> !(Holds(a.actors[t]) && Holds(a.actors[u]));
      assert u < t ==> !(Holds(a.actors[u]) && Holds(a.actors[t]));
      CoreKeepsOther(s.lock, s.interruptFlag, s.cores[t], t, call, s.cores[u], u);
    }
  }

  function InitialCores(n: nat, on: bool): SpinSystem {
    SpinSystem(Lock(false, 0, NOBODY), false, seq(n, _ => Core(Actor(Idle, 0, 0), Outside, on, false, false, false, 0)))
  }

  /** A run up to the first release that comes too early. */
  ghost predicate IsSpinRun(s: SpinSystem, steps: seq<(nat, SpinCall)>)
    decreases |steps|
  {
    steps == [] ||
    (steps[0].0 < |s.cores| && NotTooEarly(s.cores[steps[0].0].actor) &&
     IsSpinRun(SpinStep(s, steps[0].0, steps[0].1), steps[1..]))
  }

  function SpinEnd(s: SpinSystem, steps: seq<(nat, SpinCall)>): SpinSystem
    requires IsSpinRun(s, steps)
    decreases |steps|
  {
    if steps == [] then s else SpinEnd(SpinStep(s, steps[0].0, steps[0].1), steps[1..])
  }

  lemma {:induction false} SpinRunKeeps(s: SpinSystem, steps: seq<(nat, SpinCall)>)
    requires SpinInv(s) && IsSpinRun(s, steps)
    ensures SpinInv(SpinEnd(s, steps))
    decreases |steps|
  {
    hide SpinInv, SpinStep;
    if steps == [] {
    } else {
      SpinStepKeeps(s, steps[0].0, steps[0].1);
      SpinRunKeeps(SpinStep(s, steps[0].0, steps[0].1), steps[1..]);
    }
  }

  lemma InitialSpinIsSound(n: nat, on: bool)
    ensures SpinInv(InitialCores(n, on))
  {
    InitialIsSound(n);
    assert Actors(InitialCores(n, on)) == Initial(n);
  }

  /** In every run of any number of cores at most one holds the spin lock; it runs with interrupts off; the
      outermost unlock puts back the flag that the outermost lock found, and an unlock by a core that does not
      hold the lock the flag it found itself. */
  lemma SpinLockIsSafe(n: nat, on: bool, steps: seq<(nat, SpinCall)>, t: nat, u: nat, call: SpinCall)
    requires IsSpinRun(InitialCores(n, on), steps)
    requires t < |SpinEnd(InitialCores(n, on), steps).cores| && u < |SpinEnd(InitialCores(n, on), steps).cores|
    ensures var s := SpinEnd(InitialCores(n, on), steps);
            var c, r := s.cores[t], SpinStep(s, t, call).cores[t];
            && (c.actor.depth > 0 && s.cores[u].actor.depth > 0 ==> t == u)
            && (c.actor.depth > 0 ==> !c.enabled)
            && (c.stage == RestoreOwn ==> r.stage == Outside && r.actor.depth == 0 && r.enabled == c.original)
            && (c.stage == RestoreStranger ==> r.stage == Outside && r.actor.depth == 0 && r.enabled == c.before)
  {
    hide SpinEnd, IsSpinRun;
    var o := InitialCores(n, on);
    InitialSpinIsSound(n, on);
    SpinRunKeeps(o, steps);
    var s := SpinEnd(o, steps);
    var a := Actors(s);
    assert CoreOk(s.interruptFlag, s.cores[t]) && ActorOk(a.lock, a.actors[t], t);
    assert t < u ==> !(Holds(a.actors[t]) && Holds(a.actors[u]));
    assert u < t ==> !(Holds(a.actors[u]) && Holds(a.actors[t]));
  }

  /** `original` is set by the outermost lock and by nothing else. */
  lemma OriginalIsKept(s: SpinSystem, t: nat, call: SpinCall)
    requires SpinInv(s) && t < |s.cores|
    ensures var c, r := s.cores[t], SpinStep(s, t, call).cores[t];
            r.original == if c.stage == Outside && call == Acquire && c.actor.depth == 0 then c.enabled else c.original
  {
  }
}
