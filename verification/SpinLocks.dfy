/** Any number of spin locks and cores at single memory operations: every call of a core acts on its interrupt
    flag and its locks as a whole, so code with well-nested locks restores both in every interleaving. */
module SpinLocks {
  import opened Locks
  import opened SpinLock

  // ----- whole calls -----

  /** What one core's calls on several locks do, each call as a whole: per lock the depth and the kept flag. */
  datatype Held = Held(depth: nat, kept: bool)

  datatype Cpu = Cpu(enabled: bool, locks: map<nat, Held>)

  function StateOf(c: Cpu, l: nat): Held {
    if l in c.locks then c.locks[l] else Held(0, false)
  }

  function LockOne(c: Cpu, l: nat): Cpu {
    var h := StateOf(c, l);
    Cpu(false, c.locks[l := if h.depth == 0 then Held(1, c.enabled) else h.(depth := h.depth + 1)])
  }

  function UnlockOne(c: Cpu, l: nat): Cpu {
    var h := StateOf(c, l);
    if h.depth == 0 then c
    else if h.depth > 1 then Cpu(false, c.locks[l := h.(depth := h.depth - 1)])
    else Cpu(h.kept, c.locks[l := Held(0, false)])
  }

  /** Code that locks and unlocks in brackets. */
  datatype Code = Nothing | Then(first: Code, second: Code) | Inside(lock: nat, body: Code)

  function Run(c: Cpu, code: Code): Cpu
    decreases code
  {
    match code
    case Nothing => c
    case Then(a, b) => Run(Run(c, a), b)
    case Inside(l, body) => UnlockOne(Run(LockOne(c, l), body), l)
  }

  /** Whoever holds a lock has interrupts off. */
  ghost predicate OffWhileHeld(c: Cpu) {
    forall l: nat :: StateOf(c, l).depth > 0 ==> !c.enabled
  }

  ghost predicate SameState(c: Cpu, d: Cpu) {
    c.enabled == d.enabled && forall l: nat ::
      StateOf(c, l).depth == StateOf(d, l).depth && (StateOf(c, l).depth > 0 ==> StateOf(c, l) == StateOf(d, l))
  }

  /** Code with well-nested locks leaves the interrupt flag and all locks as it found them. */
  lemma {:induction false} WellNestedRestores(c: Cpu, code: Code)
    requires OffWhileHeld(c)
    ensures SameState(c, Run(c, code)) && OffWhileHeld(Run(c, code))
    decreases code
  {
    match code
    case Nothing =>
    case Then(a, b) =>
      WellNestedRestores(c, a);
      WellNestedRestores(Run(c, a), b);
    case Inside(l, body) =>
      var d := LockOne(c, l);
      assert OffWhileHeld(d) by {
        assert forall m: nat :: m != l ==> StateOf(d, m) == StateOf(c, m);
      }
      WellNestedRestores(d, body);
      var e := Run(d, body);
      assert StateOf(e, l) == StateOf(d, l);
      InsideRestores(c, l, d, e);
  }

  lemma InsideRestores(c: Cpu, l: nat, d: Cpu, e: Cpu)
    requires OffWhileHeld(c) && d == LockOne(c, l) && SameState(d, e) && StateOf(e, l) == StateOf(d, l)
    ensures SameState(c, UnlockOne(e, l)) && OffWhileHeld(UnlockOne(e, l))
  {
    var r := UnlockOne(e, l);
    forall m: nat
      ensures StateOf(c, m).depth == StateOf(r, m).depth && (StateOf(c, m).depth > 0 ==> StateOf(c, m) == StateOf(r, m))
    {
      if m != l {
        assert StateOf(d, m) == StateOf(c, m) && StateOf(r, m) == StateOf(e, m);
      }
    }
    assert StateOf(c, l).depth > 0 ==> !c.enabled;
  }

  /** An unlock leaves interrupts on under a lock that is still held exactly if it releases a lock that was
      taken with interrupts on while another one is held. */
  lemma WhenInterruptsComeBackTooEarly(c: Cpu, l: nat)
    requires OffWhileHeld(c)
    ensures OffWhileHeld(UnlockOne(c, l)) <==>
            !(StateOf(c, l).depth == 1 && StateOf(c, l).kept && exists m: nat :: m != l && StateOf(c, m).depth > 0)
  {
    var r := UnlockOne(c, l);
    assert forall m: nat :: m != l ==> StateOf(r, m) == StateOf(c, m);
    if StateOf(c, l).depth == 1 && StateOf(c, l).kept {
      if m: nat :| m != l && StateOf(c, m).depth > 0 {
        assert StateOf(r, m).depth > 0 && r.enabled;
      }
    }
  }

  /** That happens when two locks are released in the order in which they were taken. */
  lemma NotNestedExample(a: nat, b: nat)
    requires a != b
    ensures var c := UnlockOne(LockOne(LockOne(Cpu(true, map[]), a), b), a);
            c.enabled && StateOf(c, b).depth == 1
  {
  }

  // ----- the machine -----

  datatype LockCall = Take(lock: nat) | Give(lock: nat) | SetFlag(on: bool)

  /** A lock in shared memory with its copy of the interrupt flag. */
  datatype Shared = Shared(lock: Lock, interruptFlag: bool)

  /** A core with its place in each lock's protocol.  In the middle of a call it works on lock `at`; `calls`
      are the calls it has made so far. */
  datatype Worker = Worker(enabled: bool, saved: bool, before: bool, depthBefore: nat, stage: Stage, at: nat,
                           actors: seq<Actor>, originals: seq<bool>, calls: seq<LockCall>)

  datatype Machine = Machine(locks: seq<Shared>, workers: seq<Worker>)

  /** The core as lock `l` sees it: outside unless it is in the middle of a call on `l`. */
  function Seen(c: Worker, l: nat): Core
    requires l < |c.actors| == |c.originals|
  {
    Core(c.actors[l], if c.at == l then c.stage else Outside, c.enabled, c.saved, c.originals[l], c.before,
        c.depthBefore)
  }

  /** The core after a step on lock `l`. */
  function Moved(c: Worker, l: nat, r: Core): Worker
    requires l < |c.actors| == |c.originals|
  {
    c.(enabled := r.enabled, saved := r.saved, before := r.before, depthBefore := r.depthBefore, stage := r.stage,
       at := l, actors := c.actors[l := r.actor], originals := c.originals[l := r.original])
  }

  predicate Shaped(m: Machine) {
    forall t :: 0 <= t < |m.workers| ==>
      |m.workers[t].actors| == |m.workers[t].originals| == |m.locks| &&
      (m.workers[t].stage != Outside ==> m.workers[t].at < |m.locks|)
  }

  /** A step of core `t` on lock `l`. */
  function StepOn(m: Machine, t: nat, l: nat, call: SpinCall): Machine
    requires Shaped(m) && t < |m.workers| && l < |m.locks|
  {
    var r := SpinAct(m.locks[l].lock, m.locks[l].interruptFlag, Seen(m.workers[t], l), t, call);
    Machine(m.locks[l := Shared(r.0, r.1)], m.workers[t := Moved(m.workers[t], l, r.2)])
  }

  function Logged(m: Machine, t: nat, call: LockCall): Machine
    requires t < |m.workers|
  {
    m.(workers := m.workers[t := m.workers[t].(calls := m.workers[t].calls + [call])])
  }

  /** The next memory operation of core `t`; outside it starts the call given. */
  function Next(m: Machine, t: nat, call: LockCall): Machine
    requires Shaped(m) && t < |m.workers|
  {
    if m.workers[t].stage != Outside then StepOn(m, t, m.workers[t].at, Acquire)
    else
      match call
      case Take(l) => if l < |m.locks| then Logged(StepOn(m, t, l, Acquire), t, call) else m
      case Give(l) => if l < |m.locks| then Logged(StepOn(m, t, l, Release), t, call) else m
      case SetFlag(on) => Logged(m.(workers := m.workers[t := m.workers[t].(enabled := on)]), t, call)
  }

  // ----- the invariant -----

  /** The protocol of lock `l` alone. */
  function Project(m: Machine, l: nat): (r: System)
    requires Shaped(m) && l < |m.locks|
    ensures r.lock == m.locks[l].lock && |r.actors| == |m.workers|
    ensures forall t :: 0 <= t < |m.workers| ==> r.actors[t] == m.workers[t].actors[l]
  {
    System(m.locks[l].lock, seq(|m.workers|, t requires 0 <= t < |m.workers| => m.workers[t].actors[l]))
  }

  ghost predicate WorkerOk(m: Machine, t: nat, l: nat)
    requires Shaped(m) && t < |m.workers| && l < |m.locks|
  {
    CoreOk(m.locks[l].interruptFlag, Seen(m.workers[t], l))
  }

  ghost predicate LockOk(m: Machine, l: nat)
    requires Shaped(m) && l < |m.locks|
  {
    Inv(Project(m, l)) && forall t :: 0 <= t < |m.workers| ==> WorkerOk(m, t, l)
  }

  /** What one core's calls have done, each as a whole. */
  function Effect(c: Cpu, call: LockCall): Cpu {
    match call
    case Take(l) => LockOne(c, l)
    case Give(l) => UnlockOne(c, l)
    case SetFlag(on) => c.(enabled := on)
  }

  function Effects(c: Cpu, calls: seq<LockCall>): Cpu {
    if calls == [] then c else Effect(Effects(c, calls[..|calls| - 1]), calls[|calls| - 1])
  }

  /** Lock `l` is for the core what it is in `e`. */
  ghost predicate SameHeld(c: Worker, e: Cpu, l: nat)
    requires l < |c.actors| == |c.originals|
  {
    StateOf(e, l).depth == c.actors[l].depth && (c.actors[l].depth > 0 ==> StateOf(e, l).kept == c.originals[l])
  }

  /** Outside the core is as its calls as a whole have left it. */
  ghost predicate IsCpu(c: Worker, e: Cpu)
    requires |c.actors| == |c.originals|
  {
    && e.enabled == c.enabled && (forall l :: 0 <= l < |c.actors| ==> SameHeld(c, e, l))
    && forall l: nat :: l >= |c.actors| ==> StateOf(e, l).depth == 0
  }

  /** In the middle of a call the core remembers what its earlier calls have left. */
  ghost predicate InCall(c: Worker, e: Cpu, call: LockCall)
    requires c.at < |c.actors| == |c.originals|
  {
    && call == (if c.stage == Locking || c.stage == KeepFlag then Take(c.at) else Give(c.at))
    && e.enabled == c.before && StateOf(e, c.at).depth == c.depthBefore
    && (c.depthBefore > 0 ==> StateOf(e, c.at).kept == c.originals[c.at])
    && (call.Take? && c.depthBefore == 0 ==> c.originals[c.at] == c.before)
    && (forall l :: 0 <= l < |c.actors| && l != c.at ==> SameHeld(c, e, l))
    && forall l: nat :: l >= |c.actors| ==> StateOf(e, l).depth == 0
  }

  ghost predicate Simulates(c: Worker, start: Cpu)
    requires |c.actors| == |c.originals| && (c.stage != Outside ==> c.at < |c.actors|)
  {
    if c.stage == Outside then IsCpu(c, Effects(start, c.calls))
    else c.calls != [] && InCall(c, Effects(start, c.calls[..|c.calls| - 1]), c.calls[|c.calls| - 1])
  }

  ghost predicate MachineOk(m: Machine, start: Cpu) {
    && Shaped(m) && (forall l :: 0 <= l < |m.locks| ==> LockOk(m, l))
    && forall t :: 0 <= t < |m.workers| ==> Simulates(m.workers[t], start)
  }

  /** The core does not give a lock back too early. */
  predicate TimelyStep(m: Machine, t: nat)
    requires Shaped(m) && t < |m.workers|
  {
    m.workers[t].stage != Outside ==> NotTooEarly(m.workers[t].actors[m.workers[t].at])
  }

  // ----- every memory operation keeps it -----

  /** For lock `l` a step on it is a step of its protocol or none. */
  lemma StepOnLock(m: Machine, t: nat, l: nat, call: SpinCall)
    requires Shaped(m) && t < |m.workers| && l < |m.locks| && LockOk(m, l)
    requires m.workers[t].stage == Outside || m.workers[t].at == l
    requires NotTooEarly(m.workers[t].actors[l]) && call.SetInterrupts? == false
    ensures Shaped(StepOn(m, t, l, call)) && LockOk(StepOn(m, t, l, call), l)
  {
    hide CoreOk, SpinAct, Act, ActorOk, Holds, Inv;
    var r, c := StepOn(m, t, l, call), Seen(m.workers[t], l);
    var a, b := Project(m, l), Project(r, l);
    assert WorkerOk(m, t, l);
    ActorsFit(a, t);
    ProtocolStep(m.locks[l].lock, m.locks[l].interruptFlag, c, t, call);
    if b != a {
      var lockCall: Call :| SpinAct(m.locks[l].lock, m.locks[l].interruptFlag, c, t, call).0 ==
                            Act(m.locks[l].lock, c.actor, t, lockCall).0 &&
                            SpinAct(m.locks[l].lock, m.locks[l].interruptFlag, c, t, call).2.actor ==
                            Act(m.locks[l].lock, c.actor, t, lockCall).1;
      assert b == Step(a, t, lockCall);
      StepKeeps(a, t, lockCall);
    }
    CoreKeepsSelf(m.locks[l].lock, m.locks[l].interruptFlag, c, t, call);
    assert Seen(r.workers[t], l) == SpinAct(m.locks[l].lock, m.locks[l].interruptFlag, c, t, call).2;
    forall u | 0 <= u < |m.workers|
      ensures WorkerOk(r, u, l)
    {
      if u != t {
        assert WorkerOk(m, u, l);
        ActorsFit(a, u);
        OneHolder(a, t, u);
        CoreKeepsOther(m.locks[l].lock, m.locks[l].interruptFlag, c, t, call, Seen(m.workers[u], l), u);
      }
    }
  }

  lemma ActorsFit(s: System, t: nat)
    requires Inv(s) && t < |s.actors|
    ensures ActorOk(s.lock, s.actors[t], t) && (!s.lock.flag ==> s.lock.owner == NOBODY)
  {
    OwnerHolds(s);
  }

  /** A step of a core is for the lock protocol a step or nothing. */
  lemma ProtocolStep(l: Lock, f: bool, c: Core, t: nat, call: SpinCall)
    requires CoreOk(f, c)
    ensures var r := SpinAct(l, f, c, t, call);
            (r.0 == l && r.2.actor == c.actor) ||
            exists lockCall: Call ::
              r.0 == Act(l, c.actor, t, lockCall).0 && r.2.actor == Act(l, c.actor, t, lockCall).1
  {
    var r := SpinAct(l, f, c, t, call);
    if c.stage == Locking || (c.stage == Outside && call == Acquire) {
      assert r.0 == Act(l, c.actor, t, CallLock).0 && r.2.actor == Act(l, c.actor, t, CallLock).1;
    } else if !(r.0 == l && r.2.actor == c.actor) {
      assert r.0 == Act(l, c.actor, t, CallUnlock).0 && r.2.actor == Act(l, c.actor, t, CallUnlock).1;
    }
  }

  /** To another lock the core stays outside. */
  lemma OtherLockSame(m: Machine, t: nat, l: nat, call: SpinCall, k: nat)
    requires Shaped(m) && t < |m.workers| && l < |m.locks| && k < |m.locks| && k != l && LockOk(m, k)
    requires m.workers[t].stage == Outside || m.workers[t].at == l
    ensures Shaped(StepOn(m, t, l, call)) && LockOk(StepOn(m, t, l, call), k)
  {
    hide SpinAct, Inv;
    var r := StepOn(m, t, l, call);
    assert Project(r, k) == Project(m, k);
    forall u | 0 <= u < |m.workers|
      ensures WorkerOk(r, u, k)
    {
      assert WorkerOk(m, u, k);
    }
  }

  /** The call record does not matter to the locks. */
  lemma LogDoesNotMatter(m: Machine, t: nat, c: Worker)
    requires Shaped(m) && t < |m.workers| && (forall l :: 0 <= l < |m.locks| ==> LockOk(m, l))
    requires c.actors == m.workers[t].actors && c.originals == m.workers[t].originals
    requires c.stage == m.workers[t].stage && c.at == m.workers[t].at
    requires c.stage == Outside ||
             c == m.workers[t].(calls := c.calls)
    ensures var r := m.(workers := m.workers[t := c]); Shaped(r) && forall l :: 0 <= l < |m.locks| ==> LockOk(r, l)
  {
    hide Inv;
    var r := m.(workers := m.workers[t := c]);
    forall l | 0 <= l < |m.locks|
      ensures LockOk(r, l)
    {
      assert LockOk(m, l) && Project(r, l) == Project(m, l);
      forall u | 0 <= u < |m.workers|
        ensures WorkerOk(r, u, l)
      {
        assert WorkerOk(m, u, l);
      }
    }
  }

  /** All locks after a step. */
  lemma LocksAfterStep(m: Machine, t: nat, l: nat, call: SpinCall)
    requires Shaped(m) && t < |m.workers| && l < |m.locks| && (forall k :: 0 <= k < |m.locks| ==> LockOk(m, k))
    requires m.workers[t].stage == Outside || m.workers[t].at == l
    requires NotTooEarly(m.workers[t].actors[l]) && !call.SetInterrupts?
    ensures var r := StepOn(m, t, l, call); Shaped(r) && forall k :: 0 <= k < |m.locks| ==> LockOk(r, k)
  {
    hide LockOk, SpinAct;
    forall k | 0 <= k < |m.locks|
      ensures Shaped(StepOn(m, t, l, call)) && LockOk(StepOn(m, t, l, call), k)
    {
      if k == l {
        StepOnLock(m, t, l, call);
      } else {
        OtherLockSame(m, t, l, call, k);
      }
    }
    StepOnLock(m, t, l, call);
  }

  /** The first step of a call. */
  lemma CallBegins(c: Worker, start: Cpu, l: nat, lock: Lock, f: bool, t: nat, call: SpinCall)
    requires l < |c.actors| == |c.originals| && c.stage == Outside && Simulates(c, start) && !call.SetInterrupts?
    ensures var logged := if call == Acquire then Take(l) else Give(l);
            var r := Moved(c, l, SpinAct(lock, f, Seen(c, l), t, call).2);
            Simulates(r.(calls := c.calls + [logged]), start)
  {
    hide StateOf, Effects, Act;
    var logged := if call == Acquire then Take(l) else Give(l);
    var r := Moved(c, l, SpinAct(lock, f, Seen(c, l), t, call).2).(calls := c.calls + [logged]);
    var e := Effects(start, c.calls);
    assert r.calls[..|r.calls| - 1] == c.calls;
    forall k | 0 <= k < |c.actors| && k != l
      ensures SameHeld(r, e, k)
    {
      assert SameHeld(c, e, k);
    }
    assert SameHeld(c, e, l);
  }

  /** In the middle of a call nothing is settled. */
  lemma CallGoesOn(c: Worker, start: Cpu, lock: Lock, f: bool, t: nat, call: SpinCall)
    requires c.at < |c.actors| == |c.originals| && c.stage != Outside && Simulates(c, start)
    requires SpinAct(lock, f, Seen(c, c.at), t, call).2.stage != Outside
    requires CoreOk(f, Seen(c, c.at))
    ensures Simulates(Moved(c, c.at, SpinAct(lock, f, Seen(c, c.at), t, call).2), start)
  {
    hide StateOf, Effects, Act;
    var r := Moved(c, c.at, SpinAct(lock, f, Seen(c, c.at), t, call).2);
    var e := Effects(start, c.calls[..|c.calls| - 1]);
    forall l | 0 <= l < |c.actors| && l != c.at
      ensures SameHeld(r, e, l)
    {
      assert SameHeld(c, e, l);
    }
  }

  /** When a call returns it has acted as a whole. */
  lemma CallEnds(c: Worker, start: Cpu, lock: Lock, f: bool, t: nat, call: SpinCall)
    requires c.at < |c.actors| == |c.originals| && c.stage != Outside && Simulates(c, start)
    requires CoreOk(f, Seen(c, c.at)) && ActorOk(lock, c.actors[c.at], t) && NotTooEarly(c.actors[c.at])
    requires SpinAct(lock, f, Seen(c, c.at), t, call).2.stage == Outside
    ensures Simulates(Moved(c, c.at, SpinAct(lock, f, Seen(c, c.at), t, call).2), start)
  {
    hide Effects, Act, SpinAct, CoreOk, ActorOk;
    CallReturns(lock, f, Seen(c, c.at), t, call);
    var r := Moved(c, c.at, SpinAct(lock, f, Seen(c, c.at), t, call).2);
    var n := |c.calls| - 1;
    var e := Effects(start, c.calls[..n]);
    OneMore(start, c.calls);
    EffectElsewhere(e, c.calls[n], c.at);
    var after := Effects(start, c.calls);
    forall l | 0 <= l < |r.actors|
      ensures SameHeld(r, after, l)
    {
      if l == c.at {
        EffectHere(e, c.calls[n], c.at);
      } else {
        assert SameHeld(c, e, l);
      }
    }
    EffectHere(e, c.calls[n], c.at);
  }

  lemma OneMore(start: Cpu, calls: seq<LockCall>)
    requires calls != []
    ensures Effects(start, calls) == Effect(Effects(start, calls[..|calls| - 1]), calls[|calls| - 1])
  {
  }

  lemma EffectElsewhere(e: Cpu, call: LockCall, l: nat)
    requires call == Take(l) || call == Give(l)
    ensures forall k: nat :: k != l ==> StateOf(Effect(e, call), k) == StateOf(e, k)
  {
  }

  lemma EffectHere(e: Cpu, call: LockCall, l: nat)
    requires call == Take(l) || call == Give(l)
    ensures var h, r := StateOf(e, l), Effect(e, call);
            if call == Take(l) then !r.enabled && StateOf(r, l) == Held(h.depth + 1,
                if h.depth == 0 then e.enabled else h.kept)
            else if h.depth == 0 then r == e
            else if h.depth == 1 then r.enabled == h.kept && StateOf(r, l).depth == 0
            else !r.enabled && StateOf(r, l) == Held(h.depth - 1, h.kept)
  {
  }

  lemma FlagSet(c: Worker, start: Cpu, on: bool)
    requires |c.actors| == |c.originals| && c.stage == Outside && Simulates(c, start)
    ensures Simulates(c.(enabled := on, calls := c.calls + [SetFlag(on)]), start)
  {
    var r, e := c.(enabled := on, calls := c.calls + [SetFlag(on)]), Effects(start, c.calls);
    assert r.calls[..|r.calls| - 1] == c.calls;
    forall l | 0 <= l < |c.actors|
      ensures SameHeld(r, Effects(start, r.calls), l)
    {
      assert SameHeld(c, e, l) && StateOf(Effects(start, r.calls), l) == StateOf(e, l);
    }
    assert forall l: nat :: StateOf(Effects(start, r.calls), l) == StateOf(e, l);
  }

  /** Every memory operation of every core keeps all locks sound and every core as its whole calls have left it. */
  lemma NextKeeps(m: Machine, t: nat, call: LockCall, start: Cpu)
    requires MachineOk(m, start) && t < |m.workers| && TimelyStep(m, t)
    ensures MachineOk(Next(m, t, call), start)
  {
    hide LockOk, Simulates, SpinAct, NotTooEarly;
    var c := m.workers[t];
    assert Simulates(c, start);
    if c.stage != Outside {
      MidCall(m, t, start);
    } else {
      match call
      case Take(l) => if l < |m.locks| { BeginCall(m, t, l, Acquire, start); }
      case Give(l) => if l < |m.locks| { BeginCall(m, t, l, Release, start); }
      case SetFlag(on) =>
        var d := c.(enabled := on, calls := c.calls + [call]);
        FlagSet(c, start, on);
        LogDoesNotMatter(m, t, d);
        assert Next(m, t, call).workers == m.workers[t := d];
    }
  }

  lemma MidCall(m: Machine, t: nat, start: Cpu)
    requires MachineOk(m, start) && t < |m.workers| && TimelyStep(m, t) && m.workers[t].stage != Outside
    ensures MachineOk(StepOn(m, t, m.workers[t].at, Acquire), start)
  {
    hide Simulates, SpinAct, Inv, CoreOk, ActorOk, NotTooEarly;
    var c, l := m.workers[t], m.workers[t].at;
    LocksAfterStep(m, t, l, Acquire);
    assert LockOk(m, l) && WorkerOk(m, t, l);
    ActorsFit(Project(m, l), t);
    if SpinAct(m.locks[l].lock, m.locks[l].interruptFlag, Seen(c, l), t, Acquire).2.stage != Outside {
      CallGoesOn(c, start, m.locks[l].lock, m.locks[l].interruptFlag, t, Acquire);
    } else {
      CallEnds(c, start, m.locks[l].lock, m.locks[l].interruptFlag, t, Acquire);
    }
  }

  lemma BeginCall(m: Machine, t: nat, l: nat, call: SpinCall, start: Cpu)
    requires MachineOk(m, start) && t < |m.workers| && m.workers[t].stage == Outside && l < |m.locks|
    requires call == Acquire || call == Release
    ensures Shaped(StepOn(m, t, l, call))
    ensures MachineOk(Logged(StepOn(m, t, l, call), t, if call == Acquire then Take(l) else Give(l)), start)
  {
    hide Simulates, SpinAct, Inv;
    var c := m.workers[t];
    assert LockOk(m, l) && WorkerOk(m, t, l);
    LocksAfterStep(m, t, l, call);
    CallBegins(c, start, l, m.locks[l].lock, m.locks[l].interruptFlag, t, call);
    var r := StepOn(m, t, l, call);
    BeganInside(m.locks[l].lock, m.locks[l].interruptFlag, Seen(c, l), t, call);
    LogDoesNotMatter(r, t, r.workers[t].(calls := c.calls + [if call == Acquire then Take(l) else Give(l)]));
  }

  lemma BeganInside(l: Lock, f: bool, c: Core, t: nat, call: SpinCall)
    requires c.stage == Outside && (call == Acquire || call == Release)
    ensures SpinAct(l, f, c, t, call).2.stage != Outside
  {
  }

  // ----- whole runs -----

  /** A run up to the first time a lock is given back too early. */
  ghost predicate IsRun(m: Machine, steps: seq<(nat, LockCall)>)
    decreases |steps|
  {
    steps == [] ||
    (Shaped(m) && steps[0].0 < |m.workers| && TimelyStep(m, steps[0].0) &&
     IsRun(Next(m, steps[0].0, steps[0].1), steps[1..]))
  }

  function EndOf(m: Machine, steps: seq<(nat, LockCall)>): Machine
    requires IsRun(m, steps)
    decreases |steps|
  {
    if steps == [] then m else EndOf(Next(m, steps[0].0, steps[0].1), steps[1..])
  }

  lemma {:induction false} RunKeeps(m: Machine, steps: seq<(nat, LockCall)>, start: Cpu)
    requires MachineOk(m, start) && IsRun(m, steps)
    ensures MachineOk(EndOf(m, steps), start)
    decreases |steps|
  {
    hide MachineOk, Next;
    if steps == [] {
    } else {
      NextKeeps(m, steps[0].0, steps[0].1, start);
      RunKeeps(Next(m, steps[0].0, steps[0].1), steps[1..], start);
    }
  }

  function AtStart(n: nat, locks: nat, on: bool): Machine {
    Machine(seq(locks, _ => Shared(Lock(false, 0, NOBODY), false)),
            seq(n, _ => Worker(on, false, false, 0, Outside, 0, seq(locks, _ => Actor(Idle, 0, 0)),
                               seq(locks, _ => false), [])))
  }

  lemma StartIsSound(n: nat, locks: nat, on: bool)
    ensures MachineOk(AtStart(n, locks, on), Cpu(on, map[]))
  {
    var m := AtStart(n, locks, on);
    InitialIsSound(n);
    forall l | 0 <= l < |m.locks|
      ensures LockOk(m, l)
    {
      assert Project(m, l) == Initial(n);
    }
  }

  /** In every interleaving of any number of cores and locks at most one core holds each lock, and every core
      outside is as its calls, each acting as a whole, have left it. */
  lemma CallsActWhole(n: nat, locks: nat, on: bool, steps: seq<(nat, LockCall)>, t: nat, u: nat, l: nat)
    requires IsRun(AtStart(n, locks, on), steps)
    requires var m := EndOf(AtStart(n, locks, on), steps); t < |m.workers| && u < |m.workers| && l < |m.locks|
    ensures var m := EndOf(AtStart(n, locks, on), steps);
            && |m.workers[t].actors| == |m.workers[t].originals| == |m.workers[u].actors| == |m.locks|
            && (m.workers[t].actors[l].depth > 0 && m.workers[u].actors[l].depth > 0 ==> t == u)
            && (m.workers[t].stage == Outside ==> IsCpu(m.workers[t], Effects(Cpu(on, map[]), m.workers[t].calls)))
  {
    hide IsRun, EndOf, Effects, IsCpu, Inv;
    StartIsSound(n, locks, on);
    RunKeeps(AtStart(n, locks, on), steps, Cpu(on, map[]));
    var m := EndOf(AtStart(n, locks, on), steps);
    assert LockOk(m, l) && Simulates(m.workers[t], Cpu(on, map[]));
    if t != u {
      OneHolder(Project(m, l), t, u);
    }
  }

  /** The calls that bracketed code makes. */
  function Calls(code: Code): seq<LockCall>
    decreases code
  {
    match code
    case Nothing => []
    case Then(a, b) => Calls(a) + Calls(b)
    case Inside(l, body) => [Take(l)] + Calls(body) + [Give(l)]
  }

  lemma {:induction false} EffectsJoin(c: Cpu, a: seq<LockCall>, b: seq<LockCall>)
    ensures Effects(c, a + b) == Effects(Effects(c, a), b)
    decreases |b|
  {
    if b == [] {
      assert a + b == a;
    } else {
      EffectsJoin(c, a, b[..|b| - 1]);
      assert (a + b)[..|a + b| - 1] == a + b[..|b| - 1];
    }
  }

  lemma {:induction false} CodeIsItsCalls(c: Cpu, code: Code)
    ensures Effects(c, Calls(code)) == Run(c, code)
    decreases code
  {
    match code
    case Nothing =>
    case Then(a, b) =>
      EffectsJoin(c, Calls(a), Calls(b));
      CodeIsItsCalls(c, a);
      CodeIsItsCalls(Run(c, a), b);
    case Inside(l, body) =>
      EffectsJoin(c, [Take(l)] + Calls(body), [Give(l)]);
      EffectsJoin(c, [Take(l)], Calls(body));
      OneCall(c, Take(l));
      CodeIsItsCalls(LockOne(c, l), body);
      OneCall(Run(LockOne(c, l), body), Give(l));
  }

  lemma OneCall(c: Cpu, call: LockCall)
    ensures Effects(c, [call]) == Effect(c, call)
  {
    assert [call][..0] == [];
  }

  /** In every interleaving: if the last calls of a core are those of code with well-nested locks, begun with
      interrupts off under every held lock, then the core's interrupt flag and locks are as before that code. */
  lemma WellNestedInEveryRun(n: nat, locks: nat, on: bool, steps: seq<(nat, LockCall)>, t: nat, l: nat,
                             earlier: seq<LockCall>, code: Code)
    requires IsRun(AtStart(n, locks, on), steps)
    requires var m := EndOf(AtStart(n, locks, on), steps);
             && t < |m.workers| && l < |m.locks| && m.workers[t].stage == Outside
             && m.workers[t].calls == earlier + Calls(code)
    requires OffWhileHeld(Effects(Cpu(on, map[]), earlier))
    ensures var c, e := EndOf(AtStart(n, locks, on), steps).workers[t], Effects(Cpu(on, map[]), earlier);
            && c.enabled == e.enabled && |c.actors| == |c.originals| && l < |c.actors| && SameHeld(c, e, l)
  {
    hide IsRun, EndOf, Effects, Run, OffWhileHeld;
    var c, start := EndOf(AtStart(n, locks, on), steps).workers[t], Cpu(on, map[]);
    var e := Effects(start, earlier);
    CallsActWhole(n, locks, on, steps, t, t, l);
    EffectsJoin(start, earlier, Calls(code));
    CodeIsItsCalls(e, code);
    WellNestedRestores(e, code);
    assert SameHeld(c, Effects(start, c.calls), l);
  }

  /** In every interleaving: after an unlock, begun with interrupts off under every held lock, interrupts are on
      under a lock the core still holds exactly if the lock released was taken with interrupts on while the
      core holds another one. */
  lemma TooEarlyInEveryRun(n: nat, locks: nat, on: bool, steps: seq<(nat, LockCall)>, t: nat, l: nat,
                           earlier: seq<LockCall>)
    requires IsRun(AtStart(n, locks, on), steps)
    requires var m := EndOf(AtStart(n, locks, on), steps);
             && t < |m.workers| && l < |m.locks| && m.workers[t].stage == Outside
             && m.workers[t].calls == earlier + [Give(l)]
    requires OffWhileHeld(Effects(Cpu(on, map[]), earlier))
    ensures var c, e := EndOf(AtStart(n, locks, on), steps).workers[t], Effects(Cpu(on, map[]), earlier);
            (exists k :: 0 <= k < |c.actors| && c.actors[k].depth > 0 && c.enabled) <==>
            StateOf(e, l).depth == 1 && StateOf(e, l).kept && exists k: nat :: k != l && StateOf(e, k).depth > 0
  {
    hide IsRun, EndOf, Effects, UnlockOne, StateOf;
    var c, e := EndOf(AtStart(n, locks, on), steps).workers[t], Effects(Cpu(on, map[]), earlier);
    CallsActWhole(n, locks, on, steps, t, t, l);
    EffectsJoin(Cpu(on, map[]), earlier, [Give(l)]);
    OneCall(e, Give(l));
    WhenInterruptsComeBackTooEarly(e, l);
    var r := UnlockOne(e, l);
    forall k: nat
      ensures StateOf(r, k).depth > 0 ==> k < |c.actors| && c.actors[k].depth > 0
      ensures k < |c.actors| && c.actors[k].depth > 0 ==> StateOf(r, k).depth > 0
    {
      assert k < |c.actors| ==> SameHeld(c, r, k);
    }
  }
}
