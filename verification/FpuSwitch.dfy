/** The lazy FPU switch: FPU registers stay where they are until another task needs them, yet every task sees
    its own registers, as if they were saved and restored at every switch. */
module FpuSwitch {
  import opened TaskState

  const INVALID_ID: nat := 0xFFFF_FFFF_FFFF_FFFF

  /** The contents of the FPU registers: freshly initialised, or something a program has computed. */
  datatype Registers = Fresh | Computed(value: int)

  /** What a task control block holds for the FPU. */
  datatype Block = Block(id: nat, used: bool, saved: Registers)

  /** `last` is the id of the task whose registers the hardware holds, `trap` the TS flag. */
  datatype FpuState = FpuState(pool: seq<Block>, running: nat, last: nat, trap: bool, hardware: Registers,
                               generation: nat)

  datatype Event =
    | Instruction(effect: Registers -> Registers)
    | SwitchTo(next: nat)
    | CreateTask(slot: nat)
    | FreeTask(dead: nat)

  predicate Live(b: Block) {
    b.id / GENERATIONS != 0
  }

  // ----- the lazy machine -----

  /** The handler of the device-not-available exception. */
  function Handled(s: FpuState): FpuState
    requires s.running < |s.pool|
  {
    var me := s.pool[s.running];
    if s.last == me.id then s.(trap := false)
    else
      var owner := SlotOf(s.last);
      var pool := if s.last != INVALID_ID && owner < |s.pool| && s.pool[owner].id == s.last
                  then s.pool[owner := s.pool[owner].(saved := s.hardware)] else s.pool;
      if !pool[s.running].used then
        FpuState(pool[s.running := pool[s.running].(used := true)], s.running, me.id, false, Fresh, s.generation)
      else
        FpuState(pool, s.running, me.id, false, pool[s.running].saved, s.generation)
  }

  /** The registers an FPU instruction of the running task works on. */
  function Seen(s: FpuState): Registers
    requires s.running < |s.pool|
  {
    if s.trap then Handled(s).hardware else s.hardware
  }

  function Lazy(s: FpuState, e: Event): FpuState
    requires s.running < |s.pool|
  {
    match e
    case Instruction(effect) =>
      var r := if s.trap then Handled(s) else s;
      r.(hardware := effect(r.hardware))
    case SwitchTo(next) =>
      if next < |s.pool| then s.(running := next, trap := s.last != s.pool[next].id) else s
    case CreateTask(slot) =>
      if slot < |s.pool| then
        s.(pool := s.pool[slot := s.pool[slot].(id := MakeId(s.generation, slot), used := false)],
           generation := NextGeneration(s.generation))
      else s
    case FreeTask(dead) =>
      if dead < |s.pool| then s.(pool := s.pool[dead := s.pool[dead].(id := dead)]) else s
  }

  // ----- the eager machine: every task has registers of its own -----

  datatype Eager = Eager(registers: seq<Registers>, running: nat)

  function EagerStep(m: Eager, e: Event): Eager {
    match e
    case Instruction(effect) =>
      if m.running < |m.registers| then m.(registers := m.registers[m.running := effect(m.registers[m.running])]) else m
    case SwitchTo(next) => m.(running := next)
    case CreateTask(slot) => if slot < |m.registers| then m.(registers := m.registers[slot := Fresh]) else m
    case FreeTask(_) => m
  }

  /** Switches go to live tasks, blocks are filled when free and freed when not running. */
  predicate Allowed(s: FpuState, e: Event) {
    match e
    case Instruction(_) => true
    case SwitchTo(next) => next < |s.pool| && Live(s.pool[next])
    case CreateTask(slot) => slot < |s.pool| && !Live(s.pool[slot])
    case FreeTask(dead) => dead < |s.pool| && dead != s.running
  }

  /** A new task does not get the id that the hardware still holds registers for. */
  predicate NewId(s: FpuState, e: Event) {
    e.CreateTask? ==> MakeId(s.generation, e.slot) != s.last
  }

  // ----- refinement -----

  /** The registers of task `t` in the lazy machine, wherever they are. */
  function RegistersOf(s: FpuState, t: nat): Registers
    requires t < |s.pool|
  {
    if s.pool[t].id == s.last then s.hardware else if s.pool[t].used then s.pool[t].saved else Fresh
  }

  ghost predicate BlockOk(s: FpuState, t: nat)
    requires t < |s.pool|
  {
    if Live(s.pool[t]) then
      && SlotOf(s.pool[t].id) == t && s.pool[t].id < INVALID_ID && (s.pool[t].id == s.last ==> s.pool[t].used)
    else s.pool[t].id == t
  }

  /** The ids fit the slots, and the TS flag is clear exactly if the hardware registers are the running task's. */
  ghost predicate Inv(s: FpuState) {
    && |s.pool| == MAX_TASKS && s.running < |s.pool| && Live(s.pool[s.running])
    && (forall t :: 0 <= t < |s.pool| ==> BlockOk(s, t))
    && s.last / GENERATIONS != 0 && 0 < s.generation < GENERATIONS
    && (s.trap <==> s.last != s.pool[s.running].id)
  }

  ghost predicate SlotRefines(s: FpuState, m: Eager, t: nat)
    requires t < |s.pool| && t < |m.registers|
  {
    Live(s.pool[t]) ==> RegistersOf(s, t) == m.registers[t]
  }

  ghost predicate Refines(s: FpuState, m: Eager) {
    && |m.registers| == |s.pool| && m.running == s.running
    && forall t :: 0 <= t < |s.pool| ==> SlotRefines(s, m, t)
  }

  /** The handler changes nobody's registers and makes the hardware the running task's. */
  lemma HandlerKeeps(s: FpuState, m: Eager)
    requires Inv(s) && Refines(s, m)
    ensures var r := Handled(s);
            && Inv(r) && Refines(r, m) && !r.trap && r.last == r.pool[r.running].id && r.running == s.running
            && r.hardware == m.registers[s.running]
  {
    var r, o := Handled(s), SlotOf(s.last);
    assert BlockOk(s, s.running) && SlotRefines(s, m, s.running);
    forall t | 0 <= t < |s.pool|
      ensures BlockOk(r, t) && SlotRefines(r, m, t)
    {
      assert BlockOk(s, t) && SlotRefines(s, m, t);
    }
  }

  lemma InstructionRefines(s: FpuState, m: Eager, effect: Registers -> Registers)
    requires Inv(s) && Refines(s, m) && !s.trap
    ensures var r := s.(hardware := effect(s.hardware));
            Inv(r) && Refines(r, EagerStep(m, Instruction(effect)))
  {
    var r, n := s.(hardware := effect(s.hardware)), EagerStep(m, Instruction(effect));
    assert SlotRefines(s, m, s.running);
    forall t | 0 <= t < |s.pool|
      ensures BlockOk(r, t) && SlotRefines(r, n, t)
    {
      assert BlockOk(s, t) && SlotRefines(s, m, t) && BlockOk(s, s.running);
    }
  }

  /** Every step of the lazy machine is a step of the eager one, and an instruction works on the same registers. */
  lemma StepRefines(s: FpuState, m: Eager, e: Event)
    requires Inv(s) && Refines(s, m) && Allowed(s, e) && NewId(s, e)
    ensures Inv(Lazy(s, e)) && Refines(Lazy(s, e), EagerStep(m, e))
    ensures e.Instruction? ==> Seen(s) == m.registers[m.running]
  {
    hide Handled;
    if e.Instruction? {
      assert SlotRefines(s, m, s.running);
      if s.trap {
        HandlerKeeps(s, m);
        InstructionRefines(Handled(s), m, e.effect);
      } else {
        InstructionRefines(s, m, e.effect);
      }
    } else {
      var r, n := Lazy(s, e), EagerStep(m, e);
      if e.CreateTask? {
        IdParts(s.generation, e.slot);
      }
      forall t | 0 <= t < |s.pool|
        ensures BlockOk(r, t) && SlotRefines(r, n, t)
      {
        assert BlockOk(s, t) && SlotRefines(s, m, t);
      }
    }
  }

  /** So a creation keeps the refinement exactly if its id is new. */
  lemma CreateExact(s: FpuState, m: Eager, slot: nat)
    requires Inv(s) && Refines(s, m) && Allowed(s, CreateTask(slot))
    ensures var e := CreateTask(slot);
            Inv(Lazy(s, e)) && Refines(Lazy(s, e), EagerStep(m, e)) <==> NewId(s, e)
  {
    hide Handled;
    var e := CreateTask(slot);
    if NewId(s, e) {
      StepRefines(s, m, e);
    } else {
      IdParts(s.generation, slot);
      assert !BlockOk(Lazy(s, e), slot);
    }
  }

  /** Registers are private: an instruction changes those of the running task only, and a new task begins with fresh
      ones, whatever task had its slot before. */
  lemma RegistersArePrivate(s: FpuState, e: Event, t: nat)
    requires Inv(s) && Allowed(s, e) && NewId(s, e) && t < |s.pool|
    ensures |Lazy(s, e).pool| == |s.pool|
    ensures Live(Lazy(s, e).pool[t]) ==>
              RegistersOf(Lazy(s, e), t) ==
              if e.Instruction? && t == s.running then e.effect(RegistersOf(s, t))
              else if e.CreateTask? && t == e.slot then Fresh
              else RegistersOf(s, t)
  {
    hide Handled, RegistersOf, Lazy;
    var m := Eager(seq(|s.pool|, u requires 0 <= u < |s.pool| => RegistersOf(s, u)), s.running);
    StepRefines(s, m, e);
    assert SlotRefines(Lazy(s, e), EagerStep(m, e), t);
  }

  // ----- whole runs -----

  ghost predicate IsRun(s: FpuState, events: seq<Event>)
    decreases |events|
  {
    events == [] ||
    (s.running < |s.pool| && Allowed(s, events[0]) && IsRun(Lazy(s, events[0]), events[1..]))
  }

  /** What the FPU instructions of a run work on, in the lazy and in the eager machine. */
  ghost function LazyTrace(s: FpuState, events: seq<Event>): seq<Registers>
    requires IsRun(s, events)
    decreases |events|
  {
    if events == [] then []
    else (if events[0].Instruction? then [Seen(s)] else []) + LazyTrace(Lazy(s, events[0]), events[1..])
  }

  ghost function EagerTrace(m: Eager, events: seq<Event>): seq<Registers>
    decreases |events|
  {
    if events == [] then []
    else
      (if events[0].Instruction? && m.running < |m.registers| then [m.registers[m.running]] else [])
      + EagerTrace(EagerStep(m, events[0]), events[1..])
  }

  function Creations(events: seq<Event>): nat {
    if events == [] then 0 else (if events[0].CreateTask? then 1 else 0) + Creations(events[1..])
  }

  /** `issued` ids have been given out, with the generations from 1 on, and no other id is about. */
  ghost predicate Issued(s: FpuState, issued: nat) {
    && s.generation == issued + 1
    && (s.last == INVALID_ID || s.last / GENERATIONS <= issued)
    && forall t :: 0 <= t < |s.pool| && Live(s.pool[t]) ==> s.pool[t].id / GENERATIONS <= issued
  }

  /** Before the generation counter has gone round every id is new. */
  lemma IdIsNew(s: FpuState, e: Event, issued: nat)
    requires Inv(s) && Allowed(s, e) && Issued(s, issued) && issued < GENERATIONS - 1
    ensures NewId(s, e)
  {
    if e.CreateTask? {
      IdParts(s.generation, e.slot);
    }
  }

  lemma IssuedAfter(s: FpuState, e: Event, issued: nat)
    requires Inv(s) && Allowed(s, e) && Issued(s, issued)
    requires issued + (if e.CreateTask? then 1 else 0) < GENERATIONS - 1
    ensures Issued(Lazy(s, e), issued + if e.CreateTask? then 1 else 0)
  {
    if e.CreateTask? {
      IdParts(s.generation, e.slot);
    }
  }

  /** In every run of fewer than 2^32 - 1 allocations in all, every instruction sees exactly what it would see if
      the registers were saved and restored at every switch. */
  lemma {:induction false} RunRefines(s: FpuState, m: Eager, events: seq<Event>, issued: nat)
    requires Inv(s) && Refines(s, m) && IsRun(s, events)
    requires Issued(s, issued) && issued + Creations(events) < GENERATIONS - 1
    ensures LazyTrace(s, events) == EagerTrace(m, events)
    decreases |events|
  {
    hide Lazy, Seen, Inv, Allowed, Issued, NewId;
    if events == [] {
    } else {
      RunningInPool(s, m);
      IdIsNew(s, events[0], issued);
      IssuedAfter(s, events[0], issued);
      StepRefines(s, m, events[0]);
      RunRefines(Lazy(s, events[0]), EagerStep(m, events[0]), events[1..],
                 issued + if events[0].CreateTask? then 1 else 0);
    }
  }

  lemma RunningInPool(s: FpuState, m: Eager)
    requires Inv(s) && Refines(s, m)
    ensures s.running < |s.pool| == |m.registers| && m.running == s.running
  {
  }

  /** The same for runs from start-up, the boot task's id being the first one given out. */
  lemma BootRunRefines(events: seq<Event>)
    requires IsRun(AtBoot(), events) && 1 + Creations(events) < GENERATIONS - 1
    ensures LazyTrace(AtBoot(), events) == EagerTrace(Eager(seq(MAX_TASKS, _ => Fresh), 0), events)
  {
    hide IsRun, LazyTrace, EagerTrace, Creations;
    BootRefines();
    BootIssued();
    RunRefines(AtBoot(), Eager(seq(MAX_TASKS, _ => Fresh), 0), events, 1);
  }

  lemma BootIssued()
    ensures Issued(AtBoot(), 1)
  {
    IdParts(1, 0);
  }

  /** At start-up the boot task runs, nobody has used the FPU, and the TS flag is set. */
  function AtBoot(): FpuState {
    FpuState(seq(MAX_TASKS, i requires 0 <= i < MAX_TASKS => Block(if i == 0 then MakeId(1, 0) else i, false, Fresh)),
          0, INVALID_ID, true, Fresh, 2)
  }

  lemma BootRefines()
    ensures Inv(AtBoot()) && Refines(AtBoot(), Eager(seq(MAX_TASKS, _ => Fresh), 0))
  {
    var s, m := AtBoot(), Eager(seq(MAX_TASKS, _ => Fresh), 0);
    forall t | 0 <= t < MAX_TASKS
      ensures BlockOk(s, t) && SlotRefines(s, m, t)
    {
    }
  }

  // ----- what an id given out twice does -----

  lemma OneEvent(s: FpuState, m: Eager, e: Event, rest: seq<Event>)
    requires s.running < |s.pool| == |m.registers| && m.running == s.running && Allowed(s, e)
    requires IsRun(Lazy(s, e), rest)
    ensures IsRun(s, [e] + rest)
    ensures LazyTrace(s, [e] + rest) == (if e.Instruction? then [Seen(s)] else []) + LazyTrace(Lazy(s, e), rest)
    ensures EagerTrace(m, [e] + rest) ==
            (if e.Instruction? then [m.registers[m.running]] else []) + EagerTrace(EagerStep(m, e), rest)
  {
    assert ([e] + rest)[1..] == rest;
  }

  lemma NoEvents(s: FpuState, m: Eager)
    ensures IsRun(s, []) && LazyTrace(s, []) == [] && EagerTrace(m, []) == []
  {
  }

  /** A new task that has the id of the last FPU user, which can only be a dead task of its slot, goes wrong: if
      the hardware holds computed registers it starts with these, and if it holds fresh ones it loses what it
      computes. */
  lemma ReissuedIdLeaks(s: FpuState, m: Eager, slot: nat) returns (events: seq<Event>)
    requires Inv(s) && Refines(s, m) && Allowed(s, CreateTask(slot)) && !NewId(s, CreateTask(slot))
    ensures IsRun(s, [CreateTask(slot)] + events)
    ensures LazyTrace(s, [CreateTask(slot)] + events) != EagerTrace(m, [CreateTask(slot)] + events)
  {
    IdParts(s.generation, slot);
    assert BlockOk(s, s.running);
    var create := CreateTask(slot);
    var s1, m1 := Lazy(s, create), EagerStep(m, create);
    if s.hardware.Computed? {
      events := StartsWithDeadRegisters(s1, m1, slot);
    } else {
      events := LosesRegisters(s1, m1, slot, s.running);
    }
    OneEvent(s, m, create, events);
    assert [] + LazyTrace(s1, events) == LazyTrace(s1, events);
    assert [] + EagerTrace(m1, events) == EagerTrace(m1, events);
  }

  /** A fresh task in `slot` that the hardware's registers are taken to belong to. */
  ghost predicate Mistaken(s: FpuState, m: Eager, slot: nat) {
    && slot < |s.pool| == |m.registers| && s.running < |s.pool| && m.running == s.running
    && Live(s.pool[slot]) && s.pool[slot].id == s.last && !s.pool[slot].used && m.registers[slot] == Fresh
    && s.last != INVALID_ID && SlotOf(s.last) == slot
  }

  lemma StartsWithDeadRegisters(s: FpuState, m: Eager, slot: nat) returns (events: seq<Event>)
    requires Mistaken(s, m, slot) && s.hardware != Fresh
    ensures IsRun(s, events) && LazyTrace(s, events) != EagerTrace(m, events)
  {
    var look := Instruction(r => r);
    var s1, m1 := Lazy(s, SwitchTo(slot)), EagerStep(m, SwitchTo(slot));
    OneEvent(s1, m1, look, []);
    OneEvent(s, m, SwitchTo(slot), [look]);
    events := [SwitchTo(slot), look];
    assert events == [SwitchTo(slot)] + [look] && [look] + [] == [look];
    assert LazyTrace(s, events) == [s.hardware] && EagerTrace(m, events) == [Fresh];
  }

  lemma LosesRegisters(s: FpuState, m: Eager, slot: nat, other: nat) returns (events: seq<Event>)
    requires Mistaken(s, m, slot) && s.hardware == Fresh
    requires other < |s.pool| && other != slot && Live(s.pool[other]) && s.pool[other].id != s.last
    ensures IsRun(s, events) && LazyTrace(s, events) != EagerTrace(m, events)
  {
    hide IsRun, LazyTrace, EagerTrace;
    var compute := Instruction(_ => Computed(1));
    var s1, m1 := Lazy(s, SwitchTo(slot)), EagerStep(m, SwitchTo(slot));
    var s2, m2 := Lazy(s1, compute), EagerStep(m1, compute);
    var last := NotSaved(s2, m2, slot, other);
    OneEvent(s1, m1, compute, last);
    OneEvent(s, m, SwitchTo(slot), [compute] + last);
    events := [SwitchTo(slot)] + ([compute] + last);
    TailsDiffer(Seen(s1), m1.registers[slot], LazyTrace(s2, last), EagerTrace(m2, last));
  }

  lemma TailsDiffer(a: Registers, b: Registers, x: seq<Registers>, y: seq<Registers>)
    requires x != y
    ensures [] + ([a] + x) != [] + ([b] + y)
  {
    assert ([] + ([a] + x))[1..] == x && ([] + ([b] + y))[1..] == y;
  }

  /** Its registers are saved when another task uses the FPU, but not loaded when it runs again. */
  lemma NotSaved(s: FpuState, m: Eager, slot: nat, other: nat) returns (events: seq<Event>)
    requires slot < |s.pool| == |m.registers| && s.running == m.running == slot && !s.trap
    requires Live(s.pool[slot]) && s.pool[slot].id == s.last != INVALID_ID && SlotOf(s.last) == slot
    requires !s.pool[slot].used && m.registers[slot] == Computed(1)
    requires other < |s.pool| && other != slot && Live(s.pool[other]) && s.pool[other].id != s.last
    ensures IsRun(s, events) && LazyTrace(s, events) != EagerTrace(m, events)
  {
    hide IsRun, LazyTrace, EagerTrace;
    var look := Instruction(r => r);
    var s3, m3 := Lazy(s, SwitchTo(other)), EagerStep(m, SwitchTo(other));
    var s4, m4 := Lazy(s3, look), EagerStep(m3, look);
    var s5, m5 := Lazy(s4, SwitchTo(slot)), EagerStep(m4, SwitchTo(slot));
    assert Seen(s5) == Fresh && m5.registers[slot] == Computed(1);
    NoEvents(Lazy(s5, look), EagerStep(m5, look));
    OneEvent(s5, m5, look, []);
    OneEvent(s4, m4, SwitchTo(slot), [look] + []);
    OneEvent(s3, m3, look, [SwitchTo(slot)] + ([look] + []));
    events := [SwitchTo(other)] + ([look] + ([SwitchTo(slot)] + ([look] + [])));
    OneEvent(s, m, SwitchTo(other), [look] + ([SwitchTo(slot)] + ([look] + [])));
    assert LazyTrace(s, events)[1] == Fresh && EagerTrace(m, events)[1] == Computed(1);
  }

  /** The registers, the blocks and the flag as they are changed in place. */
  class Processor {
    const pool: array<Block>
    var running: nat
    var last: nat
    var trap: bool
    var hardware: Registers
    var generation: nat

    ghost function Snapshot(): FpuState
      reads this, pool
    {
      FpuState(pool[..], running, last, trap, hardware, generation)
    }

    constructor Boot()
      ensures Snapshot() == AtBoot() && fresh(pool)
    {
      pool := new Block[MAX_TASKS](i => Block(if i == 0 then MakeId(1, 0) else i, false, Fresh));
      running, last, trap, hardware, generation := 0, INVALID_ID, true, Fresh, 2;
      new;
      assert pool[..] == AtBoot().pool;
    }

    /** Saves the registers of the task that used the FPU last, if it still exists, and gives the FPU to the
        running task, initialised on first use. */
    method DeviceNotAvailable()
      requires running < pool.Length && (last == INVALID_ID || SlotOf(last) < pool.Length)
      modifies this, pool
      ensures Snapshot() == Handled(old(Snapshot()))
    {
      trap := false;
      if last == pool[running].id {
        return;
      } else if last != INVALID_ID {
        var owner := SlotOf(last);
        if pool[owner].id == last {
          pool[owner] := pool[owner].(saved := hardware);
        }
      }
      if !pool[running].used {
        hardware := Fresh;
        pool[running] := pool[running].(used := true);
      } else {
        hardware := pool[running].saved;
      }
      last := pool[running].id;
    }

    method Execute(effect: Registers -> Registers) returns (seen: Registers)
      requires running < pool.Length && (last == INVALID_ID || SlotOf(last) < pool.Length)
      modifies this, pool
      ensures Snapshot() == Lazy(old(Snapshot()), Instruction(effect)) && seen == Seen(old(Snapshot()))
    {
      if trap {
        DeviceNotAvailable();
      }
      seen := hardware;
      hardware := effect(hardware);
    }

    /** What a task switch does for the FPU: it sets or clears TS. */
    method Switch(next: nat)
      requires next < pool.Length && running < pool.Length
      modifies this
      ensures Snapshot() == Lazy(old(Snapshot()), SwitchTo(next))
      ensures running == next && trap == (last != pool[next].id) && last == old(last) && hardware == old(hardware)
    {
      running := next;
      if last != pool[next].id {
        trap := true;
      } else {
        trap := false;
      }
    }
  }
}
