// A run from boot in which a program resumes with the registers of another one: two user programs,
// both interrupted in user mode, and one stack for their frames.

module TwoPrograms {
  import HeapSpec
  import opened SchedSpec
  import opened Context
  import opened Stacks
  import opened Switching
  import opened SharedStack

  // A run from m to m'.
  ghost predicate Leads(m: Machine, acts: seq<Action>, hw: Hw, m': Machine) {
    PossibleRun(m, acts, hw) && DoAll(m, acts, hw) == m'
  }

  lemma LeadsOne(m: Machine, a: Action, hw: Hw)
    requires Possible(m, a, hw)
    ensures Leads(m, [a], hw, Do(m, a, hw))
  {
  }

  lemma {:induction false} LeadsOn(m: Machine, a: seq<Action>, m1: Machine, b: seq<Action>, hw: Hw, m2: Machine)
    requires Leads(m, a, hw, m1) && Leads(m1, b, hw, m2)
    ensures Leads(m, a + b, hw, m2)
    decreases |a|
  {
    if |a| > 0 {
      LeadsOn(Do(m, a[0], hw), a[1..], m1, b, hw, m2);
      assert (a + b)[0] == a[0] && (a + b)[1..] == a[1..] + b;
    } else {
      assert a + b == b;
    }
  }

  // There is room for a frame.
  ghost predicate CanSave(m: Machine, hw: Hw) {
    && |m.sched.procs| > 0 && CpuOk(m.sched.procs[0], hw, m.cpu) && StackTop(m.cpu, hw.esp0) > 64
    && Room(m.sched.procs[0], hw, m.cpu, SavedAt(m.cpu, hw.esp0), StackTop(m.cpu, hw.esp0))
  }

  // Memory after a tick with a handler that leaves nothing else behind.
  ghost function Ticked(m: Machine, hw: Hw): Words
    requires CanSave(m, hw)
  {
    WithFrame(m.mem, m.cpu, StackTop(m.cpu, hw.esp0))
  }

  lemma TickPossible(m: Machine, hw: Hw)
    requires CanSave(m, hw) && !m.astray
    ensures Possible(m, Irq(0, Ticked(m, hw)), hw)
    ensures Leads(m, [Irq(0, Ticked(m, hw))], hw, DoIrq(m, hw, Ticked(m, hw)))
  {
    LeadsOne(m, Irq(0, Ticked(m, hw)), hw);
  }

  // What ticks short of the quantum leave behind.
  ghost predicate Idled(m: Machine, m': Machine, quantum: nat) {
    && |m.sched.procs| > 0
    && m' == m.(sched := m.sched.(quantum := quantum), mem := m'.mem, saved := m'.saved)
    && forall pid | pid in m.saved && pid != m.sched.procs[0].pid :: pid in m'.saved && m'.saved[pid] == m.saved[pid]
  }

  lemma {:induction false} IdleTicks(m: Machine, hw: Hw, n: nat) returns (acts: seq<Action>, m': Machine)
    requires MInv(m, hw) && CanSave(m, hw) && !m.astray && m.sched.quantum + n < QUANTUM
    requires m.sched.procs[0].status == Running
    ensures Leads(m, acts, hw, m') && MInv(m', hw) && Idled(m, m', m.sched.quantum + n)
    decreases n
  {
    if n == 0 { return [], m; }
    var m1 := DoIrq(m, hw, Ticked(m, hw));
    TickPossible(m, hw);
    IrqIntegrity(m, hw, 0, Ticked(m, hw));
    acts, m' := IdleTicks(m1, hw, n - 1);
    LeadsOn(m, [Irq(0, Ticked(m, hw))], m1, acts, hw, m');
    acts := [Irq(0, Ticked(m, hw))] + acts;
  }

  // A whole quantum, at the end of which the process right behind is switched to.
  ghost predicate Turned(m: Machine, m': Machine, hw: Hw) {
    && |m.sched.procs| > 1 && StackTop(m.cpu, hw.esp0) > 64
    && var (p, q) := (m.sched.procs[0], m.sched.procs[1]);
    && m'.sched == m.sched.(quantum := 0,
         procs := SetStatus(RotateTo(m.sched.procs[0 := p.(esp := SavedAt(m.cpu, hw.esp0), status := Ready)], 1),
                            0, Running))
    && p.pid in m'.saved && m'.saved[p.pid] == m.cpu
    && forall pid | pid in m.saved && pid != p.pid :: pid in m'.saved && m'.saved[pid] == m.saved[pid]
  }

  lemma Quantum(m: Machine, hw: Hw) returns (acts: seq<Action>, m': Machine)
    requires MInv(m, hw) && CanSave(m, hw) && !m.astray && m.sched.quantum == 0
    requires |m.sched.procs| > 1 && m.sched.procs[0].status == Running && m.sched.procs[1].status == Ready
    ensures Leads(m, acts, hw, m') && Turned(m, m', hw)
    ensures var q := m.sched.procs[1];
      && q.pid in m.saved
      && (!OnTss(hw, q.esp) ==> MInv(m', hw) && !m'.astray && m'.cpu == m.saved[q.pid])
      && (q.esp == hw.esp0 - USER_FRAME && UserMode(m.cpu.cs) ==>
            m'.cpu == m.cpu && (m'.astray <==> m.cpu != m.saved[q.pid]))
  {
    var before, m1 := IdleTicks(m, hw, 4);
    var mem := Ticked(m1, hw);
    m' := DoIrq(m1, hw, mem);
    TickPossible(m1, hw);
    LeadsOn(m, before, m1, [Irq(0, mem)], hw, m');
    acts := before + [Irq(0, mem)];
    assert Apart(m.sched.procs, 0, 1) && Fine(m, hw, 1);
    LastTick(m1, hw, mem);
  }

  lemma LastTick(m: Machine, hw: Hw, mem: Words)
    requires MInv(m, hw) && CanTick(m, hw, 0, mem) && !m.astray && m.sched.quantum == QUANTUM - 1
    requires |m.sched.procs| > 1 && m.sched.procs[0].status == Running && m.sched.procs[1].status == Ready
    ensures var (m', q) := (DoIrq(m, hw, mem), m.sched.procs[1]);
      && Switches(m.sched) && Turned(m.(sched := m.sched.(quantum := 0)), m', hw)
      && q.pid in m.saved
      && (!OnTss(hw, q.esp) ==> MInv(m', hw) && !m'.astray && m'.cpu == m.saved[q.pid])
      && (q.esp == hw.esp0 - USER_FRAME && UserMode(m.cpu.cs) ==>
            m'.cpu == m.cpu && (m'.astray <==> m.cpu != m.saved[q.pid]))
  {
    assert NextReady(m.sched.procs, 1) == 1;
    IrqIntegrity(m, hw, 0, mem);
    if m.sched.procs[1].esp == hw.esp0 - USER_FRAME && UserMode(m.cpu.cs) { SecondOverwritesFirst(m, hw, 0, mem, 1); }
  }

  // ---- the run ----

  lemma Launch(m: Machine, hw: Hw, entry: nat, userTop: nat) returns (a: Action, m': Machine)
    requires MInv(m, hw) && !m.astray && DoCreate(m.sched, true, Ready).1 != -1
    ensures Leads(m, [a], hw, m') && MInv(m', hw)
    ensures var (s, start) := (DoCreate(m.sched, true, Ready).0, StartOf(true, entry, userTop, 0));
      && m' == m.(sched := s, mem := m'.mem, saved := m.saved[s.procs[1].pid := start])
      && !OnTss(hw, s.procs[1].esp)
  {
    var p := DoCreate(m.sched, true, Ready).0.procs[1];
    var start := StartOf(true, entry, userTop, p.stack + PROC_STACK);
    StartsInterruptible(true, entry, userTop, p.stack + PROC_STACK);
    NewStackApart(m.sched, hw, 0);
    var mem := WithFrame(m.mem, start, p.stack + PROC_STACK);
    a := Spawn(true, entry, userTop, Ready, mem);
    m' := Do(m, a, hw);
    LeadsOne(m, a, hw);
    SpawnKeeps(m, hw, true, entry, userTop, Ready, mem);
  }

  lemma TwoStacks()
    ensures var (heap, stack) := HeapSpec.Malloc(HeapSpec.INITIAL, PROC_STACK);
      HeapSpec.Tiles(heap) && stack != 0 && HeapSpec.Malloc(heap, PROC_STACK).1 != 0
  {
    var (heap, stack) := HeapSpec.Malloc(HeapSpec.INITIAL, PROC_STACK);
    HeapSpec.MallocStep(HeapSpec.INITIAL, PROC_STACK);
    assert HeapSpec.INITIAL[0] in HeapSpec.INITIAL;
    HeapSpec.MallocStep(heap, PROC_STACK);
    assert heap[1] in heap && HeapSpec.Fits(heap[1], PROC_STACK);
  }

  // With fewer than three processes a slot is free.
  lemma SlotLeft(ps: seq<Proc>)
    requires 0 < |ps| < 3 && ps[0].slot == 0
    ensures FreeSlot(ps) < MAX_PROCS
  {
    assert !(HasSlot(ps, 1) && HasSlot(ps, 2));
    assert IsFreeSlot(ps, FreeSlot(ps));
  }

  // The shell is running and the program of pid 1, whose registers are its first ones, waits on
  // the stack of the TSS.
  ghost predicate FirstWaits(m: Machine, hw: Hw, cpu: Cpu, start: Cpu) {
    && MInv(m, hw) && !m.astray && m.cpu == cpu && m.sched.quantum == 0 && |m.sched.procs| == 2 && m.sched.nextPid == 2
    && var (p, q) := (m.sched.procs[0], m.sched.procs[1]);
    && p.slot == 0 && p.pid == 0 && p.status == Running && q.pid == 1 && q.status == Ready
    && q.esp == hw.esp0 - USER_FRAME && 1 in m.saved && m.saved[1] == start
    && HeapSpec.Malloc(m.sched.heap, PROC_STACK).1 != 0
  }

  lemma FirstRuns(hw: Hw, cpu: Cpu, entry: nat, userTop: nat) returns (acts: seq<Action>, m: Machine)
    requires WfHw(hw) && WfCpu(cpu) && !UserMode(cpu.cs) && cpu.esp == BOOT_TOP
    ensures Leads(BootMachine(hw, HeapSpec.INITIAL, cpu, map[]), acts, hw, m)
    ensures FirstWaits(m, hw, cpu, StartOf(true, entry, userTop, 0))
  {
    var m0 := BootMachine(hw, HeapSpec.INITIAL, cpu, map[]);
    BootMInv(hw, HeapSpec.INITIAL, cpu, map[]);
    TwoStacks();
    SlotLeft(m0.sched.procs);
    var a, m1 := Launch(m0, hw, entry, userTop);
    var q1, m2 := Quantum(m1, hw);
    var q2, m3 := Quantum(m2, hw);
    LeadsOn(m1, q1, m2, q2, hw, m3);
    LeadsOn(m0, [a], m1, q1 + q2, hw, m3);
    return [a] + (q1 + q2), m3;
  }

  lemma SecondRuns(m: Machine, hw: Hw, cpu: Cpu, start: Cpu, entry: nat, userTop: nat)
    returns (acts: seq<Action>, m': Machine)
    requires FirstWaits(m, hw, cpu, start) && !UserMode(cpu.cs) && cpu.esp == BOOT_TOP
    requires start != StartOf(true, entry, userTop, 0)
    ensures Leads(m, acts, hw, m') && m'.astray
    ensures |m'.sched.procs| > 0 && m'.sched.procs[0].pid == 1 && m'.cpu == StartOf(true, entry, userTop, 0)
  {
    SlotLeft(m.sched.procs);
    var a, m1 := Launch(m, hw, entry, userTop);
    var q1, m2 := Quantum(m1, hw);
    var q2, m3 := Quantum(m2, hw);
    LeadsOn(m1, q1, m2, q2, hw, m3);
    LeadsOn(m, [a], m1, q1 + q2, hw, m3);
    return [a] + (q1 + q2), m3;
  }

  /** From boot, with two programs of different entry points started one after the other and nothing
      but creations and ticks: the program of pid 1 is handed the processor with the registers of the
      other program, and goes on at that one's entry. */
  lemma TwoProgramsClash(hw: Hw, cpu: Cpu, entry1: nat, entry2: nat, userTop: nat)
    returns (acts: seq<Action>, m: Machine)
    requires WfHw(hw) && WfCpu(cpu) && !UserMode(cpu.cs) && cpu.esp == BOOT_TOP && entry1 != entry2
    ensures Leads(BootMachine(hw, HeapSpec.INITIAL, cpu, map[]), acts, hw, m)
    ensures m.astray && |m.sched.procs| > 0 && m.sched.procs[0].pid == 1 && m.cpu.eip == entry2
  {
    var start := StartOf(true, entry1, userTop, 0);
    var first, m1 := FirstRuns(hw, cpu, entry1, userTop);
    var second, m2 := SecondRuns(m1, hw, cpu, start, entry2, userTop);
    LeadsOn(BootMachine(hw, HeapSpec.INITIAL, cpu, map[]), first, m1, second, hw, m2);
    return first + second, m2;
  }
}
