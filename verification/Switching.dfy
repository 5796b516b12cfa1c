// Context integrity: processes, their saved frames and the page directory register, over any
// interleaving of computation, timer interrupts, creations, exits and kills.

module Switching {
  import opened SchedSpec
  import opened Context
  import opened Stacks

  // saved remembers, for each process off the processor, the registers it left with (or starts
  // with): what it must find again. astray says that some process did not: it was handed the
  // processor with other registers, and nothing is claimed from there on.
  datatype Machine = Machine(sched: Sched, mem: Words, cpu: Cpu, cr3: nat, saved: map<nat, Cpu>, astray: bool)

  datatype Action =
    // the running process computes; on the stack of the TSS its system calls write down to low
    | Work(cpu: Cpu, mem: Words, low: nat)
    // a timer tick, mem being memory with the frame; the handler uses scratch bytes below it
    | Irq(scratch: nat, mem: Words)
    // a creation, or with status Zombie a fork, mem being memory with the new frame
    | Spawn(user: bool, entry: nat, userTop: nat, status: Status, mem: Words)
    // exit, kill, page directory of another, allocations by the rest of the kernel
    | Other(event: Event)

  // The directory that process p runs under.
  function DirOf(p: Proc, kernelPd: nat): nat { if p.dir != 0 then p.dir else kernelPd }

  // [lo, hi) is as it was.
  ghost predicate Kept(mem: Words, mem': Words, lo: int, hi: int) {
    forall a: nat | lo <= a < hi :: Get(mem', a) == Get(mem, a)
  }

  lemma ResumeKept(mem: Words, mem': Words, at: nat)
    requires Kept(mem, mem', at, at + 4 * FrameLen(Resume(mem, at).cs))
    ensures Resume(mem', at) == Resume(mem, at)
  {
  }

  // ---- the invariant ----

  // The frame of process k is on its own stack or on that of the TSS.
  ghost predicate Placed(m: Machine, hw: Hw, k: nat)
    requires k < |m.sched.procs|
  {
    var p := m.sched.procs[k];
    p.pid in m.saved && WfCpu(m.saved[p.pid]) &&
    (OnOwn(p, hw, p.esp, m.saved[p.pid]) || InTss(hw, p.esp, m.saved[p.pid]))
  }

  // Its frame holds what it left with.
  ghost predicate Parked(m: Machine, k: nat)
    requires k < |m.sched.procs|
  {
    var p := m.sched.procs[k];
    p.pid in m.saved && Resume(m.mem, p.esp) == m.saved[p.pid]
  }

  ghost predicate Fine(m: Machine, hw: Hw, k: nat)
    requires k < |m.sched.procs|
  {
    Placed(m, hw, k) && (!OnTss(hw, m.sched.procs[k].esp) ==> Parked(m, k))
  }

  ghost predicate CpuOk(p: Proc, hw: Hw, c: Cpu) {
    WfCpu(c) && (!UserMode(c.cs) ==> EspOk(p, hw, c.esp))
  }

  ghost predicate MInv(m: Machine, hw: Hw) {
    && Inv(m.sched) && WfHw(hw) && CpuOk(m.sched.procs[0], hw, m.cpu)
    && m.cr3 == DirOf(m.sched.procs[0], hw.kernelPd)
    && forall k | 1 <= k < |m.sched.procs| :: Fine(m, hw, k)
  }

  ghost predicate AllParked(m: Machine) {
    forall k | 1 <= k < |m.sched.procs| :: Parked(m, k)
  }

  // ---- what can happen ----

  // schedule picks another process to run.
  predicate Switches(s: Sched)
    requires |s.procs| > 0
  {
    NextReady(s.procs, 1) < |s.procs| && (s.procs[0].status == Zombie || s.quantum + 1 == QUANTUM)
  }

  ghost predicate StackKept(mem: Words, mem': Words, ps: seq<Proc>, hw: Hw, k: nat)
    requires k < |ps|
  {
    Kept(mem, mem', StackLow(ps[k], hw), StackEnd(ps[k], hw))
  }

  // A process computes in its own registers and memory: it leaves the stacks of the others alone,
  // keeps its own kernel stack pointer on a stack it may be on, and may use the stack of the TSS.
  ghost predicate CanWork(m: Machine, hw: Hw, cpu: Cpu, mem: Words, low: nat)
    requires |m.sched.procs| > 0
  {
    && CpuOk(m.sched.procs[0], hw, cpu)
    && (forall k | 1 <= k < |m.sched.procs| :: StackKept(m.mem, mem, m.sched.procs, hw, k))
    && Kept(m.mem, mem, hw.esp0 - TSS_STACK, low)
  }

  // Where a tick may happen: the stack has room for the frame and scratch bytes below it.
  ghost predicate HasRoom(m: Machine, hw: Hw, scratch: nat)
    requires |m.sched.procs| > 0
  {
    && StackTop(m.cpu, hw.esp0) > 64 && scratch % 4 == 0 && scratch < SavedAt(m.cpu, hw.esp0)
    && Room(m.sched.procs[0], hw, m.cpu, SavedAt(m.cpu, hw.esp0) - scratch, StackTop(m.cpu, hw.esp0))
  }

  // Memory after a tick: the frame of the interrupted registers, anything in the scratch area below
  // it, and nothing else written.
  ghost predicate CanTick(m: Machine, hw: Hw, scratch: nat, mem: Words)
    requires |m.sched.procs| > 0
  {
    && HasRoom(m, hw, scratch) && FrameAt(mem, SavedAt(m.cpu, hw.esp0), m.cpu)
    && OnlyWithin(m.mem, mem, SavedAt(m.cpu, hw.esp0) - scratch, StackTop(m.cpu, hw.esp0))
  }

  ghost predicate CanSpawn(m: Machine, user: bool, entry: nat, userTop: nat, status: Status, mem: Words)
    requires |m.sched.procs| > 0
  {
    && (status == Ready || (status == Zombie && !user))
    && if DoCreate(m.sched, user, status).1 == -1 then OnlyWithin(m.mem, mem, 0, 0)
       else
         var p := DoCreate(m.sched, user, status).0.procs[1];
         && OnlyWithin(m.mem, mem, p.stack, p.stack + PROC_STACK)
         && Resume(mem, p.esp) == StartOf(user, entry, userTop, p.stack + PROC_STACK)
  }

  ghost predicate Possible(m: Machine, a: Action, hw: Hw) {
    |m.sched.procs| > 0 && (m.astray || match a
      case Work(cpu, mem, low) => CanWork(m, hw, cpu, mem, low)
      case Irq(scratch, mem) => CanTick(m, hw, scratch, mem)
      case Spawn(user, entry, userTop, status, mem) => CanSpawn(m, user, entry, userTop, status, mem)
      case Other(e) => !e.Tick? && !e.Create? && !e.Fork? && Legal(m.sched, e))
  }

  // The registers a tick leaves the processor with: those of the frame sched_switch_esp points to,
  // or of the frame just saved.
  ghost function AfterIrq(m: Machine, hw: Hw, mem: Words): Cpu
    requires |m.sched.procs| > 0 && StackTop(m.cpu, hw.esp0) > 64
  {
    var at := SavedAt(m.cpu, hw.esp0);
    var switchEsp := if Switches(m.sched) then DoTick(m.sched, at).procs[0].esp else 0;
    Resume(mem, if switchEsp != 0 then switchEsp else at)
  }

  ghost function DoIrq(m: Machine, hw: Hw, mem: Words): Machine
    requires |m.sched.procs| > 0 && StackTop(m.cpu, hw.esp0) > 64
  {
    var s := DoTick(m.sched, SavedAt(m.cpu, hw.esp0));
    var cpu := AfterIrq(m, hw, mem);
    Machine(s, mem, cpu, if Switches(m.sched) then DirOf(s.procs[0], hw.kernelPd) else m.cr3,
            m.saved[m.sched.procs[0].pid := m.cpu],
            Switches(m.sched) && !(s.procs[0].pid in m.saved && cpu == m.saved[s.procs[0].pid]))
  }

  ghost function DoSpawn(m: Machine, user: bool, entry: nat, userTop: nat, status: Status, mem: Words): Machine
    requires |m.sched.procs| > 0
  {
    var (s, pid) := DoCreate(m.sched, user, status);
    if pid == -1 then m.(mem := mem)
    else
      var start := StartOf(user, entry, userTop, s.procs[1].stack + PROC_STACK);
      m.(sched := s, mem := mem, saved := m.saved[s.procs[1].pid := start])
  }

  ghost function Do(m: Machine, a: Action, hw: Hw): Machine
    requires Possible(m, a, hw)
  {
    if m.astray then m else
    match a
    case Work(cpu, mem, low) => m.(cpu := cpu, mem := mem)
    case Irq(scratch, mem) => DoIrq(m, hw, mem)
    case Spawn(user, entry, userTop, status, mem) => DoSpawn(m, user, entry, userTop, status, mem)
    case Other(e) => m.(sched := Step(m.sched, e))
  }

  // ---- frames on the processes' own stacks are safe ----

  // A tick writes one stack, which is not that of a waiting process.
  lemma TickKeepsStack(m: Machine, hw: Hw, scratch: nat, mem: Words, k: nat)
    requires MInv(m, hw) && CanTick(m, hw, scratch, mem) && 1 <= k < |m.sched.procs|
    ensures StackKept(m.mem, mem, m.sched.procs, hw, k)
  {
    StacksApart(m.sched, hw, 0, k);
    StackOffTss(m.sched, hw, k);
    StackOffTss(m.sched, hw, 0);
  }

  // A frame on a stack that was not written still holds the registers saved in it.
  lemma OwnFrameKept(m: Machine, hw: Hw, mem: Words, k: nat)
    requires MInv(m, hw) && 1 <= k < |m.sched.procs| && StackKept(m.mem, mem, m.sched.procs, hw, k)
    requires !OnTss(hw, m.sched.procs[k].esp)
    ensures Fine(m.(mem := mem), hw, k) && Parked(m.(mem := mem), k)
  {
    assert Fine(m, hw, k);
    ResumeKept(m.mem, mem, m.sched.procs[k].esp);
  }

  // A waiting process stays where it is placed.
  lemma WaitingFine(m: Machine, hw: Hw, mem: Words, k: nat)
    requires MInv(m, hw) && 1 <= k < |m.sched.procs| && StackKept(m.mem, mem, m.sched.procs, hw, k)
    ensures Fine(m.(mem := mem), hw, k)
  {
    assert Fine(m, hw, k);
    if !OnTss(hw, m.sched.procs[k].esp) { OwnFrameKept(m, hw, mem, k); }
  }

  // The frame the tick saves.
  lemma SavedFrameFine(m: Machine, hw: Hw, scratch: nat, mem: Words)
    requires MInv(m, hw) && CanTick(m, hw, scratch, mem)
    ensures var at := SavedAt(m.cpu, hw.esp0);
      && 0 < at && (OnOwn(m.sched.procs[0], hw, at, m.cpu) || InTss(hw, at, m.cpu))
      && Resume(mem, at) == m.cpu
  {
    FrameResumes(mem, SavedAt(m.cpu, hw.esp0), m.cpu);
    StackOffTss(m.sched, hw, 0);
  }

  // The process at place k of the new table is the one at place o of the old; only the preempted
  // one has a new frame.
  ghost predicate Moved(s: Sched, at: nat, k: nat, o: nat)
    requires |s.procs| > 0 && k < |DoTick(s, at).procs|
  {
    && o < |s.procs| && SameSlot(DoTick(s, at).procs[k], s.procs[o])
    && DoTick(s, at).procs[k].dir == s.procs[o].dir
    && DoTick(s, at).procs[k].esp == if o == 0 then at else s.procs[o].esp
  }

  lemma StayedAt(s: Sched, at: nat, k: nat)
    requires |s.procs| > 0 && 0 < k < |DoTick(s, at).procs| && !Switches(s) && s.quantum < QUANTUM
    ensures Moved(s, at, k, k)
  {
  }

  lemma CameByReap(s: Sched, at: nat, k: nat) returns (o: nat)
    requires |s.procs| > 0 && k < |DoTick(s, at).procs| && Switches(s) && s.procs[0].status == Zombie
    ensures Moved(s, at, k, o) && o > 0 && (k == 0 ==> o == NextReady(s.procs, 1))
  {
    var (n, c) := (|s.procs|, NextReady(s.procs, 1));
    o := 1 + if k + c - 1 < n - 1 then k + c - 1 else k + c - 1 - (n - 1);
  }

  lemma CameByTurn(s: Sched, at: nat, k: nat) returns (o: nat)
    requires |s.procs| > 0 && k < |DoTick(s, at).procs| && Switches(s) && s.procs[0].status != Zombie
    ensures Moved(s, at, k, o) && (k == 0 ==> o == NextReady(s.procs, 1))
  {
    var (n, c) := (|s.procs|, NextReady(s.procs, 1));
    o := if k + c < n then k + c else k + c - n;
  }

  // Where the process at place k stood before the tick.
  lemma Origin(s: Sched, at: nat, k: nat) returns (o: nat)
    requires Inv(s) && k < |DoTick(s, at).procs|
    requires k > 0 || Switches(s)
    ensures Moved(s, at, k, o)
    ensures k == 0 ==> o == NextReady(s.procs, 1) > 0
    ensures o == 0 ==> Switches(s)
  {
    if !Switches(s) {
      o := k;
      StayedAt(s, at, k);
    } else if s.procs[0].status == Zombie {
      o := CameByReap(s, at, k);
    } else {
      o := CameByTurn(s, at, k);
    }
  }

  // A process that resumes with what it saved is again somewhere it may be.
  lemma ResumedOk(m: Machine, hw: Hw, mem: Words, k: nat)
    requires MInv(m, hw) && 1 <= k < |m.sched.procs| && Parked(m.(mem := mem), k)
    ensures CpuOk(m.sched.procs[k], hw, Resume(mem, m.sched.procs[k].esp))
  {
    assert Fine(m, hw, k);
  }

  /** A tick that keeps the current process is invisible to it. One that switches hands over to the
      process schedule chose, through a frame address that is never 0, under its own directory or
      the kernel's; with exactly the registers it last left with if its frame is on its own stack,
      and otherwise as long as its frame on the stack of the TSS is still what it was. */
  lemma IrqIntegrity(m: Machine, hw: Hw, scratch: nat, mem: Words)
    requires MInv(m, hw) && CanTick(m, hw, scratch, mem)
    ensures var m' := DoIrq(m, hw, mem);
      var c := NextReady(m.sched.procs, 1);
      && (m'.astray || MInv(m', hw))
      && if Switches(m.sched) then
           var p := m.sched.procs[c];
           && m'.sched.procs[0].pid == p.pid && p.esp != 0 && m'.cpu == Resume(mem, p.esp)
           && m'.cr3 == (if p.dir != 0 then p.dir else hw.kernelPd)
           && p.pid in m.saved && (m'.astray <==> m'.cpu != m.saved[p.pid])
           && (m'.astray ==> OnTss(hw, p.esp))
         else m'.cpu == m.cpu && m'.sched.procs[0].pid == m.sched.procs[0].pid && m'.cr3 == m.cr3 && !m'.astray
  {
    if Switches(m.sched) { SwitchChooses(m, hw, scratch, mem); } else { NoSwitch(m, hw, scratch, mem); }
    if !DoIrq(m, hw, mem).astray { TickMInv(m, hw, scratch, mem); }
  }

  lemma NoSwitch(m: Machine, hw: Hw, scratch: nat, mem: Words)
    requires MInv(m, hw) && CanTick(m, hw, scratch, mem) && !Switches(m.sched)
    ensures var m' := DoIrq(m, hw, mem);
      && |m'.sched.procs| > 0 && SameSlot(m'.sched.procs[0], m.sched.procs[0])
      && m'.sched.procs[0].dir == m.sched.procs[0].dir
      && m'.cpu == m.cpu && m'.cr3 == m.cr3 && !m'.astray
  {
    SavedFrameFine(m, hw, scratch, mem);
  }

  // The invariant after a tick that resumed the right registers.
  lemma TickMInv(m: Machine, hw: Hw, scratch: nat, mem: Words)
    requires MInv(m, hw) && CanTick(m, hw, scratch, mem) && !DoIrq(m, hw, mem).astray
    ensures MInv(DoIrq(m, hw, mem), hw)
  {
    TickKeeps(m.sched, SavedAt(m.cpu, hw.esp0));
    if Switches(m.sched) {
      var c := NextReady(m.sched.procs, 1);
      SwitchChooses(m, hw, scratch, mem);
      assert Parked(m.(mem := mem), c);
      ResumedOk(m, hw, mem, c);
    } else {
      NoSwitch(m, hw, scratch, mem);
    }
    TickFine(m, hw, scratch, mem);
  }

  lemma SwitchChooses(m: Machine, hw: Hw, scratch: nat, mem: Words)
    requires MInv(m, hw) && CanTick(m, hw, scratch, mem) && Switches(m.sched)
    ensures var (m', p) := (DoIrq(m, hw, mem), m.sched.procs[NextReady(m.sched.procs, 1)]);
      && SameSlot(m'.sched.procs[0], p) && m'.sched.procs[0].dir == p.dir && m'.sched.procs[0].esp == p.esp
      && p.esp != 0 && m'.cpu == Resume(mem, p.esp)
      && p.pid in m.saved && (!OnTss(hw, p.esp) ==> m'.cpu == m.saved[p.pid])
  {
    var c := NextReady(m.sched.procs, 1);
    var o := Origin(m.sched, SavedAt(m.cpu, hw.esp0), 0);
    assert Waiting(m.sched.procs, c) && Fine(m, hw, c);
    TickKeepsStack(m, hw, scratch, mem, c);
    if !OnTss(hw, m.sched.procs[c].esp) { OwnFrameKept(m, hw, mem, c); }
  }

  // Every process off the processor after the tick.
  lemma TickFine(m: Machine, hw: Hw, scratch: nat, mem: Words)
    requires MInv(m, hw) && CanTick(m, hw, scratch, mem)
    ensures forall k | 1 <= k < |DoIrq(m, hw, mem).sched.procs| :: Fine(DoIrq(m, hw, mem), hw, k)
  {
    var m' := DoIrq(m, hw, mem);
    SavedFrameFine(m, hw, scratch, mem);
    forall k | 1 <= k < |m'.sched.procs| ensures Fine(m', hw, k) {
      var o := Origin(m.sched, SavedAt(m.cpu, hw.esp0), k);
      if o > 0 {
        TickKeepsStack(m, hw, scratch, mem, o);
        WaitingFine(m, hw, mem, o);
        assert Apart(m.sched.procs, o, 0);
      }
    }
  }

  lemma WorkKeeps(m: Machine, hw: Hw, cpu: Cpu, mem: Words, low: nat)
    requires MInv(m, hw) && CanWork(m, hw, cpu, mem, low)
    ensures MInv(m.(cpu := cpu, mem := mem), hw)
  {
    var m' := m.(cpu := cpu, mem := mem);
    forall k | 1 <= k < |m.sched.procs| ensures Fine(m', hw, k) {
      assert StackKept(m.mem, mem, m.sched.procs, hw, k);
      WaitingFine(m, hw, mem, k);
    }
  }

  /** A creation writes its own new stack and nothing that anyone waits on. */
  lemma SpawnKeeps(m: Machine, hw: Hw, user: bool, entry: nat, userTop: nat, status: Status, mem: Words)
    requires MInv(m, hw) && CanSpawn(m, user, entry, userTop, status, mem)
    ensures MInv(DoSpawn(m, user, entry, userTop, status, mem), hw)
    ensures AllParked(m) ==> AllParked(DoSpawn(m, user, entry, userTop, status, mem))
  {
    var m' := DoSpawn(m, user, entry, userTop, status, mem);
    CreateKeeps(m.sched, user, status);
    var created := DoCreate(m.sched, user, status).1 != -1;
    forall k | 1 <= k < |m'.sched.procs|
      ensures Fine(m', hw, k) && (AllParked(m) ==> Parked(m', k))
    {
      if created && k == 1 {
        StartedFine(m, hw, user, entry, userTop, status, mem);
      } else {
        var o := if created then k - 1 else k;
        SpawnKeepsFrame(m, hw, user, entry, userTop, status, mem, o);
        assert ProcOk(m.sched.procs, o, m.sched.nextPid, m.sched.heap);
      }
    }
  }

  lemma StartedFine(m: Machine, hw: Hw, user: bool, entry: nat, userTop: nat, status: Status, mem: Words)
    requires MInv(m, hw) && CanSpawn(m, user, entry, userTop, status, mem) && DoCreate(m.sched, user, status).1 != -1
    ensures var m' := DoSpawn(m, user, entry, userTop, status, mem); Fine(m', hw, 1) && Parked(m', 1)
  {
    var p := DoCreate(m.sched, user, status).0.procs[1];
    StartsInterruptible(user, entry, userTop, p.stack + PROC_STACK);
    assert IsFreeSlot(m.sched.procs, FreeSlot(m.sched.procs));
  }

  lemma SpawnKeepsFrame(m: Machine, hw: Hw, user: bool, entry: nat, userTop: nat, status: Status, mem: Words, k: nat)
    requires MInv(m, hw) && CanSpawn(m, user, entry, userTop, status, mem) && 1 <= k < |m.sched.procs|
    ensures Fine(m.(mem := mem), hw, k) && (Parked(m, k) ==> Parked(m.(mem := mem), k))
  {
    assert Fine(m, hw, k);
    var p := m.sched.procs[k];
    if DoCreate(m.sched, user, status).1 != -1 { NewStackApart(m.sched, hw, k); }
    assert StackKept(m.mem, mem, m.sched.procs, hw, k);
    WaitingFine(m, hw, mem, k);
    if Parked(m, k) { ResumeKept(m.mem, mem, p.esp); }
  }

  lemma OtherKeeps(m: Machine, hw: Hw, e: Event)
    requires MInv(m, hw) && !e.Tick? && !e.Create? && !e.Fork? && Legal(m.sched, e)
    ensures MInv(m.(sched := Step(m.sched, e)), hw)
    ensures AllParked(m) ==> AllParked(m.(sched := Step(m.sched, e)))
  {
    StepKeeps(m.sched, e);
    var m' := m.(sched := Step(m.sched, e));
    var d := if e.Kill? then IndexOfPid(m.sched.procs, e.pid) else 0;
    forall k | 1 <= k < |m'.sched.procs|
      ensures Fine(m', hw, k) && (AllParked(m) ==> Parked(m', k))
    {
      var o := if 0 < d <= k then k + 1 else k;
      assert Fine(m, hw, o);
      assert AllParked(m) ==> Parked(m, o);
    }
  }

  lemma DoKeeps(m: Machine, a: Action, hw: Hw)
    requires MInv(m, hw) && Possible(m, a, hw) && !m.astray
    ensures Do(m, a, hw).astray || MInv(Do(m, a, hw), hw)
    ensures Do(m, a, hw).astray <==> HandsOverLost(m, a, hw)
  {
    match a
    case Work(cpu, mem, low) => WorkKeeps(m, hw, cpu, mem, low);
    case Irq(scratch, mem) => IrqIntegrity(m, hw, scratch, mem);
    case Spawn(user, entry, userTop, status, mem) => SpawnKeeps(m, hw, user, entry, userTop, status, mem);
    case Other(e) => OtherKeeps(m, hw, e);
  }

  // ---- every interleaving ----

  // A tick that switches to a process whose frame on the stack of the TSS has been overwritten.
  ghost predicate HandsOverLost(m: Machine, a: Action, hw: Hw) {
    && a.Irq? && |m.sched.procs| > 0 && Switches(m.sched)
    && var p := m.sched.procs[NextReady(m.sched.procs, 1)];
       OnTss(hw, p.esp) && p.pid in m.saved && Resume(a.mem, p.esp) != m.saved[p.pid]
  }

  ghost predicate PossibleRun(m: Machine, acts: seq<Action>, hw: Hw)
    decreases |acts|
  {
    |acts| > 0 ==> Possible(m, acts[0], hw) && PossibleRun(Do(m, acts[0], hw), acts[1..], hw)
  }

  ghost function DoAll(m: Machine, acts: seq<Action>, hw: Hw): Machine
    requires PossibleRun(m, acts, hw)
    decreases |acts|
  {
    if |acts| == 0 then m else DoAll(Do(m, acts[0], hw), acts[1..], hw)
  }

  // At some point of the run such a tick occurs.
  ghost predicate LosesOne(m: Machine, acts: seq<Action>, hw: Hw)
    requires PossibleRun(m, acts, hw)
    decreases |acts|
  {
    |acts| > 0 && (HandsOverLost(m, acts[0], hw) || LosesOne(Do(m, acts[0], hw), acts[1..], hw))
  }

  lemma {:induction false} AstrayStays(m: Machine, acts: seq<Action>, hw: Hw)
    requires PossibleRun(m, acts, hw) && m.astray
    ensures DoAll(m, acts, hw) == m
    decreases |acts|
  {
    if |acts| > 0 { AstrayStays(m, acts[1..], hw); }
  }

  /** Over every interleaving: every process off the processor has, in the frame on its own stack,
      the registers it left with, every process is resumed with those, and CR3 is the current
      process's directory or the kernel's, up to a tick that resumes a process from a frame on the
      stack of the TSS that has been overwritten; and such a tick is the only way to lose that. */
  lemma {:induction false} ContextIntegrity(m: Machine, acts: seq<Action>, hw: Hw)
    requires MInv(m, hw) && PossibleRun(m, acts, hw) && !m.astray
    ensures DoAll(m, acts, hw).astray || MInv(DoAll(m, acts, hw), hw)
    ensures DoAll(m, acts, hw).astray <==> LosesOne(m, acts, hw)
    decreases |acts|
  {
    if |acts| > 0 {
      DoKeeps(m, acts[0], hw);
      var m1 := Do(m, acts[0], hw);
      if m1.astray { AstrayStays(m1, acts[1..], hw); } else { ContextIntegrity(m1, acts[1..], hw); }
    }
  }
}
