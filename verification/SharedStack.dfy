// The stack of the TSS, which every process interrupted in user mode shares: tss.esp0 is set once
// and never again. When the frames that wait there survive, and a run in which one does not.

module SharedStack {
  import HeapSpec
  import opened SchedSpec
  import opened Context
  import opened Stacks
  import opened Switching

  // ---- runs that lose nothing ----

  // The frame of process k, if it is on the stack of the TSS, is clear of [lo, hi).
  ghost predicate Clear(m: Machine, hw: Hw, k: nat, lo: int, hi: int)
    requires k < |m.sched.procs|
  {
    var p := m.sched.procs[k];
    p.pid in m.saved && OnTss(hw, p.esp) ==> p.esp + 4 * FrameLen(m.saved[p.pid].cs) <= lo || hi <= p.esp
  }

  ghost predicate AllClear(m: Machine, hw: Hw, lo: int, hi: int) {
    forall k | 1 <= k < |m.sched.procs| :: Clear(m, hw, k, lo, hi)
  }

  // What the action writes of the stack of the TSS is nobody's frame.
  ghost predicate Spares(m: Machine, a: Action, hw: Hw) {
    match a
    case Work(_, _, low) => AllClear(m, hw, low, hw.esp0)
    case Irq(scratch, _) =>
      StackTop(m.cpu, hw.esp0) > 64 && AllClear(m, hw, SavedAt(m.cpu, hw.esp0) - scratch, StackTop(m.cpu, hw.esp0))
    case _ => true
  }

  lemma WorkSpares(m: Machine, hw: Hw, cpu: Cpu, mem: Words, low: nat)
    requires MInv(m, hw) && AllParked(m) && CanWork(m, hw, cpu, mem, low) && Spares(m, Work(cpu, mem, low), hw)
    ensures AllParked(m.(cpu := cpu, mem := mem))
  {
    forall k | 1 <= k < |m.sched.procs| ensures Parked(m.(cpu := cpu, mem := mem), k) {
      assert Fine(m, hw, k) && Parked(m, k) && Clear(m, hw, k, low, hw.esp0);
      assert StackKept(m.mem, mem, m.sched.procs, hw, k);
      ResumeKept(m.mem, mem, m.sched.procs[k].esp);
    }
  }

  // The frame of a process the tick does not touch.
  lemma TickSpares(m: Machine, hw: Hw, scratch: nat, mem: Words, k: nat)
    requires MInv(m, hw) && CanTick(m, hw, scratch, mem) && 1 <= k < |m.sched.procs| && Parked(m, k)
    requires Clear(m, hw, k, SavedAt(m.cpu, hw.esp0) - scratch, StackTop(m.cpu, hw.esp0))
    ensures Parked(m.(mem := mem), k)
  {
    assert Fine(m, hw, k);
    if OnTss(hw, m.sched.procs[k].esp) {
      ResumeKept(m.mem, mem, m.sched.procs[k].esp);
    } else {
      TickKeepsStack(m, hw, scratch, mem, k);
      OwnFrameKept(m, hw, mem, k);
    }
  }

  lemma IrqSpares(m: Machine, hw: Hw, scratch: nat, mem: Words)
    requires MInv(m, hw) && AllParked(m) && CanTick(m, hw, scratch, mem) && Spares(m, Irq(scratch, mem), hw)
    ensures !DoIrq(m, hw, mem).astray && AllParked(DoIrq(m, hw, mem))
  {
    var (m', at) := (DoIrq(m, hw, mem), SavedAt(m.cpu, hw.esp0));
    SavedFrameFine(m, hw, scratch, mem);
    IrqIntegrity(m, hw, scratch, mem);
    if Switches(m.sched) {
      var c := NextReady(m.sched.procs, 1);
      assert Parked(m, c);
      TickSpares(m, hw, scratch, mem, c);
    }
    forall k | 1 <= k < |m'.sched.procs| ensures Parked(m', k) {
      var o := Origin(m.sched, at, k);
      if o > 0 {
        assert Parked(m, o) && Apart(m.sched.procs, o, 0);
        TickSpares(m, hw, scratch, mem, o);
      }
    }
  }

  lemma DoSpares(m: Machine, a: Action, hw: Hw)
    requires MInv(m, hw) && AllParked(m) && !m.astray && Possible(m, a, hw) && Spares(m, a, hw)
    ensures var m' := Do(m, a, hw); !m'.astray && MInv(m', hw) && AllParked(m')
  {
    DoKeeps(m, a, hw);
    match a
    case Work(cpu, mem, low) => WorkSpares(m, hw, cpu, mem, low);
    case Irq(scratch, mem) => IrqSpares(m, hw, scratch, mem);
    case Spawn(user, entry, userTop, status, mem) => SpawnKeeps(m, hw, user, entry, userTop, status, mem);
    case Other(e) => OtherKeeps(m, hw, e);
  }

  ghost predicate SparingRun(m: Machine, acts: seq<Action>, hw: Hw)
    requires PossibleRun(m, acts, hw)
    decreases |acts|
  {
    |acts| > 0 ==> Spares(m, acts[0], hw) && SparingRun(Do(m, acts[0], hw), acts[1..], hw)
  }

  /** As long as no process uses the part of the stack of the TSS on which another one waits, every
      process always resumes with exactly the registers it left with. */
  lemma {:induction false} NothingLost(m: Machine, acts: seq<Action>, hw: Hw)
    requires MInv(m, hw) && AllParked(m) && !m.astray && PossibleRun(m, acts, hw) && SparingRun(m, acts, hw)
    ensures var m' := DoAll(m, acts, hw); !m'.astray && MInv(m', hw) && AllParked(m')
    decreases |acts|
  {
    if |acts| > 0 {
      DoSpares(m, acts[0], hw);
      NothingLost(Do(m, acts[0], hw), acts[1..], hw);
    }
  }

  // ---- exactly when a waiting frame survives ----

  ghost function PutWords(mem: Words, at: nat, ws: seq<nat>): (mem': Words)
    ensures forall i | 0 <= i < |ws| :: WordAt(mem', at, i) == ws[i]
    ensures OnlyWithin(mem, mem', at, at + 4 * |ws|)
    decreases |ws|
  {
    if |ws| == 0 then mem else
      var n := |ws| - 1;
      var m := PutWords(mem, at, ws[..n])[at + 4 * n := ws[n]];
      assert forall i | 0 <= i < n :: WordAt(m, at, i) == WordAt(PutWords(mem, at, ws[..n]), at, i);
      m
  }

  // Memory with a frame for registers c that ends at top.
  ghost function WithFrame(mem: Words, c: Cpu, top: nat): (mem': Words)
    requires WfCpu(c) && top > 64 && (!UserMode(c.cs) ==> c.esp == top)
    ensures var at := top - 4 * FrameLen(c.cs);
      FrameAt(mem', at, c) && Resume(mem', at) == c && OnlyWithin(mem, mem', at, top)
  {
    var at := top - 4 * FrameLen(c.cs);
    var m := PutWords(mem, at, FrameWords(c, at));
    FrameResumes(m, at, c);
    m
  }

  // The words of a frame that the restore half uses: it skips the esp of pusha, the interrupt number
  // and the error code.
  predicate Taken(c: Cpu, j: int) { 0 <= j < FrameLen(c.cs) && j != 4 && j != 9 && j != 10 }

  // What it uses of one: the low half of the word with ds.
  function Field(w: nat, j: int): nat { if j == 0 then w % 0x1_0000 else w }

  ghost predicate SameField(mem: Words, mem': Words, at: nat, j: nat) {
    Field(WordAt(mem', at, j), j) == Field(WordAt(mem, at, j), j)
  }

  lemma ResumeSameIff(mem: Words, mem': Words, at: nat)
    ensures Resume(mem', at) == Resume(mem, at)
      <==> forall j: nat | Taken(Resume(mem, at), j) :: SameField(mem, mem', at, j)
  {
    var c := Resume(mem, at);
    if forall j: nat | Taken(c, j) :: SameField(mem, mem', at, j) {
      assert Taken(c, 0) && Taken(c, 1) && Taken(c, 2) && Taken(c, 3) && Taken(c, 5) && Taken(c, 6) && Taken(c, 7);
      assert Taken(c, 8) && Taken(c, 11) && Taken(c, 12) && Taken(c, 13);
      assert SameField(mem, mem', at, 0) && SameField(mem, mem', at, 1) && SameField(mem, mem', at, 2);
      assert SameField(mem, mem', at, 3) && SameField(mem, mem', at, 5) && SameField(mem, mem', at, 6);
      assert SameField(mem, mem', at, 7) && SameField(mem, mem', at, 8) && SameField(mem, mem', at, 11);
      assert SameField(mem, mem', at, 12) && SameField(mem, mem', at, 13);
      assert UserMode(c.cs) ==> Taken(c, 14) && SameField(mem, mem', at, 14);
      assert UserMode(c.cs) ==> Taken(c, 15) && SameField(mem, mem', at, 15);
    }
  }

  // Process k finds its registers again after every such tick.
  ghost predicate Survives(m: Machine, hw: Hw, scratch: nat, k: nat)
    requires k < |m.sched.procs|
  {
    |m.sched.procs| > 0 && forall mem :: CanTick(m, hw, scratch, mem) ==> Parked(m.(mem := mem), k)
  }

  // A word of its frame is outside what the tick writes, or is written again as it was.
  ghost predicate WordSpared(m: Machine, hw: Hw, scratch: nat, at: nat, j: nat)
    requires StackTop(m.cpu, hw.esp0) > 64
  {
    var (a, frame) := (at + 4 * j, SavedAt(m.cpu, hw.esp0));
    || a < frame - scratch || StackTop(m.cpu, hw.esp0) <= a
    || (&& frame <= a && (a - frame) % 4 == 0
        && Field(FrameWords(m.cpu, frame)[(a - frame) / 4], j) == Field(WordAt(m.mem, at, j), j))
  }

  ghost predicate FrameSpared(m: Machine, hw: Hw, scratch: nat, k: nat)
    requires k < |m.sched.procs| && StackTop(m.cpu, hw.esp0) > 64
  {
    var p := m.sched.procs[k];
    p.pid in m.saved && forall j: nat | Taken(m.saved[p.pid], j) :: WordSpared(m, hw, scratch, p.esp, j)
  }

  /** Any tick, from user mode or from the kernel, on the process's own stack or on that of the TSS,
      the handler using scratch bytes below the frame: a waiting process is sure to find its
      registers again if and only if every word of its frame that is used is outside the area
      written, or is in the new frame with the value it has. */
  lemma TickIff(m: Machine, hw: Hw, scratch: nat, k: nat)
    requires MInv(m, hw) && 1 <= k < |m.sched.procs| && Parked(m, k) && HasRoom(m, hw, scratch)
    ensures Survives(m, hw, scratch, k) <==> FrameSpared(m, hw, scratch, k)
  {
    var p := m.sched.procs[k];
    if FrameSpared(m, hw, scratch, k) {
      forall mem | CanTick(m, hw, scratch, mem) ensures Parked(m.(mem := mem), k) {
        forall j: nat | Taken(m.saved[p.pid], j) ensures SameField(m.mem, mem, p.esp, j) {
          assert WordSpared(m, hw, scratch, p.esp, j);
          SparedWord(m, hw, scratch, mem, p.esp, j);
        }
        ResumeSameIff(m.mem, mem, p.esp);
      }
    } else {
      var j: nat :| Taken(m.saved[p.pid], j) && !WordSpared(m, hw, scratch, p.esp, j);
      var mem := LosingTick(m, hw, scratch, k, j);
    }
  }

  lemma SparedWord(m: Machine, hw: Hw, scratch: nat, mem: Words, at: nat, j: nat)
    requires |m.sched.procs| > 0 && CanTick(m, hw, scratch, mem) && WordSpared(m, hw, scratch, at, j)
    ensures SameField(m.mem, mem, at, j)
  {
    var (a, frame) := (at + 4 * j, SavedAt(m.cpu, hw.esp0));
    if frame - scratch <= a < StackTop(m.cpu, hw.esp0) {
      var i := (a - frame) / 4;
      assert WordAt(mem, frame, i) == FrameWords(m.cpu, frame)[i];
    }
  }

  // Frames on the stack of the TSS are aligned like those a tick leaves there.
  lemma WrittenAligned(m: Machine, hw: Hw, scratch: nat, k: nat, j: nat)
    requires MInv(m, hw) && 1 <= k < |m.sched.procs| && Parked(m, k) && HasRoom(m, hw, scratch)
    requires var (p, frame) := (m.sched.procs[k], SavedAt(m.cpu, hw.esp0));
      Taken(m.saved[p.pid], j) && frame - scratch <= p.esp + 4 * j < StackTop(m.cpu, hw.esp0)
    ensures (m.sched.procs[k].esp + 4 * j - SavedAt(m.cpu, hw.esp0)) % 4 == 0
  {
    assert Fine(m, hw, k);
    StacksApart(m.sched, hw, 0, k);
    StackOffTss(m.sched, hw, k);
    StackOffTss(m.sched, hw, 0);
  }

  // A tick with a handler that leaves nothing behind.
  lemma PlainTick(m: Machine, hw: Hw, scratch: nat) returns (mem: Words)
    requires |m.sched.procs| > 0 && WfCpu(m.cpu) && HasRoom(m, hw, scratch)
    ensures CanTick(m, hw, scratch, mem)
  {
    mem := WithFrame(m.mem, m.cpu, StackTop(m.cpu, hw.esp0));
  }

  // One whose handler changes a word of the scratch area.
  lemma ScratchedTick(m: Machine, hw: Hw, scratch: nat, a: nat) returns (mem: Words)
    requires |m.sched.procs| > 0 && WfCpu(m.cpu) && HasRoom(m, hw, scratch)
    requires SavedAt(m.cpu, hw.esp0) - scratch <= a < SavedAt(m.cpu, hw.esp0)
    ensures CanTick(m, hw, scratch, mem) && Get(mem, a) == Get(m.mem, a) + 1
  {
    var plain := PlainTick(m, hw, scratch);
    var (at, ws) := (SavedAt(m.cpu, hw.esp0), FrameWords(m.cpu, SavedAt(m.cpu, hw.esp0)));
    mem := plain[a := Get(m.mem, a) + 1];
    forall i | 0 <= i < FrameLen(m.cpu.cs) ensures WordAt(mem, at, i) == ws[i] {
      assert WordAt(plain, at, i) == ws[i];
    }
  }

  // A tick that leaves it with other registers.
  lemma LosingTick(m: Machine, hw: Hw, scratch: nat, k: nat, j: nat) returns (mem: Words)
    requires MInv(m, hw) && 1 <= k < |m.sched.procs| && Parked(m, k) && HasRoom(m, hw, scratch)
    requires var p := m.sched.procs[k];
      Taken(m.saved[p.pid], j) && !WordSpared(m, hw, scratch, p.esp, j)
    ensures CanTick(m, hw, scratch, mem) && !Parked(m.(mem := mem), k)
  {
    var (at, frame) := (m.sched.procs[k].esp, SavedAt(m.cpu, hw.esp0));
    WrittenAligned(m, hw, scratch, k, j);
    if at + 4 * j < frame {
      mem := ScratchedTick(m, hw, scratch, at + 4 * j);
    } else {
      mem := PlainTick(m, hw, scratch);
      Rewritten(m, hw, scratch, mem, at, j);
    }
    LostField(m, mem, k, j);
  }

  // A word where the new frame has another value.
  lemma Rewritten(m: Machine, hw: Hw, scratch: nat, mem: Words, at: nat, j: nat)
    requires |m.sched.procs| > 0 && CanTick(m, hw, scratch, mem) && !WordSpared(m, hw, scratch, at, j)
    requires at + 4 * j >= SavedAt(m.cpu, hw.esp0) && (at + 4 * j - SavedAt(m.cpu, hw.esp0)) % 4 == 0
    ensures !SameField(m.mem, mem, at, j)
  {
    var frame := SavedAt(m.cpu, hw.esp0);
    assert WordAt(mem, frame, (at + 4 * j - frame) / 4) == FrameWords(m.cpu, frame)[(at + 4 * j - frame) / 4];
  }

  lemma LostField(m: Machine, mem: Words, k: nat, j: nat)
    requires k < |m.sched.procs| && Parked(m, k)
    requires var p := m.sched.procs[k]; Taken(m.saved[p.pid], j) && !SameField(m.mem, mem, p.esp, j)
    ensures !Parked(m.(mem := mem), k)
  {
    ResumeSameIff(m.mem, mem, m.sched.procs[k].esp);
  }

  // Its frame is clear of what the tick writes, or is the frame the tick writes again.
  ghost predicate Untouched(m: Machine, hw: Hw, scratch: nat, k: nat)
    requires k < |m.sched.procs|
  {
    var p := m.sched.procs[k];
    Clear(m, hw, k, hw.esp0 - USER_FRAME - scratch, hw.esp0)
    || (p.esp == hw.esp0 - USER_FRAME && p.pid in m.saved && m.saved[p.pid] == m.cpu)
  }

  /** For a tick in user mode that is: its frame is not on the part of the stack of the TSS the tick
      writes, or holds the very registers of the process interrupted. */
  lemma UserTickIff(m: Machine, hw: Hw, scratch: nat, k: nat)
    requires MInv(m, hw) && 1 <= k < |m.sched.procs| && Parked(m, k)
    requires UserMode(m.cpu.cs) && scratch % 4 == 0 && USER_FRAME + scratch <= TSS_STACK
    ensures Survives(m, hw, scratch, k) <==> Untouched(m, hw, scratch, k)
  {
    var p := m.sched.procs[k];
    TickIff(m, hw, scratch, k);
    if Survives(m, hw, scratch, k) {
      if !Clear(m, hw, k, hw.esp0 - USER_FRAME - scratch, hw.esp0) { FrameRewritten(m, hw, scratch, k); }
    } else {
      var mem: Words :| CanTick(m, hw, scratch, mem) && !Parked(m.(mem := mem), k);
      if Clear(m, hw, k, hw.esp0 - USER_FRAME - scratch, hw.esp0) { TickSpares(m, hw, scratch, mem, k); }
      SavedFrameFine(m, hw, scratch, mem);
    }
  }

  // A frame in the way of such a tick that survives is the one the tick writes again.
  lemma FrameRewritten(m: Machine, hw: Hw, scratch: nat, k: nat)
    requires MInv(m, hw) && 1 <= k < |m.sched.procs| && UserMode(m.cpu.cs) && HasRoom(m, hw, scratch)
    requires !Clear(m, hw, k, hw.esp0 - USER_FRAME - scratch, hw.esp0)
    requires Survives(m, hw, scratch, k) && FrameSpared(m, hw, scratch, k)
    ensures var p := m.sched.procs[k];
      p.esp == hw.esp0 - USER_FRAME && p.pid in m.saved && m.saved[p.pid] == m.cpu
  {
    var p := m.sched.procs[k];
    LastWordIn(m, hw, hw.esp0 - USER_FRAME - scratch, k);
    assert WordSpared(m, hw, scratch, p.esp, FrameLen(m.saved[p.pid].cs) - 1);
    assert p.esp == hw.esp0 - USER_FRAME by { assert Fine(m, hw, k); StackOffTss(m.sched, hw, k); }
    var mem := PlainTick(m, hw, scratch);
    SavedFrameFine(m, hw, scratch, mem);
    assert Parked(m.(mem := mem), k);
  }

  // A frame that reaches into the upper part of the stack of the TSS has its last word there.
  lemma LastWordIn(m: Machine, hw: Hw, lo: nat, k: nat)
    requires MInv(m, hw) && 1 <= k < |m.sched.procs| && lo % 4 == 0 && !Clear(m, hw, k, lo, hw.esp0)
    ensures var p := m.sched.procs[k];
      && p.pid in m.saved && OnTss(hw, p.esp)
      && var last := FrameLen(m.saved[p.pid].cs) - 1;
      Taken(m.saved[p.pid], last) && lo <= p.esp + 4 * last < hw.esp0
  {
    assert Fine(m, hw, k);
    StackOffTss(m.sched, hw, k);
  }

  // Process k finds its registers again whatever system calls write down to low.
  ghost predicate SurvivesWork(m: Machine, hw: Hw, low: nat, k: nat)
    requires k < |m.sched.procs|
  {
    |m.sched.procs| > 0 && forall cpu, mem :: CanWork(m, hw, cpu, mem, low) ==> Parked(m.(cpu := cpu, mem := mem), k)
  }

  /** And so for the system calls of the running process, which use the stack of the TSS down to low:
      a waiting process is sure to find its registers again if and only if its frame is clear of
      that part. */
  lemma WorkIff(m: Machine, hw: Hw, low: nat, k: nat)
    requires MInv(m, hw) && 1 <= k < |m.sched.procs| && Parked(m, k) && low % 4 == 0
    ensures SurvivesWork(m, hw, low, k) <==> Clear(m, hw, k, low, hw.esp0)
  {
    var p := m.sched.procs[k];
    assert Fine(m, hw, k);
    if Clear(m, hw, k, low, hw.esp0) {
      forall cpu, mem | CanWork(m, hw, cpu, mem, low) ensures Parked(m.(cpu := cpu, mem := mem), k) {
        assert StackKept(m.mem, mem, m.sched.procs, hw, k);
        ResumeKept(m.mem, mem, p.esp);
      }
    } else {
      var last := FrameLen(m.saved[p.pid].cs) - 1;
      LastWordIn(m, hw, low, k);
      var mem := m.mem[p.esp + 4 * last := WordAt(m.mem, p.esp, last) + 1];
      forall j | 1 <= j < |m.sched.procs| ensures StackKept(m.mem, mem, m.sched.procs, hw, j) {
        StackOffTss(m.sched, hw, j);
      }
      assert CanWork(m, hw, m.cpu, mem, low);
      assert !SameField(m.mem, mem, p.esp, last);
      ResumeSameIff(m.mem, mem, p.esp);
      assert !Parked(m.(cpu := m.cpu, mem := mem), k);
    }
  }

  /** Two programs preempted in user mode: the tick of the second writes its registers over the frame
      of the first, and when the first is resumed it gets those. */
  lemma SecondOverwritesFirst(m: Machine, hw: Hw, scratch: nat, mem: Words, k: nat)
    requires MInv(m, hw) && CanTick(m, hw, scratch, mem) && UserMode(m.cpu.cs)
    requires 1 <= k < |m.sched.procs| && m.sched.procs[k].esp == hw.esp0 - USER_FRAME
    ensures Resume(mem, m.sched.procs[k].esp) == m.cpu
    ensures Switches(m.sched) && NextReady(m.sched.procs, 1) == k ==>
      var m' := DoIrq(m, hw, mem);
      && m'.sched.procs[0].pid == m.sched.procs[k].pid && m'.cpu == m.cpu
      && m.sched.procs[k].pid in m.saved && (m'.astray <==> m.saved[m.sched.procs[k].pid] != m.cpu)
  {
    SavedFrameFine(m, hw, scratch, mem);
    IrqIntegrity(m, hw, scratch, mem);
  }

  // ---- boot ----

  // When process_init is done: the shell in kernel mode on the boot stack.
  ghost function BootMachine(hw: Hw, heap: seq<HeapSpec.Block>, cpu: Cpu, mem: Words): Machine {
    Machine(Booted(heap), mem, cpu, hw.kernelPd, map[], false)
  }

  lemma BootMInv(hw: Hw, heap: seq<HeapSpec.Block>, cpu: Cpu, mem: Words)
    requires WfHw(hw) && HeapSpec.Tiles(heap) && WfCpu(cpu) && !UserMode(cpu.cs) && hw.bootLow <= cpu.esp <= BOOT_TOP
    ensures MInv(BootMachine(hw, heap, cpu, mem), hw) && AllParked(BootMachine(hw, heap, cpu, mem))
  {
    BootedInv(heap);
  }
}
