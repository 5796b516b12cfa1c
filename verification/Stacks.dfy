// Where kernel stacks lie, and which of them an interrupt frame is on: the stack of the process,
// or the one the processor takes on every interrupt from user mode.

module Stacks {
  import opened SchedSpec
  import opened HeapSpec
  import opened Context

  const BOOT_TOP := 0x3F_F000
  const TSS_STACK := 4096

  // What the kernel sets once: its page directory, tss.esp0, and the lowest word the boot stack may
  // grow to.
  datatype Hw = Hw(kernelPd: nat, esp0: nat, bootLow: nat)

  ghost predicate WfHw(hw: Hw) {
    && hw.kernelPd != 0 && 0 < hw.bootLow <= BOOT_TOP - 256
    && hw.esp0 % 4 == 0 && TSS_STACK < hw.esp0
    && (hw.esp0 <= hw.bootLow || BOOT_TOP <= hw.esp0 - TSS_STACK)
    && (hw.esp0 <= HEAP_START || HEAP_START + HEAP_SIZE <= hw.esp0 - TSS_STACK)
  }

  // The process in slot 0 runs on the boot stack, every other one on a heap block of its own.
  function StackLow(p: Proc, hw: Hw): nat { if p.slot == 0 then hw.bootLow else p.stack }

  function StackEnd(p: Proc, hw: Hw): nat { if p.slot == 0 then BOOT_TOP else p.stack + PROC_STACK }

  predicate OnTss(hw: Hw, at: int) { hw.esp0 - TSS_STACK <= at < hw.esp0 }

  // A frame for registers c lies at this address of p's own stack.
  predicate OnOwn(p: Proc, hw: Hw, at: nat, c: Cpu) {
    StackLow(p, hw) <= at && at + 4 * FrameLen(c.cs) <= StackEnd(p, hw)
  }

  // Or of the stack of the TSS: at its top when it was user mode that was interrupted, and below
  // such a frame when it was a system call.
  predicate InTss(hw: Hw, at: nat, c: Cpu) {
    && hw.esp0 - TSS_STACK <= at && at % 4 == 0
    && (if UserMode(c.cs) then at == hw.esp0 - USER_FRAME else at + 4 * FrameLen(c.cs) <= hw.esp0 - USER_FRAME)
  }

  // Where the stack pointer of p may be in kernel mode.
  predicate EspOk(p: Proc, hw: Hw, esp: nat) {
    || StackLow(p, hw) <= esp <= StackEnd(p, hw)
    || (hw.esp0 - TSS_STACK <= esp <= hw.esp0 - USER_FRAME && esp % 4 == 0)
  }

  // [lo, hi) lies on a stack that an interrupt of p with these registers may write.
  predicate Room(p: Proc, hw: Hw, c: Cpu, lo: int, hi: int) {
    if UserMode(c.cs) then hw.esp0 - TSS_STACK <= lo && hi == hw.esp0
    else
      || (StackLow(p, hw) <= lo && hi <= StackEnd(p, hw))
      || (hw.esp0 - TSS_STACK <= lo && hi <= hw.esp0 - USER_FRAME && hi % 4 == 0)
  }

  /** The stacks of two processes do not overlap. */
  lemma StacksApart(s: Sched, hw: Hw, j: nat, k: nat)
    requires Inv(s) && WfHw(hw) && j < |s.procs| && k < |s.procs| && j != k
    ensures StackEnd(s.procs[j], hw) <= StackLow(s.procs[k], hw) || StackEnd(s.procs[k], hw) <= StackLow(s.procs[j], hw)
  {
    var (p, q) := (s.procs[j], s.procs[k]);
    assert Apart(s.procs, j, k);
    if p.slot != 0 && q.slot == 0 {
      var b := StackBlock(s, j);
    } else if p.slot == 0 && q.slot != 0 {
      var c := StackBlock(s, k);
    } else if p.slot != 0 {
      var b := StackBlock(s, j);
      var c := StackBlock(s, k);
      LiveApart(s.heap, b, c);
    }
  }

  lemma StackBlock(s: Sched, k: nat) returns (b: Block)
    requires Inv(s) && k < |s.procs| && s.procs[k].slot != 0
    ensures b in s.heap && b.Payload() == s.procs[k].stack && b.size >= PROC_STACK && b in Live(s.heap)
    ensures HEAP_START < b.Payload() && b.End() <= HEAP_START + HEAP_SIZE
  {
    assert ProcOk(s.procs, k, s.nextPid, s.heap);
    b :| b in s.heap && b.used && b.Payload() == s.procs[k].stack && b.size >= PROC_STACK;
    LiveApart(s.heap, b, b);
  }

  /** Nor does any overlap the stack of the TSS. */
  lemma StackOffTss(s: Sched, hw: Hw, k: nat)
    requires Inv(s) && WfHw(hw) && k < |s.procs|
    ensures var p := s.procs[k];
      && 0 < StackLow(p, hw) < StackEnd(p, hw)
      && (StackEnd(p, hw) <= hw.esp0 - TSS_STACK || hw.esp0 <= StackLow(p, hw))
  {
    if s.procs[k].slot != 0 { var b := StackBlock(s, k); }
  }

  /** And a stack just allocated overlaps none of them. */
  lemma NewStackApart(s: Sched, hw: Hw, k: nat)
    requires Inv(s) && WfHw(hw) && k < |s.procs| && Malloc(s.heap, PROC_STACK).1 != 0
    ensures var (stack, p) := (Malloc(s.heap, PROC_STACK).1, s.procs[k]);
      && (StackEnd(p, hw) <= stack || stack + PROC_STACK <= StackLow(p, hw))
      && (stack + PROC_STACK <= hw.esp0 - TSS_STACK || hw.esp0 <= stack)
  {
    var (heap, stack) := Malloc(s.heap, PROC_STACK);
    MallocStep(s.heap, PROC_STACK);
    var b :| && b in Live(heap) && b.Payload() == stack && PROC_STACK <= b.size
             && b !in Live(s.heap) && Live(heap) == Live(s.heap) + {b};
    LiveApart(heap, b, b);
    if s.procs[k].slot != 0 {
      var c := StackBlock(s, k);
      assert c in Live(heap);
      LiveApart(heap, b, c);
    }
  }
}
