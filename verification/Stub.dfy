// irq_common_stub as a whole: save, schedule, switch, restore.

module Stub {
  import opened SchedSpec
  import opened Scheduler
  import opened Context
  import opened Stacks
  import opened Switching

  // From the test of sched_switch_esp to the pops: the frame address and page directory to go on
  // with, and both words cleared.
  method TakeSwitch(procs: Processes, at: nat, cr3: nat) returns (sp: nat, cr3': nat)
    requires procs.Valid() && (procs.switchEsp == 0 ==> procs.switchCr3 == 0)
    modifies procs`switchEsp, procs`switchCr3
    ensures procs.Valid() && procs.Now() == old(procs.Now()) && procs.switchEsp == 0 && procs.switchCr3 == 0
    ensures sp == if old(procs.switchEsp) != 0 then old(procs.switchEsp) else at
    ensures cr3' == if old(procs.switchEsp) != 0 && old(procs.switchCr3) != 0 then old(procs.switchCr3) else cr3
  {
    sp, cr3' := at, cr3;
    var eax := procs.switchEsp;
    if eax != 0 {
      procs.switchEsp := 0;
      sp := eax;
      var ecx := procs.switchCr3;
      if ecx != 0 {
        procs.switchCr3 := 0;
        cr3' := ecx;
      }
    }
  }

  // schedule asks for a switch with a frame address and a directory that are not 0.
  lemma SwitchWords(m: Machine, hw: Hw, scratch: nat, mem: Words)
    requires MInv(m, hw) && CanTick(m, hw, scratch, mem)
    ensures SavedAt(m.cpu, hw.esp0) != 0
    ensures var m' := DoIrq(m, hw, mem);
      && |m'.sched.procs| > 0
      && (Switches(m.sched) ==>
            && m'.sched.procs[0].esp != 0 && DirOf(m'.sched.procs[0], hw.kernelPd) != 0
            && m'.cpu == Resume(mem, m'.sched.procs[0].esp) && m'.cr3 == DirOf(m'.sched.procs[0], hw.kernelPd))
      && (!Switches(m.sched) ==> m'.cpu == Resume(mem, SavedAt(m.cpu, hw.esp0)) && m'.cr3 == m.cr3)
  {
    if Switches(m.sched) { SwitchChooses(m, hw, scratch, mem); }
    TickKeeps(m.sched, SavedAt(m.cpu, hw.esp0));
  }

  // What irq_handler and schedule leave behind on the stack below the frame.
  method UseStack(mem: Words, at: nat, below: seq<nat>, ghost c: Cpu) returns (mem': Words)
    requires 4 * |below| < at && FrameAt(mem, at, c)
    ensures OnlyWithin(mem, mem', at - 4 * |below|, at) && FrameAt(mem', at, c)
  {
    mem' := mem;
    var sp := at;
    for i := 0 to |below|
      invariant sp == at - 4 * i && OnlyWithin(mem, mem', sp, at)
    {
      mem', sp := Push(mem', sp, below[i]);
    }
    assert forall i | 0 <= i < FrameLen(c.cs) :: WordAt(mem', at, i) == WordAt(mem, at, i);
  }

  // The first half of the stub: the frame, and the call of schedule.
  method SaveAndSchedule(procs: Processes, cpu: Cpu, hw: Hw, below: seq<nat>, ghost m: Machine) returns (at: nat)
    requires procs.Valid() && procs.switchEsp == 0 && procs.switchCr3 == 0 && procs.kernelPd == hw.kernelPd
    requires m.sched == procs.Now() && m.mem == procs.stacks && m.cpu == cpu
    requires MInv(m, hw) && HasRoom(m, hw, 4 * |below|)
    modifies procs, procs.table, procs.heap
    ensures procs.Valid() && at == SavedAt(cpu, hw.esp0) && CanTick(m, hw, 4 * |below|, procs.stacks)
    ensures var m' := DoIrq(m, hw, procs.stacks);
      && procs.Now() == m'.sched && (procs.switchEsp == 0 ==> procs.switchCr3 == 0)
      && m'.cpu == Resume(procs.stacks, if procs.switchEsp != 0 then procs.switchEsp else at)
      && m'.cr3 == if procs.switchEsp != 0 && procs.switchCr3 != 0 then procs.switchCr3 else m.cr3
  {
    var mem;
    mem, at := SaveFrame(procs.stacks, cpu, hw.esp0);
    mem := UseStack(mem, at, below, cpu);
    procs.stacks := mem;
    SwitchWords(m, hw, 4 * |below|, mem);
    procs.Schedule(at);
  }

  /** The stub around schedule does exactly one tick of the machine, whatever words the handler
      leaves below the frame: frame saved, table scheduled, stack and page directory switched when
      schedule asked for it, the two words that ask cleared again, and the registers of the frame
      restored. */
  method IrqCommonStub(procs: Processes, cpu: Cpu, cr3: nat, hw: Hw, below: seq<nat>, ghost m: Machine)
    returns (cpu': Cpu, cr3': nat)
    requires procs.Valid() && procs.switchEsp == 0 && procs.switchCr3 == 0 && procs.kernelPd == hw.kernelPd
    requires m.sched == procs.Now() && m.mem == procs.stacks && m.cpu == cpu && m.cr3 == cr3 && !m.astray
    requires MInv(m, hw) && HasRoom(m, hw, 4 * |below|)
    modifies procs, procs.table, procs.heap
    ensures procs.Valid() && procs.switchEsp == 0 && procs.switchCr3 == 0
    ensures Possible(m, Irq(4 * |below|, procs.stacks), hw)
    ensures var m' := Do(m, Irq(4 * |below|, procs.stacks), hw);
      procs.Now() == m'.sched && procs.stacks == m'.mem && cpu' == m'.cpu && cr3' == m'.cr3
  {
    var at := SaveAndSchedule(procs, cpu, hw, below, m);
    var sp, top;
    sp, cr3' := TakeSwitch(procs, at, cr3);
    cpu', top := RestoreFrame(procs.stacks, sp);
  }
}
