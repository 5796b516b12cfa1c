// Interrupt frames: what the stub saves and restores, and the frames made up for new processes.

module Context {
  import opened Bits
  import opened SchedSpec

  // The registers a frame carries. esp and ss are those after the iret.
  datatype Cpu = Cpu(ds: nat, edi: nat, esi: nat, ebp: nat, ebx: nat, edx: nat, ecx: nat, eax: nat,
                     eip: nat, cs: nat, eflags: nat, esp: nat, ss: nat)

  type Words = map<nat, nat>  // stack memory, one 32-bit word at a time

  const KERNEL_CS := 0x08
  const KERNEL_DS := 0x10
  const USER_CS := 0x1B
  const USER_DS := 0x23
  const EFLAGS_IF := 0x202
  const IRQ0 := 32

  function Get(mem: Words, a: nat): nat { if a in mem then mem[a] else 0 }

  predicate UserMode(cs: nat) { cs % 4 != 0 }

  predicate WfCpu(c: Cpu) {
    c.ds < 0x1_0000 && (!UserMode(c.cs) ==> c.ss == KERNEL_DS)
  }

  function FrameLen(cs: nat): nat { if UserMode(cs) then 16 else 14 }

  // The registers after the pops, popa, add esp and iret of the stub, from a frame at an address.
  // A return to the same privilege level takes no stack pointer from the frame.
  function Resume(mem: Words, at: nat): Cpu {
    var cs := Get(mem, at + 48);
    Cpu(Get(mem, at) % 0x1_0000, Get(mem, at + 4), Get(mem, at + 8), Get(mem, at + 12), Get(mem, at + 20),
        Get(mem, at + 24), Get(mem, at + 28), Get(mem, at + 32), Get(mem, at + 44), cs, Get(mem, at + 52),
        if UserMode(cs) then Get(mem, at + 56) else at + 56, if UserMode(cs) then Get(mem, at + 60) else KERNEL_DS)
  }

  function WordAt(mem: Words, at: nat, i: nat): nat { Get(mem, at + 4 * i) }

  // The words the stub leaves for registers c, from the address of the frame up: ds in the low half
  // of eax, what pusha pushed, the interrupt number and error code, and what the processor pushed.
  function FrameWords(c: Cpu, at: nat): (ws: seq<nat>)
    ensures |ws| == FrameLen(c.cs)
  {
    [c.eax - c.eax % 0x1_0000 + c.ds, c.edi, c.esi, c.ebp, at + 36, c.ebx, c.edx, c.ecx, c.eax,
     IRQ0, 0, c.eip, c.cs, c.eflags] + if UserMode(c.cs) then [c.esp, c.ss] else []
  }

  ghost predicate FrameAt(mem: Words, at: nat, c: Cpu) {
    forall i | 0 <= i < FrameLen(c.cs) :: WordAt(mem, at, i) == FrameWords(c, at)[i]
  }

  // Nothing changed but [lo, hi).
  ghost predicate OnlyWithin(mem: Words, mem': Words, lo: nat, hi: nat) {
    forall a: nat | a < lo || a >= hi :: Get(mem', a) == Get(mem, a)
  }

  // ---- the stub ----

  method Push(mem: Words, sp: nat, w: nat) returns (mem': Words, sp': nat)
    requires sp >= 4
    ensures sp' == sp - 4 && Get(mem', sp') == w && OnlyWithin(mem, mem', sp', sp)
  {
    sp' := sp - 4;
    mem' := mem[sp' := w];
  }

  // Four pushes, a first.
  method Push4(mem: Words, sp: nat, a: nat, b: nat, c: nat, d: nat) returns (mem': Words, sp': nat)
    requires sp >= 16
    ensures sp' == sp - 16 && OnlyWithin(mem, mem', sp', sp)
    ensures Get(mem', sp') == d && Get(mem', sp' + 4) == c && Get(mem', sp' + 8) == b && Get(mem', sp' + 12) == a
  {
    mem', sp' := Push(mem, sp, a);
    mem', sp' := Push(mem', sp', b);
    mem', sp' := Push(mem', sp', c);
    mem', sp' := Push(mem', sp', d);
  }

  // Where the processor puts the frame of an interrupt: below the current kernel stack pointer,
  // or at the top of the kernel stack when it comes from user mode.
  function StackTop(c: Cpu, esp0: nat): nat { if UserMode(c.cs) then esp0 else c.esp }

  function SavedAt(c: Cpu, esp0: nat): nat
    requires StackTop(c, esp0) > 64
  {
    StackTop(c, esp0) - 4 * FrameLen(c.cs)
  }

  // What the processor and the irq entry push: ss and esp from user mode, then the return
  // address, then a zero error code and the interrupt number.
  method PushReturn(mem: Words, c: Cpu, esp0: nat) returns (m: Words, sp: nat)
    requires StackTop(c, esp0) > 64
    ensures sp == StackTop(c, esp0) - 4 * (FrameLen(c.cs) - 9)
    ensures Get(m, sp) == IRQ0 && Get(m, sp + 4) == 0
    ensures Get(m, sp + 8) == c.eip && Get(m, sp + 12) == c.cs && Get(m, sp + 16) == c.eflags
    ensures UserMode(c.cs) ==> Get(m, sp + 20) == c.esp && Get(m, sp + 24) == c.ss
    ensures OnlyWithin(mem, m, sp, StackTop(c, esp0))
  {
    m, sp := mem, StackTop(c, esp0);
    if UserMode(c.cs) {
      m, sp := Push(m, sp, c.ss);
      m, sp := Push(m, sp, c.esp);
    }
    m, sp := Push4(m, sp, c.eflags, c.cs, c.eip, 0);
    m, sp := Push(m, sp, IRQ0);
  }

  // pusha, then ds through ax.
  method PushRegisters(mem: Words, top: nat, c: Cpu) returns (m: Words, sp: nat)
    requires top > 36 && c.ds < 0x1_0000
    ensures sp == top - 36
    ensures Get(m, sp) == c.eax - c.eax % 0x1_0000 + c.ds
    ensures Get(m, sp + 4) == c.edi && Get(m, sp + 8) == c.esi && Get(m, sp + 12) == c.ebp && Get(m, sp + 16) == top
    ensures Get(m, sp + 20) == c.ebx && Get(m, sp + 24) == c.edx && Get(m, sp + 28) == c.ecx && Get(m, sp + 32) == c.eax
    ensures OnlyWithin(mem, m, sp, top)
  {
    m, sp := Push4(mem, top, c.eax, c.ecx, c.edx, c.ebx);
    m, sp := Push4(m, sp, top, c.ebp, c.esi, c.edi);
    m, sp := Push(m, sp, c.eax - c.eax % 0x1_0000 + c.ds);
  }

  lemma DsWord(eax: nat, ds: nat)
    requires ds < 0x1_0000
    ensures (eax - eax % 0x1_0000 + ds) % 0x1_0000 == ds
  {
    var q := eax / 0x1_0000;
    var x := 0x1_0000 * q + ds;
    assert eax - eax % 0x1_0000 == 0x1_0000 * q;
    assert x == 0x1_0000 * (x / 0x1_0000) + x % 0x1_0000;
  }

  // The two halves that are pushed make up a frame.
  lemma FrameHalves(mem: Words, at: nat, c: Cpu)
    requires Get(mem, at) == c.eax - c.eax % 0x1_0000 + c.ds
    requires Get(mem, at + 4) == c.edi && Get(mem, at + 8) == c.esi && Get(mem, at + 12) == c.ebp
    requires Get(mem, at + 16) == at + 36 && Get(mem, at + 20) == c.ebx && Get(mem, at + 24) == c.edx
    requires Get(mem, at + 28) == c.ecx && Get(mem, at + 32) == c.eax
    requires Get(mem, at + 36) == IRQ0 && Get(mem, at + 40) == 0
    requires Get(mem, at + 44) == c.eip && Get(mem, at + 48) == c.cs && Get(mem, at + 52) == c.eflags
    requires UserMode(c.cs) ==> Get(mem, at + 56) == c.esp && Get(mem, at + 60) == c.ss
    ensures FrameAt(mem, at, c)
  {
  }

  // A frame of the stub resumes to the registers it was made from.
  lemma FrameResumes(mem: Words, at: nat, c: Cpu)
    requires WfCpu(c) && FrameAt(mem, at, c) && (!UserMode(c.cs) ==> c.esp == at + KERNEL_FRAME)
    ensures Resume(mem, at) == c
  {
    var ws := FrameWords(c, at);
    assert WordAt(mem, at, 0) == ws[0] && WordAt(mem, at, 1) == ws[1] && WordAt(mem, at, 2) == ws[2];
    assert WordAt(mem, at, 3) == ws[3] && WordAt(mem, at, 5) == ws[5] && WordAt(mem, at, 6) == ws[6];
    assert WordAt(mem, at, 7) == ws[7] && WordAt(mem, at, 8) == ws[8] && WordAt(mem, at, 11) == ws[11];
    assert WordAt(mem, at, 12) == ws[12] && WordAt(mem, at, 13) == ws[13];
    assert UserMode(c.cs) ==> WordAt(mem, at, 14) == ws[14] && WordAt(mem, at, 15) == ws[15];
    DsWord(c.eax, c.ds);
  }

  /** The save half of irq_common_stub: every word of the frame it leaves, from which resuming gives
      back every register as it was, the stack pointer included; nothing else is written. */
  method SaveFrame(mem: Words, c: Cpu, esp0: nat) returns (mem': Words, at: nat)
    requires WfCpu(c) && StackTop(c, esp0) > 64
    ensures at == SavedAt(c, esp0) && FrameAt(mem', at, c) && Resume(mem', at) == c
    ensures OnlyWithin(mem, mem', at, StackTop(c, esp0))
  {
    mem', at := PushReturn(mem, c, esp0);
    mem', at := PushRegisters(mem', at, c);
    FrameHalves(mem', at, c);
    FrameResumes(mem', at, c);
  }

  /** The restore half, from a frame address: pop, popa, add esp 8, iret. It takes exactly the
      words of the frame. */
  method RestoreFrame(mem: Words, at: nat) returns (c: Cpu, sp: nat)
    ensures c == Resume(mem, at) && sp == at + 4 * FrameLen(c.cs)
  {
    sp := at;
    var ds := Get(mem, sp) % 0x1_0000;
    sp := sp + 4;
    var edi, esi, ebp := Get(mem, sp), Get(mem, sp + 4), Get(mem, sp + 8);
    var ebx, edx, ecx, eax := Get(mem, sp + 16), Get(mem, sp + 20), Get(mem, sp + 24), Get(mem, sp + 28);
    sp := sp + 32 + 8;
    var eip, cs, eflags := Get(mem, sp), Get(mem, sp + 4), Get(mem, sp + 8);
    sp := sp + 12;
    var esp, ss := sp, KERNEL_DS;
    if UserMode(cs) {
      esp, ss := Get(mem, sp), Get(mem, sp + 4);
      sp := sp + 8;
    }
    c := Cpu(ds, edi, esi, ebp, ebx, edx, ecx, eax, eip, cs, eflags, esp, ss);
  }

  // ---- frames for new processes ----

  // The registers a new process starts with.
  function StartOf(user: bool, entry: nat, userTop: nat, stackEnd: nat): Cpu {
    if user then Cpu(USER_DS, 0, 0, 0, 0, 0, 0, 0, entry, USER_CS, EFLAGS_IF, userTop, USER_DS)
    else Cpu(KERNEL_DS, 0, 0, 0, 0, 0, 0, 0, entry, KERNEL_CS, EFLAGS_IF, stackEnd, KERNEL_DS)
  }

  // The selectors, the stack pointer and the entry of a new process: ring 3 on the stack it is given, or
  // ring 0 at the end of its own.
  predicate StartsAt(c: Cpu, user: bool, entry: nat, top: nat) {
    && c.eip == entry && c.esp == top && c.eflags == 0x202
    && c.cs == (if user then 0x1B else 0x08) && c.ds == c.ss == if user then 0x23 else 0x10
  }

  /** A new process starts at its entry with interrupts enabled and nothing in its general registers: a
      program in ring 3 on the stack it was given, a kernel process in ring 0 at the end of its own. */
  lemma StartsInterruptible(user: bool, entry: nat, userTop: nat, stackEnd: nat)
    ensures var c := StartOf(user, entry, userTop, stackEnd);
      && StartsAt(c, user, entry, if user then userTop else stackEnd)
      && Bit(c.eflags, 9) && UserMode(c.cs) == user && WfCpu(c)
      && c.eax == c.ebx == c.ecx == c.edx == c.esi == c.edi == c.ebp == 0
  {
    assert Bit(0x202, 9) == Bit(0x101, 8) == Bit(0x80, 7) == Bit(0x40, 6) == Bit(0x20, 5);
    assert Bit(0x20, 5) == Bit(0x10, 4) == Bit(8, 3) == Bit(4, 2) == Bit(2, 1) == Bit(1, 0);
  }

  /** The pushes of process_create and process_create_user: a frame of 14 or 16 words that ends
      exactly where the stack does and resumes at the entry point with interrupts enabled, on the
      stack and with the selectors of the mode asked for. */
  method BuildFrame(mem: Words, stackEnd: nat, user: bool, entry: nat, userTop: nat) returns (m: Words, sp: nat)
    requires stackEnd > 64
    ensures sp == stackEnd - 4 * FrameLen(StartOf(user, entry, userTop, stackEnd).cs)
    ensures sp == stackEnd - (if user then USER_FRAME else KERNEL_FRAME)
    ensures Resume(m, sp) == StartOf(user, entry, userTop, stackEnd)
    ensures StartsAt(Resume(m, sp), user, entry, if user then userTop else stackEnd)
    ensures OnlyWithin(mem, m, sp, stackEnd)
  {
    m, sp := mem, stackEnd;
    if user {
      m, sp := Push(m, sp, USER_DS);
      m, sp := Push(m, sp, userTop);
    }
    m, sp := Push4(m, sp, EFLAGS_IF, if user then USER_CS else KERNEL_CS, entry, 0);
    m, sp := Push(m, sp, IRQ0);
    m, sp := Push4(m, sp, 0, 0, 0, 0);
    m, sp := Push4(m, sp, 0, 0, 0, 0);
    m, sp := Push(m, sp, if user then USER_DS else KERNEL_DS);
  }
}
