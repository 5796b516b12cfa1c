// process.c: the table, the run queue and the current process, changed in place.

module Scheduler {
  import opened Bits
  import H = HeapSpec
  import opened Heap
  import opened SchedSpec
  import opened SchedLaws
  import opened SchedTable
  import opened Context

  class Processes {
    const table: array<Pcb>
    var runQueue: int
    var current: int
    var nextPid: nat
    var quantum: nat
    var switchEsp: nat
    var switchCr3: nat
    const heap: KernelHeap
    const kernelPd: nat
    var stacks: Words              // memory behind the kernel stacks
    ghost var procs: seq<Proc>     // the ring, the current process first

    ghost function Now(): Sched
      reads this, heap
    {
      Sched(procs, if runQueue >= 0 then runQueue else 0, nextPid, quantum, heap.blocks)
    }

    ghost predicate Valid()
      reads this, heap, table
    {
      && heap.Valid() && Inv(Now()) && Repr(table[..], procs)
      && runQueue >= 0 && current == procs[0].slot
    }

    // process_init, on a table that is all zeroes otherwise.
    constructor (heap: KernelHeap, kernelPd: nat)
      requires heap.Valid()
      ensures Valid() && Now() == Booted(heap.blocks) && this.heap == heap && this.kernelPd == kernelPd && fresh(table)
      ensures switchEsp == 0 && switchCr3 == 0
    {
      this.heap := heap;
      this.kernelPd := kernelPd;
      table := new Pcb[MAX_PROCS](_ => UNUSED_PCB);
      nextPid, quantum, switchEsp, switchCr3 := 0, 0, 0, 0;
      stacks := map[];
      runQueue, current := 0, 0;
      new;
      table[0] := Pcb(nextPid, SRunning, 0, 0, 0, 0);
      nextPid := nextPid + 1;
      procs := [Proc(0, 0, Running, 0, 0, 0)];
      BootedInv(heap.blocks);
      assert Links(table[..], procs, 0);
      assert HasSlot(procs, 0) by { assert procs[0].slot == 0; }
      forall i | 0 <= i < MAX_PROCS ensures Vacant(table[..], procs, i) {}
    }

    // The search both creators start with: an unused slot other than 0.
    method FindSlot() returns (i: nat)
      requires Repr(table[..], procs)
      ensures i == FreeSlot(procs)
    {
      i := 1;
      while i < MAX_PROCS
        invariant 1 <= i <= MAX_PROCS && forall j: nat | 1 <= j < i :: HasSlot(procs, j)
      {
        InTable(table[..], procs, i);
        if table[i].state == SUnused { break; }
        i := i + 1;
      }
      FreeSlotIs(procs, i);
    }

    /** process_create and process_create_user: the new process is linked in behind the current
        one with a stack of its own and a frame that starts it at entry. */
    method Create(user: bool, entry: nat, userTop: nat) returns (slot: int)
      requires Valid() && nextPid + 1 < WORD32
      modifies this`nextPid, this`procs, this`stacks, table, heap
      ensures Valid() && Now() == DoCreate(old(Now()), user, Ready).0
      ensures slot == if DoCreate(old(Now()), user, Ready).1 == -1 then -1 else FreeSlot(old(procs))
      ensures slot != -1 ==>
        && procs[1].slot == slot
        && Resume(stacks, procs[1].esp) == StartOf(user, entry, userTop, procs[1].stack + PROC_STACK)
        && StartsAt(Resume(stacks, procs[1].esp), user, entry, if user then userTop else procs[1].stack + 4096)
        && OnlyWithin(old(stacks), stacks, procs[1].stack, procs[1].stack + PROC_STACK)
    {
      ghost var s := Now();
      CreateKeeps(s, user, Ready);
      var i := FindSlot();
      if i == MAX_PROCS { return -1; }
      var stack := heap.KMalloc(PROC_STACK);
      if stack == 0 { return -1; }
      StackAbove(s.heap);
      FreshProc(s);
      var sp := Prepare(stack, user, entry, userTop);
      var p := Proc(i, nextPid, Ready, sp, stack, 0);
      LinkIn(i, p);
      nextPid := nextPid + 1;
      return i;
    }

    // The frame on the new stack.
    method Prepare(stack: nat, user: bool, entry: nat, userTop: nat) returns (sp: nat)
      modifies this`stacks
      ensures sp == stack + PROC_STACK - (if user then USER_FRAME else KERNEL_FRAME)
      ensures Resume(stacks, sp) == StartOf(user, entry, userTop, stack + PROC_STACK)
      ensures StartsAt(Resume(stacks, sp), user, entry, if user then userTop else stack + 4096)
      ensures OnlyWithin(old(stacks), stacks, stack, stack + PROC_STACK)
    {
      var m;
      m, sp := BuildFrame(stacks, stack + PROC_STACK, user, entry, userTop);
      stacks := m;
    }

    // Filling the slot and the two pointer writes.
    method LinkIn(i: nat, p: Proc)
      requires Repr(table[..], procs) && current == procs[0].slot && p.slot == i < MAX_PROCS && !HasSlot(procs, i)
      requires p.dir == 0
      requires forall k | 0 <= k < |procs| :: procs[k].pid != p.pid && procs[k].stack != p.stack
      modifies table, this`procs
      ensures procs == InsertAfterFirst(old(procs), p) && Repr(table[..], procs)
    {
      ghost var t := table[..];
      ReprInsert(t, procs, p);
      assert Links(t, procs, 0) && Vacant(t, procs, i);
      var cur := current;
      table[i] := Pcb(p.pid, StateOf(p.status), p.esp, p.stack, table[cur].next, table[i].dir);
      table[cur] := table[cur].(next := i);
      procs := InsertAfterFirst(procs, p);
      assert table[..] == t[i := PcbOf(p, t[cur].next)][cur := t[cur].(next := i)];
    }

    // process_exit up to its idle loop.
    method Exit()
      requires Valid()
      modifies table, this`procs
      ensures Valid() && Now() == Step(old(Now()), SchedSpec.Exit)
      ensures procs == old(procs)[0 := old(procs)[0].(status := Zombie)]
    {
      StepKeeps(Now(), SchedSpec.Exit);
      SetState(0, Zombie, current);
    }

    /** process_fork_stub: a child that is a zombie from the start. */
    method ForkStub() returns (pid: int)
      requires Valid() && nextPid + 1 < WORD32
      modifies this`nextPid, this`procs, this`stacks, table, heap
      ensures Valid() && Now() == Step(old(Now()), Fork) && Now() == DoCreate(old(Now()), false, Zombie).0
      ensures pid == DoCreate(old(Now()), false, Zombie).1
    {
      StepKeeps(Now(), Fork);
      var child := Create(false, 0, 0);
      if child == -1 { return -1; }
      SetState(1, Zombie, child);
      assert procs == Step(old(Now()), Fork).procs;
      assert Links(table[..], procs, 1);
      return table[child].pid;
    }

    // Assigning a state to the process at place k of the ring.
    method SetState(ghost k: nat, st: Status, slot: int)
      requires Repr(table[..], procs) && k < |procs| && slot == procs[k].slot
      modifies table, this`procs
      ensures Repr(table[..], procs) && procs == SetStatus(old(procs), k, st)
    {
      ReprUpdate(table[..], procs, k, procs[k].(status := st));
      assert Links(table[..], procs, k);
      table[slot] := table[slot].(state := StateOf(st));
      procs := SetStatus(procs, k, st);
      assert table[..] == old(table[..])[slot := table[slot]];
    }

    method SetDir(ghost k: nat, slot: int, dir: nat)
      requires Repr(table[..], procs) && k < |procs| && slot == procs[k].slot
      modifies table, this`procs
      ensures Repr(table[..], procs) && procs == old(procs)[k := old(procs)[k].(dir := dir)]
    {
      ReprUpdate(table[..], procs, k, procs[k].(dir := dir));
      assert Links(table[..], procs, k);
      table[slot] := table[slot].(dir := dir);
      procs := procs[k := procs[k].(dir := dir)];
      assert table[..] == old(table[..])[slot := table[slot]];
    }

    // reset_process_slot
    method Reset(slot: nat)
      requires table.Length == MAX_PROCS && slot < MAX_PROCS && heap.Valid()
      requires table[slot].stack == 0 || H.IsLive(heap.blocks, table[slot].stack)
      modifies table, heap
      ensures heap.Valid() && heap.blocks == Released(old(heap.blocks), old(table[slot].stack))
      ensures table[..] == old(table[..])[slot := UNUSED_PCB]
    {
      if table[slot].stack != 0 {
        heap.KFree(table[slot].stack);
        table[slot] := table[slot].(stack := 0);
      } else {
        NullNotLive(heap.blocks);
      }
      table[slot] := UNUSED_PCB;
    }

    // The scan both halves of schedule end with.
    method FindCandidate() returns (candidate: int, ghost c: nat)
      requires Repr(table[..], procs) && current == procs[0].slot
      ensures c == NextReady(procs, 1)
      ensures candidate == procs[if NextReady(procs, 1) < |procs| then NextReady(procs, 1) else 0].slot
      ensures candidate == current <==> c == |procs|
    {
      DistinctSlots(procs);
      assert Links(table[..], procs, 0);
      assert Links(table[..], procs, Succ(0, |procs|));
      candidate := table[current].next;
      c := 1;
      while candidate != current && table[candidate].state != SReady
        invariant 1 <= c <= |procs| && candidate == procs[if c < |procs| then c else 0].slot
        invariant Links(table[..], procs, if c < |procs| then c else 0)
        invariant NextReady(procs, c) == NextReady(procs, 1)
        decreases |procs| - c
      {
        candidate := table[candidate].next;
        c := c + 1;
        assert Links(table[..], procs, if c < |procs| then c else 0);
      }
    }

    // The tail of schedule: the candidate at place c runs next.
    method SwitchTo(candidate: int, ghost c: nat)
      requires Repr(table[..], procs) && c < |procs| && candidate == procs[c].slot
      modifies table, this`procs, this`current, this`switchEsp, this`switchCr3
      ensures Repr(table[..], procs) && procs == SetStatus(RotateTo(old(procs), c), 0, Running)
      ensures current == candidate == procs[0].slot
      ensures switchEsp == procs[0].esp && switchCr3 == if procs[0].dir != 0 then procs[0].dir else kernelPd
    {
      SetState(c, Running, candidate);
      ReprRotate(table[..], procs, c);
      procs := RotateTo(procs, c);
      assert procs == SetStatus(RotateTo(old(procs), c), 0, Running);
      assert Links(table[..], procs, 0);
      current := candidate;
      switchEsp := table[candidate].esp;
      switchCr3 := if table[candidate].dir != 0 then table[candidate].dir else kernelPd;
    }

    // The process before the current one in the ring.
    method FindLast() returns (prev: int)
      requires Repr(table[..], procs) && current == procs[0].slot
      ensures prev == procs[|procs| - 1].slot
    {
      DistinctSlots(procs);
      prev := current;
      ghost var k := 0;
      assert Links(table[..], procs, 0);
      while table[prev].next != current
        invariant 0 <= k < |procs| && prev == procs[k].slot && Links(table[..], procs, k)
        decreases |procs| - k
      {
        assert k + 1 < |procs|;
        prev := table[prev].next;
        k := k + 1;
        assert Links(table[..], procs, k);
      }
    }

    // The half of schedule for a current process that has exited.
    method Reap()
      requires Valid() && procs[0].status == Zombie
      modifies table, heap, this`procs, this`current, this`runQueue, this`quantum, this`switchEsp, this`switchCr3
      ensures Repr(table[..], procs) && current == procs[0].slot && runQueue >= 0 && heap.Valid()
      ensures forall regs: nat :: Now() == DoTick(old(Now()), regs)
      ensures SwitchFields(NextReady(old(procs), 1) < |old(procs)|, old(switchEsp), old(switchCr3))
    {
      var dead := current;
      var prev := FindLast();
      var candidate, c := FindCandidate();
      if candidate == dead {
        SetState(0, Running, dead);
        return;
      }
      DropCurrent(prev, dead);
      SwitchTo(candidate, c - 1);
      quantum := 0;
    }

    // The dead process unlinked, its slot cleared and its stack freed; prev is the one before it.
    method DropCurrent(prev: int, dead: int)
      requires Valid() && |procs| > 1 && prev == procs[|procs| - 1].slot && dead == current
      modifies table, heap, this`procs, this`runQueue
      ensures procs == Remove(old(procs), 0) && Repr(table[..], procs) && heap.Valid()
      ensures heap.blocks == Released(old(heap.blocks), old(procs)[0].stack)
      ensures runQueue == if old(runQueue) == dead then procs[0].slot else old(runQueue)
    {
      ghost var (s, t) := (Now(), table[..]);
      ReprRemove(t, procs, 0);
      RemoveKeeps(s, 0);
      assert Links(t, procs, 0) && ProcOk(procs, 0, nextPid, heap.blocks);
      table[prev] := table[prev].(next := table[dead].next);
      if runQueue == dead { runQueue := table[dead].next; }
      Reset(dead);
      procs := Remove(procs, 0);
      assert table[..] == t[prev := t[prev].(next := t[dead].next)][dead := UNUSED_PCB];
    }

    // What irq_common_stub will read.
    ghost predicate SwitchFields(switched: bool, esp: nat, cr3: nat)
      requires |procs| > 0
      reads this
    {
      if switched then switchEsp == procs[0].esp && switchCr3 == (if procs[0].dir != 0 then procs[0].dir else kernelPd)
      else switchEsp == esp && switchCr3 == cr3
    }

    /** schedule, called with the frame of the interrupted process. */
    method Schedule(regs: nat)
      requires Valid() && regs != 0
      modifies table, heap, this`procs, this`current, this`runQueue, this`quantum, this`switchEsp, this`switchCr3
      ensures Valid() && Now() == DoTick(old(Now()), regs)
      ensures SwitchFields(NextReady(old(procs), 1) < |old(procs)| &&
                           (old(procs)[0].status == Zombie || old(quantum) + 1 == QUANTUM),
                           old(switchEsp), old(switchCr3))
    {
      TickKeeps(Now(), regs);
      assert Links(table[..], procs, 0);
      if table[current].state == SZombie {
        Reap();
        return;
      }
      quantum := quantum + 1;
      if quantum < QUANTUM { return; }
      quantum := 0;
      Preempt(regs);
    }

    method Preempt(regs: nat)
      requires Repr(table[..], procs) && current == procs[0].slot && procs[0].status == Running
      modifies table, this`procs, this`current, this`switchEsp, this`switchCr3
      ensures Repr(table[..], procs) && current == procs[0].slot
      ensures var (ps, j) := (old(procs), NextReady(old(procs), 1));
        var saved := ps[0 := ps[0].(esp := regs)];
        procs == if j == |ps| then saved else SetStatus(RotateTo(SetStatus(saved, 0, Ready), j), 0, Running)
      ensures SwitchFields(NextReady(old(procs), 1) < |old(procs)|, old(switchEsp), old(switchCr3))
    {
      ghost var ps := procs;
      ReprUpdate(table[..], procs, 0, procs[0].(esp := regs));
      assert Links(table[..], procs, 0);
      table[current] := table[current].(esp := regs);
      procs := procs[0 := procs[0].(esp := regs)];
      assert table[..] == old(table[..])[current := table[current]];
      SetState(0, Ready, current);
      var candidate, c := FindCandidate();
      SameReady(ps, procs, 1);
      if candidate == current {
        SetState(0, Running, current);
        assert procs == ps[0 := ps[0].(esp := regs)];
        return;
      }
      SwitchTo(candidate, c);
    }

    /** process_kill. The ring survives exactly when the process killed is not the one run_queue
        points to: the search leaves prev on the process itself there, and the pointer to it
        stays in place. */
    method Kill(pid: nat) returns (r: int)
      requires Valid()
      modifies table, heap, this`procs, this`runQueue
      ensures r == DoKill(old(Now()), pid).1
      ensures r == -2 <==> old(procs)[0].pid == pid
      ensures r == -1 <==> forall k | 0 <= k < |old(procs)| :: old(procs)[k].pid != pid
      ensures r == 0 || ((r == -1 || r == -2) && Now() == old(Now()))
      ensures r == 0 ==>
        || (exists j :: Gone(old(Now()), Now(), pid, j))
        || (NoRing(table[..]) && HeadCut(old(table[..]), table[..], old(runQueue), runQueue, pid))
      ensures var j := IndexOfPid(old(procs), pid);
        if r == 0 && old(procs)[j].slot == old(runQueue) then NoRing(table[..])
        else Valid() && Now() == DoKill(old(Now()), pid).0
    {
      KillRemoves(Now(), pid);
      assert Links(table[..], procs, 0);
      if table[current].pid == pid {
        PidIs(procs, pid, 0);
        return -2;
      }
      var p, prev, where := Search(pid);
      if table[p].pid != pid { return -1; }
      Delist(p, prev, pid, where);
      return 0;
    }

    // process_kill once it has found the process.
    method Delist(p: int, prev: int, ghost pid: nat, ghost where: nat)
      requires Valid() && 0 < where < |procs| && where == IndexOfPid(procs, pid) && p == procs[where].slot
      requires prev == if p == runQueue then p else procs[where - 1].slot
      modifies table, heap, this`procs, this`runQueue
      ensures if p == old(runQueue)
        then NoRing(table[..]) && HeadCut(old(table[..]), table[..], p, runQueue, pid)
        else Valid() && Now() == DoKill(old(Now()), pid).0
    {
      ghost var s := Now();
      ghost var t := table[..];
      ReprRemove(t, procs, where);
      RemoveKeeps(s, where);
      assert Links(t, procs, where) && ProcOk(procs, where, nextPid, heap.blocks);
      Unlink(p, prev);
      if p == old(runQueue) {
        HeadBreaks(t, procs, where);
      } else {
        KillLegal(s, pid, where);
        KillKeeps(s, pid);
        procs := Remove(procs, where);
      }
    }

    // The pointer writes of process_kill and the reset of the slot.
    method Unlink(p: int, prev: int)
      requires table.Length == MAX_PROCS && 0 <= p < MAX_PROCS && 0 <= prev < MAX_PROCS && heap.Valid()
      requires table[p].stack == 0 || H.IsLive(heap.blocks, table[p].stack)
      requires p == prev ==> p == runQueue
      modifies table, heap, this`runQueue
      ensures heap.Valid() && heap.blocks == Released(old(heap.blocks), old(table[p].stack))
      ensures runQueue == if p == old(runQueue) then old(table[p].next) else old(runQueue)
      ensures table[..] == if p == prev then old(table[..])[p := UNUSED_PCB]
        else old(table[..])[prev := old(table[prev]).(next := old(table[p].next))][p := UNUSED_PCB]
    {
      table[prev] := table[prev].(next := table[p].next);
      if runQueue == p { runQueue := table[p].next; }
      ghost var t := table[..];
      Reset(p);
      assert table[..] == t[p := UNUSED_PCB];
    }

    // The do-while of process_kill, from run_queue around the ring.
    method Search(pid: nat) returns (p: int, prev: int, ghost where: nat)
      requires Repr(table[..], procs) && runQueue >= 0 && HasSlot(procs, runQueue) && procs[0].pid != pid
      ensures where < |procs| && p == procs[where].slot && 0 <= p < MAX_PROCS
      ensures table[p].pid == procs[where].pid
      ensures table[p].pid == pid ==> where == IndexOfPid(procs, pid) > 0
      ensures table[p].pid != pid ==> IndexOfPid(procs, pid) == |procs|
      ensures table[p].pid == pid ==> prev == if p == runQueue then p else procs[where - 1].slot
    {
      ghost var n := |procs|;
      ghost var h :| 0 <= h < n && procs[h].slot == runQueue;
      prev, p := runQueue, runQueue;
      ghost var k := 0;
      where := h;
      assert Links(table[..], procs, h);
      while table[p].pid != pid
        invariant 0 <= k < n && where == Turn(h, k, n) && p == procs[where].slot && Links(table[..], procs, where)
        invariant prev == procs[if k == 0 then h else Turn(h, k - 1, n)].slot
        invariant forall i: nat | i < k :: procs[Turn(h, i, n)].pid != pid
        decreases n - k
      {
        prev := p;
        p := table[p].next;
        k := k + 1;
        where := Succ(where, n);
        assert Links(table[..], procs, where);
        SlotIs(procs, where, h);
        if p == runQueue {
          assert k == n;
          NotFound(procs, pid, h);
          return;
        }
      }
      PidIs(procs, pid, where);
      SlotIs(procs, where, h);
    }
  }

  // The process run_queue points to was this one, and all that has happened to the pointers is that its
  // slot is cleared and run_queue has moved on.
  predicate HeadCut(before: seq<Pcb>, after: seq<Pcb>, head: int, next: int, pid: nat) {
    && 0 <= head < |before| && before[head].pid == pid
    && after == before[head := UNUSED_PCB] && next == before[head].next
  }

  // Place k steps round a ring of n from place h.
  function Turn(h: nat, k: nat, n: nat): (r: nat)
    requires h < n && k <= n
    ensures r < n
  {
    if h + k < n then h + k else h + k - n
  }

  lemma NotFound(ps: seq<Proc>, pid: nat, h: nat)
    requires h < |ps| && forall i: nat | i < |ps| :: Turn(h, i, |ps|) < |ps| && ps[Turn(h, i, |ps|)].pid != pid
    ensures IndexOfPid(ps, pid) == |ps|
  {
    forall j | 0 <= j < |ps| ensures ps[j].pid != pid {
      var i := if j >= h then j - h else j - h + |ps|;
      assert Turn(h, i, |ps|) == j;
    }
  }

  lemma PidIs(ps: seq<Proc>, pid: nat, j: nat)
    requires AllApart(ps) && j < |ps| && ps[j].pid == pid
    ensures IndexOfPid(ps, pid) == j
  {
    DistinctSlots(ps);
  }

  lemma SlotIs(ps: seq<Proc>, i: nat, j: nat)
    requires AllApart(ps) && i < |ps| && j < |ps|
    ensures ps[i].slot == ps[j].slot <==> i == j
  {
    assert i != j ==> Apart(ps, i, j);
  }

  lemma DistinctSlots(ps: seq<Proc>)
    requires AllApart(ps)
    ensures forall j, k | 0 <= j < |ps| && 0 <= k < |ps| && j != k :: ps[j].slot != ps[k].slot
    ensures forall j, k | 0 <= j < |ps| && 0 <= k < |ps| && j != k :: ps[j].pid != ps[k].pid
  {
    forall j, k | 0 <= j < |ps| && 0 <= k < |ps| && j != k
      ensures ps[j].slot != ps[k].slot && ps[j].pid != ps[k].pid
    {
      assert Apart(ps, j, k);
    }
  }

  lemma KillLegal(s: Sched, pid: nat, j: nat)
    requires Inv(s) && j < |s.procs| && s.procs[j].pid == pid && s.procs[j].slot != s.head
    ensures Legal(s, SchedSpec.Kill(pid))
  {
    DistinctSlots(s.procs);
  }

  // Pid and stack of a new process are nobody else's.
  lemma FreshProc(s: Sched)
    requires Inv(s) && H.Malloc(s.heap, PROC_STACK).1 != 0
    ensures forall k | 0 <= k < |s.procs| ::
      s.procs[k].pid != s.nextPid && s.procs[k].stack != H.Malloc(s.heap, PROC_STACK).1
  {
    var b := NewStack(s.heap);
    forall k | 0 <= k < |s.procs|
      ensures s.procs[k].pid != s.nextPid && s.procs[k].stack != H.Malloc(s.heap, PROC_STACK).1
    {
      assert ProcOk(s.procs, k, s.nextPid, s.heap);
      StackSurvives(s.heap, H.Malloc(s.heap, PROC_STACK).0, s.procs[k].stack, b);
    }
  }

  lemma {:induction false} SameReady(ps: seq<Proc>, qs: seq<Proc>, from: nat)
    requires from <= |ps| == |qs| && forall k | from <= k < |ps| :: qs[k] == ps[k]
    ensures NextReady(qs, from) == NextReady(ps, from)
    decreases |ps| - from
  {
    if from < |ps| { SameReady(ps, qs, from + 1); }
  }

  lemma NullNotLive(heap: seq<H.Block>)
    requires H.Tiles(heap)
    ensures !H.IsLive(heap, 0)
  {
  }

  lemma StackAbove(heap: seq<H.Block>)
    requires H.Tiles(heap)
    ensures H.Malloc(heap, PROC_STACK).1 == 0 || H.Malloc(heap, PROC_STACK).1 > H.HEAP_START
  {
    if H.Malloc(heap, PROC_STACK).1 != 0 { var b := NewStack(heap); }
  }

  // The slots in use form no ring at all.
  ghost predicate NoRing(t: seq<Pcb>) {
    forall ring: seq<nat> :: !IsRing(t, ring)
  }

  lemma HeadBreaks(t: seq<Pcb>, ps: seq<Proc>, j: nat)
    requires Repr(t, ps) && 0 < j < |ps|
    ensures ps[j].slot < |t| && NoRing(t[ps[j].slot := UNUSED_PCB])
  {
    assert Links(t, ps, j);
    var t' := t[ps[j].slot := UNUSED_PCB];
    forall ring: seq<nat> ensures !IsRing(t', ring) {
      HeadKillBreaksRing(t, ps, j, ring);
    }
  }

  lemma FreeSlotIs(ps: seq<Proc>, i: nat)
    requires IsFreeSlot(ps, i)
    ensures FreeSlot(ps) == i
  {
    assert IsFreeSlot(ps, FreeSlot(ps));
  }
}
