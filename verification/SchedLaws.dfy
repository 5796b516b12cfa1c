// What a creation, a kill and a tick do to the ring, place by place, and how long a process keeps the
// processor.

module SchedLaws {
  import H = HeapSpec
  import opened SchedSpec
  import opened SchedWait

  // ---- process_create and process_create_user ----

  // The block of a stack that was not there before.
  ghost predicate StackAdded(before: seq<H.Block>, after: seq<H.Block>, stack: nat) {
    exists b :: b in H.Live(after) && b !in H.Live(before) && b.Payload() == stack && b.size >= 4096
      && H.Live(after) == H.Live(before) + {b}
  }

  // The new process: the lowest slot but 0 that was not in use, and a frame of 14 or 16 words at the end
  // of its stack.
  ghost predicate NewProc(ps: seq<Proc>, p: Proc, pid: nat, user: bool, status: Status) {
    && 1 <= p.slot < 16 && !HasSlot(ps, p.slot) && (forall i: nat | 1 <= i < p.slot :: HasSlot(ps, i))
    && p.pid == pid && p.status == status && p.dir == 0
    && p.esp == p.stack + 4096 - if user then 64 else 56
  }

  ghost predicate Refused(s: Sched) {
    || (forall i: nat | 1 <= i < 16 :: HasSlot(s.procs, i))
    || (forall b | b in s.heap && !b.used :: b.size < 4096)
  }

  /** A creation is refused just when slots 1 to 15 are all in use or no free block is large enough; it
      changes nothing then. Otherwise the new process stands right behind the current one, with the next
      pid and a stack that is nobody's, and everyone else as before. */
  lemma CreateAdds(s: Sched, user: bool, status: Status)
    requires Inv(s)
    ensures var (s', r) := DoCreate(s, user, status);
      if Refused(s) then r == -1 && s' == s
      else
        && r == s.nextPid && |s'.procs| == |s.procs| + 1
        && s' == s.(procs := s'.procs, nextPid := s.nextPid + 1, heap := s'.heap)
        && s'.procs == [s.procs[0], s'.procs[1]] + s.procs[1..]
        && NewProc(s.procs, s'.procs[1], s.nextPid, user, status)
        && StackAdded(s.heap, s'.heap, s'.procs[1].stack)
  {
    var (s', r) := DoCreate(s, user, status);
    var i := FreeSlot(s.procs);
    H.MallocStep(s.heap, PROC_STACK);
    assert i == 16 <==> forall j: nat | 1 <= j < 16 :: HasSlot(s.procs, j);
    if H.Malloc(s.heap, PROC_STACK).1 == 0 {
      forall b | b in s.heap && !b.used ensures b.size < 4096 { assert !H.Fits(b, PROC_STACK); }
    } else {
      var f := H.FirstFit(s.heap, PROC_STACK, 0);
      assert s.heap[f] in s.heap && H.Fits(s.heap[f], PROC_STACK);
    }
  }

  // ---- process_kill ----

  // The stack released, and every other live block still live.
  ghost predicate StackFreed(before: seq<H.Block>, after: seq<H.Block>, stack: nat) {
    !H.IsLive(after, stack) && H.Live(after) == set b | b in H.Live(before) && b.Payload() != stack
  }

  // The process of this pid gone from place j of the ring, the others in the same order as they were.
  ghost predicate Gone(s: Sched, s': Sched, pid: nat, j: nat) {
    && 0 < j < |s.procs| && s.procs[j].pid == pid
    && s' == s.(procs := s.procs[..j] + s.procs[j + 1..], heap := s'.heap)
    && StackFreed(s.heap, s'.heap, s.procs[j].stack)
  }

  /** A kill fails with -2 for the current process, with -1 for a pid that nobody has, and changes nothing
      then. Otherwise it returns 0, and that process is gone and its stack is free. */
  lemma KillRemoves(s: Sched, pid: nat)
    requires Inv(s)
    ensures var (s', r) := DoKill(s, pid);
      && (r == -2 <==> s.procs[0].pid == pid)
      && (r == -1 <==> forall k | 0 <= k < |s.procs| :: s.procs[k].pid != pid)
      && (r == 0 <==> exists j :: Gone(s, s', pid, j))
      && (r == 0 || ((r == -1 || r == -2) && s' == s))
      && (r == 0 ==> forall k | 0 <= k < |s'.procs| :: s'.procs[k].pid != pid)
  {
    var (s', r) := DoKill(s, pid);
    var j := IndexOfPid(s.procs, pid);
    if 0 < j < |s.procs| {
      StackIsFreed(s, j);
      assert Remove(s.procs, j) == s.procs[..j] + s.procs[j + 1..];
      assert Gone(s, s', pid, j);
      forall k | 0 <= k < |s'.procs| ensures s'.procs[k].pid != pid {
        assert Apart(s.procs, j, if k < j then k else k + 1);
      }
    } else {
      assert forall i | 0 < i < |s.procs| && j == 0 :: Apart(s.procs, 0, i);
    }
  }

  lemma StackIsFreed(s: Sched, j: nat)
    requires Inv(s) && j < |s.procs|
    ensures StackFreed(s.heap, Released(s.heap, s.procs[j].stack), s.procs[j].stack)
  {
    var stack := s.procs[j].stack;
    RemoveKeeps(s, j);
    if H.IsLive(s.heap, stack) {
      var b :| b in s.heap && b.used && b.Payload() == stack;
      H.FreeStep(s.heap, b);
      forall c | c in H.Live(s.heap) && c.Payload() == stack ensures c == b { H.LiveApart(s.heap, b, c); }
    }
  }

  // ---- schedule ----

  // The first ready process behind the current one is at place c, the end standing for nobody.
  predicate NextIs(ps: seq<Proc>, c: nat) {
    && 1 <= c <= |ps| && (c < |ps| ==> ps[c].status == Ready)
    && forall j | 1 <= j < c :: ps[j].status != Ready
  }

  /** A tick in the middle of a quantum only counts it. At its end the frame of the current process is
      kept, and the next ready process runs in its place, which is then ready; with none ready it goes
      on. A process that has exited gives way at once and is gone, run_queue moving on if it pointed to
      it; with none ready it runs again. */
  lemma TickMoves(s: Sched, regs: nat, c: nat)
    requires Inv(s) && NextIs(s.procs, c)
    ensures var (ps, s', exited) := (s.procs, DoTick(s, regs), s.procs[0].status == Zombie);
      if !exited && s.quantum + 1 < 5 then s' == s.(quantum := s.quantum + 1)
      else if c == |ps| then
        s' == if exited then s.(procs := ps[0 := ps[0].(status := Running)])
              else s.(procs := ps[0 := ps[0].(esp := regs)], quantum := 0)
      else if exited then
        && s'.procs == [ps[c].(status := Running)] + ps[c + 1..] + ps[1..c] && s'.quantum == 0
        && s'.nextPid == s.nextPid && s'.head == (if s.head == ps[0].slot then ps[1].slot else s.head)
        && StackFreed(s.heap, s'.heap, ps[0].stack)
      else
        && s' == s.(procs := s'.procs, quantum := 0)
        && s'.procs == [ps[c].(status := Running)] + ps[c + 1..] + [ps[0].(esp := regs, status := Ready)] + ps[1..c]
  {
    assert c == NextReady(s.procs, 1);
    if c < |s.procs| {
      if s.procs[0].status == Zombie { StackIsFreed(s, 0); Reaped(s.procs, c); } else { Turned(s.procs, c, regs); }
    }
  }

  // The ring without the process at its front, seen from place c.
  lemma Reaped(ps: seq<Proc>, c: nat)
    requires 0 < c < |ps|
    ensures SetStatus(RotateTo(Remove(ps, 0), c - 1), 0, Running) ==
      [ps[c].(status := Running)] + ps[c + 1..] + ps[1..c]
  {
  }

  // The ring seen from place c, the process at its front ready behind the others.
  lemma Turned(ps: seq<Proc>, c: nat, regs: nat)
    requires 0 < c < |ps|
    ensures SetStatus(RotateTo(SetStatus(ps[0 := ps[0].(esp := regs)], 0, Ready), c), 0, Running) ==
      [ps[c].(status := Running)] + ps[c + 1..] + [ps[0].(esp := regs, status := Ready)] + ps[1..c]
  {
  }

  // ---- the events of a run ----

  /** What a run is made of: creations, forks, kills and ticks as said above, an exit that leaves the current
      process for the next tick to take away, the page directory of another process, and what the rest of
      the kernel allocates and frees. */
  lemma EventActs(s: Sched, e: Event)
    requires Inv(s) && Legal(s, e)
    ensures var s' := Step(s, e);
      match e
      case Create(user) => s' == DoCreate(s, user, Ready).0
      case Fork => s' == DoCreate(s, false, Zombie).0
      case Kill(pid) => s' == DoKill(s, pid).0
      case Tick(regs) => s' == DoTick(s, regs)
      case Exit => s' == s.(procs := s.procs[0 := s.procs[0].(status := Zombie)])
      case SetDir(pid, dir) =>
        && s' == s.(procs := s'.procs) && |s'.procs| == |s.procs| && s'.procs[0] == s.procs[0]
        && forall k | 0 < k < |s.procs| ::
             s'.procs[k] == if s.procs[k].pid == pid then s.procs[k].(dir := dir) else s.procs[k]
      case Allocate(size) => s' == s.(heap := H.Malloc(s.heap, size).0)
      case Release(ptr) => s' == s.(heap := s'.heap) && StackFreed(s.heap, s'.heap, ptr)
  {
    match e
    case SetDir(pid, dir) =>
      var j := IndexOfPid(s.procs, pid);
      forall k | 0 < k < |s.procs| && k != j ensures s.procs[k].pid != pid {
        if j < |s.procs| { assert Apart(s.procs, j, k); }
      }
    case Release(ptr) =>
      var b :| b in s.heap && b.used && b.Payload() == ptr;
      H.FreeStep(s.heap, b);
      forall c | c in H.Live(s.heap) && c.Payload() == ptr ensures c == b { H.LiveApart(s.heap, b, c); }
    case _ =>
  }

  // ---- the quantum ----

  lemma {:induction false} KeepsProcessor(s: Sched, es: seq<Event>)
    requires Inv(s) && LegalRun(s, es) && s.procs[0].status == Running && Exit !in es && s.quantum + Ticks(es) < 5
    ensures var s' := Run(s, es);
      |s'.procs| > 0 && s'.procs[0].pid == s.procs[0].pid && s'.procs[0].status == Running
      && s'.quantum == s.quantum + Ticks(es)
    decreases |es|
  {
    if |es| > 0 {
      var s1 := Step(s, es[0]);
      StepKeeps(s, es[0]);
      assert es[0] in es && es[0] != Exit;
      assert s1.procs[0].pid == s.procs[0].pid && s1.procs[0].status == Running;
      KeepsProcessor(s1, es[1..]);
    }
  }

  /** A process just switched to keeps the processor for four more ticks, whatever the others and the
      kernel do, unless it exits; the fifth takes it away exactly when some other process is ready. */
  lemma FullQuantum(s: Sched, regs: nat, es: seq<Event>, last: nat)
    requires Inv(s) && regs != 0 && last != 0 && DoTick(s, regs).procs[0].pid != s.procs[0].pid
    requires LegalRun(DoTick(s, regs), es) && Exit !in es && Ticks(es) == 4
    ensures var (s1, s2) := (DoTick(s, regs), Run(DoTick(s, regs), es));
      && |s2.procs| > 0 && s2.procs[0].pid == s1.procs[0].pid && s2.procs[0].status == Running
      && (DoTick(s2, last).procs[0].pid != s1.procs[0].pid <==>
            exists k :: 0 < k < |s2.procs| && s2.procs[k].status == Ready)
  {
    var s1 := DoTick(s, regs);
    TickKeeps(s, regs);
    assert s1.quantum == 0 && s1.procs[0].status == Running;
    KeepsProcessor(s1, es);
    var s2 := Run(s1, es);
    RunKeeps(s1, es);
    var c := NextReady(s2.procs, 1);
    TickMoves(s2, last, c);
    if c < |s2.procs| { assert Apart(s2.procs, 0, c); }
  }
}
