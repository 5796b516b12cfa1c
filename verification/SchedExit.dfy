// What becomes of a process that exits, and of one that is forked.

module SchedExit {
  import HeapSpec
  import opened SchedSpec

  // Process pid stands at place j of the ring, running if that is the front.
  predicate Stands(s: Sched, pid: nat, j: nat) {
    j < |s.procs| && s.procs[j].pid == pid && (j == 0 ==> s.procs[0].status == Running)
  }

  predicate InRing(ps: seq<Proc>, pid: nat) {
    exists k :: 0 <= k < |ps| && ps[k].pid == pid
  }

  /** The tick after an exit takes the process out of the ring and gives its stack back if and only if
      some other process is ready; with none ready it is the running process again, as if it had not
      exited. */
  lemma ExitThenTick(s: Sched, regs: nat)
    requires Inv(s) && regs != 0
    ensures var (pid, s') := (s.procs[0].pid, DoTick(Step(s, Exit), regs));
      var othersReady := exists k :: 0 < k < |s.procs| && s.procs[k].status == Ready;
      && (InRing(s'.procs, pid) <==> !othersReady)
      && (othersReady ==> s'.heap == Released(s.heap, s.procs[0].stack))
      && (!othersReady ==> s' == s.(procs := s.procs[0 := s.procs[0].(status := Running)]))
  {
    var (ps, c) := (s.procs, NextReady(s.procs, 1));
    var s1 := Step(s, Exit);
    SameNextReady(ps, s1.procs, 1);
    if c < |ps| {
      var rest := Remove(s1.procs, 0);
      forall k | 0 <= k < |rest| ensures rest[k].pid != ps[0].pid { assert Apart(ps, 0, k + 1); }
    } else {
      assert DoTick(s1, regs).procs[0].pid == ps[0].pid;
    }
  }

  // The shell alone after boot, for one: its exit has no effect.
  lemma ShellRunsOn(heap: seq<HeapSpec.Block>, regs: nat)
    requires HeapSpec.Tiles(heap) && regs != 0
    ensures DoTick(Step(Booted(heap), Exit), regs) == Booted(heap)
  {
    BootedInv(heap);
    ExitThenTick(Booted(heap), regs);
  }

  lemma {:induction false} SameNextReady(ps: seq<Proc>, qs: seq<Proc>, from: nat)
    requires 1 <= from <= |ps| == |qs| && forall k | 1 <= k < |ps| :: qs[k] == ps[k]
    ensures NextReady(qs, from) == NextReady(ps, from)
    decreases |ps| - from
  {
    if from < |ps| { SameNextReady(ps, qs, from + 1); }
  }

  // Neither a kill of the process nor an exit of its own.
  predicate LeavesAlone(s: Sched, e: Event, pid: nat)
    requires |s.procs| > 0
  {
    match e
    case Kill(p) => p != pid
    case Exit => s.procs[0].pid != pid
    case _ => true
  }

  ghost predicate LeftAlone(s: Sched, es: seq<Event>, pid: nat)
    requires |s.procs| > 0 && LegalRun(s, es)
    decreases |es|
  {
    |es| > 0 ==> LeavesAlone(s, es[0], pid) && LeftAlone(Step(s, es[0]), es[1..], pid)
  }

  lemma StaysAfterTick(s: Sched, regs: nat, pid: nat, j: nat) returns (j': nat)
    requires Inv(s) && Stands(s, pid, j)
    ensures Stands(DoTick(s, regs), pid, j')
  {
    var (n, c) := (|s.procs|, NextReady(s.procs, 1));
    if c == n || (s.procs[0].status != Zombie && s.quantum + 1 < QUANTUM) {
      j' := j;
    } else if s.procs[0].status == Zombie {
      j' := if j >= c then j - c else j - c + (n - 1);
    } else {
      j' := if j >= c then j - c else j - c + n;
    }
  }

  lemma StaysAfterStep(s: Sched, e: Event, pid: nat, j: nat) returns (j': nat)
    requires Inv(s) && Legal(s, e) && LeavesAlone(s, e, pid) && Stands(s, pid, j)
    ensures Stands(Step(s, e), pid, j')
  {
    j' := j;
    match e
    case Create(_) => if j > 0 && |Step(s, e).procs| > |s.procs| { j' := j + 1; }
    case Fork => if j > 0 && |Step(s, e).procs| > |s.procs| { j' := j + 1; }
    case Kill(p) =>
      var d := IndexOfPid(s.procs, p);
      if 0 < d < j { j' := j - 1; }
    case Tick(regs) => j' := StaysAfterTick(s, regs, pid, j);
    case _ =>
  }

  /** Nothing else takes a process out of the ring: one that was set running again after its exit, and
      one that process_fork_stub made a zombie, keep their slots and stacks over every run in which
      they are not killed and do not exit. */
  lemma {:induction false} StaysForGood(s: Sched, es: seq<Event>, pid: nat, j: nat) returns (j': nat)
    requires Inv(s) && LegalRun(s, es) && LeftAlone(s, es, pid) && Stands(s, pid, j)
    ensures Stands(Run(s, es), pid, j')
    decreases |es|
  {
    j' := j;
    if |es| > 0 {
      StepKeeps(s, es[0]);
      var j1 := StaysAfterStep(s, es[0], pid, j);
      j' := StaysForGood(Step(s, es[0]), es[1..], pid, j1);
    }
  }
}
