// How long a ready process waits for the processor.

module SchedWait {
  import opened SchedSpec

  function ReadyIn(ps: seq<Proc>, n: nat): nat
    requires n <= |ps|
  {
    if n == 0 then 0 else ReadyIn(ps, n - 1) + if ps[n - 1].status == Ready then 1 else 0
  }

  // The ready processes between the current one and place j of the ring.
  function Ahead(ps: seq<Proc>, j: nat): int
    requires 0 < j <= |ps|
  {
    ReadyIn(ps, j) - ReadyIn(ps, 1)
  }

  lemma {:induction false} ReadyMonotone(ps: seq<Proc>, a: nat, b: nat)
    requires a <= b <= |ps|
    ensures ReadyIn(ps, a) <= ReadyIn(ps, b)
  {
    if a < b { ReadyMonotone(ps, a, b - 1); }
  }

  // Process pid stands ready at place j.
  predicate ReadyAt(ps: seq<Proc>, pid: nat, j: nat) {
    0 < j < |ps| && ps[j].pid == pid && ps[j].status == Ready
  }

  // Ticks that can still pass before the process at place j runs.
  function Rank(s: Sched, j: nat): int
    requires 0 < j <= |s.procs|
  {
    QUANTUM * Ahead(s.procs, j) + QUANTUM - s.quantum
  }

  predicate Runs(s: Sched, pid: nat) {
    |s.procs| > 0 && s.procs[0].pid == pid && s.procs[0].status == Running
  }

  predicate SameStatus(ps: seq<Proc>, k: nat, qs: seq<Proc>, m: nat)
    requires k < |ps| && m < |qs|
  {
    ps[k].status == qs[m].status
  }

  // The n processes from place a of one list stand, in order, from place b of the other.
  ghost predicate Shifted(ps: seq<Proc>, qs: seq<Proc>, a: nat, b: nat, n: nat) {
    && a + n <= |ps| && b + n <= |qs|
    && forall k, m | a <= k < a + n && m == k + b - a :: SameStatus(ps, k, qs, m)
  }

  lemma {:induction false} ReadyShift(ps: seq<Proc>, qs: seq<Proc>, a: nat, b: nat, n: nat)
    requires Shifted(ps, qs, a, b, n)
    ensures ReadyIn(qs, b + n) - ReadyIn(qs, b) == ReadyIn(ps, a + n) - ReadyIn(ps, a)
  {
    if n > 0 {
      ReadyShift(ps, qs, a, b, n - 1);
      assert SameStatus(ps, a + n - 1, qs, b + n - 1);
    }
  }

  lemma {:induction false} NoneReady(ps: seq<Proc>, a: nat, b: nat)
    requires a <= b <= |ps| && forall k | a <= k < b :: ps[k].status != Ready
    ensures ReadyIn(ps, b) == ReadyIn(ps, a)
  {
    if a < b { NoneReady(ps, a, b - 1); }
  }

  // Turning the ring to the first ready process takes one process out of those ahead of j.
  lemma AheadAfterTurn(ps: seq<Proc>, qs: seq<Proc>, c: nat, j: nat)
    requires 1 <= c < j < |ps| && j - c <= |qs|
    requires ps[c].status == Ready && forall k | 1 <= k < c :: ps[k].status != Ready
    requires Shifted(ps, qs, c + 1, 1, j - c - 1)
    ensures Ahead(qs, j - c) == Ahead(ps, j) - 1
  {
    NoneReady(ps, 1, c);
    ReadyShift(ps, qs, c + 1, 1, j - c - 1);
    assert ReadyIn(ps, c + 1) == ReadyIn(ps, c) + 1;
  }

  /** A tick makes a ready process run, or lowers its rank. */
  lemma TickProgress(s: Sched, regs: nat, pid: nat, j: nat) returns (j': nat)
    requires s.quantum < QUANTUM && ReadyAt(s.procs, pid, j) && s.procs[0].status != Ready
    ensures var s' := DoTick(s, regs);
      Runs(s', pid) || (ReadyAt(s'.procs, pid, j') && Rank(s', j') <= Rank(s, j) - 1)
  {
    var (ps, c) := (s.procs, NextReady(s.procs, 1));
    assert c <= j;
    j' := j;
    if ps[0].status == Zombie || s.quantum + 1 == QUANTUM {
      if c < j {
        j' := j - c;
        TurnProgress(s, regs, pid, j, c);
      }
    } else {
      assert DoTick(s, regs).procs == ps;
    }
  }

  lemma TurnProgress(s: Sched, regs: nat, pid: nat, j: nat, c: nat)
    requires s.quantum < QUANTUM && ReadyAt(s.procs, pid, j) && s.procs[0].status != Ready
    requires c == NextReady(s.procs, 1) < j && (s.procs[0].status == Zombie || s.quantum + 1 == QUANTUM)
    ensures var s' := DoTick(s, regs);
      ReadyAt(s'.procs, pid, j - c) && Rank(s', j - c) <= Rank(s, j) - 1
  {
    var (ps, s') := (s.procs, DoTick(s, regs));
    forall k, m | c + 1 <= k < j && m == k - c ensures SameStatus(ps, k, s'.procs, m) {}
    AheadAfterTurn(ps, s'.procs, c, j);
    assert s'.quantum == 0;
  }

  // Events after which the process still stands ready.
  ghost predicate Harmless(e: Event, pid: nat) {
    match e
    case Create(_) => false
    case Kill(p) => p != pid
    case _ => true
  }

  /** Nothing but a new ready process raises the rank. */
  lemma KillProgress(s: Sched, p: nat, pid: nat, j: nat) returns (j': nat)
    requires ReadyAt(s.procs, pid, j) && p != pid
    ensures ReadyAt(Step(s, Kill(p)).procs, pid, j') && Rank(Step(s, Kill(p)), j') <= Rank(s, j)
  {
    var (ps, qs) := (s.procs, Step(s, Kill(p)).procs);
    j' := j;
    var d := IndexOfPid(ps, p);
    if 0 < d < j {
      j' := j - 1;
      AheadAfterRemoval(ps, d, j);
    } else if j < d < |ps| {
      ReadyShift(ps, qs, 1, 1, j - 1);
    }
  }

  lemma OtherProgress(s: Sched, e: Event, pid: nat, j: nat) returns (j': nat)
    requires ReadyAt(s.procs, pid, j) && Harmless(e, pid) && !e.Tick?
    ensures ReadyAt(Step(s, e).procs, pid, j') && Rank(Step(s, e), j') <= Rank(s, j)
  {
    var (ps, qs) := (s.procs, Step(s, e).procs);
    j' := j;
    match e {
      case Kill(p) => j' := KillProgress(s, p, pid, j);
      case Fork =>
        if |qs| > |ps| {
          j' := j + 1;
          AheadAfterFork(ps, qs, j);
        }
      case Exit =>
        ReadyShift(ps, qs, 1, 1, j - 1);
      case SetDir(_, _) =>
        ReadyShift(ps, qs, 1, 1, j - 1);
      case _ =>
    }
  }

  lemma AheadAfterRemoval(ps: seq<Proc>, d: nat, j: nat)
    requires 0 < d < j < |ps|
    ensures Ahead(Remove(ps, d), j - 1) <= Ahead(ps, j)
  {
    var qs := Remove(ps, d);
    ReadyShift(ps, qs, 1, 1, d - 1);
    ReadyShift(ps, qs, d + 1, d, j - d - 1);
  }

  lemma AheadAfterFork(ps: seq<Proc>, qs: seq<Proc>, j: nat)
    requires 0 < j < |ps| && |qs| == |ps| + 1 && qs[1].status != Ready
    requires Shifted(ps, qs, 1, 2, j - 1)
    ensures Ahead(qs, j + 1) == Ahead(ps, j)
  {
    ReadyShift(ps, qs, 1, 2, j - 1);
    assert ReadyIn(qs, 2) == ReadyIn(qs, 1);
  }

  function Ticks(es: seq<Event>): nat {
    if |es| == 0 then 0 else (if es[0].Tick? then 1 else 0) + Ticks(es[1..])
  }

  // Some prefix of the run leaves the process running.
  ghost predicate EventuallyRuns(s: Sched, es: seq<Event>, pid: nat)
    requires |s.procs| > 0 && LegalRun(s, es)
    decreases |es|
  {
    Runs(s, pid) || (|es| > 0 && EventuallyRuns(Step(s, es[0]), es[1..], pid))
  }

  /** Bounded waiting: a ready process with r ready processes ahead of it runs within 5(r + 1)
      ticks, whatever exits, kills of others, forks and zombies the run contains, as long as no
      new ready process is created. */
  lemma {:induction false} BoundedWaiting(s: Sched, es: seq<Event>, pid: nat, j: nat)
    requires Inv(s) && LegalRun(s, es) && ReadyAt(s.procs, pid, j)
    requires forall k | 0 <= k < |es| :: Harmless(es[k], pid)
    requires Ticks(es) >= QUANTUM * (Ahead(s.procs, j) + 1)
    ensures EventuallyRuns(s, es, pid)
  {
    ReadyMonotone(s.procs, 1, j);
    RunsWithinRank(s, es, pid, j);
  }

  lemma {:induction false} RunsWithinRank(s: Sched, es: seq<Event>, pid: nat, j: nat)
    requires Inv(s) && LegalRun(s, es) && ReadyAt(s.procs, pid, j)
    requires forall k | 0 <= k < |es| :: Harmless(es[k], pid)
    requires Ticks(es) >= Rank(s, j)
    ensures EventuallyRuns(s, es, pid)
    decreases |es|
  {
    ReadyMonotone(s.procs, 1, j);
    assert |es| > 0;
    var (s', e, rest) := (Step(s, es[0]), es[0], es[1..]);
    assert forall k | 0 <= k < |rest| :: rest[k] == es[k + 1];
    StepKeeps(s, e);
    if e.Tick? {
      var j' := TickProgress(s, e.regs, pid, j);
      if !Runs(s', pid) { RunsWithinRank(s', rest, pid, j'); } else { RunsNow(s', rest, pid); }
    } else {
      var j' := OtherProgress(s, e, pid, j);
      RunsWithinRank(s', rest, pid, j');
    }
  }

  lemma RunsNow(s: Sched, es: seq<Event>, pid: nat)
    requires Runs(s, pid) && LegalRun(s, es)
    ensures EventuallyRuns(s, es, pid)
  {
  }
}
