// The mutex of ipc.c as interleaved steps: any number of processes, each taking one access to
// the shared words at a time.

module Mutex {

  const MAX_WAITERS := 16

  // Where a process is: about to make the access its name says.
  datatype Pc =
    | Idle
    // mutex_lock
    | LockGuard | LockTest | LockTake | LockOwner | LockRelease
    | WaitTest | WaitStore | WaitCount | WaitRelease | Halted
    // between lock and unlock
    | Critical
    // mutex_unlock
    | UnlockGuard | UnlockClear | UnlockOwner | UnlockTest | UnlockShift(i: nat) | UnlockCount | UnlockRelease

  // pcs has one entry per process, by pid.
  datatype State = State(guard: nat, locked: nat, owner: nat, waiters: seq<nat>, count: nat, pcs: map<nat, Pc>)

  ghost predicate Initial(s: State) {
    && s.guard == 0 && s.locked == 0 && s.owner == 0 && s.count == 0 && |s.waiters| == MAX_WAITERS
    && forall p | p in s.pcs :: s.pcs[p] == Idle
  }

  // Where process p goes next. spin_lock is a test-and-set that is tried again while it finds 1.
  function Next(s: State, pc: Pc): Pc {
    match pc
    case Idle => LockGuard
    case LockGuard => if s.guard == 0 then LockTest else LockGuard
    case LockTest => if s.locked == 0 then LockTake else WaitTest
    case LockTake => LockOwner
    case LockOwner => LockRelease
    case LockRelease => Critical
    case WaitTest => if s.count < MAX_WAITERS then WaitStore else WaitRelease
    case WaitStore => WaitCount
    case WaitCount => WaitRelease
    case WaitRelease => Halted
    case Halted => LockGuard
    case Critical => UnlockGuard
    case UnlockGuard => if s.guard == 0 then UnlockClear else UnlockGuard
    case UnlockClear => UnlockOwner
    case UnlockOwner => UnlockTest
    case UnlockTest => if s.count > 0 then UnlockShift(1) else UnlockRelease
    case UnlockShift(i) => if i < s.count then UnlockShift(i + 1) else UnlockCount
    case UnlockCount => UnlockRelease
    case UnlockRelease => Idle
  }

  // What its access does to the shared words.
  function Access(s: State, p: nat, pc: Pc): State {
    match pc
    case LockGuard => s.(guard := 1)
    case LockTake => s.(locked := 1)
    case LockOwner => s.(owner := p)
    case LockRelease => s.(guard := 0)
    case WaitStore => s.(waiters := if s.count < |s.waiters| then s.waiters[s.count := p] else s.waiters)
    case WaitCount => s.(count := s.count + 1)
    case WaitRelease => s.(guard := 0)
    case UnlockGuard => s.(guard := 1)
    case UnlockClear => s.(locked := 0)
    case UnlockOwner => s.(owner := 0)
    case UnlockShift(i) =>
      if 0 < i < s.count && i < |s.waiters| then s.(waiters := s.waiters[i - 1 := s.waiters[i]]) else s
    case UnlockCount => s.(count := if s.count > 0 then s.count - 1 else 0)
    case UnlockRelease => s.(guard := 0)
    case _ => s
  }

  function Step(s: State, p: nat): State
    requires p in s.pcs
  {
    Access(s, p, s.pcs[p]).(pcs := s.pcs[p := Next(s, s.pcs[p])])
  }

  // Inside the guard: between a successful test-and-set and the release.
  predicate InGuard(s: State, p: nat) {
    p in s.pcs && !(s.pcs[p] in {Idle, LockGuard, Halted, Critical, UnlockGuard})
  }

  // Holding the mutex: from the write of locked to the write that clears it.
  predicate Holds(s: State, p: nat) {
    p in s.pcs && s.pcs[p] in {LockOwner, LockRelease, Critical, UnlockGuard, UnlockClear}
  }

  predicate PcOk(s: State, p: nat)
    requires p in s.pcs
  {
    match s.pcs[p]
    case LockTake => s.locked == 0
    case UnlockOwner => s.locked == 0
    case LockRelease => s.owner == p
    case Critical => s.owner == p
    case UnlockGuard => s.owner == p
    case UnlockClear => s.owner == p
    case WaitStore => s.count < MAX_WAITERS
    case WaitCount => s.count < MAX_WAITERS && s.count < |s.waiters| && s.waiters[s.count] == p
    case UnlockShift(i) => 1 <= i <= s.count
    case UnlockCount => s.count >= 1
    case _ => true
  }

  ghost predicate Inv(s: State) {
    && |s.waiters| == MAX_WAITERS && s.count <= MAX_WAITERS
    && s.guard <= 1 && (s.guard == 1 <==> exists p :: InGuard(s, p))
    && s.locked <= 1 && (s.locked == 1 <==> exists p :: Holds(s, p))
    && (forall p, q :: InGuard(s, p) && InGuard(s, q) ==> p == q)
    && (forall p, q :: Holds(s, p) && Holds(s, q) ==> p == q)
    && (forall p | p in s.pcs :: PcOk(s, p))
  }

  // What one step does to who is inside, for everyone but the process that moves.
  lemma OthersSame(s: State, p: nat)
    requires p in s.pcs
    ensures var s' := Step(s, p);
      && p in s'.pcs && s'.pcs.Keys == s.pcs.Keys && |s'.waiters| == |s.waiters|
      && (forall q: nat | q != p :: InGuard(s', q) == InGuard(s, q) && Holds(s', q) == Holds(s, q))
      && (forall q | q in s.pcs && q != p :: s'.pcs[q] == s.pcs[q])
  {
  }

  lemma StepGuard(s: State, p: nat)
    requires Inv(s) && p in s.pcs
    ensures var s' := Step(s, p);
      && s'.guard <= 1 && (s'.guard == 1 <==> exists q :: InGuard(s', q))
      && (forall q, r :: InGuard(s', q) && InGuard(s', r) ==> q == r)
  {
    OthersSame(s, p);
    var s' := Step(s, p);
    if InGuard(s, p) {
      assert forall q: nat | q != p :: !InGuard(s', q);
      assert s'.guard == if InGuard(s', p) then 1 else 0;
    } else if InGuard(s', p) {
      assert s.guard == 0 && forall q: nat | q != p :: !InGuard(s', q);
    } else {
      assert s'.guard == s.guard || s'.guard == 1;
      if q: nat :| InGuard(s, q) { assert InGuard(s', q); }
    }
  }

  lemma StepHolds(s: State, p: nat)
    requires Inv(s) && p in s.pcs
    ensures var s' := Step(s, p);
      && s'.locked <= 1 && (s'.locked == 1 <==> exists q :: Holds(s', q))
      && (forall q, r :: Holds(s', q) && Holds(s', r) ==> q == r)
  {
    OthersSame(s, p);
    var s' := Step(s, p);
    assert PcOk(s, p);
    if Holds(s, p) {
      assert forall q: nat | q != p :: !Holds(s', q);
      assert s'.locked == if Holds(s', p) then 1 else 0;
    } else if Holds(s', p) {
      assert s.locked == 0 && forall q: nat | q != p :: !Holds(s', q);
    } else {
      assert s'.locked == s.locked;
      if q: nat :| Holds(s, q) { assert Holds(s', q); }
    }
  }

  lemma StepKeeps(s: State, p: nat)
    requires Inv(s) && p in s.pcs
    ensures Inv(Step(s, p))
  {
    OthersSame(s, p);
    StepGuard(s, p);
    StepHolds(s, p);
    StepPcs(s, p);
    assert PcOk(s, p);
  }

  lemma StepPcs(s: State, p: nat)
    requires Inv(s) && p in s.pcs
    ensures forall q | q in Step(s, p).pcs :: PcOk(Step(s, p), q)
  {
    forall q | q in Step(s, p).pcs ensures PcOk(Step(s, p), q) {
      if q == p { MoverOk(s, p); } else { OtherOk(s, p, q); }
    }
  }

  lemma MoverOk(s: State, p: nat)
    requires Inv(s) && p in s.pcs
    ensures PcOk(Step(s, p), p)
  {
    assert PcOk(s, p);
  }

  // A step of p leaves true what q counts on: while q is in the guard p changes nothing else, and
  // while q holds the mutex p is neither about to take it nor about to clear the owner.
  lemma OtherOk(s: State, p: nat, q: nat)
    requires Inv(s) && p in s.pcs && q in s.pcs && p != q
    ensures PcOk(Step(s, p), q)
  {
    assert PcOk(s, p) && PcOk(s, q);
    assert !(InGuard(s, p) && InGuard(s, q)) && !(Holds(s, p) && Holds(s, q));
    assert Holds(s, q) ==> s.locked == 1;
  }

  // ---- every run ----

  ghost predicate Schedule(s: State, ps: seq<nat>) {
    forall k | 0 <= k < |ps| :: ps[k] in s.pcs
  }

  ghost function Run(s: State, ps: seq<nat>): State
    requires Schedule(s, ps)
    decreases |ps|
  {
    if |ps| == 0 then s else
      assert forall k | 0 <= k < |ps| - 1 :: ps[1..][k] == ps[k + 1];
      Run(Step(s, ps[0]), ps[1..])
  }

  lemma {:induction false} RunKeeps(s: State, ps: seq<nat>)
    requires Inv(s) && Schedule(s, ps)
    ensures Inv(Run(s, ps))
    decreases |ps|
  {
    if |ps| > 0 {
      assert ps[0] in s.pcs;
      StepKeeps(s, ps[0]);
      assert forall k | 0 <= k < |ps| - 1 :: ps[1..][k] == ps[k + 1];
      RunKeeps(Step(s, ps[0]), ps[1..]);
    }
  }

  /** Whatever the number of processes and the order of their steps: at most one is inside the
      guard, at most one between lock and unlock, owner_pid names it, nobody is when the mutex
      reads unlocked, and no more than 16 waiters are counted. */
  lemma MutualExclusion(s: State, ps: seq<nat>, p: nat, q: nat)
    requires Initial(s) && Schedule(s, ps)
    ensures var s' := Run(s, ps);
      && (InGuard(s', p) && InGuard(s', q) ==> p == q)
      && (p in s'.pcs && q in s'.pcs && s'.pcs[p] == Critical && s'.pcs[q] == Critical ==> p == q)
      && (p in s'.pcs && s'.pcs[p] == Critical ==> s'.locked == 1 && s'.owner == p)
      && s'.count <= MAX_WAITERS
  {
    assert forall r: nat :: !InGuard(s, r) && !Holds(s, r);
    RunKeeps(s, ps);
    var s' := Run(s, ps);
    if p in s'.pcs && s'.pcs[p] == Critical {
      assert Holds(s', p) && PcOk(s', p);
      if q in s'.pcs && s'.pcs[q] == Critical { assert Holds(s', q); }
    }
  }
}
