// What the calls of the mutex do, whoever else moves in between: a free mutex is taken, a taken one is
// waited for, and unlocking frees it and moves the waiters down.

module MutexCalls {
  import opened Mutex

  // How many of these steps are those of process p.
  function Own(ps: seq<nat>, p: nat): nat {
    if |ps| == 0 then 0 else (if ps[0] == p then 1 else 0) + Own(ps[1..], p)
  }

  // The rest of a schedule.
  lemma RestOf(s: State, ps: seq<nat>)
    requires Inv(s) && Schedule(s, ps) && |ps| > 0
    ensures ps[0] in s.pcs && Inv(Step(s, ps[0])) && Schedule(Step(s, ps[0]), ps[1..])
    ensures Run(s, ps) == Run(Step(s, ps[0]), ps[1..])
  {
    assert ps[0] in s.pcs;
    StepKeeps(s, ps[0]);
    assert forall k | 0 <= k < |ps| - 1 :: ps[1..][k] == ps[k + 1];
  }

  // While p is inside the guard the others change none of the words.
  lemma OthersWait(s: State, p: nat, q: nat)
    requires Inv(s) && InGuard(s, p) && q in s.pcs && q != p
    ensures Step(s, q).(pcs := s.pcs) == s && p in Step(s, q).pcs && Step(s, q).pcs[p] == s.pcs[p]
  {
    assert !InGuard(s, q);
  }

  // ---- mutex_lock ----

  /** Both calls begin with the test-and-set of the guard, which enters it if and only if nobody is
      inside; until then nothing changes. */
  lemma EntersGuard(s: State, p: nat)
    requires Inv(s) && p in s.pcs && (s.pcs[p] == LockGuard || s.pcs[p] == UnlockGuard)
    ensures var s' := Step(s, p);
      if exists q :: InGuard(s, q) then s' == s
      else s' == s.(guard := 1, pcs := s.pcs[p := if s.pcs[p] == LockGuard then LockTest else UnlockClear])
  {
    assert s.guard == 1 ==> s.(guard := 1, pcs := s.pcs[p := s.pcs[p]]) == s;
  }

  // A process that calls mutex_lock, tries again after it has halted, or calls mutex_unlock.
  lemma Begins(s: State, p: nat)
    requires p in s.pcs && s.pcs[p] in {Idle, Halted, Critical}
    ensures Step(s, p) == s.(pcs := s.pcs[p := if s.pcs[p] == Critical then UnlockGuard else LockGuard])
  {
  }

  // Where a process is that has n of its four steps to a free mutex still to take.
  function TakePath(n: nat): Pc
    requires n <= 4
  {
    if n == 4 then LockTest else if n == 3 then LockTake else if n == 2 then LockOwner
    else if n == 1 then LockRelease else Critical
  }

  lemma {:induction false} TakingFrom(s: State, ps: seq<nat>, p: nat, n: nat)
    requires Inv(s) && Schedule(s, ps) && p in s.pcs && n == Own(ps, p) <= 4
    requires s.pcs[p] == TakePath(n) && (n == 4 ==> s.locked == 0)
    ensures p in Run(s, ps).pcs && Run(s, ps).pcs[p] == Critical
    decreases |ps|
  {
    if |ps| > 0 {
      RestOf(s, ps);
      var s1 := Step(s, ps[0]);
      if ps[0] == p {
        TakingFrom(s1, ps[1..], p, n - 1);
      } else {
        if n > 0 { OthersWait(s, p, ps[0]); }
        TakingFrom(s1, ps[1..], p, n);
      }
    }
  }

  /** A process that finds the mutex free is between lock and unlock after four more steps of its own,
      whatever the others do in between: the mutex is locked then, and the process its owner. */
  lemma TakesFree(s: State, ps: seq<nat>, p: nat)
    requires Inv(s) && Schedule(s, ps) && p in s.pcs && s.pcs[p] == LockTest && s.locked == 0 && Own(ps, p) == 4
    ensures var s' := Run(s, ps);
      p in s'.pcs && s'.pcs[p] == Critical && s'.locked == 1 && s'.owner == p
  {
    TakingFrom(s, ps, p, 4);
    RunKeeps(s, ps);
    assert Holds(Run(s, ps), p) && PcOk(Run(s, ps), p);
  }

  // ---- alone in the guard ----

  // n steps of p alone.
  ghost function Solo(s: State, p: nat, n: nat): State
    requires p in s.pcs
    decreases n
  {
    if n == 0 then s else Solo(Step(s, p), p, n - 1)
  }

  // Process p is inside for n steps, before and after.
  ghost predicate Stays(s: State, p: nat, n: nat)
    decreases n
  {
    InGuard(s, p) && (n > 0 ==> Stays(Step(s, p), p, n - 1))
  }

  // The same words, and p at the same place.
  predicate SameFor(s: State, t: State, p: nat) {
    p in s.pcs && p in t.pcs && t.pcs[p] == s.pcs[p] && t.(pcs := s.pcs) == s
  }

  lemma {:induction false} SoloSame(s: State, t: State, p: nat, n: nat)
    requires SameFor(s, t, p)
    ensures SameFor(Solo(s, p, n), Solo(t, p, n), p) && (Stays(s, p, n) ==> Stays(t, p, n))
    decreases n
  {
    if n > 0 { SoloSame(Step(s, p), Step(t, p), p, n - 1); }
  }

  // As long as p is inside, the run does to the words what p's own steps do.
  lemma {:induction false} Alone(s: State, ps: seq<nat>, p: nat)
    requires Inv(s) && Schedule(s, ps) && p in s.pcs && Stays(s, p, Own(ps, p))
    ensures SameFor(Solo(s, p, Own(ps, p)), Run(s, ps), p)
    decreases |ps|
  {
    if |ps| > 0 {
      RestOf(s, ps);
      var s1 := Step(s, ps[0]);
      if ps[0] != p {
        OthersWait(s, p, ps[0]);
        SoloSame(s, s1, p, Own(ps, p));
      }
      Alone(s1, ps[1..], p);
    }
  }

  // ---- waiting ----

  /** A process that finds the mutex taken puts itself behind those waiting if there is room for it, and
      changes nothing else; then it leaves the guard and halts. */
  lemma QueuesBehind(s: State, ps: seq<nat>, p: nat)
    requires Inv(s) && Schedule(s, ps) && p in s.pcs && s.pcs[p] == LockTest && s.locked == 1
    requires Own(ps, p) == if s.count < 16 then 4 else 2
    ensures var s' := Run(s, ps);
      && p in s'.pcs && s'.pcs[p] == WaitRelease && s'.guard == 1 && s'.locked == 1 && s'.owner == s.owner
      && s'.count == (if s.count < 16 then s.count + 1 else s.count)
      && s'.waiters == (if s.count < 16 then s.waiters[s.count := p] else s.waiters)
      && Step(s', p).pcs[p] == Halted && Step(s', p).guard == 0
  {
    WaitAlone(s, p);
    Alone(s, ps, p);
    assert InGuard(s, p) && InGuard(Run(s, ps), p);
    RunKeeps(s, ps);
  }

  lemma WaitAlone(s: State, p: nat)
    requires p in s.pcs && s.pcs[p] == LockTest && s.locked == 1 && s.count <= |s.waiters| == MAX_WAITERS
    ensures var n := if s.count < 16 then 4 else 2;
      var t := Solo(s, p, n);
      && Stays(s, p, n) && p in t.pcs && t.pcs[p] == WaitRelease
      && t == if s.count < 16 then s.(pcs := t.pcs, count := s.count + 1, waiters := s.waiters[s.count := p])
              else s.(pcs := t.pcs)
  {
    var s1 := Step(s, p);
    var s2 := Step(s1, p);
    assert s1.pcs[p] == WaitTest && Solo(s, p, 2) == Solo(s1, p, 1) == Solo(s2, p, 0) == s2;
    if s.count < 16 {
      var s3 := Step(s2, p);
      var s4 := Step(s3, p);
      assert s2.pcs[p] == WaitStore && s3.pcs[p] == WaitCount && s4.pcs[p] == WaitRelease;
      assert Solo(s2, p, 2) == Solo(s3, p, 1) == Solo(s4, p, 0) == s4;
      assert Stays(s4, p, 0) && Stays(s3, p, 1) && Stays(s2, p, 2) && Stays(s1, p, 3) && Stays(s, p, 4);
      assert Solo(s, p, 4) == Solo(s1, p, 3) == Solo(s2, p, 2);
    } else {
      assert s2.pcs[p] == WaitRelease && Stays(s2, p, 0) && Stays(s1, p, 1) && Stays(s, p, 2);
    }
  }

  // ---- mutex_unlock ----

  // The first n waiters gone down by one from place i - 1 on.
  predicate MovedDown(before: seq<nat>, after: seq<nat>, i: nat, n: nat) {
    && |after| == |before| && 1 <= i <= n <= |before|
    && forall j | 0 <= j < |before| :: MovedAt(before, after, i, n, j)
  }

  predicate MovedAt(before: seq<nat>, after: seq<nat>, i: nat, n: nat, j: nat)
    requires j < |before| == |after| && n <= |before|
  {
    after[j] == if i - 1 <= j < n - 1 then before[j + 1] else before[j]
  }

  lemma MovedOne(before: seq<nat>, next: seq<nat>, after: seq<nat>, i: nat, n: nat)
    requires 1 <= i < n <= |before| && next == before[i - 1 := before[i]] && MovedDown(next, after, i + 1, n)
    ensures MovedDown(before, after, i, n)
  {
    forall j | 0 <= j < |before| ensures MovedAt(before, after, i, n, j) {
      assert MovedAt(next, after, i + 1, n, j);
    }
  }

  // The loop and the count.
  lemma {:induction false} Shifts(s: State, p: nat, i: nat)
    requires p in s.pcs && s.pcs[p] == UnlockShift(i) && 1 <= i <= s.count <= |s.waiters|
    ensures var (n, t) := (s.count - i + 2, Solo(s, p, s.count - i + 2));
      && Stays(s, p, n) && p in t.pcs && t.pcs[p] == UnlockRelease
      && t == s.(pcs := t.pcs, waiters := t.waiters, count := s.count - 1)
      && MovedDown(s.waiters, t.waiters, i, s.count)
    decreases s.count - i
  {
    var s1 := Step(s, p);
    assert InGuard(s, p);
    if i < s.count {
      Shifts(s1, p, i + 1);
      MovedOne(s.waiters, s1.waiters, Solo(s, p, s.count - i + 2).waiters, i, s.count);
    } else {
      var s2 := Step(s1, p);
      assert s1.pcs[p] == UnlockCount && s2.pcs[p] == UnlockRelease;
      assert Stays(s2, p, 0) && Stays(s1, p, 1);
      assert Solo(s, p, 2) == Solo(s1, p, 1) == Solo(s2, p, 0) == s2;
    }
  }

  /** An unlock ends, at its release of the guard, with the mutex free and nobody its owner; if some wait,
      there is one less of them, and they have moved down by one. */
  lemma UnlockFrees(s: State, ps: seq<nat>, p: nat)
    requires Inv(s) && Schedule(s, ps) && p in s.pcs && s.pcs[p] == UnlockClear
    requires Own(ps, p) == if s.count == 0 then 3 else s.count + 4
    ensures var s' := Run(s, ps);
      && p in s'.pcs && s'.pcs[p] == UnlockRelease && s'.locked == 0 && s'.owner == 0
      && s'.count == (if s.count == 0 then 0 else s.count - 1)
      && s'.waiters == (if s.count == 0 then s.waiters else s.waiters[1..s.count] + s.waiters[s.count - 1..])
      && Step(s', p).pcs[p] == Idle && Step(s', p).guard == 0
  {
    UnlockAlone(s, p);
    Alone(s, ps, p);
  }

  lemma MovedIsSlice(before: seq<nat>, after: seq<nat>, n: nat)
    requires MovedDown(before, after, 1, n)
    ensures after == before[1..n] + before[n - 1..]
  {
    forall j | 0 <= j < |before| ensures after[j] == (before[1..n] + before[n - 1..])[j] {
      assert MovedAt(before, after, 1, n, j);
    }
  }

  lemma UnlockAlone(s: State, p: nat)
    requires p in s.pcs && s.pcs[p] == UnlockClear && s.count <= |s.waiters| == MAX_WAITERS
    ensures var n := if s.count == 0 then 3 else s.count + 4;
      var t := Solo(s, p, n);
      && Stays(s, p, n) && p in t.pcs && t.pcs[p] == UnlockRelease && t.locked == 0 && t.owner == 0
      && t == s.(pcs := t.pcs, locked := 0, owner := 0, waiters := t.waiters,
                 count := if s.count == 0 then 0 else s.count - 1)
      && t.waiters == if s.count == 0 then s.waiters else s.waiters[1..s.count] + s.waiters[s.count - 1..]
  {
    var s1 := Step(s, p);
    var s2 := Step(s1, p);
    var s3 := Step(s2, p);
    assert s1.pcs[p] == UnlockOwner && s2.pcs[p] == UnlockTest;
    assert InGuard(s, p) && InGuard(s1, p) && InGuard(s2, p) && InGuard(s3, p);
    var n := if s.count == 0 then 0 else s.count + 1;
    if s.count > 0 {
      Shifts(s3, p, 1);
      MovedIsSlice(s.waiters, Solo(s3, p, n).waiters, s.count);
    }
    assert Stays(s3, p, n) && Stays(s2, p, n + 1) && Stays(s1, p, n + 2) && Stays(s, p, n + 3);
    assert Solo(s, p, n + 3) == Solo(s1, p, n + 2) == Solo(s2, p, n + 1) == Solo(s3, p, n);
  }
}
