// That the calls of the pipe get done: a process that finds the lock free takes it, and is through with
// its call after so many steps of its own, whoever else moves in between.

module PipeCalls {
  import opened Pipe
  import opened PipeSteps

  // How many of these moves are steps of process p.
  function Own(ms: seq<Move>, p: nat): nat {
    if |ms| == 0 then 0 else (if ms[0] == Go(p) then 1 else 0) + Own(ms[1..], p)
  }

  // The steps a process inside the lock still has to take to its release, when its call moves total bytes.
  function Left(p: Proc, total: nat): int {
    match p.pc
    case Test => 4 * (total - p.n) + 1
    case Copy => 4 * (total - p.n)
    case Advance => 4 * (total - p.n) + 3
    case Resize => 4 * (total - p.n) + 2
    case _ => 0
  }

  // A process inside the lock is part way through moving total bytes.
  lemma OwnStep(s: State, p: nat, total: nat)
    requires Inv(s) && InGuard(s, p) && s.procs[p].pc != Unlock
    requires total == Moved(Served(s).contents, s.procs[p].call)
    ensures var s' := Step(s, Go(p));
      && InGuard(s', p) && s'.procs[p].call == s.procs[p].call && Served(s') == Served(s)
      && Left(s'.procs[p], total) == Left(s.procs[p], total) - 1
      && (s'.procs[p].pc == Unlock <==> Left(s'.procs[p], total) == 0)
  {
    assert CallAt(s, s.procs[p], Served(s).contents);
    CallStep(s, s.procs[p], Served(s).contents);
  }

  lemma OtherStep(s: State, p: nat, m: Move)
    requires Inv(s) && InGuard(s, p) && m != Go(p)
    ensures var s' := Step(s, m);
      p in s'.procs && s'.procs[p] == s.procs[p] && s'.calls == s.calls
  {
    if m.p in s.procs && m.p != p { assert !InGuard(s, m.p); }
  }

  lemma {:induction false} Finishes(s: State, ms: seq<Move>, p: nat, total: nat)
    requires Inv(s) && InGuard(s, p) && total == Moved(Served(s).contents, s.procs[p].call)
    requires Own(ms, p) == Left(s.procs[p], total)
    ensures var s' := Run(s, ms);
      && p in s'.procs && s'.procs[p].pc == Unlock && s'.procs[p].call == s.procs[p].call && s'.calls == s.calls
    decreases |ms|
  {
    assert CallAt(s, s.procs[p], Served(s).contents);
    if |ms| > 0 {
      StepKeeps(s, ms[0]);
      if ms[0] == Go(p) {
        AtRelease(s, p, total);
        OwnStep(s, p, total);
      } else {
        OtherStep(s, p, ms[0]);
      }
      Finishes(Step(s, ms[0]), ms[1..], p, total);
    } else {
      AtRelease(s, p, total);
    }
  }

  // No steps are left just at the release.
  lemma AtRelease(s: State, p: nat, total: nat)
    requires Inv(s) && InGuard(s, p) && total == Moved(Served(s).contents, s.procs[p].call)
    ensures s.procs[p].pc == Unlock <==> Left(s.procs[p], total) == 0
  {
    assert CallAt(s, s.procs[p], Served(s).contents);
  }

  /** A read that finds the lock free has, after 4 n + 2 steps of its own, the n oldest bytes in its buffer,
      n being as many as it asked for or all there were, and all that is left to do is to release the
      lock; a write has put as many bytes in as it was given or as fitted. */
  lemma CallGetsDone(s: State, ms: seq<Move>, p: nat)
    requires Inv(s) && p in s.procs && s.procs[p].pc == Lock && s.lock == 0 && |ms| > 0 && ms[0] == Go(p)
    requires var n := match s.procs[p].call
        case Get(len) => if len <= s.size then len else s.size
        case Put(bytes) => if |bytes| <= 256 - s.size then |bytes| else 256 - s.size;
      Own(ms, p) == 4 * n + 2
    ensures var (s', before) := (Run(s, ms), Window(s.ring, s.readIdx, s.size));
      && p in s'.procs && s'.procs[p].pc == Unlock && s'.lock == 1 && s'.procs[p].call == s.procs[p].call
      && |s'.ring| == CAPACITY && s'.calls == s.calls
      && match s.procs[p].call
         case Get(len) =>
           var n := if len <= s.size then len else s.size;
           s'.procs[p].n == n && s'.procs[p].got == before[..n] && Window(s'.ring, s'.readIdx, s'.size) == before[n..]
         case Put(bytes) =>
           var n := if |bytes| <= 256 - s.size then |bytes| else 256 - s.size;
           s'.procs[p].n == n && Window(s'.ring, s'.readIdx, s'.size) == before + bytes[..n]
  {
    var s1 := Step(s, Go(p));
    StepKeeps(s, Go(p));
    assert InGuard(s1, p) && s1.procs[p] == s.procs[p].(pc := Test, n := 0, got := []);
    assert Served(s1) == Served(s) && Served(s).contents == Window(s.ring, s.readIdx, s.size);
    var total := Moved(Served(s).contents, s.procs[p].call);
    Finishes(s1, ms[1..], p, total);
    RunKeeps(s1, ms[1..]);
    var s' := Run(s, ms);
    assert s' == Run(s1, ms[1..]) && InGuard(s', p) && CallAt(s', s'.procs[p], Served(s').contents);
  }

  /** The release gives the result back, logs the call and frees the lock for the next one; a process that
      finds the lock taken changes nothing but to try again. */
  lemma ReleaseAndSpin(s: State, p: nat)
    requires |s.ring| == CAPACITY && p in s.procs
    ensures s.procs[p].pc == Unlock ==>
      var s' := Step(s, Go(p));
      && s'.lock == 0 && s'.procs == s.procs[p := s.procs[p].(pc := Idle)]
      && s'.results == s.results + [s.procs[p].n] && s'.calls == s.calls + [s.procs[p].call]
    ensures s.procs[p].pc == Lock && s.lock == 1 ==> Step(s, Go(p)) == s
    ensures forall c ::
      s.procs[p].pc == Idle ==> Step(s, Begin(p, c)) == s.(procs := s.procs[p := Proc(Lock, c, 0, [])])
  {
    if s.procs[p].pc == Lock && s.lock == 1 { assert s.procs[p := s.procs[p]] == s.procs; }
  }
}
