// The pipe of ipc.c as interleaved steps: any number of processes, each running one statement of
// pipe_read or pipe_write at a time, with the spin lock around the loops.

module PipeSteps {
  import opened Bits
  import opened Pipe

  // About to begin a call, take the lock, test the loop condition, copy a byte, advance the index,
  // update the size, and release the lock.
  datatype Pc = Idle | Lock | Test | Copy | Advance | Resize | Unlock

  // call is the last one begun, n its local counter, and got the front of its buffer, for a read.
  datatype Proc = Proc(pc: Pc, call: Call, n: nat, got: seq<byte>)

  // The words of the pipe, the processes, and what has happened so far: the calls in the order in
  // which they released the lock, what they returned, and the bytes they moved.
  datatype State = State(lock: nat, ring: seq<byte>, readIdx: nat, writeIdx: nat, size: nat, procs: map<nat, Proc>,
                         calls: seq<Call>, results: seq<nat>, delivered: seq<byte>, accepted: seq<byte>)

  datatype Move = Begin(p: nat, call: Call) | Go(p: nat)

  ghost predicate Initial(s: State) {
    && s.lock == 0 && |s.ring| == CAPACITY && s.readIdx == s.writeIdx == s.size == 0
    && s.calls == [] && s.results == [] && s.delivered == [] && s.accepted == []
    && forall p | p in s.procs :: s.procs[p].pc == Idle
  }

  function Length(c: Call): nat {
    match c
    case Get(len) => len
    case Put(bytes) => |bytes|
  }

  // ---- the steps ----

  // The next statement of a process. spin_lock tries again while it finds 1.
  function Next(s: State, p: Proc): Proc
    requires |s.ring| == CAPACITY
  {
    match p.pc
    case Idle => p
    case Lock => if s.lock == 0 then p.(pc := Test, n := 0, got := []) else p
    case Test =>
      var more := p.n < Length(p.call) && if p.call.Get? then s.size > 0 else s.size < CAPACITY;
      p.(pc := if more then Copy else Unlock)
    case Copy =>
      p.(pc := Advance, n := p.n + 1, got := if p.call.Get? then p.got + [s.ring[s.readIdx % CAPACITY]] else p.got)
    case Advance => p.(pc := Resize)
    case Resize => p.(pc := Test)
    case Unlock => p.(pc := Idle)
  }

  // What it does to the words of the pipe.
  function Effect(s: State, p: Proc): State
    requires |s.ring| == CAPACITY
  {
    match p.pc
    case Lock => s.(lock := 1)
    case Copy =>
      if p.call.Put? && p.n < |p.call.bytes| && s.writeIdx < CAPACITY
      then s.(ring := s.ring[s.writeIdx := p.call.bytes[p.n]]) else s
    case Advance =>
      if p.call.Get? then s.(readIdx := (s.readIdx + 1) % CAPACITY) else s.(writeIdx := (s.writeIdx + 1) % CAPACITY)
    case Resize => if p.call.Put? then s.(size := s.size + 1) else if s.size > 0 then s.(size := s.size - 1) else s
    case Unlock => Logged(s.(lock := 0), p)
    case _ => s
  }

  function Logged(s: State, p: Proc): State {
    s.(calls := s.calls + [p.call], results := s.results + [p.n],
       delivered := s.delivered + p.got,
       accepted := s.accepted + if p.call.Put? && p.n <= |p.call.bytes| then p.call.bytes[..p.n] else [])
  }

  function Step(s: State, m: Move): State
    requires |s.ring| == CAPACITY
  {
    if m.p !in s.procs then s
    else
      var p := s.procs[m.p];
      match m
      case Begin(_, call) => if p.pc == Idle then s.(procs := s.procs[m.p := Proc(Lock, call, 0, [])]) else s
      case Go(_) => Effect(s, p).(procs := s.procs[m.p := Next(s, p)])
  }

  // ---- the invariant ----

  const NOTHING := Traffic([], [], [])

  // What serving the calls one after the other would have done.
  ghost function Served(s: State): Traffic { ServeAll(NOTHING, s.calls) }

  function Moved(contents: seq<byte>, c: Call): nat {
    match c
    case Get(len) => Least(len, |contents|)
    case Put(bytes) => if |contents| <= CAPACITY then Least(|bytes|, CAPACITY - |contents|) else 0
  }

  // And what they would have returned.
  function Returns(t: Traffic, cs: seq<Call>): seq<nat>
    requires |t.contents| <= CAPACITY
    decreases |cs|
  {
    if |cs| == 0 then [] else [Moved(t.contents, cs[0])] + Returns(Serve(t, cs[0]), cs[1..])
  }

  predicate InGuard(s: State, p: nat) {
    p in s.procs && s.procs[p].pc != Idle && s.procs[p].pc != Lock
  }

  // n bytes from the read index are these, and the write index is so many further on.
  predicate Holds(s: State, bytes: seq<byte>, ahead: nat) {
    && |s.ring| == CAPACITY && s.readIdx < CAPACITY
    && Window(s.ring, s.readIdx, |bytes|) == bytes && s.writeIdx == (s.readIdx + ahead) % CAPACITY
  }

  // A read of len bytes that found these contents is at this statement.
  predicate ReadAt(s: State, p: Proc, all: seq<byte>, len: nat) {
    && p.n <= Least(len, |all|) && p.got == all[..p.n]
    && match p.pc
       case Test => s.size == |all| - p.n && Holds(s, all[p.n..], s.size)
       case Copy => s.size == |all| - p.n && p.n < Least(len, |all|) && Holds(s, all[p.n..], s.size)
       case Advance => p.n > 0 && s.size == |all| - p.n + 1 && Holds(s, all[p.n - 1..], s.size)
       case Resize => p.n > 0 && s.size == |all| - p.n + 1 && Holds(s, all[p.n..], s.size - 1)
       case Unlock => s.size == |all| - p.n && p.n == Least(len, |all|) && Holds(s, all[p.n..], s.size)
       case _ => false
  }

  // And a write of these bytes.
  predicate WriteAt(s: State, p: Proc, all: seq<byte>, bytes: seq<byte>) {
    && |all| <= CAPACITY && p.n <= Least(|bytes|, CAPACITY - |all|) && p.got == []
    && match p.pc
       case Test => s.size == |all| + p.n && Holds(s, all + bytes[..p.n], s.size)
       case Copy =>
         s.size == |all| + p.n && p.n < Least(|bytes|, CAPACITY - |all|) && Holds(s, all + bytes[..p.n], s.size)
       case Advance => p.n > 0 && s.size == |all| + p.n - 1 && Holds(s, all + bytes[..p.n], s.size)
       case Resize => p.n > 0 && s.size == |all| + p.n - 1 && Holds(s, all + bytes[..p.n], s.size + 1)
       case Unlock =>
         s.size == |all| + p.n && p.n == Least(|bytes|, CAPACITY - |all|) && Holds(s, all + bytes[..p.n], s.size)
       case _ => false
  }

  predicate CallAt(s: State, p: Proc, all: seq<byte>) {
    match p.call
    case Get(len) => ReadAt(s, p, all, len)
    case Put(bytes) => WriteAt(s, p, all, bytes)
  }

  ghost predicate History(s: State) {
    && |Served(s).contents| <= CAPACITY
    && s.delivered == Served(s).delivered && s.accepted == Served(s).accepted && s.results == Returns(NOTHING, s.calls)
  }

  ghost predicate Inv(s: State) {
    && |s.ring| == CAPACITY && s.lock <= 1 && (s.lock == 1 <==> exists p :: InGuard(s, p))
    && (forall p, q :: InGuard(s, p) && InGuard(s, q) ==> p == q)
    && History(s)
    && (s.lock == 0 ==> s.size == |Served(s).contents| && Holds(s, Served(s).contents, s.size))
    && (forall p | InGuard(s, p) :: CallAt(s, s.procs[p], Served(s).contents))
  }

  // ---- steps under the lock ----

  lemma ReadStep(s: State, p: Proc, all: seq<byte>, len: nat)
    requires ReadAt(s, p, all, len) && |all| <= CAPACITY && p.pc != Unlock && p.call == Get(len)
    ensures ReadAt(Effect(s, p), Next(s, p), all, len)
  {
    if p.pc == Copy || p.pc == Advance {
      var k := if p.pc == Copy then p.n else p.n - 1;
      Oldest(s.ring, s.readIdx, |all| - k);
      assert all[k..][1..] == all[k + 1..] && all[k..][0] == all[k];
      assert all[..k + 1] == all[..k] + [all[k]];
    }
  }

  lemma WriteStep(s: State, p: Proc, all: seq<byte>, bytes: seq<byte>)
    requires WriteAt(s, p, all, bytes) && p.pc != Unlock && p.call == Put(bytes)
    ensures WriteAt(Effect(s, p), Next(s, p), all, bytes)
  {
    if p.pc == Copy {
      Newest(s.ring, s.readIdx, s.size, bytes[p.n]);
      assert all + bytes[..p.n + 1] == (all + bytes[..p.n]) + [bytes[p.n]];
    } else if p.pc == Advance {
      assert ((s.readIdx + s.size) % 256 + 1) % 256 == (s.readIdx + (s.size + 1)) % 256;
    }
  }

  // ---- the release ----

  lemma {:induction false} ServeSnoc(t: Traffic, cs: seq<Call>, c: Call)
    requires |t.contents| <= CAPACITY
    ensures var u := ServeAll(t, cs);
      && |u.contents| <= CAPACITY && ServeAll(t, cs + [c]) == Serve(u, c)
      && Returns(t, cs + [c]) == Returns(t, cs) + [Moved(u.contents, c)]
    decreases |cs|
  {
    if |cs| == 0 {
      assert cs + [c] == [c] && [c][1..] == [];
    } else {
      ServeSnoc(Serve(t, cs[0]), cs[1..], c);
      assert (cs + [c])[1..] == cs[1..] + [c];
    }
  }

  // The words a call leaves are those that serving it in one go would have left.
  lemma Released(s: State, p: Proc)
    requires History(s) && p.pc == Unlock && CallAt(s, p, Served(s).contents)
    ensures var s' := Logged(s, p);
      && History(s') && s'.size == |Served(s').contents| && Holds(s', Served(s').contents, s'.size)
  {
    ServeSnoc(NOTHING, s.calls, p.call);
  }

  // ---- every interleaving ----

  lemma StepKeeps(s: State, m: Move)
    requires Inv(s)
    ensures Inv(Step(s, m))
  {
    if m.p in s.procs && m.Go? {
      match s.procs[m.p].pc
      case Idle => Outside(s, m);
      case Lock => if s.lock == 0 { Acquires(s, m.p); } else { Outside(s, m); }
      case Unlock => Releases(s, m.p);
      case _ => Inside(s, m.p);
    } else {
      Outside(s, m);
    }
  }

  // Everyone but the process that moves.
  lemma OthersSame(s: State, m: Move)
    requires |s.ring| == CAPACITY
    ensures forall q: nat | q != m.p :: InGuard(Step(s, m), q) == InGuard(s, q)
    ensures forall q: nat | q != m.p && q in s.procs :: q in Step(s, m).procs && Step(s, m).procs[q] == s.procs[q]
  {
  }

  // A step that neither enters nor leaves the guard nor happens in it.
  lemma Outside(s: State, m: Move)
    requires Inv(s) && (m.p in s.procs && m.Go? ==> s.procs[m.p].pc == Idle || (s.procs[m.p].pc == Lock && s.lock != 0))
    ensures Inv(Step(s, m))
  {
    var s' := Step(s, m);
    OthersSame(s, m);
    assert s' == s.(procs := s'.procs) && InGuard(s', m.p) == InGuard(s, m.p);
    assert forall q: nat :: InGuard(s', q) == InGuard(s, q);
    forall q | InGuard(s', q) ensures CallAt(s', s'.procs[q], Served(s').contents) {
      assert s'.procs[q] == s.procs[q] || !InGuard(s, q);
      SameWords(s, s'.procs, s.procs[q], Served(s).contents);
    }
  }

  // Where a call stands is a matter of the words of the pipe and its own state.
  lemma SameWords(s: State, procs: map<nat, Proc>, p: Proc, all: seq<byte>)
    requires CallAt(s, p, all)
    ensures CallAt(s.(procs := procs), p, all)
  {
  }

  lemma Acquires(s: State, p: nat)
    requires Inv(s) && p in s.procs && s.procs[p].pc == Lock && s.lock == 0
    ensures Inv(Step(s, Go(p)))
  {
    var s' := Step(s, Go(p));
    OthersSame(s, Go(p));
    assert forall q: nat :: !InGuard(s, q);
    assert InGuard(s', p) && forall q: nat | q != p :: !InGuard(s', q);
    var all := Served(s).contents;
    assert all[..0] == [] && all[0..] == all;
    if s.procs[p].call.Put? { assert all + s.procs[p].call.bytes[..0] == all; }
  }

  lemma Inside(s: State, p: nat)
    requires Inv(s) && InGuard(s, p) && s.procs[p].pc != Unlock
    ensures Inv(Step(s, Go(p)))
  {
    var (s', proc, all) := (Step(s, Go(p)), s.procs[p], Served(s).contents);
    OthersSame(s, Go(p));
    CallStep(s, proc, all);
    SameWords(Effect(s, proc), s'.procs, Next(s, proc), all);
    assert InGuard(s', p) && forall q: nat | q != p :: !InGuard(s', q);
  }

  // A statement before the release moves the call on and leaves the history alone.
  lemma CallStep(s: State, p: Proc, all: seq<byte>)
    requires CallAt(s, p, all) && |all| <= CAPACITY && p.pc != Unlock
    ensures var s' := Effect(s, p);
      && CallAt(s', Next(s, p), all)
      && s' == s.(ring := s'.ring, readIdx := s'.readIdx, writeIdx := s'.writeIdx, size := s'.size)
      && |s'.ring| == |s.ring|
  {
    match p.call
    case Get(len) => ReadStep(s, p, all, len);
    case Put(bytes) => WriteStep(s, p, all, bytes);
  }

  lemma Releases(s: State, p: nat)
    requires Inv(s) && p in s.procs && s.procs[p].pc == Unlock
    ensures Inv(Step(s, Go(p)))
  {
    var s' := Step(s, Go(p));
    OthersSame(s, Go(p));
    assert InGuard(s, p);
    Released(s, s.procs[p]);
    assert forall q: nat :: !InGuard(s', q);
  }

  ghost function Run(s: State, ms: seq<Move>): State
    requires |s.ring| == CAPACITY
    decreases |ms|
  {
    if |ms| == 0 then s else Run(Step(s, ms[0]), ms[1..])
  }

  lemma {:induction false} RunKeeps(s: State, ms: seq<Move>)
    requires Inv(s)
    ensures Inv(Run(s, ms))
    decreases |ms|
  {
    if |ms| > 0 {
      StepKeeps(s, ms[0]);
      RunKeeps(Step(s, ms[0]), ms[1..]);
    }
  }

  /** Whatever the number of processes and the order of their steps: at most one is inside the lock, and
      whenever it is free, the pipe, the bytes delivered and accepted and what every call returned are
      those of the calls served whole, one after the other, in the order in which they released it.
      So each call moves as many bytes as it can, and the pipe is first in, first out. */
  lemma LinearizesToCalls(s: State, ms: seq<Move>)
    requires Initial(s)
    ensures var s' := Run(s, ms);
      && |s'.ring| == CAPACITY
      && (forall p, q :: InGuard(s', p) && InGuard(s', q) ==> p == q)
      && (s'.lock == 0 ==>
            && Traffic(Window(s'.ring, s'.readIdx, s'.size), s'.delivered, s'.accepted) == ServeAll(NOTHING, s'.calls)
            && s'.results == Returns(NOTHING, s'.calls)
            && s'.delivered + Window(s'.ring, s'.readIdx, s'.size) == s'.accepted)
  {
    assert forall p: nat :: !InGuard(s, p);
    assert Served(s) == NOTHING;
    RunKeeps(s, ms);
    Fifo(NOTHING, Run(s, ms).calls);
  }
}
