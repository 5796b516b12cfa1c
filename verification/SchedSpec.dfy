// The scheduler as a list: the processes in ring order, the current one first. What each
// operation does to the list, what holds over every run, and how long a ready process waits.

module SchedSpec {
  import opened HeapSpec

  const MAX_PROCS := 16
  const PROC_STACK := 4096
  const QUANTUM := 5
  const KERNEL_FRAME := 56
  const USER_FRAME := 64

  datatype Status = Ready | Running | Zombie

  datatype Proc = Proc(slot: nat, pid: nat, status: Status, esp: nat, stack: nat, dir: nat)

  // head is the slot run_queue points to.
  datatype Sched = Sched(procs: seq<Proc>, head: nat, nextPid: nat, quantum: nat, heap: seq<Block>)

  datatype Event =
    | Create(user: bool)
    | Fork
    | SetDir(pid: nat, dir: nat)
    | Exit
    | Kill(pid: nat)
    | Tick(regs: nat)
    // kmalloc and kfree by the rest of the kernel
    | Allocate(size: nat)
    | Release(ptr: nat)

  predicate HasSlot(ps: seq<Proc>, i: nat) {
    exists k :: 0 <= k < |ps| && ps[k].slot == i
  }

  // The stack of this address is one live heap block of at least 4096 bytes.
  predicate OwnsStack(heap: seq<Block>, stack: nat) {
    exists b :: b in heap && b.used && b.Payload() == stack && b.size >= PROC_STACK
  }

  // Every process but the one on the boot stack owns a stack of its own.
  ghost predicate ProcOk(ps: seq<Proc>, k: nat, nextPid: nat, heap: seq<Block>)
    requires k < |ps|
  {
    && ps[k].slot < MAX_PROCS && ps[k].pid < nextPid
    && (if ps[k].slot == 0 then ps[k].stack == 0 else OwnsStack(heap, ps[k].stack))
  }

  predicate Apart(ps: seq<Proc>, j: nat, k: nat)
    requires j < |ps| && k < |ps|
  {
    ps[j].slot != ps[k].slot && ps[j].pid != ps[k].pid && ps[j].stack != ps[k].stack
  }

  // Off the processor: not running, and with somewhere to resume from.
  predicate Waiting(ps: seq<Proc>, k: nat)
    requires k < |ps|
  {
    ps[k].status != Running && ps[k].esp != 0
  }

  ghost predicate AllApart(ps: seq<Proc>) {
    forall j, k | 0 <= j < |ps| && 0 <= k < |ps| && j != k :: Apart(ps, j, k)
  }

  ghost predicate AllOk(ps: seq<Proc>, nextPid: nat, heap: seq<Block>) {
    forall k | 0 <= k < |ps| :: ProcOk(ps, k, nextPid, heap)
  }

  ghost predicate Inv(s: Sched) {
    && |s.procs| > 0 && AllOk(s.procs, s.nextPid, s.heap) && AllApart(s.procs)
    && s.procs[0].status != Ready && (forall k | 1 <= k < |s.procs| :: Waiting(s.procs, k))
    && HasSlot(s.procs, s.head)
    && s.quantum < QUANTUM
    && Tiles(s.heap)
  }

  function IndexOfPid(ps: seq<Proc>, pid: nat): (k: nat)
    ensures k <= |ps| && (k < |ps| ==> ps[k].pid == pid)
    ensures forall j | 0 <= j < k :: ps[j].pid != pid
  {
    if |ps| == 0 || ps[0].pid == pid then 0 else
      assert forall j | 1 <= j < |ps| :: ps[j] == ps[1..][j - 1];
      1 + IndexOfPid(ps[1..], pid)
  }

  // The first ready process after the current one, or the length.
  function NextReady(ps: seq<Proc>, from: nat): (k: nat)
    requires from <= |ps|
    ensures from <= k <= |ps| && (k < |ps| ==> ps[k].status == Ready)
    ensures forall j | from <= j < k :: ps[j].status != Ready
    decreases |ps| - from
  {
    if from == |ps| || ps[from].status == Ready then from else NextReady(ps, from + 1)
  }

  ghost predicate IsFreeSlot(ps: seq<Proc>, i: nat) {
    && 1 <= i <= MAX_PROCS && (i < MAX_PROCS ==> !HasSlot(ps, i))
    && forall j: nat | 1 <= j < i :: HasSlot(ps, j)
  }

  // The lowest unused slot but slot 0, or MAX_PROCS.
  ghost function FreeSlot(ps: seq<Proc>): (i: nat)
    ensures IsFreeSlot(ps, i)
  {
    SomeFreeSlot(ps, MAX_PROCS);
    var i: nat :| IsFreeSlot(ps, i);
    i
  }

  lemma {:induction false} SomeFreeSlot(ps: seq<Proc>, n: nat)
    requires 1 <= n <= MAX_PROCS
    ensures (exists i: nat :: IsFreeSlot(ps, i)) || forall j: nat | 1 <= j < n :: HasSlot(ps, j)
    ensures n == MAX_PROCS ==> exists i: nat :: IsFreeSlot(ps, i)
  {
    if n > 1 {
      SomeFreeSlot(ps, n - 1);
      if !HasSlot(ps, n - 1) && forall j: nat | 1 <= j < n - 1 :: HasSlot(ps, j) { assert IsFreeSlot(ps, n - 1); }
    }
    if n == MAX_PROCS && forall j: nat | 1 <= j < n :: HasSlot(ps, j) { assert IsFreeSlot(ps, n); }
  }

  function InsertAfterFirst(ps: seq<Proc>, p: Proc): (r: seq<Proc>)
    requires |ps| > 0
    ensures |r| == |ps| + 1
    ensures forall k | 0 <= k < |r| :: r[k] == if k == 0 then ps[0] else if k == 1 then p else ps[k - 1]
  {
    seq(|ps| + 1, k requires 0 <= k <= |ps| => if k == 0 then ps[0] else if k == 1 then p else ps[k - 1])
  }

  function Remove(ps: seq<Proc>, j: nat): (r: seq<Proc>)
    requires j < |ps|
    ensures |r| == |ps| - 1
    ensures forall k | 0 <= k < |r| :: r[k] == if k < j then ps[k] else ps[k + 1]
  {
    seq(|ps| - 1, k requires 0 <= k < |ps| - 1 => if k < j then ps[k] else ps[k + 1])
  }

  // The ring seen from process j.
  function RotateTo(ps: seq<Proc>, j: nat): (r: seq<Proc>)
    requires j < |ps|
    ensures |r| == |ps|
    ensures forall k | 0 <= k < |r| :: r[k] == ps[if k + j < |ps| then k + j else k + j - |ps|]
  {
    seq(|ps|, k requires 0 <= k < |ps| => ps[if k + j < |ps| then k + j else k + j - |ps|])
  }

  function SetStatus(ps: seq<Proc>, k: nat, st: Status): seq<Proc>
    requires k < |ps|
  {
    ps[k := ps[k].(status := st)]
  }

  // process_create and process_create_user: the state and the new pid, -1 when refused.
  ghost function DoCreate(s: Sched, user: bool, status: Status): (res: (Sched, int))
    requires |s.procs| > 0
  {
    var i := FreeSlot(s.procs);
    var (heap, stack) := Malloc(s.heap, PROC_STACK);
    if i == MAX_PROCS || stack == 0 then (s, -1 as int)
    else
      var p := Proc(i, s.nextPid, status, stack + PROC_STACK - (if user then USER_FRAME else KERNEL_FRAME), stack, 0);
      (s.(procs := InsertAfterFirst(s.procs, p), nextPid := s.nextPid + 1, heap := heap), s.nextPid)
  }

  // reset_process_slot: the stack goes back to the heap.
  ghost function Released(heap: seq<Block>, stack: nat): seq<Block> {
    if IsLive(heap, stack) then Free(heap, stack) else heap
  }

  ghost function DoKill(s: Sched, pid: nat): (Sched, int)
    requires |s.procs| > 0
  {
    var j := IndexOfPid(s.procs, pid);
    if j == 0 then (s, -2)
    else if j == |s.procs| then (s, -1)
    else (s.(procs := Remove(s.procs, j), heap := Released(s.heap, s.procs[j].stack)), 0)
  }

  ghost function DoTick(s: Sched, regs: nat): Sched
    requires |s.procs| > 0
  {
    var ps := s.procs;
    var j := NextReady(ps, 1);
    if ps[0].status == Zombie then
      if j == |ps| then s.(procs := SetStatus(ps, 0, Running))
      else
        var rest := Remove(ps, 0);
        Sched(SetStatus(RotateTo(rest, j - 1), 0, Running),
              if s.head == ps[0].slot then rest[0].slot else s.head,
              s.nextPid, 0, Released(s.heap, ps[0].stack))
    else if s.quantum + 1 < QUANTUM then s.(quantum := s.quantum + 1)
    else
      var saved := ps[0 := ps[0].(esp := regs)];
      if j == |ps| then s.(procs := saved, quantum := 0)
      else s.(procs := SetStatus(RotateTo(SetStatus(saved, 0, Ready), j), 0, Running), quantum := 0)
  }

  ghost function Step(s: Sched, e: Event): Sched
    requires |s.procs| > 0
  {
    match e
    case Create(user) => DoCreate(s, user, Ready).0
    case Fork => DoCreate(s, false, Zombie).0
    case SetDir(pid, dir) =>
      var k := IndexOfPid(s.procs, pid);
      if 0 < k < |s.procs| then s.(procs := s.procs[k := s.procs[k].(dir := dir)]) else s
    case Exit => s.(procs := SetStatus(s.procs, 0, Zombie))
    case Kill(pid) => DoKill(s, pid).0
    case Tick(regs) => DoTick(s, regs)
    case Allocate(size) => s.(heap := Malloc(s.heap, size).0)
    case Release(ptr) => s.(heap := Released(s.heap, ptr))
  }

  // The process run_queue points to is not killed; the interrupt frame is not at address 0; the
  // rest of the kernel frees no process's stack.
  ghost predicate Legal(s: Sched, e: Event) {
    match e
    case Kill(pid) => forall k | 0 <= k < |s.procs| && s.procs[k].pid == pid :: k == 0 || s.procs[k].slot != s.head
    case Tick(regs) => regs != 0
    case Release(ptr) => IsLive(s.heap, ptr) && forall k | 0 <= k < |s.procs| :: s.procs[k].stack != ptr
    case _ => true
  }

  // ---- the invariant ----

  lemma CreateKeeps(s: Sched, user: bool, status: Status)
    requires Inv(s) && status != Running
    ensures Inv(DoCreate(s, user, status).0)
  {
    var (s', pid) := DoCreate(s, user, status);
    if pid != -1 {
      var (heap, stack) := Malloc(s.heap, PROC_STACK);
      var b := NewStack(s.heap);
      forall k | 0 <= k < |s.procs|
        ensures ProcOk(s.procs, k, s'.nextPid, heap) 
        ensures s.procs[k].stack != stack && s.procs[k].slot != FreeSlot(s.procs) && s.procs[k].pid != s.nextPid
      {
        assert ProcOk(s.procs, k, s.nextPid, s.heap);
        assert HasSlot(s.procs, s.procs[k].slot);
        StackSurvives(s.heap, heap, s.procs[k].stack, b);
      }
      forall k | 0 <= k < |s'.procs| ensures ProcOk(s'.procs, k, s'.nextPid, heap) {
        assert k != 1 ==> ProcOk(s.procs, if k == 0 then 0 else k - 1, s'.nextPid, heap);
      }
      InsertApart(s.procs, s'.procs[1], s.head);
      forall k | 1 <= k < |s'.procs| ensures Waiting(s'.procs, k) { assert k > 1 ==> Waiting(s.procs, k - 1); }
    }
  }

  lemma InsertApart(ps: seq<Proc>, p: Proc, head: nat)
    requires |ps| > 0 && AllApart(ps) && HasSlot(ps, head)
    requires forall k | 0 <= k < |ps| :: ps[k].slot != p.slot && ps[k].pid != p.pid && ps[k].stack != p.stack
    ensures AllApart(InsertAfterFirst(ps, p)) && HasSlot(InsertAfterFirst(ps, p), head)
  {
    var qs := InsertAfterFirst(ps, p);
    forall j, k | 0 <= j < |qs| && 0 <= k < |qs| && j != k ensures Apart(qs, j, k) {
      assert j != 1 && k != 1 ==> Apart(ps, if j == 0 then 0 else j - 1, if k == 0 then 0 else k - 1);
    }
    var h :| 0 <= h < |ps| && ps[h].slot == head;
    assert qs[if h == 0 then 0 else h + 1].slot == head;
  }

  lemma NewStack(heap: seq<Block>) returns (b: Block)
    requires Tiles(heap) && Malloc(heap, PROC_STACK).1 != 0
    ensures var (heap', stack) := Malloc(heap, PROC_STACK);
      && Tiles(heap') && OwnsStack(heap', stack) && stack > HEAP_START && b.Payload() == stack && b !in Live(heap)
      && Live(heap') == Live(heap) + {b}
  {
    var (heap', stack) := Malloc(heap, PROC_STACK);
    MallocStep(heap, PROC_STACK);
    b :| && b in Live(heap') && b.Payload() == stack && PROC_STACK <= b.size
         && b !in Live(heap) && Live(heap') == Live(heap) + {b};
    LiveApart(heap', b, b);
  }

  // A stack in use before an allocation is in use after it, and is not the new block.
  lemma StackSurvives(before: seq<Block>, after: seq<Block>, stack: nat, b: Block)
    requires Tiles(before) && Tiles(after) && b !in Live(before) && Live(after) == Live(before) + {b}
    ensures OwnsStack(before, stack) ==> OwnsStack(after, stack) && stack != b.Payload()
    ensures stack == 0 ==> stack != b.Payload()
  {
    if OwnsStack(before, stack) {
      var c :| c in before && c.used && c.Payload() == stack && c.size >= PROC_STACK;
      assert c in Live(before) && c in Live(after);
      LiveApart(after, c, b);
    }
  }

  // Freeing one stack keeps the others.
  lemma ReleasedKeeps(heap: seq<Block>, stack: nat, other: nat)
    requires Tiles(heap) && stack != other && (stack == 0 || OwnsStack(heap, stack))
    ensures Tiles(Released(heap, stack))
    ensures OwnsStack(heap, other) ==> OwnsStack(Released(heap, stack), other)
    ensures !IsLive(Released(heap, stack), stack)
  {
    if IsLive(heap, stack) {
      var b :| b in heap && b.used && b.Payload() == stack;
      FreeStep(heap, b);
      if OwnsStack(heap, other) {
        var c :| c in heap && c.used && c.Payload() == other && c.size >= PROC_STACK;
        assert c in Live(heap) - {b};
        assert c in Live(Released(heap, stack));
      }
      forall c | c in Released(heap, stack) && c.used ensures c.Payload() != stack {
        assert c in Live(Released(heap, stack));
        assert c in heap && c != b;
        LiveApart(heap, b, c);
      }
    }
  }

  /** Removing a process gives its stack back, once: it is no longer live, and the stacks of the
      processes that stay are. */
  lemma RemoveKeeps(s: Sched, j: nat)
    requires Inv(s) && j < |s.procs|
    ensures var heap := Released(s.heap, s.procs[j].stack);
      && Tiles(heap) && AllOk(Remove(s.procs, j), s.nextPid, heap) && AllApart(Remove(s.procs, j))
      && (s.procs[j].slot != 0 ==> IsLive(s.heap, s.procs[j].stack))
      && !IsLive(heap, s.procs[j].stack)
  {
    var heap := Released(s.heap, s.procs[j].stack);
    var rest := Remove(s.procs, j);
    assert ProcOk(s.procs, j, s.nextPid, s.heap);
    if s.procs[j].slot != 0 { OwnedIsLive(s.heap, s.procs[j].stack); }
    ReleasedKeeps(s.heap, s.procs[j].stack, s.procs[j].stack + 1);
    forall k | 0 <= k < |rest| ensures ProcOk(rest, k, s.nextPid, heap) {
      var k' := if k < j then k else k + 1;
      assert ProcOk(s.procs, k', s.nextPid, s.heap) && Apart(s.procs, j, k');
      ReleasedKeeps(s.heap, s.procs[j].stack, s.procs[k'].stack);
    }
    RemoveApart(s.procs, j);
  }

  lemma RemoveApart(ps: seq<Proc>, j: nat)
    requires AllApart(ps) && j < |ps|
    ensures AllApart(Remove(ps, j))
  {
    var rest := Remove(ps, j);
    forall i, k | 0 <= i < |rest| && 0 <= k < |rest| && i != k ensures Apart(rest, i, k) {
      assert Apart(ps, if i < j then i else i + 1, if k < j then k else k + 1);
    }
  }

  lemma OwnedIsLive(heap: seq<Block>, stack: nat)
    requires OwnsStack(heap, stack)
    ensures IsLive(heap, stack)
  {
  }

  lemma KillKeeps(s: Sched, pid: nat)
    requires Inv(s) && Legal(s, Kill(pid))
    ensures Inv(DoKill(s, pid).0)
  {
    var j := IndexOfPid(s.procs, pid);
    if 0 < j < |s.procs| {
      RemoveKeeps(s, j);
      RemoveLeaves(s.procs, j, s.head);
    }
  }

  // The others go on waiting, and the head stays if it is not the one removed.
  lemma RemoveLeaves(ps: seq<Proc>, j: nat, head: nat)
    requires 0 < j < |ps| && ps[j].slot != head && HasSlot(ps, head)
    requires forall k | 1 <= k < |ps| :: Waiting(ps, k)
    ensures forall k | 1 <= k < |ps| - 1 :: Waiting(Remove(ps, j), k)
    ensures HasSlot(Remove(ps, j), head)
  {
    var rest := Remove(ps, j);
    forall k | 1 <= k < |rest| ensures Waiting(rest, k) { assert Waiting(ps, if k < j then k else k + 1); }
    var h :| 0 <= h < |ps| && ps[h].slot == head;
    assert rest[if h < j then h else h - 1].slot == head;
  }

  // The same processes, seen from place j, possibly with another status or frame.
  ghost predicate Rotated(ps: seq<Proc>, qs: seq<Proc>, j: nat) {
    && |qs| == |ps| && j < |ps|
    && forall k | 0 <= k < |ps| :: SameSlot(qs[k], ps[if k + j < |ps| then k + j else k + j - |ps|])
  }

  lemma RotatedKeeps(ps: seq<Proc>, qs: seq<Proc>, j: nat, nextPid: nat, heap: seq<Block>, slot: nat)
    requires Rotated(ps, qs, j) && AllOk(ps, nextPid, heap) && AllApart(ps) && HasSlot(ps, slot)
    ensures AllOk(qs, nextPid, heap) && AllApart(qs) && HasSlot(qs, slot)
  {
    var n := |ps|;
    forall k | 0 <= k < n ensures ProcOk(qs, k, nextPid, heap) {
      assert ProcOk(ps, if k + j < n then k + j else k + j - n, nextPid, heap);
    }
    forall i, k | 0 <= i < n && 0 <= k < n && i != k ensures Apart(qs, i, k) {
      assert Apart(ps, if i + j < n then i + j else i + j - n, if k + j < n then k + j else k + j - n);
    }
    var h :| 0 <= h < n && ps[h].slot == slot;
    assert qs[if h >= j then h - j else h - j + n].slot == slot;
  }

  predicate SameSlot(p: Proc, q: Proc) {
    p.slot == q.slot && p.pid == q.pid && p.stack == q.stack
  }

  // A step that only turns the ring or rewrites statuses and frames.
  lemma SameMembers(s: Sched, s': Sched, j: nat)
    requires Inv(s) && Rotated(s.procs, s'.procs, j) && s'.heap == s.heap && s'.nextPid == s.nextPid
    requires s'.head == s.head && s'.quantum < QUANTUM && s'.procs[0].status != Ready
    requires forall k | 1 <= k < |s'.procs| :: Waiting(s'.procs, k)
    ensures Inv(s')
  {
    RotatedKeeps(s.procs, s'.procs, j, s.nextPid, s.heap, s.head);
  }

  lemma TickKeeps(s: Sched, regs: nat)
    requires Inv(s) && regs != 0
    ensures Inv(DoTick(s, regs))
  {
    var (ps, n) := (s.procs, |s.procs|);
    var j := NextReady(ps, 1);
    var s' := DoTick(s, regs);
    if ps[0].status == Zombie && j < n {
      ReapKeeps(s, regs);
    } else {
      var turn := if ps[0].status != Zombie && s.quantum + 1 == QUANTUM && j < n then j else 0;
      forall k | 1 <= k < n ensures Waiting(s'.procs, k) {
        var k' := if k + turn < n then k + turn else k + turn - n;
        assert k' != 0 ==> Waiting(ps, k');
      }
      SameMembers(s, s', turn);
    }
  }

  lemma ReapKeeps(s: Sched, regs: nat)
    requires Inv(s) && s.procs[0].status == Zombie && NextReady(s.procs, 1) < |s.procs|
    ensures Inv(DoTick(s, regs))
  {
    var ps := s.procs;
    var j := NextReady(ps, 1);
    var rest := Remove(ps, 0);
    var head := if s.head == ps[0].slot then rest[0].slot else s.head;
    RemoveKeeps(s, 0);
    HeadAfterReap(s);
    RestWaits(ps);
    TurnedKeeps(rest, j - 1, s.nextPid, Released(s.heap, ps[0].stack), head);
  }

  lemma RestWaits(ps: seq<Proc>)
    requires |ps| > 0 && forall k | 1 <= k < |ps| :: Waiting(ps, k)
    ensures forall k | 0 <= k < |ps| - 1 :: Waiting(Remove(ps, 0), k)
  {
    forall k | 0 <= k < |ps| - 1 ensures Waiting(Remove(ps, 0), k) { assert Waiting(ps, k + 1); }
  }

  // run_queue moves on when it pointed to the process reaped.
  lemma HeadAfterReap(s: Sched)
    requires |s.procs| > 1 && AllApart(s.procs) && HasSlot(s.procs, s.head)
    ensures var (ps, rest) := (s.procs, Remove(s.procs, 0));
      HasSlot(rest, if s.head == ps[0].slot then rest[0].slot else s.head)
  {
    var (ps, rest) := (s.procs, Remove(s.procs, 0));
    var h :| 0 <= h < |ps| && ps[h].slot == s.head;
    assert h > 0 ==> Apart(ps, 0, h) && rest[h - 1] == ps[h];
    assert rest[if h == 0 then 0 else h - 1].slot == if s.head == ps[0].slot then rest[0].slot else s.head;
  }

  lemma TurnedKeeps(rest: seq<Proc>, j: nat, nextPid: nat, heap: seq<Block>, head: nat)
    requires j < |rest| && AllOk(rest, nextPid, heap) && AllApart(rest) && HasSlot(rest, head) && Tiles(heap)
    requires forall k | 0 <= k < |rest| :: Waiting(rest, k)
    ensures Inv(Sched(SetStatus(RotateTo(rest, j), 0, Running), head, nextPid, 0, heap))
  {
    var qs := SetStatus(RotateTo(rest, j), 0, Running);
    RotatedKeeps(rest, qs, j, nextPid, heap, head);
    forall k | 1 <= k < |qs| ensures Waiting(qs, k) {
      assert Waiting(rest, if k + j < |rest| then k + j else k + j - |rest|);
    }
  }

  // A heap with more live blocks keeps every stack, and so does one with a block less that is no
  // stack.
  lemma HeapChangeKeeps(s: Sched, heap: seq<Block>)
    requires Inv(s) && Tiles(heap)
    requires forall b | b in Live(s.heap) && exists k :: 0 <= k < |s.procs| && s.procs[k].stack == b.Payload() ::
      b in Live(heap)
    ensures Inv(s.(heap := heap))
  {
    forall k | 0 <= k < |s.procs| ensures ProcOk(s.procs, k, s.nextPid, heap) {
      assert ProcOk(s.procs, k, s.nextPid, s.heap);
      if OwnsStack(s.heap, s.procs[k].stack) {
        var c :| c in s.heap && c.used && c.Payload() == s.procs[k].stack && c.size >= PROC_STACK;
        assert c in Live(s.heap) && c in Live(heap);
      }
    }
  }

  lemma AllocateKeeps(s: Sched, size: nat)
    requires Inv(s)
    ensures Inv(Step(s, Allocate(size)))
  {
    MallocStep(s.heap, size);
    HeapChangeKeeps(s, Malloc(s.heap, size).0);
  }

  lemma ReleaseKeeps(s: Sched, ptr: nat)
    requires Inv(s) && Legal(s, Release(ptr))
    ensures Inv(Step(s, Release(ptr)))
  {
    var b :| b in s.heap && b.used && b.Payload() == ptr;
    FreeStep(s.heap, b);
    HeapChangeKeeps(s, Released(s.heap, ptr));
  }

  lemma StepKeeps(s: Sched, e: Event)
    requires Inv(s) && Legal(s, e)
    ensures Inv(Step(s, e))
  {
    match e
    case Create(user) => CreateKeeps(s, user, Ready);
    case Fork => CreateKeeps(s, false, Zombie);
    case Kill(pid) => KillKeeps(s, pid);
    case Tick(regs) => TickKeeps(s, regs);
    case Allocate(size) => AllocateKeeps(s, size);
    case Release(ptr) => ReleaseKeeps(s, ptr);
    case _ =>
      var s' := Step(s, e);
      forall k | 1 <= k < |s'.procs| ensures Waiting(s'.procs, k) { assert Waiting(s.procs, k); }
      SameMembers(s, s', 0);
  }

  // ---- every run ----

  ghost predicate LegalRun(s: Sched, es: seq<Event>)
    requires |s.procs| > 0
    decreases |es|
  {
    |es| > 0 ==> Legal(s, es[0]) && |Step(s, es[0]).procs| > 0 && LegalRun(Step(s, es[0]), es[1..])
  }

  ghost function Run(s: Sched, es: seq<Event>): Sched
    requires |s.procs| > 0 && LegalRun(s, es)
    decreases |es|
  {
    if |es| == 0 then s else Run(Step(s, es[0]), es[1..])
  }

  /** Over every run: one ring of distinct slots with distinct pids that contains run_queue, at
      most the current process running, and every process but the boot one on its own live
      stack. */
  lemma {:induction false} RunKeeps(s: Sched, es: seq<Event>)
    requires Inv(s) && LegalRun(s, es)
    ensures Inv(Run(s, es))
    decreases |es|
  {
    if |es| > 0 {
      StepKeeps(s, es[0]);
      RunKeeps(Step(s, es[0]), es[1..]);
    }
  }

  // The state process_init leaves: the shell, running on the boot stack.
  ghost function Booted(heap: seq<Block>): Sched {
    Sched([Proc(0, 0, Running, 0, 0, 0)], 0, 1, 0, heap)
  }

  lemma BootedInv(heap: seq<Block>)
    requires Tiles(heap)
    ensures Inv(Booted(heap))
  {
    assert Booted(heap).procs[0].slot == 0;
  }
}
