// The process table as memory holds it: sixteen slots, the live ones chained in a circle.

module SchedTable {
  import HeapSpec
  import opened SchedSpec

  datatype State = SReady | SRunning | SBlocked | SZombie | SUnused

  const NULL := -1

  // next is a slot number, NULL for none.
  datatype Pcb = Pcb(pid: nat, state: State, esp: nat, stack: nat, next: int, dir: nat)

  const UNUSED_PCB := Pcb(0, SUnused, 0, 0, NULL, 0)

  function StateOf(s: Status): State {
    match s
    case Ready => SReady
    case Running => SRunning
    case Zombie => SZombie
  }

  function Succ(k: nat, n: nat): nat { if k + 1 < n then k + 1 else 0 }

  function PcbOf(p: Proc, next: int): Pcb {
    Pcb(p.pid, StateOf(p.status), p.esp, p.stack, next, p.dir)
  }

  // Slot of process k, with its link to the next in the ring.
  predicate Links(t: seq<Pcb>, ps: seq<Proc>, k: nat)
    requires k < |ps|
  {
    ps[k].slot < |t| && t[ps[k].slot] == PcbOf(ps[k], ps[Succ(k, |ps|)].slot)
  }

  predicate Vacant(t: seq<Pcb>, ps: seq<Proc>, i: nat)
    requires i < |t|
  {
    !HasSlot(ps, i) ==> t[i].state == SUnused && t[i].stack == 0 && t[i].dir == 0
  }

  // The slots that are not UNUSED are exactly the nodes of the ring.
  ghost predicate Repr(t: seq<Pcb>, ps: seq<Proc>) {
    && |t| == MAX_PROCS && |ps| > 0 && AllApart(ps)
    && (forall k | 0 <= k < |ps| :: Links(t, ps, k))
    && (forall i | 0 <= i < |t| :: Vacant(t, ps, i))
  }

  lemma InTable(t: seq<Pcb>, ps: seq<Proc>, i: nat)
    requires Repr(t, ps) && i < |t|
    ensures t[i].state != SUnused <==> HasSlot(ps, i)
  {
    if HasSlot(ps, i) {
      var k :| 0 <= k < |ps| && ps[k].slot == i;
      assert Links(t, ps, k);
    } else {
      assert Vacant(t, ps, i);
    }
  }

  lemma ReprRotate(t: seq<Pcb>, ps: seq<Proc>, j: nat)
    requires Repr(t, ps) && j < |ps|
    ensures Repr(t, RotateTo(ps, j))
  {
    var (qs, n) := (RotateTo(ps, j), |ps|);
    forall k | 0 <= k < n ensures Links(t, qs, k) {
      assert Links(t, ps, if k + j < n then k + j else k + j - n);
    }
    forall i, k | 0 <= i < n && 0 <= k < n && i != k ensures Apart(qs, i, k) {
      assert Apart(ps, if i + j < n then i + j else i + j - n, if k + j < n then k + j else k + j - n);
    }
    forall i | 0 <= i < |t| ensures Vacant(t, qs, i) {
      assert Vacant(t, ps, i);
      if HasSlot(ps, i) {
        var h :| 0 <= h < n && ps[h].slot == i;
        assert qs[if h >= j then h - j else h - j + n].slot == i;
      }
    }
  }

  // Rewriting a process's own fields, but not its place.
  lemma ReprUpdate(t: seq<Pcb>, ps: seq<Proc>, k: nat, p: Proc)
    requires Repr(t, ps) && k < |ps| && SameSlot(p, ps[k])
    ensures ps[k].slot < |t| && Repr(t[ps[k].slot := PcbOf(p, ps[Succ(k, |ps|)].slot)], ps[k := p])
  {
    assert Links(t, ps, k);
    var (t', qs) := (t[ps[k].slot := PcbOf(p, ps[Succ(k, |ps|)].slot)], ps[k := p]);
    forall i | 0 <= i < |ps| ensures Links(t', qs, i) {
      assert Links(t, ps, i);
      if i != k { assert Apart(ps, i, k); }
    }
    forall i, m | 0 <= i < |qs| && 0 <= m < |qs| && i != m ensures Apart(qs, i, m) { assert Apart(ps, i, m); }
    forall i | 0 <= i < |t| ensures Vacant(t', qs, i) {
      assert Vacant(t, ps, i);
      assert qs[k].slot == ps[k].slot;
      if HasSlot(ps, i) {
        var h :| 0 <= h < |ps| && ps[h].slot == i;
        assert qs[h].slot == i;
      }
    }
  }

  // Two writes link a new process in behind the current one.
  lemma ReprInsert(t: seq<Pcb>, ps: seq<Proc>, p: Proc)
    requires Repr(t, ps) && p.slot < |t| && !HasSlot(ps, p.slot)
    requires forall k | 0 <= k < |ps| :: ps[k].pid != p.pid && ps[k].stack != p.stack
    ensures ps[0].slot < |t|
    ensures var t1 := t[p.slot := PcbOf(p, t[ps[0].slot].next)];
      Repr(t1[ps[0].slot := t1[ps[0].slot].(next := p.slot)], InsertAfterFirst(ps, p))
  {
    assert Links(t, ps, 0);
    assert ps[0].slot != p.slot;
    var t1 := t[p.slot := PcbOf(p, t[ps[0].slot].next)];
    var t' := t1[ps[0].slot := t1[ps[0].slot].(next := p.slot)];
    var qs := InsertAfterFirst(ps, p);
    forall k | 0 <= k < |qs| ensures Links(t', qs, k) {
      if k > 1 {
        assert Links(t, ps, k - 1) && Apart(ps, 0, k - 1);
        assert ps[k - 1].slot != p.slot;
      }
    }
    forall i, m | 0 <= i < |qs| && 0 <= m < |qs| && i != m ensures Apart(qs, i, m) {
      assert i != 1 && m != 1 ==> Apart(ps, if i == 0 then 0 else i - 1, if m == 0 then 0 else m - 1);
      assert i == 1 ==> ps[if m == 0 then 0 else m - 1].slot != p.slot;
      assert m == 1 ==> ps[if i == 0 then 0 else i - 1].slot != p.slot;
    }
    forall i | 0 <= i < |t| ensures Vacant(t', qs, i) {
      assert Vacant(t, ps, i);
      assert qs[1].slot == p.slot && qs[0].slot == ps[0].slot;
      if HasSlot(ps, i) {
        var h :| 0 <= h < |ps| && ps[h].slot == i;
        assert qs[if h == 0 then 0 else h + 1].slot == i;
      }
    }
  }

  function Pred(k: nat, n: nat): nat
    requires 0 < n
  {
    if k == 0 then n - 1 else k - 1
  }

  // The write through prev and the reset of the slot take a process out of the ring.
  lemma ReprRemove(t: seq<Pcb>, ps: seq<Proc>, j: nat)
    requires Repr(t, ps) && j < |ps| && |ps| > 1
    ensures var (q, p) := (ps[Pred(j, |ps|)].slot, ps[j].slot);
      && p < |t| && q < |t| && p != q
      && Repr(t[q := t[q].(next := t[p].next)][p := UNUSED_PCB], Remove(ps, j))
  {
    var n := |ps|;
    var prev := Pred(j, n);
    assert Links(t, ps, j) && Links(t, ps, prev) && Apart(ps, j, prev);
    var (q, p) := (ps[prev].slot, ps[j].slot);
    var t' := t[q := t[q].(next := t[p].next)][p := UNUSED_PCB];
    var qs := Remove(ps, j);
    forall k | 0 <= k < |qs| ensures Links(t', qs, k) {
      var k' := if k < j then k else k + 1;
      assert Links(t, ps, k') && Apart(ps, k', j);
      if k' != prev { assert Apart(ps, k', prev); }
    }
    RemoveApart(ps, j);
    forall i | 0 <= i < |t| ensures Vacant(t', qs, i) {
      assert Vacant(t, ps, i);
      assert HasSlot(ps, q);
      if HasSlot(ps, i) && i != p { StillHasSlot(ps, j, i); }
    }
  }

  lemma StillHasSlot(ps: seq<Proc>, j: nat, i: nat)
    requires j < |ps| && HasSlot(ps, i) && i != ps[j].slot
    ensures HasSlot(Remove(ps, j), i)
  {
    var h :| 0 <= h < |ps| && ps[h].slot == i;
    assert Remove(ps, j)[if h < j then h else h - 1].slot == i;
  }

  // Any circle of slots through exactly the slots in use.
  ghost predicate IsRing(t: seq<Pcb>, ring: seq<nat>) {
    && |ring| > 0
    && (forall k | 0 <= k < |ring| ::
          ring[k] < |t| && t[ring[k]].state != SUnused && t[ring[k]].next == ring[Succ(k, |ring|)])
    && (forall i | 0 <= i < |t| && t[i].state != SUnused :: i in ring)
  }

  lemma ReprIsRing(t: seq<Pcb>, ps: seq<Proc>)
    requires Repr(t, ps)
    ensures IsRing(t, seq(|ps|, k requires 0 <= k < |ps| => ps[k].slot))
  {
    var ring := seq(|ps|, k requires 0 <= k < |ps| => ps[k].slot);
    forall k | 0 <= k < |ring|
      ensures ring[k] < |t| && t[ring[k]].state != SUnused && t[ring[k]].next == ring[Succ(k, |ring|)]
    {
      assert Links(t, ps, k);
    }
    forall i | 0 <= i < |t| && t[i].state != SUnused ensures i in ring {
      InTable(t, ps, i);
      var k :| 0 <= k < |ps| && ps[k].slot == i;
      assert ring[k] == i;
    }
  }

  /** What killing the head of run_queue does: its slot is cleared while its predecessor still
      points to it, so the slots in use no longer form a ring of any kind. */
  lemma HeadKillBreaksRing(t: seq<Pcb>, ps: seq<Proc>, j: nat, ring: seq<nat>)
    requires Repr(t, ps) && 0 < j < |ps|
    ensures ps[j].slot < |t| && !IsRing(t[ps[j].slot := UNUSED_PCB], ring)
  {
    assert Links(t, ps, j) && Links(t, ps, j - 1) && Apart(ps, j, j - 1);
    var (q, p) := (ps[j - 1].slot, ps[j].slot);
    var t' := t[p := UNUSED_PCB];
    assert t'[q].state != SUnused && t'[q].next == p && t'[p].state == SUnused;
  }

  // ---- a head that is not running ----

  lemma RunOne(s: Sched, e: Event, rest: seq<Event>)
    requires |s.procs| > 0 && Legal(s, e) && |Step(s, e).procs| > 0 && LegalRun(Step(s, e), rest)
    ensures LegalRun(s, [e] + rest) && Run(s, [e] + rest) == Run(Step(s, e), rest)
  {
    assert ([e] + rest)[1..] == rest;
  }

  /** One creation and five ticks after process_init, the process run_queue points to is not the
      current one: killing pid 0 then is the case in which the ring breaks. */
  lemma HeadWaits(regs: nat) returns (es: seq<Event>, s: Sched)
    requires regs != 0
    ensures LegalRun(Booted(HeapSpec.INITIAL), es) && Run(Booted(HeapSpec.INITIAL), es) == s
    ensures |s.procs| == 2 && s.procs[1].pid == 0 && s.head == s.procs[1].slot
    ensures DoKill(s, 0).1 == 0 && !Legal(s, Kill(0))
  {
    var s0 := Booted(HeapSpec.INITIAL);
    HeapSpec.MallocStep(HeapSpec.INITIAL, PROC_STACK);
    assert HeapSpec.INITIAL[0] in HeapSpec.INITIAL;
    assert !HasSlot(s0.procs, 1);
    assert IsFreeSlot(s0.procs, FreeSlot(s0.procs));
    var s1 := Step(s0, Create(false));
    assert |s1.procs| == 2 && s1.procs[0] == s0.procs[0] && s1.procs[1].status == Ready && s1.quantum == 0;
    var t := Tick(regs);
    assert NextReady(s1.procs, 1) == 1;
    var (s2, s3, s4, s5) := (s1.(quantum := 1), s1.(quantum := 2), s1.(quantum := 3), s1.(quantum := 4));
    s := Step(s5, t);
    RunOne(s5, t, []);
    RunOne(s4, t, [t] + []);
    RunOne(s3, t, [t] + ([t] + []));
    RunOne(s2, t, [t] + ([t] + ([t] + [])));
    RunOne(s1, t, [t] + ([t] + ([t] + ([t] + []))));
    es := [Create(false)] + ([t] + ([t] + ([t] + ([t] + ([t] + [])))));
    RunOne(s0, Create(false), [t] + ([t] + ([t] + ([t] + ([t] + [])))));
  }
}
