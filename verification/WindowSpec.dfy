// wm.c on values: the z-order, geometry, focus and dragging of windows, over every run.

module WindowSpec {

  const MIN_WIDTH := 120
  const MIN_HEIGHT := 80
  const TITLE_HEIGHT := 22
  const BTN_SIZE := 14
  const BTN_MARGIN := 4

  datatype Rect = Rect(x: int, y: int, w: nat, h: nat)

  // The framebuffer, a size fixed at boot, and the rows kept for the taskbar.
  datatype Area = Area(w: nat, h: nat, reserved: nat)

  ghost predicate Usable(a: Area) { 0 < a.w < 0x8000_0000 && 0 < a.h < 0x8000_0000 }

  // ---- geometry ----

  function Clamp(v: int, lo: int, hi: int): int {
    if v < lo then lo else if v > hi then hi else v
  }

  function WorkHeight(a: Area): nat {
    if a.reserved != 0 && a.h > a.reserved then a.h - a.reserved else a.h
  }

  function Min(a: int, b: int): int { if a < b then a else b }

  // wm_apply_bounds on a screen of nonzero size.
  function Bounded(r: Rect, a: Area): Rect {
    var w := Clamp(r.w, Min(MIN_WIDTH, a.w), a.w);
    var h := Clamp(r.h, Min(MIN_HEIGHT, WorkHeight(a)), WorkHeight(a));
    Rect(Clamp(r.x, 0, a.w - w), Clamp(r.y, 0, WorkHeight(a) - h), w, h)
  }

  // Inside the work area and not too small.
  predicate InArea(r: Rect, a: Area) {
    && 0 <= r.x && r.x + r.w <= a.w && Min(MIN_WIDTH, a.w) <= r.w
    && 0 <= r.y && r.y + r.h <= WorkHeight(a) && Min(MIN_HEIGHT, WorkHeight(a)) <= r.h
  }

  function Off(a: int, b: int): int { if a < b then b - a else a - b }

  /** Bounding moves a rectangle into the work area, changes none that is already there, keeps the
      size it can, and then the place it can. */
  lemma BoundedIsNearest(r: Rect, a: Area, t: Rect)
    requires Usable(a) && InArea(t, a)
    ensures InArea(Bounded(r, a), a)
    ensures Bounded(r, a) == r <==> InArea(r, a)
    ensures Off(r.w, Bounded(r, a).w) <= Off(r.w, t.w) && Off(r.h, Bounded(r, a).h) <= Off(r.h, t.h)
    ensures t.w == Bounded(r, a).w && t.h == Bounded(r, a).h ==>
      Off(r.x, Bounded(r, a).x) <= Off(r.x, t.x) && Off(r.y, Bounded(r, a).y) <= Off(r.y, t.y)
  {
  }

  lemma BoundedInArea(r: Rect, a: Area)
    requires Usable(a)
    ensures InArea(Bounded(r, a), a) && (InArea(r, a) ==> Bounded(r, a) == r)
  {
  }


  // ---- one window ----

  // closes says that the window has a close handler; every one of them hides its window.
  datatype Info = Info(rect: Rect, visible: bool, closes: bool, maximized: bool, saved: Rect, offX: int, offY: int)

  predicate Contains(i: Info, x: int, y: int) {
    i.visible && i.rect.x <= x < i.rect.x + i.rect.w && i.rect.y <= y < i.rect.y + i.rect.h
  }

  function Fitted(i: Info, a: Area): Info { i.(rect := Bounded(i.rect, a)) }

  function CloseX(i: Info): int { i.rect.x + i.rect.w - BTN_MARGIN - BTN_SIZE }

  function MaxX(i: Info): int { CloseX(i) - BTN_SIZE - BTN_MARGIN }

  function ButtonY(i: Info): int { i.rect.y + (TITLE_HEIGHT - BTN_SIZE) / 2 }

  predicate Hit(x: int, y: int, left: int, top: int) {
    left <= x < left + BTN_SIZE && top <= y < top + BTN_SIZE
  }

  predicate HitClose(i: Info, x: int, y: int) { Hit(x, y, CloseX(i), ButtonY(i)) }

  predicate HitMax(i: Info, x: int, y: int) { Hit(x, y, MaxX(i), ButtonY(i)) }

  predicate InTitle(i: Info, x: int, y: int) { Contains(i, x, y) && y < i.rect.y + TITLE_HEIGHT }

  // The two buttons of a window in the work area lie in its title bar and nowhere overlap, unless
  // the screen is too narrow for them.
  lemma ButtonsInTitle(i: Info, a: Area, x: int, y: int)
    requires Usable(a) && InArea(i.rect, a) && i.visible && a.w >= 40 && WorkHeight(a) >= TITLE_HEIGHT
    ensures HitClose(i, x, y) || HitMax(i, x, y) ==> InTitle(i, x, y)
    ensures !(HitClose(i, x, y) && HitMax(i, x, y))
  {
  }

  function Toggled(i: Info, a: Area): Info { Fitted(Flipped(i, a), a) }

  // wm_maximize_toggle before it applies the bounds.
  function Flipped(i: Info, a: Area): Info {
    if !i.maximized then i.(saved := i.rect, maximized := true, rect := Rect(0, 0, a.w, WorkHeight(a)))
    else i.(maximized := false, rect := Rect(i.saved.x, i.saved.y, if i.saved.w != 0 then i.saved.w else i.rect.w,
      if i.saved.h != 0 then i.saved.h else i.rect.h))
  }

  /** Maximizing fills the work area; toggling again gives back the exact rectangle of a window
      that was in the area. */
  lemma ToggleTwice(i: Info, a: Area)
    requires Usable(a) && !i.maximized
    ensures Toggled(i, a).rect == Rect(0, 0, a.w, WorkHeight(a))
    ensures Toggled(Toggled(i, a), a).rect == i.rect <==> InArea(i.rect, a)
    ensures InArea(i.rect, a) ==> Toggled(Toggled(i, a), a) == i.(saved := i.rect)
  {
  }

  // ---- the desktop ----

  // info stands for the fields of wm_window that are not links.
  class Window {
    var info: Info
    var prev: Window?
    var next: Window?

    constructor (i: Info)
      ensures info == i && prev == null && next == null
    {
      info, prev, next := i, null, null;
    }
  }

  // order runs from the bottom window to the top one; left says the button was last seen down.
  datatype Desk = Desk(order: seq<Window>, info: map<Window, Info>, focused: Window?, dragging: Window?, left: bool,
                       area: Area)

  ghost predicate Distinct(s: seq<Window>) {
    forall i, j :: 0 <= i < j < |s| ==> s[i] != s[j]
  }

  /** The desktop's invariant. */
  ghost predicate Inv(d: Desk) {
    && Usable(d.area) && Distinct(d.order)
    && (forall w :: w in d.order ==> w in d.info)
    && (forall w :: w in d.info ==> w in d.order && InArea(d.info[w].rect, d.area))
    && (d.focused != null ==> |d.order| > 0 && d.focused == d.order[|d.order| - 1])
    && (d.dragging != null ==> d.dragging in d.order && d.left)
  }

  // The list without its element i.
  function Without(s: seq<Window>, i: nat): seq<Window>
    requires i < |s|
  {
    seq(|s| - 1, k requires 0 <= k < |s| - 1 => if k < i then s[k] else s[k + 1])
  }

  function IndexOf(s: seq<Window>, w: Window): (i: nat)
    requires w in s
    ensures i < |s| && s[i] == w
  {
    if s[0] == w then 0 else 1 + IndexOf(s[1..], w)
  }

  function Raised(s: seq<Window>, w: Window): seq<Window>
    requires w in s
  {
    var i := IndexOf(s, w);
    seq(|s|, k requires 0 <= k < |s| => if k < i then s[k] else if k + 1 < |s| then s[k + 1] else w)
  }

  // ---- the operations ----

  function Focus(d: Desk, w: Window?): Desk
    requires w == null || w in d.order
  {
    if w == null then d.(focused := null) else d.(order := Raised(d.order, w), focused := w)
  }

  function SetInfo(d: Desk, w: Window, i: Info): Desk {
    d.(info := d.info[w := i])
  }

  function SetRect(d: Desk, w: Window, r: Rect): Desk
    requires w in d.info
  {
    SetInfo(d, w, Fitted(d.info[w].(rect := r), d.area))
  }

  function NewInfo(r: Rect): Info {
    Info(Rect(r.x, r.y, if r.w != 0 then r.w else MIN_WIDTH, if r.h != 0 then r.h else MIN_HEIGHT),
      true, false, false, Rect(0, 0, 0, 0), 0, 0)
  }

  function Create(d: Desk, w: Window, r: Rect): Desk {
    d.(order := d.order + [w], info := d.info[w := Fitted(NewInfo(r), d.area)], focused := w)
  }

  function Forgotten(d: Desk, w: Window): Desk {
    d.(focused := if d.focused == w then null else d.focused, dragging := if d.dragging == w then null else d.dragging)
  }

  function Destroy(d: Desk, w: Window): Desk
    requires w in d.order
  {
    Removed(Forgotten(d, w), w)
  }

  function Removed(d: Desk, w: Window): Desk
    requires w in d.order
  {
    d.(order := Without(d.order, IndexOf(d.order, w)), info := d.info - {w})
  }

  function Hide(d: Desk, w: Window): Desk
    requires w in d.info
  {
    SetInfo(Forgotten(d, w), w, d.info[w].(visible := false))
  }

  function Reserve(d: Desk, rows: nat): Desk {
    var a := d.area.(reserved := rows);
    d.(area := a, info := map w | w in d.info :: Fitted(d.info[w], a))
  }

  // The topmost visible window at a point among the lowest n.
  function Topmost(s: seq<Window>, info: map<Window, Info>, x: int, y: int, n: nat): (w: Window?)
    requires n <= |s| && forall v :: v in s ==> v in info
    ensures w == null || w in s
  {
    if n == 0 then null
    else if Contains(info[s[n - 1]], x, y) then s[n - 1]
    else Topmost(s, info, x, y, n - 1)
  }

  predicate TopmostAt(s: seq<Window>, info: map<Window, Info>, x: int, y: int, n: nat, k: nat)
    requires k < n <= |s| && forall v :: v in s ==> v in info
  {
    Contains(info[s[k]], x, y) && forall j :: k < j < n ==> !Contains(info[s[j]], x, y)
  }

  // What a press does to the window it hits, by the part of it that is hit.
  function Pressed(i: Info, a: Area, x: int, y: int): Info {
    if HitClose(i, x, y) then i.(visible := false)
    else if HitMax(i, x, y) then Toggled(i, a)
    else if Grabs(i, x, y) then i.(offX := x - i.rect.x, offY := y - i.rect.y)
    else i
  }

  // A drag starts.
  predicate Grabs(i: Info, x: int, y: int) {
    !HitClose(i, x, y) && !HitMax(i, x, y) && InTitle(i, x, y) && !i.maximized
  }

  function PressOn(d: Desk, w: Window, x: int, y: int): Desk
    requires w in d.info
  {
    var i := d.info[w];
    var d1 := SetInfo(d, w, Pressed(i, d.area, x, y));
    if HitClose(i, x, y) && i.closes then Forgotten(d1, w)
    else if Grabs(i, x, y) then d1.(dragging := w)
    else d1
  }

  function Press(d: Desk, x: int, y: int): Desk
    requires forall v :: v in d.order ==> v in d.info
  {
    var w := Topmost(d.order, d.info, x, y, |d.order|);
    if w == null then d else
      TopmostIs(d.order, d.info, x, y, |d.order|);
      PressOn(Focus(d, w), w, x, y)
  }

  function Drag(d: Desk, x: int, y: int): Desk
    requires d.dragging != null ==> d.dragging in d.info
  {
    if d.dragging == null then d else
      var i := d.info[d.dragging];
      SetRect(d, d.dragging, Rect(x - i.offX, y - i.offY, i.rect.w, i.rect.h))
  }

  // The button of one mouse event.
  function Buttoned(d: Desk, x: int, y: int, left: bool): Desk
    requires forall v :: v in d.order ==> v in d.info
  {
    if left && !d.left then Press(d, x, y) else if !left && d.left then d.(dragging := null) else d
  }

  // One mouse event.
  function Mouse(d: Desk, x: int, y: int, left: bool): Desk
    requires forall v :: v in d.order ==> v in d.info
    requires d.dragging != null ==> d.dragging in d.info
  {
    PressKnows(d, x, y);
    Drag(Buttoned(d, x, y, left), x, y).(left := left)
  }

  lemma PressKnows(d: Desk, x: int, y: int)
    requires forall v :: v in d.order ==> v in d.info
    requires d.dragging != null ==> d.dragging in d.info
    ensures var p := Press(d, x, y); p.dragging != null ==> p.dragging in p.info
  {
    TopmostIs(d.order, d.info, x, y, |d.order|);
  }

  /** The window found contains the point, and no window above it does; none is found only when no
      window contains it. */
  lemma {:induction false} TopmostIs(s: seq<Window>, info: map<Window, Info>, x: int, y: int, n: nat)
    requires n <= |s| && forall v :: v in s ==> v in info
    ensures var w := Topmost(s, info, x, y, n);
      if w == null then forall j :: 0 <= j < n ==> !Contains(info[s[j]], x, y)
      else exists k :: 0 <= k < n && w == s[k] && TopmostAt(s, info, x, y, n, k)
  {
    if n > 0 && !Contains(info[s[n - 1]], x, y) { TopmostIs(s, info, x, y, n - 1); }
  }

  // ---- the z-order ----

  /** Raising moves one window to the top and keeps the others as they were. */
  lemma RaisedMovesOne(s: seq<Window>, w: Window)
    requires w in s && Distinct(s)
    ensures |Raised(s, w)| == |s| && Raised(s, w)[|s| - 1] == w && Distinct(Raised(s, w))
    ensures Without(Raised(s, w), |s| - 1) == Without(s, IndexOf(s, w))
    ensures forall v :: v in Raised(s, w) ==> v in s
    ensures forall v :: v in s ==> v in Raised(s, w)
    ensures s[|s| - 1] == w ==> Raised(s, w) == s
  {
    var i := IndexOf(s, w);
    WithoutKeeps(s, i);
    assert Raised(s, w)[..|s| - 1] == Without(s, i);
    if s[|s| - 1] == w { assert i == |s| - 1; }
  }

  lemma WithoutKeeps(s: seq<Window>, i: nat)
    requires i < |s| && Distinct(s)
    ensures Distinct(Without(s, i)) && s[i] !in Without(s, i)
    ensures forall v :: v in Without(s, i) ==> v in s
    ensures forall v :: v in s && v != s[i] ==> v in Without(s, i)
  {
    var t := Without(s, i);
    forall v | v in s && v != s[i] ensures v in t {
      var k := IndexOf(s, v);
      assert t[if k < i then k else k - 1] == v;
    }
  }

  // ---- every operation keeps the invariant ----

  datatype Op =
    | New(w: Window, r: Rect)
    | Destruct(w: Window)
    | Disappear(w: Window)
    | Appear(w: Window)
    | Place(w: Window, x: int, y: int)
    | Size(w: Window, width: nat, height: nat)
    | Ask(v: Window?)
    | Keep(rows: nat)
    | Maximize(w: Window)
    | Handle(w: Window, closes: bool)
    | Move(x: int, y: int, left: bool)

  predicate Legal(d: Desk, op: Op) {
    match op
    case New(w, r) => w !in d.info
    case Ask(v) => v == null || v in d.order
    case Keep(_) | Move(_, _, _) => true
    case _ => op.w in d.order
  }

  function Step(d: Desk, op: Op): Desk
    requires Inv(d) && Legal(d, op)
  {
    match op
    case New(w, r) => Create(d, w, r)
    case Destruct(w) => Destroy(d, w)
    case Disappear(w) => Hide(d, w)
    case Appear(w) => SetInfo(d, w, d.info[w].(visible := true))
    case Place(w, x, y) => SetRect(d, w, d.info[w].rect.(x := x, y := y))
    case Size(w, width, height) => SetRect(d, w, d.info[w].rect.(w := width, h := height))
    case Ask(v) => Focus(d, v)
    case Keep(rows) => Reserve(d, rows)
    case Maximize(w) => SetInfo(d, w, Toggled(d.info[w], d.area))
    case Handle(w, closes) => SetInfo(d, w, d.info[w].(closes := closes))
    case Move(x, y, left) => Mouse(d, x, y, left)
  }

  lemma CreateKeeps(d: Desk, w: Window, r: Rect)
    requires Inv(d) && w !in d.info
    ensures Inv(Create(d, w, r))
  {
    BoundedInArea(NewInfo(r).rect, d.area);
  }

  lemma SetRectKeeps(d: Desk, w: Window, r: Rect)
    requires Inv(d) && w in d.order
    ensures Inv(SetRect(d, w, r))
  {
    BoundedInArea(r, d.area);
  }

  lemma FocusKeeps(d: Desk, w: Window?)
    requires Inv(d) && (w == null || w in d.order)
    ensures Inv(Focus(d, w))
  {
    if w != null { RaisedMovesOne(d.order, w); }
  }

  lemma SetInfoKeeps(d: Desk, w: Window, i: Info)
    requires Inv(d) && w in d.order && InArea(i.rect, d.area)
    ensures Inv(SetInfo(d, w, i))
  {
  }

  lemma HideKeeps(d: Desk, w: Window)
    requires Inv(d) && w in d.order
    ensures Inv(Hide(d, w))
  {
    ForgottenKeeps(d, w);
    SetInfoKeeps(Forgotten(d, w), w, d.info[w].(visible := false));
  }

  lemma DestroyKeeps(d: Desk, w: Window)
    requires Inv(d) && w in d.order
    ensures Inv(Destroy(d, w))
  {
    ForgottenKeeps(d, w);
    TakenOut(d.order, w, IndexOf(d.order, w));
  }

  // The others are still there, as they were.
  lemma RemovedKeepsOthers(d: Desk, w: Window)
    requires w in d.order && Distinct(d.order)
    requires forall v :: v in d.order ==> v in d.info
    ensures var e := Removed(d, w);
      && (forall v :: v in e.order ==> v in d.order && v in e.info && v in d.info && e.info[v] == d.info[v])
      && (d.dragging != null && d.dragging in d.order && d.dragging != w ==> d.dragging in e.order)
  {
    TakenOut(d.order, w, IndexOf(d.order, w));
  }

  lemma TakenOut(s: seq<Window>, w: Window, i: nat)
    requires Distinct(s) && i < |s| && s[i] == w
    ensures var t := Without(s, i);
      && Distinct(t) && w !in t && (forall v :: v in t ==> v in s) && (forall v :: v in s && v != w ==> v in t)
      && (s[|s| - 1] != w ==> |t| > 0 && t[|t| - 1] == s[|s| - 1])
  {
    WithoutKeeps(s, i);
  }

  lemma PressKeeps(d: Desk, x: int, y: int)
    requires Inv(d)
    ensures var p := Press(d, x, y); Inv(p.(left := true)) && p.area == d.area && p.left == d.left
  {
    var w := Topmost(d.order, d.info, x, y, |d.order|);
    if w != null {
      TopmostIs(d.order, d.info, x, y, |d.order|);
      FocusKeeps(d, w);
      PressOnKeeps(Focus(d, w), w, x, y);
    }
  }

  lemma PressOnKeeps(d: Desk, w: Window, x: int, y: int)
    requires Inv(d) && w in d.order
    ensures Inv(PressOn(d, w, x, y).(left := true))
    ensures PressOn(d, w, x, y).left == d.left && PressOn(d, w, x, y).area == d.area
  {
    PressedInArea(d.info[w], d.area, x, y);
    SetInfoKeeps(d, w, Pressed(d.info[w], d.area, x, y));
    ForgottenKeeps(SetInfo(d, w, Pressed(d.info[w], d.area, x, y)), w);
  }

  lemma PressedInArea(i: Info, a: Area, x: int, y: int)
    requires Usable(a) && InArea(i.rect, a)
    ensures InArea(Pressed(i, a, x, y).rect, a)
  {
    ToggledInArea(i, a);
  }

  lemma ForgottenKeeps(d: Desk, w: Window)
    requires Inv(d)
    ensures Inv(Forgotten(d, w))
  {
  }

  lemma ToggledInArea(i: Info, a: Area)
    requires Usable(a)
    ensures InArea(Toggled(i, a).rect, a)
  {
  }

  lemma DragKeeps(d: Desk, x: int, y: int)
    requires Inv(d)
    ensures Inv(Drag(d, x, y))
  {
    if d.dragging != null {
      var i := d.info[d.dragging];
      BoundedInArea(Rect(x - i.offX, y - i.offY, i.rect.w, i.rect.h), d.area);
    }
  }

  lemma MouseKeeps(d: Desk, x: int, y: int, left: bool)
    requires Inv(d)
    ensures Inv(Mouse(d, x, y, left))
  {
    PressKeeps(d, x, y);
    var d1 := Buttoned(d, x, y, left);
    DragKeeps(d1.(left := left), x, y);
    assert Mouse(d, x, y, left) == Drag(d1.(left := left), x, y);
  }

  // No event adds a window or takes one away.
  lemma MouseKeepsWindows(d: Desk, x: int, y: int, left: bool)
    requires Inv(d)
    ensures forall w :: w in Mouse(d, x, y, left).order ==> w in d.order
  {
    PressKeepsWindows(d, x, y);
    assert Mouse(d, x, y, left).order == Buttoned(d, x, y, left).order;
  }

  lemma PressKeepsWindows(d: Desk, x: int, y: int)
    requires Inv(d)
    ensures forall w :: w in Press(d, x, y).order ==> w in d.order
  {
    var w := Topmost(d.order, d.info, x, y, |d.order|);
    if w != null { assert Press(d, x, y).order == Raised(d.order, w); }
  }

  lemma StepKeeps(d: Desk, op: Op)
    requires Inv(d) && Legal(d, op)
    ensures Inv(Step(d, op))
  {
    match op
    case New(w, r) => CreateKeeps(d, w, r);
    case Destruct(w) => DestroyKeeps(d, w);
    case Disappear(w) => HideKeeps(d, w);
    case Appear(w) => SetInfoKeeps(d, w, d.info[w].(visible := true));
    case Place(w, x, y) => SetRectKeeps(d, w, d.info[w].rect.(x := x, y := y));
    case Size(w, width, height) => SetRectKeeps(d, w, d.info[w].rect.(w := width, h := height));
    case Ask(v) => FocusKeeps(d, v);
    case Keep(rows) => ReserveKeeps(d, rows);
    case Maximize(w) => ToggledInArea(d.info[w], d.area);
    case Handle(w, closes) => SetInfoKeeps(d, w, d.info[w].(closes := closes));
    case Move(x, y, left) => MouseKeeps(d, x, y, left);
  }

  lemma ReserveKeeps(d: Desk, rows: nat)
    requires Inv(d)
    ensures Inv(Reserve(d, rows))
  {
    forall w | w in d.info ensures InArea(Reserve(d, rows).info[w].rect, d.area.(reserved := rows)) {
      BoundedInArea(d.info[w].rect, d.area.(reserved := rows));
    }
  }

  // ---- every run ----

  ghost function Next(d: Desk, op: Op): (e: Desk)
    requires Inv(d) && Legal(d, op)
    ensures Inv(e)
  {
    StepKeeps(d, op);
    Step(d, op)
  }

  ghost predicate LegalRun(d: Desk, ops: seq<Op>)
    requires Inv(d)
    decreases |ops|
  {
    |ops| > 0 ==> Legal(d, ops[0]) && LegalRun(Next(d, ops[0]), ops[1..])
  }

  ghost function Run(d: Desk, ops: seq<Op>): Desk
    requires Inv(d) && LegalRun(d, ops)
    decreases |ops|
  {
    if |ops| == 0 then d else Run(Next(d, ops[0]), ops[1..])
  }

  /** Over every run of legal calls and mouse events: distinct windows, each inside the work area;
      the focus is nowhere or on top; a drag only while the button was last seen down. */
  lemma {:induction false} RunKeeps(d: Desk, ops: seq<Op>)
    requires Inv(d) && LegalRun(d, ops)
    ensures Inv(Run(d, ops))
    decreases |ops|
  {
    if |ops| > 0 { RunKeeps(Next(d, ops[0]), ops[1..]); }
  }

  // The state wm_init leaves.
  ghost function Start(a: Area): (d: Desk)
    requires Usable(a)
    ensures Inv(d)
  {
    Desk([], map[], null, null, false, a.(reserved := 0))
  }

  /** So all of that holds in every run from wm_init. */
  lemma StartedKeeps(a: Area, ops: seq<Op>)
    requires Usable(a) && LegalRun(Start(a), ops)
    ensures Inv(Run(Start(a), ops))
  {
    RunKeeps(Start(a), ops);
  }

  // ---- the event queue ----

  datatype Event = Event(x: int, y: int, left: bool)

  // wm_update on the events that are waiting.
  function Update(d: Desk, evs: seq<Event>): (e: Desk)
    requires Inv(d)
    ensures Inv(e)
    decreases |evs|
  {
    MouseKeepsAll(d);
    if |evs| == 0 then d else Update(Mouse(d, evs[0].x, evs[0].y, evs[0].left), evs[1..])
  }

  // The first event and the rest.
  lemma UpdateStep(d: Desk, evs: seq<Event>, k: nat)
    requires Inv(d) && k < |evs|
    ensures var e := evs[k];
      var d1 := Mouse(d, e.x, e.y, e.left);
      && Inv(d1) && Update(d, evs[k..]) == Update(d1, evs[k + 1..])
      && forall i :: 0 <= i < |d1.order| ==> d1.order[i] in d.order
  {
    MouseKeeps(d, evs[k].x, evs[k].y, evs[k].left);
    MouseKeepsWindows(d, evs[k].x, evs[k].y, evs[k].left);
    assert evs[k..][1..] == evs[k + 1..];
  }

  lemma MouseKeepsAll(d: Desk)
    requires Inv(d)
    ensures forall x, y, left :: Inv(Mouse(d, x, y, left))
  {
    forall x, y, left ensures Inv(Mouse(d, x, y, left)) { MouseKeeps(d, x, y, left); }
  }

  function Moves(evs: seq<Event>): seq<Op> {
    seq(|evs|, k requires 0 <= k < |evs| => Move(evs[k].x, evs[k].y, evs[k].left))
  }

  lemma {:induction false} UpdateIsRun(d: Desk, evs: seq<Event>)
    requires Inv(d)
    ensures LegalRun(d, Moves(evs)) && Run(d, Moves(evs)) == Update(d, evs)
    decreases |evs|
  {
    if |evs| > 0 {
      var d1 := Next(d, Moves(evs)[0]);
      UpdateIsRun(d1, evs[1..]);
      assert Moves(evs)[1..] == Moves(evs[1..]);
    }
  }

  // ---- dragging ----

  // The button stays down.
  ghost predicate Held(evs: seq<Event>) {
    forall k :: 0 <= k < |evs| ==> evs[k].left
  }

  // Where a window is that was grabbed at r with the pointer at (px, py), now at (x, y).
  function Dragged(r: Rect, a: Area, px: int, py: int, x: int, y: int): Rect {
    Bounded(Rect(r.x + x - px, r.y + y - py, r.w, r.h), a)
  }

  function Grabbed(d: Desk, w: Window, x: int, y: int): Desk
    requires w in d.order && w in d.info
  {
    var i := d.info[w];
    Desk(Raised(d.order, w), d.info[w := i.(offX := x - i.rect.x, offY := y - i.rect.y)], w, w, true, d.area)
  }

  /** A press on a title bar grabs the window without moving it, raises and focuses it, and alters
      no other window. */
  lemma PressGrabs(d: Desk, x: int, y: int)
    requires Inv(d) && !d.left
    ensures var w := Topmost(d.order, d.info, x, y, |d.order|);
      w != null && Grabs(d.info[w], x, y) ==> w in d.order && Mouse(d, x, y, true) == Grabbed(d, w, x, y)
  {
    TopmostIs(d.order, d.info, x, y, |d.order|);
    var w := Topmost(d.order, d.info, x, y, |d.order|);
    if w != null { BoundedInArea(d.info[w].rect, d.area); }
  }

  function Followed(d: Desk, w: Window, x: int, y: int): Desk
    requires w in d.info
  {
    var i := d.info[w];
    SetInfo(d, w, i.(rect := Bounded(Rect(x - i.offX, y - i.offY, i.rect.w, i.rect.h), d.area)))
  }

  // One event with the button down moves the dragged window and does nothing else.
  lemma HeldStep(d: Desk, x: int, y: int, w: Window)
    requires Inv(d) && d.left && d.dragging == w
    ensures w in d.info && Mouse(d, x, y, true) == Followed(d, w, x, y) && Inv(Followed(d, w, x, y))
  {
    MouseKeeps(d, x, y, true);
  }

  lemma FollowedTwice(d: Desk, w: Window, x: int, y: int, u: int, v: int)
    requires Usable(d.area) && w in d.info && InArea(d.info[w].rect, d.area)
    ensures Followed(Followed(d, w, x, y), w, u, v) == Followed(d, w, u, v)
  {
  }

  // While the button is held, the pointer alone says where the dragged window is.
  lemma {:induction false} DragFollowsPointer(d: Desk, evs: seq<Event>, w: Window)
    requires Inv(d) && d.left && d.dragging == w && Held(evs) && |evs| > 0
    ensures w in d.info && Update(d, evs) == Followed(d, w, evs[|evs| - 1].x, evs[|evs| - 1].y)
    decreases |evs|
  {
    var (x, y, last) := (evs[0].x, evs[0].y, evs[|evs| - 1]);
    HeldStep(d, x, y, w);
    var d1 := Followed(d, w, x, y);
    assert Update(d, evs) == Update(d1, evs[1..]);
    if |evs| > 1 {
      DragFollowsPointer(d1, evs[1..], w);
      FollowedTwice(d, w, x, y, last.x, last.y);
    }
  }

  /** Wherever the pointer went meanwhile, a dragged window is where the pointer's whole way from
      the grab takes it, held inside the work area: running into an edge loses nothing. */
  lemma DragIsPathFree(d: Desk, evs: seq<Event>)
    requires Inv(d) && !d.left && Held(evs) && |evs| > 1
    ensures var (p, q) := (evs[0], evs[|evs| - 1]);
      var (w, e) := (Topmost(d.order, d.info, p.x, p.y, |d.order|), Update(d, evs));
      w != null && Grabs(d.info[w], p.x, p.y) ==>
        && w in d.order && e.order == Raised(d.order, w) && e.focused == w && e.dragging == w && w in e.info
        && e.info[w].rect == Dragged(d.info[w].rect, d.area, p.x, p.y, q.x, q.y)
        && forall v :: v in d.info && v != w ==> v in e.info && e.info[v] == d.info[v]
  {
    var (x, y) := (evs[0].x, evs[0].y);
    PressGrabs(d, x, y);
    var w := Topmost(d.order, d.info, x, y, |d.order|);
    MouseKeeps(d, x, y, true);
    if w != null && Grabs(d.info[w], x, y) { DragFollowsPointer(Mouse(d, x, y, true), evs[1..], w); }
  }

  // ---- maximizing ----

  // w stays on the desktop and maximized all through the run.
  ghost predicate StaysMaximized(d: Desk, ops: seq<Op>, w: Window)
    requires Inv(d) && LegalRun(d, ops)
    decreases |ops|
  {
    && w in d.info && d.info[w].maximized
    && (|ops| > 0 ==> StaysMaximized(Next(d, ops[0]), ops[1..], w))
  }

  lemma StepKeepsSaved(d: Desk, op: Op, w: Window)
    requires Inv(d) && Legal(d, op) && w in d.info && w in Step(d, op).info
    requires d.info[w].maximized && Step(d, op).info[w].maximized
    ensures Step(d, op).info[w].saved == d.info[w].saved
  {
    if op.Move? { MouseKeepsSaved(d, op.x, op.y, op.left, w); }
  }

  lemma MouseKeepsSaved(d: Desk, x: int, y: int, left: bool, w: Window)
    requires Inv(d) && w in d.info && d.info[w].maximized
    ensures var e := Mouse(d, x, y, left); w in e.info && (e.info[w].maximized ==> e.info[w].saved == d.info[w].saved)
  {
    PressKeepsSaved(d, x, y, w);
  }

  lemma PressKeepsSaved(d: Desk, x: int, y: int, w: Window)
    requires Inv(d) && w in d.info && d.info[w].maximized
    ensures var e := Press(d, x, y); w in e.info && (e.info[w].maximized ==> e.info[w].saved == d.info[w].saved)
  {
  }

  lemma {:induction false} RunKeepsSaved(d: Desk, ops: seq<Op>, w: Window)
    requires Inv(d) && LegalRun(d, ops) && StaysMaximized(d, ops, w)
    ensures w in Run(d, ops).info && Run(d, ops).info[w].maximized
    ensures Run(d, ops).info[w].saved == d.info[w].saved
    decreases |ops|
  {
    if |ops| > 0 {
      RunKeepsSaved(Next(d, ops[0]), ops[1..], w);
      StepKeepsSaved(d, ops[0], w);
    }
  }

  /** Maximizing, any run that leaves the window maximized whatever else it does to it and to the
      taskbar, and toggling again: the window is back at the rectangle it had, moved only as far as
      the work area of the day demands, and not at all if that still holds it. */
  lemma MaximizeRestores(d: Desk, ops: seq<Op>, w: Window)
    requires Inv(d) && w in d.order && !d.info[w].maximized
    requires LegalRun(Next(d, Maximize(w)), ops) && StaysMaximized(Next(d, Maximize(w)), ops, w)
    ensures var e := Run(Next(d, Maximize(w)), ops);
      && w in e.info
      && Toggled(e.info[w], e.area).rect == Bounded(d.info[w].rect, e.area)
      && (InArea(d.info[w].rect, e.area) ==> Toggled(e.info[w], e.area).rect == d.info[w].rect)
  {
    RunKeepsSaved(Next(d, Maximize(w)), ops, w);
    RunKeeps(Next(d, Maximize(w)), ops);
    BoundedInArea(d.info[w].rect, Run(Next(d, Maximize(w)), ops).area);
  }
}
