// What each call and each kind of mouse event does to the desktop, window by window.

module WindowLaws {
  import opened WindowSpec

  // ---- geometry ----

  /** The work area is the screen without the rows kept for the taskbar, unless those are all of it. */
  lemma WorkHeightIs(a: Area)
    ensures WorkHeight(a) == if a.reserved < a.h then a.h - a.reserved else a.h
  {
  }

  /** The two buttons are squares of 14 pixels, 4 from the top and from each other and from the right edge;
      the title bar is 22 pixels high. */
  lemma ButtonsAt(i: Info, x: int, y: int)
    ensures var (right, top) := (i.rect.x + i.rect.w, i.rect.y);
      && (HitClose(i, x, y) <==> right - 18 <= x < right - 4 && top + 4 <= y < top + 18)
      && (HitMax(i, x, y) <==> right - 36 <= x < right - 22 && top + 4 <= y < top + 18)
      && (InTitle(i, x, y) <==> i.visible && i.rect.x <= x < right && top <= y < top + i.rect.h && y < top + 22)
  {
  }

  // t is where a rectangle asked for comes to be: in the area, as near in size as can be, and then in place.
  ghost predicate Nearest(r: Rect, a: Area, t: Rect) {
    && 0 <= t.x && t.x + t.w <= a.w && Min(120, a.w) <= t.w
    && 0 <= t.y && t.y + t.h <= WorkHeight(a) && Min(80, WorkHeight(a)) <= t.h
    && forall u | InArea(u, a) ::
         && Off(r.w, t.w) <= Off(r.w, u.w) && Off(r.h, t.h) <= Off(r.h, u.h)
         && (u.w == t.w && u.h == t.h ==> Off(r.x, t.x) <= Off(r.x, u.x) && Off(r.y, t.y) <= Off(r.y, u.y))
  }

  lemma BoundedNearest(r: Rect, a: Area)
    requires Usable(a)
    ensures Nearest(r, a, Bounded(r, a))
  {
    BoundedInArea(r, a);
    forall u | InArea(u, a)
      ensures Off(r.w, Bounded(r, a).w) <= Off(r.w, u.w) && Off(r.h, Bounded(r, a).h) <= Off(r.h, u.h)
      ensures u.w == Bounded(r, a).w && u.h == Bounded(r, a).h ==>
        Off(r.x, Bounded(r, a).x) <= Off(r.x, u.x) && Off(r.y, Bounded(r, a).y) <= Off(r.y, u.y)
    {
      BoundedIsNearest(r, a, u);
    }
  }

  // ---- calls ----

  // Nothing but this window's fields has changed.
  ghost predicate OnlyInfo(d: Desk, e: Desk, w: Window) {
    w in d.info && w in e.info && e == d.(info := d.info[w := e.info[w]])
  }

  // The window has gone from one place of the list to the top.
  ghost predicate ToTop(before: seq<Window>, after: seq<Window>, w: Window) {
    exists k :: 0 <= k < |before| && before[k] == w && after == before[..k] + before[k + 1..] + [w]
  }

  ghost predicate TakenOff(before: seq<Window>, after: seq<Window>, w: Window) {
    exists k :: 0 <= k < |before| && before[k] == w && after == before[..k] + before[k + 1..]
  }

  lemma RaisedToTop(s: seq<Window>, w: Window)
    requires w in s
    ensures ToTop(s, Raised(s, w), w)
  {
    var k := IndexOf(s, w);
    assert Raised(s, w) == s[..k] + s[k + 1..] + [w];
  }

  /** A new window is on top and has the focus: visible, not maximized, without a close handler, with the
      rectangle asked for, at least 120 or 80 where it was 0. */
  lemma CreateAdds(d: Desk, w: Window, r: Rect)
    requires Inv(d) && w !in d.info
    ensures var e := Step(d, New(w, r));
      && w in e.info
      && var i := e.info[w];
      && e == d.(order := d.order + [w], info := d.info[w := i], focused := w)
      && i.visible && !i.closes && !i.maximized
      && Nearest(Rect(r.x, r.y, if r.w == 0 then 120 else r.w, if r.h == 0 then 80 else r.h), d.area, i.rect)
  {
    BoundedNearest(Rect(r.x, r.y, if r.w == 0 then 120 else r.w, if r.h == 0 then 80 else r.h), d.area);
  }

  /** A window destroyed leaves the list, and the focus and the drag if it had them. */
  lemma DestroyTakesOff(d: Desk, w: Window)
    requires Inv(d) && w in d.order
    ensures var e := Step(d, Destruct(w));
      && TakenOff(d.order, e.order, w) && e.info == d.info - {w} && e.area == d.area && e.left == d.left
      && e.focused == (if d.focused == w then null else d.focused)
      && e.dragging == (if d.dragging == w then null else d.dragging)
  {
    var k := IndexOf(d.order, w);
    assert Without(d.order, k) == d.order[..k] + d.order[k + 1..];
  }

  /** A window hidden is not seen and loses the focus and the drag. */
  lemma HideConceals(d: Desk, w: Window)
    requires Inv(d) && w in d.order
    ensures var e := Step(d, Disappear(w));
      && e.order == d.order && e.area == d.area && e.left == d.left
      && e.info == d.info[w := d.info[w].(visible := false)]
      && e.focused == (if d.focused == w then null else d.focused)
      && e.dragging == (if d.dragging == w then null else d.dragging)
  {
  }

  /** The calls that change one window change just what they say. */
  lemma CallChangesOne(d: Desk, op: Op)
    requires Inv(d) && Legal(d, op) && (op.Appear? || op.Place? || op.Size? || op.Maximize? || op.Handle?)
    ensures var e := Step(d, op);
      && OnlyInfo(d, e, op.w)
      && var (i, j) := (d.info[op.w], e.info[op.w]);
      match op
      case Appear(_) => j == i.(visible := true)
      case Handle(_, closes) => j == i.(closes := closes)
      case Place(_, x, y) => j == i.(rect := j.rect) && Nearest(i.rect.(x := x, y := y), d.area, j.rect)
      case Size(_, width, height) =>
        j == i.(rect := j.rect) && Nearest(i.rect.(w := width, h := height), d.area, j.rect)
      case _ => MaximizedFrom(i, d.area, j)
  {
    match op {
      case Place(w, x, y) => BoundedNearest(d.info[w].rect.(x := x, y := y), d.area);
      case Size(w, width, height) => BoundedNearest(d.info[w].rect.(w := width, h := height), d.area);
      case Maximize(w) => ToggleMaximizes(d.info[w], d.area);
      case _ =>
    }
  }

  // A toggle from one state to the other: filling the work area and keeping the rectangle, or going back to
  // the one that was kept.
  ghost predicate MaximizedFrom(i: Info, a: Area, j: Info) {
    if !i.maximized then j == i.(maximized := true, saved := i.rect, rect := Rect(0, 0, a.w, WorkHeight(a)))
    else
      && j == i.(maximized := false, rect := j.rect)
      && Nearest(Rect(i.saved.x, i.saved.y, if i.saved.w == 0 then i.rect.w else i.saved.w,
                      if i.saved.h == 0 then i.rect.h else i.saved.h), a, j.rect)
  }

  lemma ToggleMaximizes(i: Info, a: Area)
    requires Usable(a)
    ensures MaximizedFrom(i, a, Toggled(i, a))
  {
    BoundedNearest(Flipped(i, a).rect, a);
  }

  /** wm_focus_window raises the window and gives it the focus; NULL takes the focus away. */
  lemma FocusRaises(d: Desk, w: Window?)
    requires Inv(d) && (w == null || w in d.order)
    ensures var e := Step(d, Ask(w));
      && e == d.(order := e.order, focused := w)
      && if w == null then e.order == d.order else ToTop(d.order, e.order, w)
  {
    if w != null { RaisedToTop(d.order, w); }
  }

  /** Keeping other rows for the taskbar moves every window into the new work area, and changes nothing
      else of it. */
  lemma ReserveRefits(d: Desk, rows: nat)
    requires Inv(d)
    ensures var e := Step(d, Keep(rows));
      && e == d.(area := d.area.(reserved := rows), info := e.info) && e.info.Keys == d.info.Keys
      && forall w | w in d.info :: Refitted(d.info[w], e.area, e.info[w])
  {
    var a := d.area.(reserved := rows);
    forall w | w in d.info ensures Refitted(d.info[w], a, Reserve(d, rows).info[w]) {
      BoundedNearest(d.info[w].rect, a);
    }
  }

  // The same window, its rectangle moved into the area.
  ghost predicate Refitted(i: Info, a: Area, j: Info) {
    j == i.(rect := j.rect) && Nearest(i.rect, a, j.rect)
  }

  // ---- mouse events ----

  // The topmost visible window at the point.
  ghost predicate IsTop(d: Desk, w: Window, x: int, y: int) {
    && (forall v :: v in d.order ==> v in d.info)
    && exists k :: 0 <= k < |d.order| && d.order[k] == w && AtTop(d, k, x, y)
  }

  ghost predicate AtTop(d: Desk, k: nat, x: int, y: int)
    requires k < |d.order| && forall v :: v in d.order ==> v in d.info
  {
    Contains(d.info[d.order[k]], x, y) && forall j | k < j < |d.order| :: !Contains(d.info[d.order[j]], x, y)
  }

  lemma TopIs(d: Desk, w: Window, x: int, y: int)
    requires Inv(d) && IsTop(d, w, x, y)
    ensures Topmost(d.order, d.info, x, y, |d.order|) == w
  {
    TopmostIs(d.order, d.info, x, y, |d.order|);
  }

  /** While the button stays up, or down with nothing dragged, the pointer changes nothing; letting it go ends
      the drag where it is; and a press where no window is only counts as one. */
  lemma MouseAlone(d: Desk, x: int, y: int, left: bool)
    requires Inv(d)
    ensures left == d.left && d.dragging == null ==> Mouse(d, x, y, left) == d
    ensures Step(d, Move(x, y, left)) == Mouse(d, x, y, left)
    ensures d.left && !left ==> Mouse(d, x, y, left) == d.(dragging := null, left := false)
    ensures !d.left && left && (forall w :: w in d.order ==> !Contains(d.info[w], x, y)) ==>
      Mouse(d, x, y, left) == d.(left := true)
  {
    TopmostIs(d.order, d.info, x, y, |d.order|);
  }

  /** While the button is down a grabbed window goes where the pointer is, less the offset of the grab, as
      far as the work area lets it, and nothing else changes. */
  lemma HeldMoves(d: Desk, x: int, y: int, w: Window)
    requires Inv(d) && d.left && d.dragging == w
    ensures var e := Mouse(d, x, y, true);
      && OnlyInfo(d, e, w)
      && var (i, j) := (d.info[w], e.info[w]);
      && j == i.(rect := j.rect)
      && Nearest(Rect(x - i.offX, y - i.offY, i.rect.w, i.rect.h), d.area, j.rect)
  {
    BoundedNearest(Rect(x - d.info[w].offX, y - d.info[w].offY, d.info[w].rect.w, d.info[w].rect.h), d.area);
  }

  /** A press goes to the topmost window at the point, which comes to the top with the focus. On its close
      button it is hidden, and loses the focus if its close handler did that; on the other button it is
      maximized or restored; on the rest of the title bar it is grabbed where it was hit, unless it is
      maximized; anywhere else nothing more happens. No other window changes. */
  lemma PressActs(d: Desk, x: int, y: int, w: Window)
    requires Inv(d) && !d.left && IsTop(d, w, x, y)
    ensures var (e, i) := (Mouse(d, x, y, true), d.info[w]);
      && ToTop(d.order, e.order, w) && e.left && e.area == d.area
      && w in e.info && e.info == d.info[w := e.info[w]]
      && var j := e.info[w];
      if HitClose(i, x, y) then
        j == i.(visible := false) && e.dragging == null && e.focused == if i.closes then null else w
      else if HitMax(i, x, y) then MaximizedFrom(i, d.area, j) && e.dragging == null && e.focused == w
      else if y < i.rect.y + 22 && !i.maximized then
        j == i.(offX := x - i.rect.x, offY := y - i.rect.y) && e.dragging == w && e.focused == w
      else j == i && e.dragging == null && e.focused == w
  {
    TopIs(d, w, x, y);
    RaisedToTop(d.order, w);
    assert Contains(d.info[w], x, y);
    if Grabs(d.info[w], x, y) {
      PressGrabs(d, x, y);
    } else {
      PressEnds(d, x, y, w);
      PressedOn(d, x, y, w);
    }
  }

  // A press that grabs nothing.
  lemma PressEnds(d: Desk, x: int, y: int, w: Window)
    requires Inv(d) && !d.left && w in d.order && Topmost(d.order, d.info, x, y, |d.order|) == w
    requires !Grabs(d.info[w], x, y)
    ensures Mouse(d, x, y, true) == PressOn(Focus(d, w), w, x, y).(left := true)
  {
  }

  lemma PressedOn(d: Desk, x: int, y: int, w: Window)
    requires Inv(d) && !d.left && w in d.order && !Grabs(d.info[w], x, y)
    ensures var (e, i) := (PressOn(Focus(d, w), w, x, y), d.info[w]);
      && e == d.(order := Raised(d.order, w), info := d.info[w := e.info[w]], focused := e.focused)
      && var j := e.info[w];
      if HitClose(i, x, y) then j == i.(visible := false) && e.focused == if i.closes then null else w
      else if HitMax(i, x, y) then MaximizedFrom(i, d.area, j) && e.focused == w
      else j == i && e.focused == w
  {
    ToggleMaximizes(d.info[w], d.area);
  }
}
