// wm.c in memory: a doubly linked list of windows changed in place.

module Windows {
  import opened WindowSpec

  class WindowManager {
    const screenW: nat
    const screenH: nat
    var head: Window?
    var tail: Window?
    var focused: Window?
    var dragging: Window?
    var reservedBottom: nat
    var lastLeft: bool
    // What this all stands for; the list runs from head to tail as desk.order does.
    ghost var desk: Desk

    /** prev and next form one list without repetition from head to tail. */
    ghost predicate Chain(s: seq<Window>)
      reads this`head, this`tail, s`prev, s`next
    {
      && Distinct(s)
      && head == (if |s| == 0 then null else s[0])
      && tail == (if |s| == 0 then null else s[|s| - 1])
      && (forall i {:trigger s[i].prev} :: 0 <= i < |s| ==> s[i].prev == if i == 0 then null else s[i - 1])
      && (forall i {:trigger s[i].next} :: 0 <= i < |s| ==> s[i].next == if i == |s| - 1 then null else s[i + 1])
    }

    function Screen(): Area
      reads this`reservedBottom
    {
      Area(screenW, screenH, reservedBottom)
    }

    ghost predicate Matches()
      reads this, desk.order
    {
      && focused == desk.focused && dragging == desk.dragging && lastLeft == desk.left && Screen() == desk.area
      && Usable(desk.area) && (dragging != null ==> dragging in desk.order)
      && forall w :: w in desk.order ==> w in desk.info && w.info == desk.info[w]
    }

    /** The memory holds desk. What holds of desk over every run is proved of its steps. */
    ghost predicate Valid()
      reads this, desk.order
    {
      Chain(desk.order) && Matches()
    }

    constructor (width: nat, height: nat)
      requires 0 < width < 0x8000_0000 && 0 < height < 0x8000_0000
      ensures Valid() && desk == Desk([], map[], null, null, false, Area(width, height, 0))
    {
      screenW, screenH := width, height;
      head, tail, focused, dragging := null, null, null, null;
      reservedBottom, lastLeft := 0, false;
      desk := Desk([], map[], null, null, false, Area(width, height, 0));
    }

    // ---- the list ----

    // s is the list and win its element i.
    method Detach(win: Window, ghost s: seq<Window>, ghost i: nat)
      requires Chain(s) && i < |s| && win == s[i]
      modifies this`head, this`tail, s`prev, s`next
      ensures Chain(Without(s, i)) && win !in Without(s, i)
    {
      if win.prev != null { win.prev.next := win.next; } else { head := win.next; }
      if win.next != null { win.next.prev := win.prev; } else { tail := win.prev; }
      win.prev := null;
      win.next := null;
      WithoutKeeps(s, i);
    }

    method AttachTail(win: Window, ghost s: seq<Window>)
      requires Chain(s) && win !in s
      modifies this`head, this`tail, win`prev, win`next, s`next
      ensures Chain(s + [win])
    {
      win.prev := tail;
      win.next := null;
      if tail != null { tail.next := win; } else { head := win; }
      tail := win;
    }

    // wm_focus_internal without its last assignment.
    method MoveToTail(win: Window, ghost s: seq<Window>)
      requires Chain(s) && win in s
      modifies this`head, this`tail, s`prev, s`next
      ensures Chain(Raised(s, win))
    {
      RaisedMovesOne(s, win);
      if win == tail { return; }
      Detach(win, s, IndexOf(s, win));
      AttachTail(win, Without(s, IndexOf(s, win)));
      assert Without(s, IndexOf(s, win)) + [win] == Raised(s, win);
    }

    method FocusInternal(win: Window?)
      requires Valid() && (win != null ==> win in desk.order)
      modifies this`head, this`tail, this`focused, this`desk, desk.order`prev, desk.order`next
      ensures Valid() && desk == Focus(old(desk), win)
    {
      if win != null {
        RaisedMovesOne(desk.order, win);
        MoveToTail(win, desk.order);
      }
      focused := win;
      desk := Focus(desk, win);
    }

    method FindTopmost(x: int, y: int) returns (win: Window?)
      requires Valid()
      ensures win == Topmost(desk.order, desk.info, x, y, |desk.order|)
    {
      win := tail;
      ghost var n: nat := |desk.order|;
      while win != null
        invariant n <= |desk.order| && win == if n == 0 then null else desk.order[n - 1]
        invariant Topmost(desk.order, desk.info, x, y, |desk.order|) == Topmost(desk.order, desk.info, x, y, n)
        decreases n
      {
        if Contains(win.info, x, y) { return; }
        win := win.prev;
        n := n - 1;
      }
    }

    // ---- geometry ----

    method ApplyBounds(win: Window)
      requires Usable(Screen())
      modifies win`info
      ensures win.info == Fitted(old(win.info), Screen())
    {
      var workH := WorkHeight(Screen());
      var minW, minH := MIN_WIDTH, MIN_HEIGHT;
      if minW > screenW { minW := screenW; }
      if minH > workH { minH := workH; }
      var w, h := Clamp(win.info.rect.w, minW, screenW), Clamp(win.info.rect.h, minH, workH);
      var maxX, maxY := screenW - w, workH - h;
      var x := Clamp(win.info.rect.x, 0, if maxX < 0 then 0 else maxX);
      var y := Clamp(win.info.rect.y, 0, if maxY < 0 then 0 else maxY);
      win.info := win.info.(rect := Rect(x, y, w, h));
    }

    method SetPosition(win: Window, x: int, y: int)
      requires Valid() && win in desk.order
      modifies this`desk, win`info
      ensures Valid() && desk == SetRect(old(desk), win, old(desk).info[win].rect.(x := x, y := y))
    {
      win.info := win.info.(rect := win.info.rect.(x := x, y := y));
      ApplyBounds(win);
      desk := SetRect(desk, win, desk.info[win].rect.(x := x, y := y));
    }

    method SetSize(win: Window, width: nat, height: nat)
      requires Valid() && win in desk.order
      modifies this`desk, win`info
      ensures Valid() && desk == SetRect(old(desk), win, old(desk).info[win].rect.(w := width, h := height))
    {
      win.info := win.info.(rect := win.info.rect.(w := width, h := height));
      ApplyBounds(win);
      desk := SetRect(desk, win, desk.info[win].rect.(w := width, h := height));
    }

    // wm_maximize_toggle up to the bounds.
    method Flip(win: Window)
      modifies win`info
      ensures win.info == Flipped(old(win.info), Screen())
    {
      var i := win.info;
      if !i.maximized {
        win.info := i.(saved := i.rect, rect := Rect(0, 0, screenW, WorkHeight(Screen())), maximized := true);
      } else {
        var w := if i.saved.w != 0 then i.saved.w else i.rect.w;
        var h := if i.saved.h != 0 then i.saved.h else i.rect.h;
        win.info := i.(rect := Rect(i.saved.x, i.saved.y, w, h), maximized := false);
      }
    }

    method MaximizeToggle(win: Window)
      requires Valid() && win in desk.order
      modifies this`desk, win`info
      ensures Valid() && desk == SetInfo(old(desk), win, Toggled(old(desk).info[win], old(desk).area))
    {
      Flip(win);
      ApplyBounds(win);
      desk := SetInfo(desk, win, win.info);
    }

    // The loop of wm_set_reserved_bottom over the list s.
    method ApplyBoundsToAll(ghost s: seq<Window>)
      requires Chain(s) && Usable(Screen())
      modifies s`info
      ensures forall w :: w in s ==> w.info == Fitted(old(w.info), Screen())
    {
      var win := head;
      ghost var n: nat := 0;
      while win != null
        invariant n <= |s| && win == if n < |s| then s[n] else null
        invariant forall k :: 0 <= k < n ==> s[k].info == Fitted(old(s[k].info), Screen())
        invariant forall k :: n <= k < |s| ==> s[k].info == old(s[k].info)
        decreases |s| - n
      {
        ApplyBounds(win);
        win := win.next;
        n := n + 1;
      }
    }

    method SetReservedBottom(height: nat)
      requires Valid()
      modifies this`desk, this`reservedBottom, desk.order`info
      ensures Valid() && desk == Reserve(old(desk), height)
    {
      reservedBottom := height;
      ApplyBoundsToAll(desk.order);
      desk := Reserve(desk, height);
    }

    // ---- windows come and go ----

    /** memory is kmalloc's answer; without it nothing changes. */
    method CreateWindow(x: int, y: int, width: nat, height: nat, memory: bool) returns (win: Window?)
      requires Valid()
      modifies this`desk, this`head, this`tail, this`focused, desk.order`next
      ensures Valid() && (win != null <==> memory)
      ensures if win == null then desk == old(desk)
        else fresh(win) && desk == Create(old(desk), win, Rect(x, y, width, height))
    {
      win := null;
      if !memory { return; }
      var w := new Window(NewInfo(Rect(x, y, width, height)));
      ApplyBounds(w);
      AttachTail(w, desk.order);
      focused := w;
      desk := Create(desk, w, Rect(x, y, width, height));
      win := w;
    }

    method DestroyWindow(win: Window)
      requires Valid() && win in desk.order
      modifies this`desk, this`head, this`tail, this`focused, this`dragging, desk.order`prev, desk.order`next
      ensures Valid() && desk == Destroy(old(desk), win)
    {
      Forget(win);
      TakeOut(win);
    }

    method TakeOut(win: Window)
      requires Valid() && win in desk.order && win != focused && win != dragging
      modifies this`desk, this`head, this`tail, desk.order`prev, desk.order`next
      ensures Valid() && desk == Removed(old(desk), win)
    {
      RemovedKeepsOthers(desk, win);
      Detach(win, desk.order, IndexOf(desk.order, win));
      desk := Removed(desk, win);
    }

    // Neither focused nor dragged any more.
    method Forget(win: Window)
      requires Valid() && win in desk.order
      modifies this`desk, this`focused, this`dragging
      ensures Valid() && desk == Forgotten(old(desk), win)
    {
      if focused == win { focused := null; }
      if dragging == win { dragging := null; }
      desk := Forgotten(desk, win);
    }

    method HideWindow(win: Window)
      requires Valid() && win in desk.order
      modifies this`desk, this`focused, this`dragging, win`info
      ensures Valid() && desk == Hide(old(desk), win)
    {
      win.info := win.info.(visible := false);
      desk := SetInfo(desk, win, win.info);
      Forget(win);
    }

    method ShowWindow(win: Window)
      requires Valid() && win in desk.order
      modifies this`desk, win`info
      ensures Valid() && desk == SetInfo(old(desk), win, old(desk).info[win].(visible := true))
    {
      win.info := win.info.(visible := true);
      desk := SetInfo(desk, win, win.info);
    }

    // wm_set_ops, of which only the close handler matters here.
    method SetOps(win: Window, closes: bool)
      requires Valid() && win in desk.order
      modifies this`desk, win`info
      ensures Valid() && desk == SetInfo(old(desk), win, old(desk).info[win].(closes := closes))
    {
      win.info := win.info.(closes := closes);
      desk := SetInfo(desk, win, win.info);
    }

    // ---- the mouse ----

    // The press of wm_update on the window found.
    method PressWindow(win: Window, x: int, y: int)
      requires Valid() && win in desk.order
      modifies this`desk, this`focused, this`dragging, win`info
      ensures Valid() && desk == PressOn(old(desk), win, x, y)
    {
      if HitClose(win.info, x, y) {
        if win.info.closes {
          HideWindow(win);
        } else {
          win.info := win.info.(visible := false);
          desk := SetInfo(desk, win, win.info);
        }
      } else if HitMax(win.info, x, y) {
        MaximizeToggle(win);
      } else if InTitle(win.info, x, y) {
        if !win.info.maximized { StartDrag(win, x, y); }
      }
    }

    method StartDrag(win: Window, x: int, y: int)
      requires Valid() && win in desk.order && Grabs(win.info, x, y)
      modifies this`desk, this`dragging, win`info
      ensures Valid() && desk == PressOn(old(desk), win, x, y)
    {
      dragging := win;
      win.info := win.info.(offX := x - win.info.rect.x, offY := y - win.info.rect.y);
      desk := PressOn(desk, win, x, y);
    }

    method PressAt(x: int, y: int)
      requires Valid()
      modifies this`desk, this`head, this`tail, this`focused, this`dragging
      modifies desk.order`prev, desk.order`next, desk.order`info
      ensures Valid() && desk == Press(old(desk), x, y)
      ensures dragging != null && dragging != old(dragging) ==> dragging in old(desk.order)
    {
      var target := FindTopmost(x, y);
      if target != null {
        FocusInternal(target);
        PressWindow(target, x, y);
      }
    }

    method DragTo(x: int, y: int)
      requires Valid()
      modifies this`desk, (if dragging == null then {} else {dragging})`info
      ensures Valid() && desk == Drag(old(desk), x, y)
    {
      if dragging != null {
        var i := dragging.info;
        dragging.info := i.(rect := Rect(x - i.offX, y - i.offY, i.rect.w, i.rect.h));
        ApplyBounds(dragging);
        desk := Drag(desk, x, y);
      }
    }

    method Button(e: Event)
      requires Valid()
      modifies this`desk, this`head, this`tail, this`focused, this`dragging
      modifies desk.order`prev, desk.order`next, desk.order`info
      ensures Valid() && desk == Buttoned(old(desk), e.x, e.y, e.left)
      ensures dragging != null && dragging != old(dragging) ==> dragging in old(desk.order)
    {
      var pressed, released := e.left && !lastLeft, !e.left && lastLeft;
      if pressed { PressAt(e.x, e.y); }
      if released {
        dragging := null;
        desk := desk.(dragging := null);
      }
    }

    /** The body of wm_update for one event. */
    method HandleEvent(e: Event)
      requires Valid()
      modifies this`desk, this`head, this`tail, this`focused, this`dragging, this`lastLeft
      modifies desk.order`prev, desk.order`next, desk.order`info
      ensures Valid() && desk == Mouse(old(desk), e.x, e.y, e.left)
    {
      Button(e);
      Motion(e);
    }

    // What follows the button tests.
    method Motion(e: Event)
      requires Valid()
      modifies this`desk, this`lastLeft, (if dragging == null then {} else {dragging})`info
      ensures Valid() && desk == Drag(old(desk), e.x, e.y).(left := e.left)
    {
      DragTo(e.x, e.y);
      lastLeft := e.left;
      desk := desk.(left := e.left);
    }

    method NextEvent(evs: seq<Event>, k: nat)
      requires Valid() && Inv(desk) && k < |evs|
      modifies this`desk, this`head, this`tail, this`focused, this`dragging, this`lastLeft
      modifies desk.order`prev, desk.order`next, desk.order`info
      ensures Valid() && Inv(desk) && Update(old(desk), evs[k..]) == Update(desk, evs[k + 1..])
      ensures forall i :: 0 <= i < |desk.order| ==> desk.order[i] in old(desk.order)
    {
      UpdateStep(desk, evs, k);
      HandleEvent(evs[k]);
    }

    /** wm_update: all the events that are waiting. */
    method UpdateAll(evs: seq<Event>)
      requires Valid() && Inv(desk)
      modifies this`desk, this`head, this`tail, this`focused, this`dragging, this`lastLeft
      modifies desk.order`prev, desk.order`next, desk.order`info
      ensures Valid() && Inv(desk) && desk == Update(old(desk), evs)
    {
      var k := 0;
      while k < |evs|
        invariant 0 <= k <= |evs| && Valid() && Inv(desk) && Update(desk, evs[k..]) == Update(old(desk), evs)
        invariant forall i :: 0 <= i < |desk.order| ==> desk.order[i] in old(desk.order)
      {
        NextEvent(evs, k);
        k := k + 1;
      }
    }
  }
}
