/**
  The window manager: a list of window objects from bottom to top, changed in place by calls, by
  input events and by the callbacks of the windows.
 */
module WindowManagers {
  import opened Basics
  import opened Windows
  import L = WindowLaws

  class RetroWindow {
    const id: int
    const kind: Kind
    var y: int
    var x: int
    var h: int
    var w: int
    var isActive: bool
    var minimized: bool
    var closeRequested: bool

    ghost function Value(): Win
      reads this
    {
      Win(id, kind, Rect(y, x, h, w), isActive, minimized, closeRequested)
    }

    constructor (id: int, kind: Kind, at: Rect)
      ensures Value() == Win(id, kind, at, false, false, false)
    {
      this.id, this.kind := id, kind;
      y, x, h, w := at.y, at.x, at.h, at.w;
      isActive, minimized, closeRequested := false, false, false;
    }

    /** Moves the window into the screen, above the bottom row. */
    method ClampTo(rows: int, cols: int)
      modifies this`y, this`x
      ensures Value() == old(Value()).(at := Clamp(old(Value()).at, Screen(rows, cols)))
    {
      var maxY := rows - h - 1;
      var maxX := cols - w;
      if maxY < 0 { maxY := 0; }
      if maxX < 0 { maxX := 0; }
      if y < 0 { y := 0; }
      if x < 0 { x := 0; }
      if y > maxY { y := maxY; }
      if x > maxX { x := maxX; }
    }
  }

  class WindowManager {
    var windows: seq<RetroWindow>
    var nextId: int
    var activeId: int
    var dragEnabled: bool
    var dragging: bool
    var dragWindowId: int
    var dragOffY: int
    var dragOffX: int
    var dragSessionMoved: bool
    var dragNoMotionSessions: nat
    var dragDegraded: bool
    var dragAutoDegrade: bool
    var rows: int
    var cols: int

    ghost function Objs(): set<RetroWindow>
      reads this`windows
    {
      set w <- windows
    }

    /** The list holds each window object once. */
    ghost predicate Valid()
      reads this`windows
    {
      forall i, j :: 0 <= i < j < |windows| ==> windows[i] != windows[j]
    }

    static ghost function Values(ws: seq<RetroWindow>): (wins: seq<Win>)
      reads set w <- ws
      ensures |wins| == |ws| && forall i :: 0 <= i < |ws| ==> wins[i] == ws[i].Value()
    {
      if ws == [] then [] else Values(ws[..|ws| - 1]) + [ws[|ws| - 1].Value()]
    }

    ghost function Wins(): (wins: seq<Win>)
      reads this`windows, Objs()
      ensures |wins| == |windows| && forall i :: 0 <= i < |windows| ==> wins[i] == windows[i].Value()
    {
      Values(windows)
    }

    ghost function DragValue(): Drag
      reads this`dragEnabled, this`dragging, this`dragWindowId, this`dragOffY, this`dragOffX, this`dragSessionMoved,
            this`dragNoMotionSessions, this`dragDegraded, this`dragAutoDegrade
    {
      Drag(dragEnabled, dragging, dragWindowId, dragOffY, dragOffX, dragSessionMoved,
           dragNoMotionSessions, dragDegraded, dragAutoDegrade)
    }

    ghost function V(): Wm
      reads this, Objs()
    {
      Wm(Wins(), nextId, activeId, DragValue(), Screen(rows, cols))
    }

    constructor (rows: int, cols: int)
      ensures Valid() && windows == []
      ensures V() == Wm([], 1, NONE, Drag(true, false, NONE, 0, 0, false, 0, false, false), Screen(rows, cols))
    {
      windows, nextId, activeId := [], 1, NONE;
      dragEnabled, dragging, dragWindowId, dragOffY, dragOffX := true, false, NONE, 0, 0;
      dragSessionMoved, dragNoMotionSessions, dragDegraded, dragAutoDegrade := false, 0, false, false;
      this.rows, this.cols := rows, cols;
    }

    method FindIndex(id: int) returns (i: nat)
      ensures i == Find(Wins(), id)
    {
      hide Wins, Values, Find, DragValue;
      i := 0;
      while i < |windows|
        invariant i <= |windows| && forall j :: 0 <= j < i ==> windows[j].id != id
      {
        if windows[i].id == id {
          return;
        }
        i := i + 1;
      }
    }

    // ----- Focus -----

    method UpdateActiveFlags()
      requires Valid()
      modifies Objs()`isActive
      ensures V() == UpdateFlags(old(V()))
    {
      hide Wins, Values, Find, DragValue;
      var i := 0;
      while i < |windows|
        invariant i <= |windows|
        invariant forall k :: 0 <= k < i ==> windows[k].Value() == Flagged(old(windows[k].Value()), activeId)
        invariant forall k :: i <= k < |windows| ==> windows[k].Value() == old(windows[k].Value())
      {
        var window := windows[i];
        window.isActive := !window.minimized && !window.closeRequested && window.id == activeId;
        i := i + 1;
      }
    }

    method TopmostVisible() returns (id: int)
      ensures id == TopVisible(Wins())
    {
      hide Wins, Values, Find, DragValue;
      ghost var wins := Wins();
      var i := |windows|;
      assert wins[..i] == wins;
      while i > 0
        invariant i <= |windows| && TopVisible(wins[..i]) == TopVisible(wins)
      {
        assert wins[..i][..i - 1] == wins[..i - 1];
        var candidate := windows[i - 1];
        if !candidate.minimized && !candidate.closeRequested {
          return candidate.id;
        }
        i := i - 1;
      }
      id := NONE;
    }

    method SelectTopmostVisible()
      requires Valid()
      modifies this`activeId, Objs()
      ensures V() == SelectTop(old(V())) && Valid()
    {
      hide UpdateFlags, TopVisible, Wins, Values, Find, DragValue;
      var a := FindIndex(activeId);
      if a < |windows| && !windows[a].minimized && !windows[a].closeRequested {
        UpdateActiveFlags();
        return;
      }
      var top := TopmostVisible();
      activeId := top;
      assert Wins() == old(Wins());
      UpdateActiveFlags();
    }

    // ----- Opening and closing -----

    method RemoveAt(i: nat)
      requires Valid() && i < |windows|
      modifies this`windows, this`activeId, this`dragging, this`dragWindowId
      ensures V() == Remove(old(V()), i) && Valid() && Objs() <= old(Objs())
      ensures |windows| == old(|windows|) - 1
    {
      hide Wins, Values, Find;
      ghost var wins := Wins();
      var window := windows[i];
      if window.id == activeId {
        activeId := NONE;
      }
      if window.id == dragWindowId {
        dragging := false;
        dragWindowId := NONE;
      }
      windows := windows[..i] + windows[i + 1..];
      assert Wins() == wins[..i] + wins[i + 1..];
    }

    method CleanupClosed()
      requires Valid()
      modifies this`windows, this`activeId, this`dragging, this`dragWindowId, Objs()
      ensures V() == Cleanup(old(V())) && Valid() && Objs() <= old(Objs())
    {
      hide Remove, Wins, Values, Find, DragValue;
      var i := 0;
      while i < |windows|
        invariant i <= |windows| && Valid() && Objs() <= old(Objs())
        invariant Sweep(V(), i) == Sweep(old(V()), 0)
        decreases |windows| - i
      {
        if windows[i].closeRequested {
          RemoveAt(i);
        } else {
          i := i + 1;
        }
      }
      SelectTopmostVisible();
    }

    /** Where a new window goes, before it is moved into the screen. */
    method FirstPlace(spec: Rect) returns (at: Rect)
      requires rows >= 4 && cols >= 8
      ensures Clamp(at, Screen(rows, cols)) == Place(spec, |windows|, Screen(rows, cols))
    {
      hide Clamp, Wins, Values, Find, DragValue;
      var maxH := rows - 1;
      var maxW := cols;
      if maxH < 4 { maxH := 4; }
      if maxW < 8 { maxW := 8; }
      var h := if spec.h < 4 then 4 else spec.h;
      var w := if spec.w < 8 then 8 else spec.w;
      if h > maxH { h := maxH; }
      if w > maxW { w := maxW; }
      var y, x := spec.y, spec.x;
      if y < 0 || x < 0 {
        var cascade := |windows| % 5;
        y := 1 + cascade;
        x := 2 + cascade * 3;
      }
      at := Rect(y, x, h, w);
    }

    /** Puts a new window on top of the others and gives it the focus. */
    method AddWindow(at: Rect, kind: Kind)
      requires Valid()
      modifies this`windows, this`nextId, this`activeId
      ensures V() == Added(old(V()), Clamp(at, Screen(rows, cols)), kind) && Valid()
      ensures old(Objs()) <= Objs() && fresh(Objs() - old(Objs()))
    {
      hide Clamp, Wins, Values, DragValue, Find;
      ghost var wins := Wins();
      var window := new RetroWindow(nextId, kind, at);
      window.ClampTo(rows, cols);
      windows := windows + [window];
      activeId := nextId;
      nextId := nextId + 1;
      assert Wins() == wins + [window.Value()];
    }

    method CreateWindow(spec: Rect, kind: Kind) returns (id: int)
      requires Valid()
      modifies this`windows, this`nextId, this`activeId, Objs()
      ensures (V(), id) == Create(old(V()), spec, kind) && Valid()
      ensures old(Objs()) <= Objs() && fresh(Objs() - old(Objs()))
    {
      hide UpdateFlags, Added, Place, Clamp, Wins, Values, DragValue, Find;
      if rows < 4 || cols < 8 {
        nextId := nextId + 1;
        return NONE;
      }
      id := nextId;
      var at := FirstPlace(spec);
      AddWindow(at, kind);
      UpdateActiveFlags();
    }

    method CloseWindow(id: int)
      requires Valid()
      modifies this`windows, this`activeId, this`dragging, this`dragWindowId, Objs()
      ensures V() == Close(old(V()), id) && Valid() && Objs() <= old(Objs())
    {
      hide Cleanup, Wins, Find, DragValue, Values;
      var i := FindIndex(id);
      if i == |windows| {
        return;
      }
      ghost var v := V();
      windows[i].closeRequested := true;
      assert V().wins == v.wins[i := v.wins[i].(closing := true)];
      CleanupClosed();
    }

    method FocusWindow(id: int)
      requires Valid()
      modifies this`activeId, Objs()`isActive, Objs()`minimized
      ensures V() == Focus(old(V()), id) && Valid()
    {
      hide UpdateFlags, Wins, Find, DragValue, Values;
      ghost var v := V();
      var i := FindIndex(id);
      if i == |windows| || windows[i].closeRequested {
        return;
      }
      windows[i].minimized := false;
      activeId := id;
      assert Wins() == v.wins[i := v.wins[i].(minimized := false)];
      UpdateActiveFlags();
    }

    method BringToFront(id: int)
      requires Valid()
      modifies this`windows
      ensures V() == Windows.BringToFront(old(V()), id) && Valid() && Objs() == old(Objs())
    {
      hide Wins, Values, Find, DragValue;
      var i := FindIndex(id);
      if i == |windows| || windows[i].minimized || windows[i].closeRequested || i == |windows| - 1 {
        assert i == |windows| - 1 ==> ToFront(Wins(), i) == Wins();
        return;
      }
      MoveToEnd(i);
    }

    method MoveToEnd(i: nat)
      requires Valid() && i < |windows|
      modifies this`windows
      ensures V() == old(V()).(wins := ToFront(old(V()).wins, i)) && Valid() && Objs() == old(Objs())
    {
      hide ToFront, Wins, Values, Find, DragValue;
      ghost var was, wins := windows, Wins();
      windows := windows[..i] + windows[i + 1..] + [windows[i]];
      MovedToEnd(was, windows, i);
      L.FrontAt(wins, i);
      assert Wins() == ToFront(wins, i);
    }

    static lemma MovedToEnd(was: seq<RetroWindow>, now: seq<RetroWindow>, i: nat)
      requires i < |was| && now == was[..i] + was[i + 1..] + [was[i]]
      requires forall i, j :: 0 <= i < j < |was| ==> was[i] != was[j]
      ensures |now| == |was| && forall i, j :: 0 <= i < j < |now| ==> now[i] != now[j]
      ensures (set w <- now) == (set w <- was)
      ensures forall k :: 0 <= k < |now| ==> now[k] == was[if k < i then k else if k == |was| - 1 then i else k + 1]
    {
      forall w | w in was
        ensures w in now
      {
        var k :| 0 <= k < |was| && was[k] == w;
        assert now[if k < i then k else if k == i then |was| - 1 else k - 1] == w;
      }
    }

    method TopmostModal() returns (i: Option<nat>)
      ensures i == TopModal(Wins())
    {
      hide Wins, Values, Find, DragValue;
      ghost var wins := Wins();
      var k := |windows|;
      assert wins[..k] == wins;
      while k > 0
        invariant k <= |windows| && TopModal(wins[..k]) == TopModal(wins)
      {
        assert wins[..k][..k - 1] == wins[..k - 1];
        k := k - 1;
        var window := windows[k];
        if !window.minimized && !window.closeRequested && window.kind.modal {
          return Some(k);
        }
      }
      i := None;
    }

    /** The next window after one that can have the focus, going round. */
    method NextWindow(idx: nat) returns (next: Option<nat>)
      requires windows != []
      ensures Wins() != [] && next == NextFocusable(Wins(), idx, 1)
    {
      hide Wins, Values, Find, DragValue;
      ghost var wins := Wins();
      var step := 1;
      while step <= |windows|
        invariant 1 <= step <= |windows| + 1
        invariant NextFocusable(wins, idx, step) == NextFocusable(wins, idx, 1)
      {
        var k := (idx + step) % |windows|;
        var candidate := windows[k];
        if !candidate.minimized && !candidate.closeRequested && !candidate.kind.fixed {
          return Some(k);
        }
        step := step + 1;
      }
      next := None;
    }

    method CycleFocus() returns (changed: bool)
      requires Valid()
      modifies this`windows, this`activeId, Objs()
      ensures (V(), changed) == Windows.CycleFocus(old(V())) && Valid() && Objs() == old(Objs())
    {
      hide UpdateFlags, Windows.BringToFront, TopModal, NextFocusable, Wins, Find, DragValue, Values;
      if |windows| < 2 {
        return false;
      }
      var modal := TopmostModal();
      if modal.Some? {
        return false;
      }
      var idx := FindIndex(activeId);
      if idx == |windows| {
        idx := |windows| - 1;
      }
      var next := NextWindow(idx);
      if next.None? || windows[next.value].id == activeId {
        return false;
      }
      RaiseAndFocus(windows[next.value].id);
      changed := true;
    }

    method RaiseAndFocus(id: int)
      requires Valid()
      modifies this`windows, this`activeId, Objs()`isActive
      ensures V() == UpdateFlags(Windows.BringToFront(old(V()).(active := id), id)) && Valid() && Objs() == old(Objs())
    {
      hide UpdateFlags, Windows.BringToFront, Wins, Values, Find, DragValue;
      activeId := id;
      BringToFront(id);
      UpdateActiveFlags();
    }

    method HideWindow(i: nat)
      requires Valid() && i < |windows|
      modifies Objs()
      ensures V() == old(V()).(wins := old(V()).wins[i := old(V()).wins[i].(minimized := true, isActive := false)])
    {
      hide Wins, Values, Find, DragValue;
      ghost var v := V();
      windows[i].minimized := true;
      windows[i].isActive := false;
      assert Wins() == v.wins[i := v.wins[i].(minimized := true, isActive := false)];
    }

    method MinimizeWindow(id: int) returns (ok: bool)
      requires Valid()
      modifies this`activeId, this`dragging, this`dragWindowId, this`dragSessionMoved, Objs()
      ensures (V(), ok) == Minimize(old(V()), id) && Valid()
    {
      hide SelectTop, Wins, Find, DragValue, LetGo, Values;
      var i := FindIndex(id);
      if i == |windows| || windows[i].minimized || windows[i].kind.fixed || windows[i].kind.modal {
        return false;
      }
      HideWindow(i);
      LetGoOf(id);
      Unfocus(id);
      SelectTopmostVisible();
      ok := true;
    }

    method Unfocus(id: int)
      modifies this`activeId
      ensures V() == old(V()).(active := if id == old(activeId) then NONE else old(activeId))
    {
      hide Wins, Values, Find, DragValue;
      if id == activeId {
        activeId := NONE;
      }
    }

    /** Ends a drag of the window. */
    method LetGoOf(id: int)
      modifies this`dragging, this`dragWindowId, this`dragSessionMoved
      ensures V() == old(V()).(drag := LetGo(old(V()).drag, id))
    {
      hide Wins, Values, Find;
      if id == dragWindowId {
        dragging := false;
        dragWindowId := NONE;
        dragSessionMoved := false;
      }
      assert Wins() == old(Wins());
    }

    method RestoreWindow(id: int) returns (ok: bool)
      requires Valid()
      modifies Objs()
      ensures (V(), ok) == Restore(old(V()), id)
    {
      hide UpdateFlags, Wins, Values, Find, DragValue;
      ghost var v := V();
      var i := FindIndex(id);
      if i == |windows| || !windows[i].minimized {
        return false;
      }
      windows[i].minimized := false;
      assert Wins() == v.wins[i := v.wins[i].(minimized := false)];
      UpdateActiveFlags();
      ok := true;
    }

    // ----- Moving and resizing -----

    method PutWindow(i: nat, y: int, x: int)
      requires Valid() && i < |windows|
      modifies Objs()
      ensures V() == SetRect(old(V()), i, Clamp(old(V()).wins[i].at.(y := y, x := x), Screen(rows, cols)))
    {
      hide Clamp, Wins, Values, Find, DragValue;
      ghost var v := V();
      windows[i].y := y;
      windows[i].x := x;
      windows[i].ClampTo(rows, cols);
      assert Wins() == v.wins[i := v.wins[i].(at := Clamp(v.wins[i].at.(y := y, x := x), v.screen))];
    }

    method MoveActiveWindow(dy: int, dx: int) returns (ok: bool)
      requires Valid()
      modifies Objs()
      ensures (V(), ok) == MoveActive(old(V()), dy, dx)
    {
      hide Clamp, Wins, Values, Find, DragValue;
      var i := FindIndex(activeId);
      if i == |windows| || windows[i].minimized || windows[i].closeRequested || windows[i].kind.fixed {
        return false;
      }
      PutWindow(i, windows[i].y + dy, windows[i].x + dx);
      ok := true;
    }

    method ResizeActiveWindow(dh: int, dw: int) returns (ok: bool)
      requires Valid()
      modifies Objs()
      ensures (V(), ok) == ResizeActive(old(V()), dh, dw)
    {
      hide SetRect, Wins, Find, DragValue, Values;
      var i := FindIndex(activeId);
      if i == |windows| || windows[i].minimized || windows[i].closeRequested || windows[i].kind.fixed {
        return false;
      }
      var window := windows[i];
      var nextH := window.h + dh;
      var nextW := window.w + dw;
      if nextH < 4 { nextH := 4; }
      if nextW < 12 { nextW := 12; }
      if rows > 0 && window.y + nextH > rows { nextH := rows - window.y; }
      if cols > 0 && window.x + nextW > cols { nextW := cols - window.x; }
      if nextH < 4 || nextW < 12 {
        return false;
      }
      if nextH == window.h && nextW == window.w {
        return false;
      }
      SetSize(i, nextH, nextW);
      ok := true;
    }

    method SetSize(i: nat, h: int, w: int)
      requires Valid() && i < |windows|
      modifies Objs()
      ensures V() == SetRect(old(V()), i, old(V()).wins[i].at.(h := h, w := w))
    {
      hide Wins, Values, Find, DragValue;
      ghost var v := V();
      windows[i].h := h;
      windows[i].w := w;
      assert Wins() == v.wins[i := v.wins[i].(at := v.wins[i].at.(h := h, w := w))];
    }

    // ----- Drag settings -----

    method SetDragEnabled(enabled: bool)
      modifies this`dragEnabled, this`dragging, this`dragWindowId, this`dragSessionMoved,
               this`dragDegraded, this`dragNoMotionSessions
      ensures V() == old(V()).(drag := Windows.SetDragEnabled(old(DragValue()), enabled))
    {
      hide Wins, Values, Find;
      dragEnabled := enabled;
      if !enabled {
        dragging := false;
        dragWindowId := NONE;
        dragSessionMoved := false;
      } else {
        dragDegraded := false;
        dragNoMotionSessions := 0;
      }
      assert Wins() == old(Wins());
    }

    method SetDragAutoDegrade(enabled: bool)
      modifies this`dragEnabled, this`dragAutoDegrade, this`dragDegraded, this`dragNoMotionSessions
      ensures V() == old(V()).(drag := SetAutoDegrade(old(DragValue()), enabled))
    {
      hide Wins, Values, Find;
      dragAutoDegrade := enabled;
      if !enabled {
        dragNoMotionSessions := 0;
        dragDegraded := false;
        if !dragEnabled {
          dragEnabled := true;
        }
      }
      assert Wins() == old(Wins());
    }

    /** A window asks to be closed; it goes at the next cleanup. */
    method RequestClose(id: int)
      requires Valid()
      modifies Objs()
      ensures V() == Windows.RequestClose(old(V()), id)
    {
      hide Wins, Values, Find, DragValue;
      ghost var v := V();
      var i := FindIndex(id);
      if i < |windows| {
        windows[i].closeRequested := true;
        assert Wins() == v.wins[i := v.wins[i].(closing := true)];
      }
    }

    // ----- Events -----

    method PerformOp(self: int, op: Op)
      requires Valid()
      modifies this, Objs()
      ensures V() == Perform(old(V()), self, op) && Valid() && fresh(Objs() - old(Objs()))
    {
      hide Wins, Values, Find, DragValue, Create, Close, Focus, Windows.BringToFront, Windows.CycleFocus, Minimize,
        Restore, MoveActive, ResizeActive, Windows.SetDragEnabled, SetAutoDegrade, Windows.RequestClose;
      match op
      case OpCreate(spec, kind) => var _ := CreateWindow(spec, kind);
      case OpClose(id) => CloseWindow(id);
      case OpFocus(id) => FocusWindow(id);
      case OpFront(id) => BringToFront(id);
      case OpCycle => var _ := CycleFocus();
      case OpMinimize(id) => var _ := MinimizeWindow(id);
      case OpRestore(id) => var _ := RestoreWindow(id);
      case OpMove(dy, dx) => var _ := MoveActiveWindow(dy, dx);
      case OpResize(dh, dw) => var _ := ResizeActiveWindow(dh, dw);
      case OpDragEnabled(on) => SetDragEnabled(on);
      case OpAutoDegrade(on) => SetDragAutoDegrade(on);
      case OpLeave => RequestClose(self);
    }

    /** The callback of a window. */
    method RunCallback(self: int, ops: seq<Op>)
      requires Valid()
      modifies this, Objs()
      ensures V() == PerformAll(old(V()), self, ops) && Valid() && fresh(Objs() - old(Objs()))
    {
      hide Wins, Values, Find, DragValue, Perform;
      var n := 0;
      while n < |ops|
        invariant n <= |ops| && Valid() && fresh(Objs() - old(Objs()))
        invariant V() == PerformAll(old(V()), self, ops[..n])
      {
        PerformOp(self, ops[n]);
        assert ops[..n + 1][..n] == ops[..n];
        n := n + 1;
      }
      assert ops[..n] == ops;
    }

    method TopWindowAt(y: int, x: int) returns (i: Option<nat>)
      ensures i == TopAt(Wins(), y, x)
    {
      hide Wins, Values, Find, DragValue;
      ghost var wins := Wins();
      var k := |windows|;
      assert wins[..k] == wins;
      while k > 0
        invariant k <= |windows| && TopAt(wins[..k], y, x) == TopAt(wins, y, x)
      {
        assert wins[..k][..k - 1] == wins[..k - 1];
        k := k - 1;
        var window := windows[k];
        if !window.minimized && !window.closeRequested
           && window.y <= y < window.y + window.h && window.x <= x < window.x + window.w {
          return Some(k);
        }
      }
      i := None;
    }

    /** A press on the title row of a movable window takes hold of it. */
    method GrabWindow(hit: RetroWindow, e: Mouse)
      requires Valid()
      modifies this`dragging, this`dragWindowId, this`dragOffY, this`dragOffX, this`dragSessionMoved
      ensures V() == old(V()).(drag := Grab(old(V()).drag, hit.Value(), e))
    {
      hide Wins, Values, Find;
      if dragEnabled && e.pressed && !e.clicked && !hit.kind.fixed && e.y == hit.y {
        dragging := true;
        dragWindowId := hit.id;
        dragOffY := e.y - hit.y;
        dragOffX := e.x - hit.x;
        dragSessionMoved := false;
      }
    }

    /** The window held follows the mouse. */
    method PullWindow(e: Mouse)
      requires Valid()
      modifies this`dragSessionMoved, Objs()
      ensures V() == Pull(old(V()), e)
    {
      hide Wins, Values, Find, Clamp;
      if !dragging || dragWindowId == NONE || !e.moved {
        return;
      }
      var i := FindIndex(dragWindowId);
      if i == |windows| || windows[i].minimized || windows[i].closeRequested {
        return;
      }
      PutWindow(i, e.y - dragOffY, e.x - dragOffX);
      if !(e.released || e.clicked) {
        dragSessionMoved := true;
      }
    }

    /** Letting go ends the drag and counts it. */
    method DropWindow(e: Mouse)
      modifies this`dragging, this`dragWindowId, this`dragSessionMoved, this`dragNoMotionSessions,
               this`dragEnabled, this`dragDegraded
      ensures V() == old(V()).(drag := Drop(old(V()).drag, e))
    {
      hide Wins, Values, Find;
      if !dragging || !(e.released || e.clicked) {
        return;
      }
      if dragSessionMoved {
        dragNoMotionSessions := 0;
      } else if dragAutoDegrade {
        dragNoMotionSessions := dragNoMotionSessions + 1;
        if dragNoMotionSessions >= 3 {
          dragEnabled := false;
          dragDegraded := true;
        }
      }
      dragging := false;
      dragWindowId := NONE;
      dragSessionMoved := false;
    }

    method PressWindow(id: int, e: Mouse)
      requires Valid()
      modifies this`windows, this`activeId, Objs()`isActive, Objs()`minimized
      ensures V() == Press(old(V()), id, e) && Valid() && Objs() == old(Objs())
    {
      hide Wins, Values, Find, DragValue, Focus, Windows.BringToFront;
      if e.pressed || e.clicked {
        FocusWindow(id);
        BringToFront(id);
      }
    }

    /** The mouse on a window, with no modal window open. */
    method MouseOn(window: RetroWindow, e: Mouse)
      requires Valid() && window in windows
      modifies this`windows, this`activeId, this`dragging, this`dragWindowId, this`dragOffY, this`dragOffX,
               this`dragSessionMoved, Objs()
      ensures var pressed := Press(old(V()), window.id, e);
              V() == Pull(pressed.(drag := Grab(pressed.drag, old(window.Value()), e)), e)
      ensures Valid() && Objs() == old(Objs())
    {
      hide Wins, Values, Find, DragValue, Press, Grab, Pull;
      ghost var hit := window.Value();
      PressWindow(window.id, e);
      SameGrab(V().drag, hit, window.Value(), e);
      GrabWindow(window, e);
      PullWindow(e);
    }

    static lemma SameGrab(d: Drag, hit: Win, hit': Win, e: Mouse)
      requires hit.id == hit'.id && hit.kind == hit'.kind && hit.at == hit'.at
      ensures Grab(d, hit, e) == Grab(d, hit', e)
    {
    }

    method HandleMouse(e: Mouse, ops: seq<Op>)
      requires Valid()
      modifies this, Objs()
      ensures V() == Windows.HandleMouse(old(V()), e, ops) && Valid() && fresh(Objs() - old(Objs()))
    {
      hide Wins, Values, Find, DragValue, Press, Grab, Pull, Drop, PerformAll, Cleanup, TopModal, TopAt;
      var modal := TopmostModal();
      var hit := TopWindowAt(e.y, e.x);
      if modal.Some? {
        RunCallback(windows[modal.value].id, ops);
        CleanupClosed();
        return;
      }
      if hit.None? {
        PullWindow(e);
        DropWindow(e);
        return;
      }
      var window := windows[hit.value];
      MouseOn(window, e);
      DropWindow(e);
      RunCallback(window.id, ops);
    }

    method ClampAllWindows()
      requires Valid()
      modifies Objs()
      ensures V() == ClampAll(old(V()))
    {
      hide Wins, Values, Find, DragValue, Clamp;
      var i := 0;
      while i < |windows|
        invariant i <= |windows|
        invariant forall k :: 0 <= k < i ==>
                    windows[k].Value() ==
                      old(windows[k].Value()).(at := Clamp(old(windows[k].Value()).at, Screen(rows, cols)))
        invariant forall k :: i <= k < |windows| ==> windows[k].Value() == old(windows[k].Value())
      {
        windows[i].ClampTo(rows, cols);
        i := i + 1;
      }
    }

    /** One input event; `ops` is what the callback of the window it goes to does. */
    method HandleEvent(e: Event)
      requires Valid()
      modifies this, Objs()
      ensures V() == Handle(old(V()), e) && Valid() && fresh(Objs() - old(Objs()))
    {
      hide Wins, Values, Find, DragValue, Windows.HandleMouse, PerformAll, Cleanup, TopModal, ClampAll;
      match e {
        case MouseEvent(mouse, ops) => HandleMouse(mouse, ops);
        case KeyEvent(ops) =>
          var target := FindIndex(activeId);
          var modal := TopmostModal();
          if modal.Some? {
            target := modal.value;
          }
          if target < |windows| && !windows[target].minimized && !windows[target].closeRequested {
            RunCallback(windows[target].id, ops);
          }
        case ResizeEvent => ClampAllWindows();
      }
      CleanupClosed();
    }
  }
}
