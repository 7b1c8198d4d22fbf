/**
  Windows stay inside the screen.
 */
module WindowBounds {
  import opened Basics
  import opened Windows
  import opened WindowLaws

  /** No window is ever smaller. */
  predicate Sized(r: Rect) {
    4 <= r.h && 8 <= r.w
  }

  predicate Inside(r: Rect, s: Screen) {
    Sized(r) && 0 <= r.y && 0 <= r.x && r.y + r.h <= s.rows && r.x + r.w <= s.cols
  }

  /** Of a size a window can have and, where that is asked for, inside the screen. */
  predicate Good(r: Rect, s: Screen, within: bool) {
    Sized(r) && (within ==> Inside(r, s))
  }

  predicate Fits(m: Wm, within: bool) {
    forall i :: 0 <= i < |m.wins| ==> Good(m.wins[i].at, m.screen, within)
  }

  /** Moving keeps a rectangle good. */
  lemma ClampGood(r: Rect, y: int, x: int, s: Screen, within: bool)
    requires Good(r, s, within)
    ensures Good(Clamp(r.(y := y, x := x), s), s, within)
  {
  }

  /** Everything still fits the same screen. */
  predicate Kept(m: Wm, r: Wm, within: bool) {
    Fits(r, within) && r.screen == m.screen
  }

  lemma SameRects(m: Wm, r: Wm, within: bool)
    requires Fits(m, within) && r.screen == m.screen && |r.wins| == |m.wins|
    requires forall i :: 0 <= i < |m.wins| ==> r.wins[i].at == m.wins[i].at
    ensures Kept(m, r, within)
  {
    forall i | 0 <= i < |r.wins|
      ensures Good(r.wins[i].at, r.screen, within)
    {
      assert Good(m.wins[i].at, m.screen, within);
    }
  }

  lemma {:induction false} SweepFits(m: Wm, i: nat, within: bool)
    requires Fits(m, within)
    ensures Kept(m, Sweep(m, i), within)
    decreases |m.wins| - i
  {
    if i < |m.wins| {
      if m.wins[i].closing {
        var r := Remove(m, i);
        forall k | 0 <= k < |r.wins|
          ensures Good(r.wins[k].at, r.screen, within)
        {
          assert Good(m.wins[if k < i then k else k + 1].at, m.screen, within);
        }
        SweepFits(r, i, within);
      } else {
        SweepFits(m, i + 1, within);
      }
    }
  }

  lemma CleanupFits(m: Wm, within: bool)
    requires Fits(m, within)
    ensures Kept(m, Cleanup(m), within)
  {
    SweepFits(m, 0, within);
    SameRects(Sweep(m, 0), Cleanup(m), within);
  }

  lemma FrontFits(m: Wm, id: int, within: bool)
    requires Fits(m, within)
    ensures Kept(m, BringToFront(m, id), within)
  {
    var i := Find(m.wins, id);
    if i < |m.wins| && Visible(m.wins[i]) {
      FrontAt(m.wins, i);
      var r := BringToFront(m, id);
      forall k | 0 <= k < |r.wins|
        ensures Good(r.wins[k].at, r.screen, within)
      {
        assert Good(m.wins[if k < i then k else if k == |m.wins| - 1 then i else k + 1].at, m.screen, within);
      }
    }
  }

  lemma CreateFits(m: Wm, spec: Rect, kind: Kind, within: bool)
    requires Fits(m, within)
    ensures Kept(m, Create(m, spec, kind).0, within)
  {
    if m.screen.rows >= 4 && m.screen.cols >= 8 {
      var r := Create(m, spec, kind).0;
      forall i | 0 <= i < |r.wins|
        ensures Good(r.wins[i].at, r.screen, within)
      {
        if i < |m.wins| {
          assert Good(m.wins[i].at, m.screen, within);
        }
      }
    }
  }

  lemma SetRectFits(m: Wm, i: nat, at: Rect, within: bool)
    requires Fits(m, within) && i < |m.wins| && Good(at, m.screen, within)
    ensures Kept(m, SetRect(m, i, at), within)
  {
  }

  lemma CloseFits(m: Wm, id: int, within: bool)
    requires Fits(m, within)
    ensures Kept(m, Close(m, id), within)
  {
    hide Cleanup, Good;
    var i := Find(m.wins, id);
    if i < |m.wins| {
      var r := m.(wins := m.wins[i := m.wins[i].(closing := true)]);
      SameRects(m, r, within);
      CleanupFits(r, within);
    }
  }

  lemma CycleFits(m: Wm, within: bool)
    requires Fits(m, within)
    ensures Kept(m, CycleFocus(m).0, within)
  {
    hide BringToFront, Good;
    if CycleFocus(m).1 {
      var found := Find(m.wins, m.active);
      var i := NextFocusable(m.wins, if found == |m.wins| then |m.wins| - 1 else found, 1).value;
      var f := m.(active := m.wins[i].id);
      FrontFits(f, f.active, within);
      SameRects(BringToFront(f, f.active), CycleFocus(m).0, within);
    }
  }

  /** A move, by key or by drag, ends inside the screen. */
  lemma MoveFits(m: Wm, i: nat, y: int, x: int, within: bool)
    requires Fits(m, within) && i < |m.wins|
    ensures Kept(m, SetRect(m, i, Clamp(m.wins[i].at.(y := y, x := x), m.screen)), within)
  {
    assert Good(m.wins[i].at, m.screen, within);
    SetRectFits(m, i, Clamp(m.wins[i].at.(y := y, x := x), m.screen), within);
  }

  lemma ResizeFits(m: Wm, dh: int, dw: int, within: bool)
    requires Fits(m, within)
    ensures Kept(m, ResizeActive(m, dh, dw).0, within)
  {
    if ResizeActive(m, dh, dw).1 {
      var i := Find(m.wins, m.active);
      assert Good(m.wins[i].at, m.screen, within);
      SetRectFits(m, i, Resized(m.wins[i].at, dh, dw, m.screen).value, within);
    }
  }

  lemma OpFits(m: Wm, self: int, op: Op, within: bool)
    requires Fits(m, within)
    ensures Kept(m, Perform(m, self, op), within)
  {
    hide Good, Fits, Cleanup, Create, BringToFront, Clamp, Resized, CycleFocus, SelectTop;
    match op
    case OpCreate(spec, kind) => CreateFits(m, spec, kind, within);
    case OpClose(id) => CloseFits(m, id, within);
    case OpFocus(id) => SameRects(m, Focus(m, id), within);
    case OpFront(id) => FrontFits(m, id, within);
    case OpCycle => CycleFits(m, within);
    case OpMinimize(id) => MinimizeFits(m, id, within);
    case OpRestore(id) => SameRects(m, Restore(m, id).0, within);
    case OpMove(dy, dx) =>
      if MoveActive(m, dy, dx).1 {
        var i := Find(m.wins, m.active);
        MoveFits(m, i, m.wins[i].at.y + dy, m.wins[i].at.x + dx, within);
      }
    case OpResize(dh, dw) => ResizeFits(m, dh, dw, within);
    case OpDragEnabled(on) => SameRects(m, m.(drag := SetDragEnabled(m.drag, on)), within);
    case OpAutoDegrade(on) => SameRects(m, m.(drag := SetAutoDegrade(m.drag, on)), within);
    case OpLeave => SameRects(m, RequestClose(m, self), within);
  }

  lemma MinimizeFits(m: Wm, id: int, within: bool)
    requires Fits(m, within)
    ensures Kept(m, Minimize(m, id).0, within)
  {
    hide Good, TopVisible;
    SameRects(m, Minimize(m, id).0, within);
  }

  lemma {:induction false} OpsFit(m: Wm, self: int, ops: seq<Op>, within: bool)
    requires Fits(m, within)
    ensures Kept(m, PerformAll(m, self, ops), within)
    decreases |ops|
  {
    hide Fits, Perform;
    if ops != [] {
      OpsFit(m, self, ops[..|ops| - 1], within);
      OpFits(PerformAll(m, self, ops[..|ops| - 1]), self, ops[|ops| - 1], within);
    }
  }

  lemma PullFits(m: Wm, e: Mouse, within: bool)
    requires Fits(m, within)
    ensures Kept(m, Pull(m, e), within)
  {
    hide Good, Clamp;
    var i := Find(m.wins, m.drag.window);
    if i < |m.wins| {
      MoveFits(m, i, e.y - m.drag.offY, e.x - m.drag.offX, within);
    }
  }

  lemma PressFits(m: Wm, id: int, e: Mouse, within: bool)
    requires Fits(m, within)
    ensures Kept(m, Press(m, id, e), within)
  {
    hide Good, BringToFront;
    SameRects(m, Focus(m, id), within);
    FrontFits(Focus(m, id), id, within);
  }

  lemma DragFits(m: Wm, d: Drag, within: bool)
    requires Fits(m, within)
    ensures Kept(m, m.(drag := d), within)
  {
  }

  lemma MouseFits(m: Wm, e: Mouse, ops: seq<Op>, within: bool)
    requires Fits(m, within)
    ensures Kept(m, HandleMouse(m, e, ops), within)
  {
    hide Fits, Cleanup, Press, Grab, Pull, Drop;
    var modal, hit := TopModal(m.wins), TopAt(m.wins, e.y, e.x);
    if modal.Some? {
      OpsFit(m, m.wins[modal.value].id, ops, within);
      CleanupFits(PerformAll(m, m.wins[modal.value].id, ops), within);
    } else if hit.None? {
      PullFits(m, e, within);
      DragFits(Pull(m, e), Drop(Pull(m, e).drag, e), within);
    } else {
      var w := m.wins[hit.value];
      PressFits(m, w.id, e, within);
      var p := Press(m, w.id, e);
      DragFits(p, Grab(p.drag, w, e), within);
      var g := p.(drag := Grab(p.drag, w, e));
      PullFits(g, e, within);
      var d := Pull(g, e);
      DragFits(d, Drop(d.drag, e), within);
      OpsFit(d.(drag := Drop(d.drag, e)), w.id, ops, within);
    }
  }

  lemma ClampAllFits(m: Wm, within: bool)
    requires Fits(m, within)
    ensures Kept(m, ClampAll(m), within)
  {
    hide Clamp;
    var r := ClampAll(m);
    forall i | 0 <= i < |r.wins|
      ensures Good(r.wins[i].at, r.screen, within)
    {
      assert Good(m.wins[i].at, m.screen, within);
      ClampGood(m.wins[i].at, m.wins[i].at.y, m.wins[i].at.x, m.screen, within);
    }
  }

  lemma EventFits(m: Wm, e: Event, within: bool)
    requires Fits(m, within)
    ensures Kept(m, Handle(m, e), within)
  {
    hide Fits, Cleanup, HandleMouse, ClampAll, KeyTarget;
    match e
    case MouseEvent(mouse, ops) =>
      MouseFits(m, mouse, ops, within);
      CleanupFits(HandleMouse(m, mouse, ops), within);
    case KeyEvent(ops) =>
      var t := KeyTarget(m);
      if t.Some? {
        OpsFit(m, m.wins[t.value].id, ops, within);
        CleanupFits(PerformAll(m, m.wins[t.value].id, ops), within);
      } else {
        CleanupFits(m, within);
      }
    case ResizeEvent =>
      ClampAllFits(m, within);
      CleanupFits(ClampAll(m), within);
  }

  /**
    Over every run every window is at least four rows by eight columns, whatever becomes of the
    screen; and while the screen keeps its size, every window stays inside it.
   */
  lemma {:induction false} RunFits(s: Screen, actions: seq<Action>, within: bool)
    requires within ==> forall i :: 0 <= i < |actions| ==> !actions[i].NewScreen?
    ensures Fits(Run(Initial(s), actions), within) && (within ==> Run(Initial(s), actions).screen == s)
    decreases |actions|
  {
    hide Perform, Handle, Good;
    if actions != [] {
      var n := |actions| - 1;
      assert forall i :: 0 <= i < n ==> actions[..n][i] == actions[i];
      RunFits(s, actions[..n], within);
      var before := Run(Initial(s), actions[..n]);
      match actions[n]
      case Call(self, op) => OpFits(before, self, op, within);
      case Input(e) => EventFits(before, e, within);
      case NewScreen(screen) => ScreenFits(before, screen);
    }
  }

  lemma ScreenFits(m: Wm, s: Screen)
    requires Fits(m, false)
    ensures Fits(m.(screen := s), false)
  {
  }
}
