/**
  A maximized window stays where it is whatever happens short of resizing or closing windows or a
  new screen size, and can then still be put back.
 */
module MaximizeRuns {
  import opened Basics
  import opened Windows
  import opened WindowLaws
  import opened WindowBounds
  import opened Maximize
  import opened MaximizeLaws

  /** A rectangle that every attempt to move it puts back. */
  ghost predicate Stuck(f: Rect, s: Screen) {
    forall y, x :: Clamp(f.(y := y, x := x), s) == f
  }

  /** It fills the screen but for the bottom row. */
  predicate Fills(f: Rect, s: Screen) {
    f.h >= s.rows - 1 && f.w >= s.cols
  }

  /** A maximized window fills its screen: one step of growth reaches the edges, or a narrow one fills it anyway. */
  lemma FillsIff(r: Rect, s: Screen)
    requires Inside(r, s)
    ensures Fills(FullRect(r, s), s) <==>
            if s.cols < 12 then Fills(r, s) else s.rows <= r.h + 1000000 && s.cols <= r.w + 1000000
  {
    hide FullRect;
    FullRectFills(r, s);
  }

  // ----- What leaves a window alone -----

  /** The operation resizes no window and closes others at most. */
  predicate Harmless(self: int, op: Op, id: int) {
    match op
    case OpResize(_, _) => false
    case OpClose(other) => other != id
    case OpLeave => self != id
    case _ => true
  }

  predicate HarmlessAct(a: Action, id: int) {
    match a
    case Call(self, op) => Harmless(self, op, id)
    case Input(MouseEvent(_, ops)) => forall op <- ops :: Harmless(id, op, id)
    case Input(KeyEvent(ops)) => forall op <- ops :: Harmless(id, op, id)
    case Input(ResizeEvent) => true
    case NewScreen(_) => false
  }

  /** The window is there, of its kind, in its place and not closing. */
  predicate Stays(w: Option<Win>, kind: Kind, f: Rect) {
    w.Some? && w.value.kind == kind && w.value.at == f && !w.value.closing
  }

  ghost predicate Held(m: Wm, id: int, kind: Kind, f: Rect) {
    Sound(m) && Stuck(f, m.screen) && Stays(Get(m.wins, id), kind, f)
  }

  lemma FlagsStay(m: Wm, id: int, kind: Kind, f: Rect)
    requires Stays(Get(m.wins, id), kind, f)
    ensures Stays(Get(UpdateFlags(m).wins, id), kind, f)
  {
    UpdateFlagsGet(m, id);
  }

  lemma SelectTopStays(m: Wm, id: int, kind: Kind, f: Rect)
    requires Stays(Get(m.wins, id), kind, f)
    ensures Stays(Get(SelectTop(m).wins, id), kind, f) && SelectTop(m).screen == m.screen
  {
    hide UpdateFlags, Get;
    FlagsStay(m, id, kind, f);
    FlagsStay(m.(active := TopVisible(m.wins)), id, kind, f);
    SameScreens(m);
  }

  lemma SameScreens(m: Wm)
    ensures UpdateFlags(m).screen == m.screen && UpdateFlags(m.(active := TopVisible(m.wins))).screen == m.screen
  {
  }

  /** Another window may be changed at will, this one short of its kind, place and presence. */
  lemma SetStays(m: Wm, i: nat, w: Win, id: int, kind: Kind, f: Rect)
    requires Distinct(m.wins) && i < |m.wins| && w.id == m.wins[i].id && Stays(Get(m.wins, id), kind, f)
    requires w.id == id ==> w.kind == kind && w.at == f && !w.closing
    ensures Stays(Get(m.wins[i := w], id), kind, f)
  {
    SetGet(m.wins, i, w, id);
  }

  lemma {:induction false} SweepStays(m: Wm, i: nat, id: int, kind: Kind, f: Rect)
    requires Base(m) && Stays(Get(m.wins, id), kind, f)
    ensures Stays(Get(Sweep(m, i).wins, id), kind, f) && Sweep(m, i).screen == m.screen
    decreases |m.wins| - i
  {
    hide Base, Get;
    if i < |m.wins| {
      if m.wins[i].closing {
        RemoveStays(m, i, id, kind, f);
        RemoveBase(m, i);
        SweepStays(Remove(m, i), i, id, kind, f);
      } else {
        SweepStays(m, i + 1, id, kind, f);
      }
    }
  }

  lemma RemoveStays(m: Wm, i: nat, id: int, kind: Kind, f: Rect)
    requires Base(m) && i < |m.wins| && m.wins[i].closing && Stays(Get(m.wins, id), kind, f)
    ensures Stays(Get(Remove(m, i).wins, id), kind, f)
  {
    RemoveGet(m.wins, i, id);
    FindAt(m.wins, i);
  }

  lemma CleanupStays(m: Wm, id: int, kind: Kind, f: Rect)
    requires Base(m) && Stays(Get(m.wins, id), kind, f)
    ensures Stays(Get(Cleanup(m).wins, id), kind, f) && Cleanup(m).screen == m.screen
  {
    hide Base, Get, Sweep, SelectTop;
    SweepStays(m, 0, id, kind, f);
    SelectTopStays(Sweep(m, 0), id, kind, f);
  }

  lemma FrontStays(m: Wm, other: int, id: int, kind: Kind, f: Rect)
    requires Sound(m) && Stays(Get(m.wins, id), kind, f)
    ensures Stays(Get(BringToFront(m, other).wins, id), kind, f) && BringToFront(m, other).screen == m.screen
  {
    var i := Find(m.wins, other);
    if i < |m.wins| {
      FrontGet(m.wins, i, id);
    }
  }

  lemma FocusStays(m: Wm, other: int, id: int, kind: Kind, f: Rect)
    requires Sound(m) && Stays(Get(m.wins, id), kind, f)
    ensures Stays(Get(Focus(m, other).wins, id), kind, f) && Focus(m, other).screen == m.screen
  {
    var i := Find(m.wins, other);
    if i < |m.wins| && !m.wins[i].closing {
      FindAt(m.wins, i);
      var w := m.wins[i].(minimized := false);
      SetStays(m, i, w, id, kind, f);
      FlagsStay(m.(wins := m.wins[i := w], active := other), id, kind, f);
    }
  }

  lemma CloseStays(m: Wm, other: int, id: int, kind: Kind, f: Rect)
    requires Sound(m) && Stays(Get(m.wins, id), kind, f) && other != id
    ensures Stays(Get(Close(m, other).wins, id), kind, f) && Close(m, other).screen == m.screen
    ensures Stays(Get(RequestClose(m, other).wins, id), kind, f) && RequestClose(m, other).screen == m.screen
  {
    hide Cleanup;
    var i := Find(m.wins, other);
    if i < |m.wins| {
      FindAt(m.wins, i);
      assert WinOk(m.wins[i], m.nextId);
      var w := m.wins[i].(closing := true);
      SetStays(m, i, w, id, kind, f);
      SetBase(m, i, w);
      CleanupStays(m.(wins := m.wins[i := w]), id, kind, f);
    }
  }

  lemma CreateStays(m: Wm, spec: Rect, created: Kind, id: int, kind: Kind, f: Rect)
    requires Sound(m) && Stays(Get(m.wins, id), kind, f)
    ensures Stays(Get(Create(m, spec, created).0.wins, id), kind, f) && Create(m, spec, created).0.screen == m.screen
  {
    hide Place;
    if m.screen.rows >= 4 && m.screen.cols >= 8 {
      assert WinOk(m.wins[Find(m.wins, id)], m.nextId);
      assert forall i :: 0 <= i < |m.wins| ==> WinOk(m.wins[i], m.nextId);
      var added := Added(m, Place(spec, |m.wins|, m.screen), created);
      AppendGet(m.wins, added.wins[|m.wins|], id);
      FlagsStay(added, id, kind, f);
    }
  }

  lemma CycleStays(m: Wm, id: int, kind: Kind, f: Rect)
    requires Sound(m) && Stays(Get(m.wins, id), kind, f)
    ensures Stays(Get(CycleFocus(m).0.wins, id), kind, f) && CycleFocus(m).0.screen == m.screen
  {
    if CycleFocus(m).1 {
      var found := Find(m.wins, m.active);
      var i := NextFocusable(m.wins, if found == |m.wins| then |m.wins| - 1 else found, 1).value;
      FindAt(m.wins, i);
      FrontGet(m.wins, i, id);
      FlagsStay(BringToFront(m.(active := m.wins[i].id), m.wins[i].id), id, kind, f);
    }
  }

  lemma MinimizeStays(m: Wm, other: int, id: int, kind: Kind, f: Rect)
    requires Sound(m) && Stays(Get(m.wins, id), kind, f)
    ensures Stays(Get(Minimize(m, other).0.wins, id), kind, f) && Minimize(m, other).0.screen == m.screen
    ensures Stays(Get(Restore(m, other).0.wins, id), kind, f) && Restore(m, other).0.screen == m.screen
  {
    hide SelectTop;
    var i := Find(m.wins, other);
    if i < |m.wins| {
      FindAt(m.wins, i);
      var w, v := m.wins[i].(minimized := true, isActive := false), m.wins[i].(minimized := false);
      SetStays(m, i, w, id, kind, f);
      SetStays(m, i, v, id, kind, f);
      SelectTopStays(m.(wins := m.wins[i := w], drag := LetGo(m.drag, other),
                        active := if other == m.active then NONE else m.active), id, kind, f);
      FlagsStay(m.(wins := m.wins[i := v]), id, kind, f);
    }
  }

  /** A move, by key or by drag, of this window or another. */
  lemma MoveStays(m: Wm, i: nat, y: int, x: int, id: int, kind: Kind, f: Rect)
    requires Held(m, id, kind, f) && i < |m.wins|
    ensures Stays(Get(SetRect(m, i, Clamp(m.wins[i].at.(y := y, x := x), m.screen)).wins, id), kind, f)
  {
    hide Clamp;
    FindAt(m.wins, i);
    SetStays(m, i, m.wins[i].(at := Clamp(m.wins[i].at.(y := y, x := x), m.screen)), id, kind, f);
  }

  lemma OpStays(m: Wm, self: int, op: Op, id: int, kind: Kind, f: Rect)
    requires Held(m, id, kind, f) && Harmless(self, op, id)
    ensures Held(Perform(m, self, op), id, kind, f) && Perform(m, self, op).screen == m.screen
  {
    hide Sound, Create, Close, Focus, BringToFront, CycleFocus, Minimize, Restore, Get, Clamp, RequestClose, Stays,
      Stuck;
    OpSound(m, self, op);
    match op
    case OpCreate(spec, created) => CreateStays(m, spec, created, id, kind, f);
    case OpClose(other) => CloseStays(m, other, id, kind, f);
    case OpFocus(other) => FocusStays(m, other, id, kind, f);
    case OpFront(other) => FrontStays(m, other, id, kind, f);
    case OpCycle => CycleStays(m, id, kind, f);
    case OpMinimize(other) => MinimizeStays(m, other, id, kind, f);
    case OpRestore(other) => MinimizeStays(m, other, id, kind, f);
    case OpMove(dy, dx) =>
      if MoveActive(m, dy, dx).1 {
        var i := Find(m.wins, m.active);
        MoveStays(m, i, m.wins[i].at.y + dy, m.wins[i].at.x + dx, id, kind, f);
      }
    case OpDragEnabled(_) =>
    case OpAutoDegrade(_) =>
    case OpLeave => CloseStays(m, self, id, kind, f);
  }

  lemma {:induction false} OpsStay(m: Wm, self: int, ops: seq<Op>, id: int, kind: Kind, f: Rect)
    requires Held(m, id, kind, f) && forall op <- ops :: Harmless(self, op, id)
    ensures Held(PerformAll(m, self, ops), id, kind, f) && PerformAll(m, self, ops).screen == m.screen
    decreases |ops|
  {
    hide Held, Perform, Harmless;
    if ops != [] {
      OpsStay(m, self, ops[..|ops| - 1], id, kind, f);
      OpStays(PerformAll(m, self, ops[..|ops| - 1]), self, ops[|ops| - 1], id, kind, f);
    }
  }

  /** What leaves the window alone when it does so itself leaves it alone when another window does. */
  lemma AnyoneHarmless(ops: seq<Op>, id: int, self: int)
    requires forall op <- ops :: Harmless(id, op, id)
    ensures forall op <- ops :: Harmless(self, op, id)
  {
  }

  // ----- Events -----

  lemma PressStays(m: Wm, other: int, e: Mouse, id: int, kind: Kind, f: Rect)
    requires Held(m, id, kind, f)
    ensures Held(Press(m, other, e), id, kind, f) && Press(m, other, e).screen == m.screen
  {
    hide Sound, Stays, Focus, BringToFront, Get, Stuck;
    PressSound(m, other, e);
    FocusSound(m, other);
    FocusStays(m, other, id, kind, f);
    FrontStays(Focus(m, other), other, id, kind, f);
  }

  lemma PullStays(m: Wm, e: Mouse, id: int, kind: Kind, f: Rect)
    requires Held(m, id, kind, f)
    ensures Held(Pull(m, e), id, kind, f) && Pull(m, e).screen == m.screen
  {
    hide Sound, Stays, Get, Stuck, Clamp;
    PullSound(m, e);
    var i := Find(m.wins, m.drag.window);
    if i < |m.wins| {
      MoveStays(m, i, e.y - m.drag.offY, e.x - m.drag.offX, id, kind, f);
    }
  }

  lemma MouseStays(m: Wm, e: Mouse, ops: seq<Op>, id: int, kind: Kind, f: Rect)
    requires Held(m, id, kind, f) && forall op <- ops :: Harmless(id, op, id)
    ensures Held(HandleMouse(m, e, ops), id, kind, f) && HandleMouse(m, e, ops).screen == m.screen
  {
    hide Stuck, Stays, Harmless, Cleanup, Press, Grab, Pull, Drop, Get, Sound, Base, NoneClosing;
    var modal, hit := TopModal(m.wins), TopAt(m.wins, e.y, e.x);
    if modal.Some? {
      var self := m.wins[modal.value].id;
      AnyoneHarmless(ops, id, self);
      OpsStay(m, self, ops, id, kind, f);
      TidyStays(PerformAll(m, self, ops), id, kind, f);
    } else if hit.None? {
      PullStays(m, e, id, kind, f);
      DropSound(Pull(m, e), e);
    } else {
      var w := m.wins[hit.value];
      GrabSound(m, hit.value, e);
      PressStays(m, w.id, e, id, kind, f);
      var p := Press(m, w.id, e);
      var g := p.(drag := Grab(p.drag, w, e));
      PullStays(g, e, id, kind, f);
      DropSound(Pull(g, e), e);
      AnyoneHarmless(ops, id, w.id);
      var d := Pull(g, e);
      OpsStay(d.(drag := Drop(d.drag, e)), w.id, ops, id, kind, f);
    }
  }

  lemma TidyStays(m: Wm, id: int, kind: Kind, f: Rect)
    requires Held(m, id, kind, f)
    ensures Held(Cleanup(m), id, kind, f) && Cleanup(m).screen == m.screen
  {
    hide Stuck, Stays, Cleanup, Get;
    CleanupSound(m);
    CleanupStays(m, id, kind, f);
  }

  /** Clamping every window leaves a stuck one where it is. */
  lemma ClampAllStays(m: Wm, id: int, kind: Kind, f: Rect)
    requires Held(m, id, kind, f)
    ensures Base(ClampAll(m)) && Stays(Get(ClampAll(m).wins, id), kind, f) && ClampAll(m).screen == m.screen
  {
    hide Clamp;
    ClampAllBase(m);
    FindMapped(m.wins, ClampAll(m).wins, id);
    assert Clamp(f.(y := f.y, x := f.x), m.screen) == f;
    assert f.(y := f.y, x := f.x) == f;
  }

  lemma ActStays(m: Wm, a: Action, id: int, kind: Kind, f: Rect)
    requires Held(m, id, kind, f) && HarmlessAct(a, id)
    ensures Held(Act(m, a), id, kind, f) && Act(m, a).screen == m.screen
  {
    hide Held, Harmless, Cleanup, HandleMouse, KeyTarget, PerformAll, Perform, ClampAll;
    match a
    case Call(self, op) => OpStays(m, self, op, id, kind, f);
    case Input(MouseEvent(e, ops)) =>
      MouseStays(m, e, ops, id, kind, f);
      TidyStays(HandleMouse(m, e, ops), id, kind, f);
    case Input(KeyEvent(ops)) =>
      var t := KeyTarget(m);
      if t.Some? {
        AnyoneHarmless(ops, id, m.wins[t.value].id);
        OpsStay(m, m.wins[t.value].id, ops, id, kind, f);
        TidyStays(PerformAll(m, m.wins[t.value].id, ops), id, kind, f);
      } else {
        TidyStays(m, id, kind, f);
      }
    case Input(ResizeEvent) => ResizeStays(m, id, kind, f);
  }

  lemma ResizeStays(m: Wm, id: int, kind: Kind, f: Rect)
    requires Held(m, id, kind, f)
    ensures Held(Handle(m, ResizeEvent), id, kind, f) && Handle(m, ResizeEvent).screen == m.screen
  {
    hide Stuck, Stays, Cleanup, Get, ClampAll, Base;
    ClampAllStays(m, id, kind, f);
    CleanupSound(ClampAll(m));
    CleanupStays(ClampAll(m), id, kind, f);
  }

  lemma {:induction false} RunStays(m: Wm, actions: seq<Action>, id: int, kind: Kind, f: Rect)
    requires Held(m, id, kind, f) && forall a <- actions :: HarmlessAct(a, id)
    ensures Held(Run(m, actions), id, kind, f) && Run(m, actions).screen == m.screen
    decreases |actions|
  {
    hide Held, Act, HarmlessAct;
    if actions != [] {
      RunStays(m, actions[..|actions| - 1], id, kind, f);
      ActStays(Run(m, actions[..|actions| - 1]), actions[|actions| - 1], id, kind, f);
    }
  }

  // ----- Between maximizing and unmaximizing -----

  /** The window manager right after maximizing holds the window, if it fills the screen. */
  lemma FullIsHeld(m: Wm, id: int)
    requires Sound(m) && CanMove(m, id) && Inside(RectOf(m, id), m.screen)
    requires Fills(FullRect(RectOf(m, id), m.screen), m.screen)
    ensures var full, s := Apply(m, id).0, m.screen;
            var f := FullRect(RectOf(m, id), s);
            full.screen == s && Held(full, id, m.wins[Find(m.wins, id)].kind, f)
  {
    hide FullRect, Apply, Clamp, Sound;
    var r, s := RectOf(m, id), m.screen;
    var f := FullRect(r, s);
    OpsKeepSound(m, id);
    ApplyIs(m, id);
    WithIs(m, id, f);
    SameScreen(m, id, f);
    FullRectFills(r, s);
    StuckIff(f, s);
  }

  lemma HeldIs(m: Wm, id: int, kind: Kind, f: Rect)
    requires Held(m, id, kind, f)
    ensures Exists(m, id) && RectOf(m, id) == f && (Ready(m, id) && !kind.fixed ==> CanMove(m, id))
  {
  }

  /** A maximized window that fills its screen can be put back from wherever it was left. */
  lemma PutBackFrom(m: Wm, id: int, kind: Kind, r: Rect)
    requires Held(m, id, kind, FullRect(r, m.screen)) && CanMove(m, id) && Inside(r, m.screen)
    ensures PutBack(m, id, r) == With(m, id, RectOf(PutBack(m, id, r), id))
    ensures RectOf(PutBack(m, id, r), id) == r <==> Restorable(r, m.screen)
  {
    hide FullRect, BackRect, With, PutBack, CanMove, Held, Sound, Stuck;
    HeldIs(m, id, kind, FullRect(r, m.screen));
    PutBackIs(m, id, r);
    WithIs(m, id, BackRect(FullRect(r, m.screen), r, m.screen));
    BackIff(r, m.screen);
  }

  /**
    After maximizing a window that then fills its screen, its rectangle stays the same over every
    run of calls and events, moves and drags included, that resizes nothing, closes other windows
    at most and keeps the screen size. Whenever it is then active and not minimized, unmaximizing
    it changes that rectangle only, to the former one if and only if that was restorable.
   */
  lemma MaximizedStays(m: Wm, slots: seq<Slot>, id: int, actions: seq<Action>)
    requires Sound(m) && CanMove(m, id) && Inside(RectOf(m, id), m.screen) && SlotsOk(slots) && NotYet(slots, id)
    requires MaximizeWindow(m, slots, id).2
    requires Fills(FullRect(RectOf(m, id), m.screen), m.screen) && forall a <- actions :: HarmlessAct(a, id)
    ensures var (full, taken, _) := MaximizeWindow(m, slots, id);
            var later := Run(full, actions);
            && Sound(later) && Exists(later, id) && RectOf(later, id) == FullRect(RectOf(m, id), m.screen)
            && (Ready(later, id) ==>
                  var (back, left, ok) := Unmaximize(later, taken, id);
                  && ok && Sound(back) && back == With(later, id, RectOf(back, id))
                  && !IsMaximized(back, left, id).1
                  && (RectOf(back, id) == RectOf(m, id) <==> Restorable(RectOf(m, id), m.screen)))
  {
    hide Exists, SlotOf, Apply, PutBack, CanMove, RectOf, MaximizeWindow, Ready, FullRect, Run, Held, Sound, Restorable,
      Inside, Fills, With, HarmlessAct;
    var r, s := RectOf(m, id), m.screen;
    var kind := KindOf(m, id);
    assert Sized(r) by { InsideSized(r, s); }
    MaximizeOutcome(m, slots, id);
    FullIsHeld(m, id);
    var (full, taken, _) := MaximizeWindow(m, slots, id);
    RunStays(full, actions, id, kind, FullRect(r, s));
    var later := Run(full, actions);
    HeldIs(later, id, kind, FullRect(r, s));
    HeldSound(later, id, kind, FullRect(r, s));
    if Ready(later, id) {
      PutBackFrom(later, id, kind, r);
      SlotFinds(later, taken, id, false);
      var (looked, at) := SlotOf(later, taken, id, false);
      var back := PutBack(later, id, r);
      OpsKeepSound(later, id);
      PutBackExists(later, id, r);
      var left := looked[at.value := looked[at.value].(maximized := false)];
      SlotFinds(back, left, id, false);
      assert Holds(left[at.value], id);
    }
  }

  lemma InsideSized(r: Rect, s: Screen)
    requires Inside(r, s)
    ensures Sized(r)
  {
  }

  function KindOf(m: Wm, id: int): (kind: Kind)
    requires CanMove(m, id)
    ensures !kind.fixed
  {
    m.wins[Find(m.wins, id)].kind
  }

  lemma HeldSound(m: Wm, id: int, kind: Kind, f: Rect)
    requires Held(m, id, kind, f)
    ensures Sound(m)
  {
  }

  /** A window that does not fill its screen can be moved away: filling it is what holds the window in place. */
  lemma StaysIffFills(m: Wm, id: int)
    requires Sound(m) && CanMove(m, id) && Inside(RectOf(m, id), m.screen)
    ensures var full, f := Apply(m, id).0, FullRect(RectOf(m, id), m.screen);
            (forall actions: seq<Action> :: (forall a <- actions :: HarmlessAct(a, id)) ==>
               RectOf(Run(full, actions), id) == f) <==> Fills(f, m.screen)
  {
    hide Exists, Apply, CanMove, RectOf, Ready, FullRect, Run, Held, Sound, Inside, Fills, With, HarmlessAct;
    var full, f := Apply(m, id).0, FullRect(RectOf(m, id), m.screen);
    var kind := KindOf(m, id);
    if Fills(f, m.screen) {
      FullIsHeld(m, id);
      forall actions: seq<Action> | forall a <- actions :: HarmlessAct(a, id)
        ensures RectOf(Run(full, actions), id) == f
      {
        RunStays(full, actions, id, kind, f);
        HeldIs(Run(full, actions), id, kind, f);
      }
    } else {
      var away := MovesAway(m, id);
      assert forall a <- [away] :: HarmlessAct(a, id);
    }
  }

  lemma MovesAway(m: Wm, id: int) returns (away: Action)
    requires CanMove(m, id) && Inside(RectOf(m, id), m.screen)
    requires !Fills(FullRect(RectOf(m, id), m.screen), m.screen)
    ensures HarmlessAct(away, id)
    ensures RectOf(Run(Apply(m, id).0, [away]), id) != FullRect(RectOf(m, id), m.screen)
  {
    hide FullRect, Apply, Clamp, With, CanMove, Perform, RectOf, MoveActive;
    var r, s := RectOf(m, id), m.screen;
    var f := FullRect(r, s);
    CanMoveExists(m, id);
    FullRectFills(r, s);
    StuckIff(f, s);
    var y, x :| Clamp(f.(y := y, x := x), s) != f;
    away := Call(id, OpMove(y - f.y, x - f.x));
    ApplyIs(m, id);
    WithIs(m, id, f);
    SameScreen(m, id, f);
    var full := With(m, id, f);
    MoveIs(full, id, y - f.y, x - f.x);
    WithIs(full, id, Clamp(f.(y := y, x := x), s));
    OneStep(full, id, y - f.y, x - f.x);
  }

  lemma OneStep(m: Wm, id: int, dy: int, dx: int)
    ensures Run(m, [Call(id, OpMove(dy, dx))]) == MoveActive(m, dy, dx).0
  {
    hide MoveActive;
    var a := [Call(id, OpMove(dy, dx))];
    assert a[..0] == [];
  }
}
