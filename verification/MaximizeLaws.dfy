/**
  Unmaximizing undoes maximizing, exactly when the window was not too narrow and did not reach the
  bottom row.
 */
module MaximizeLaws {
  import opened Basics
  import opened Windows
  import opened WindowLaws
  import opened WindowBounds
  import opened Maximize

  // ----- On one rectangle -----

  function OrSame(r: Rect, next: Option<Rect>): Rect {
    if next.Some? then next.value else r
  }

  /** What maximizing makes of a rectangle. */
  function FullRect(r: Rect, s: Screen): Rect {
    var corner := Clamp(r.(y := 0, x := 0), s);
    var grown := OrSame(corner, Resized(corner, GROW, GROW, s));
    if grown.h > 4 then OrSame(grown, Resized(grown, -1, 0, s)) else grown
  }

  /** What putting a rectangle back into place makes of it. */
  function BackRect(r: Rect, to: Rect, s: Screen): Rect {
    var sized := OrSame(r, Resized(r, to.h - r.h, to.w - r.w, s));
    Clamp(sized.(y := to.y, x := to.x), s)
  }

  /** A maximized window fills the screen but for the bottom row, on a screen wide enough to be resized on. */
  lemma FullRectFills(r: Rect, s: Screen)
    requires Inside(r, s)
    ensures var f, h := FullRect(r, s), Min(r.h + 1000000, s.rows);
            && Inside(f, s) && Full(f)
            && f == if s.cols < 12 then r.(y := 0, x := 0)
                    else Rect(0, 0, if h > 4 then h - 1 else h, Min(r.w + 1000000, s.cols))
  {
  }

  /** The screen is one on which windows can be resized at all. */
  predicate Resizable(s: Screen) {
    (s.rows <= 0 || s.rows >= 4) && (s.cols <= 0 || s.cols >= 12)
  }

  /**
    A window that can be put back exactly: where a move would leave it and, if windows can be resized
    on this screen, of a size a resize would leave it.
   */
  predicate Restorable(r: Rect, s: Screen) {
    && Clamp(r, s) == r
    && (Resizable(s) ==> r.w >= 12 && (s.rows > 0 ==> r.h <= s.rows) && (s.cols > 0 ==> r.w <= s.cols))
  }

  /** On a screen that holds the window: wide enough, and clear of the bottom row unless it fills the height. */
  lemma RestorableInside(r: Rect, s: Screen)
    requires Inside(r, s)
    ensures Restorable(r, s) <==> (r.w >= 12 || s.cols < 12) && (r.y + r.h <= s.rows - 1 || r.y == 0)
  {
  }

  /** On every screen, and for every window, on it or not. */
  lemma BackIff(r: Rect, s: Screen)
    requires Sized(r)
    ensures Full(FullRect(r, s))
    ensures BackRect(FullRect(r, s), r, s) == r <==> Restorable(r, s)
  {
  }

  /** A maximized window cannot be moved, by keys or by dragging, exactly when it fills the screen. */
  lemma StuckIff(f: Rect, s: Screen)
    requires Inside(f, s) && f.y == 0 && f.x == 0
    ensures (forall y, x :: Clamp(f.(y := y, x := x), s) == f) <==> f.h >= s.rows - 1 && f.w >= s.cols
  {
    if f.h < s.rows - 1 || f.w < s.cols {
      assert Clamp(f.(y := s.rows, x := s.cols), s) != f;
    }
  }

  // ----- In the window manager -----

  /** The same window manager with one window elsewhere. */
  function With(m: Wm, id: int, r: Rect): Wm
    requires Exists(m, id)
  {
    SetRect(m, Find(m.wins, id), r)
  }

  predicate CanMove(m: Wm, id: int) {
    m.active == id && Movable(m, Find(m.wins, id))
  }

  lemma WithIs(m: Wm, id: int, r: Rect)
    requires Exists(m, id)
    ensures var w := With(m, id, r);
            && Find(w.wins, id) == Find(m.wins, id) && Exists(w, id) && RectOf(w, id) == r
            && CanMove(w, id) == CanMove(m, id) && Ready(w, id) == Ready(m, id)
            && With(m, id, RectOf(m, id)) == m
    ensures forall q :: With(With(m, id, r), id, q) == With(m, id, q)
    ensures forall k :: Exists(With(m, id, r), k) == Exists(m, k)
  {
    var w := With(m, id, r);
    FindMapped(m.wins, w.wins, id);
    forall k
      ensures Exists(w, k) == Exists(m, k)
    {
      FindMapped(m.wins, w.wins, k);
    }
  }

  lemma MoveIs(m: Wm, id: int, dy: int, dx: int)
    requires CanMove(m, id)
    ensures var r := RectOf(m, id);
            MoveActive(m, dy, dx) == (With(m, id, Clamp(r.(y := r.y + dy, x := r.x + dx), m.screen)), true)
  {
    hide Clamp;
  }

  lemma ResizeIs(m: Wm, id: int, dh: int, dw: int)
    requires CanMove(m, id)
    ensures ResizeActive(m, dh, dw).0 == With(m, id, OrSame(RectOf(m, id), Resized(RectOf(m, id), dh, dw, m.screen)))
  {
    hide Resized;
    WithIs(m, id, RectOf(m, id));
  }

  lemma ApplyIs(m: Wm, id: int)
    requires CanMove(m, id)
    ensures Apply(m, id) == (With(m, id, FullRect(RectOf(m, id), m.screen)), Full(FullRect(RectOf(m, id), m.screen)))
  {
    hide Clamp, Resized, Full, With, MoveActive, ResizeActive, RectOf;
    var r, s := RectOf(m, id), m.screen;
    var corner := Clamp(r.(y := 0, x := 0), s);
    MoveIs(m, id, -r.y, -r.x);
    WithIs(m, id, corner);
    var moved := With(m, id, corner);
    ResizeIs(moved, id, GROW, GROW);
    var grown := OrSame(corner, Resized(corner, GROW, GROW, s));
    SameScreen(m, id, corner);
    WithIs(m, id, grown);
    SameScreen(m, id, grown);
    ResizeIs(With(m, id, grown), id, -1, 0);
    WithIs(m, id, FullRect(r, s));
  }

  lemma SameScreen(m: Wm, id: int, r: Rect)
    requires Exists(m, id)
    ensures With(m, id, r).screen == m.screen
  {
  }

  lemma PutBackIs(m: Wm, id: int, to: Rect)
    requires CanMove(m, id)
    ensures PutBack(m, id, to) == With(m, id, BackRect(RectOf(m, id), to, m.screen))
  {
    hide Clamp, Resized, With, MoveActive, ResizeActive, RectOf;
    var r, s := RectOf(m, id), m.screen;
    var sized := OrSame(r, Resized(r, to.h - r.h, to.w - r.w, s));
    ResizeIs(m, id, to.h - r.h, to.w - r.w);
    WithIs(m, id, sized);
    SameScreen(m, id, sized);
    MoveIs(With(m, id, sized), id, to.y - sized.y, to.x - sized.x);
  }

  /** Maximizing and putting back gives the very same window manager, exactly for a restorable window. */
  lemma ApplyPutBack(m: Wm, id: int)
    requires CanMove(m, id) && Sized(RectOf(m, id))
    ensures Apply(m, id).1 && CanMove(Apply(m, id).0, id)
    ensures PutBack(Apply(m, id).0, id, RectOf(m, id)) == m <==> Restorable(RectOf(m, id), m.screen)
  {
    hide With, FullRect, Restorable, BackRect, RectOf, PutBack, Apply, CanMove, Full;
    var r, s := RectOf(m, id), m.screen;
    var f := FullRect(r, s);
    CanMoveExists(m, id);
    ApplyIs(m, id);
    WithIs(m, id, f);
    SameScreen(m, id, f);
    PutBackIs(With(m, id, f), id, r);
    BackIff(r, s);
    WithIs(m, id, BackRect(f, r, s));
    WithIs(m, id, r);
  }

  lemma CanMoveExists(m: Wm, id: int)
    requires CanMove(m, id)
    ensures Exists(m, id) && Ready(m, id)
  {
  }

  // ----- The table -----

  /** No window has two slots. */
  predicate SlotsOk(slots: seq<Slot>) {
    forall i, j :: 0 <= i < j < |slots| && slots[i].Taken? && slots[j].Taken? ==> slots[i].id != slots[j].id
  }

  predicate Holds(s: Slot, id: int) {
    s.Taken? && s.id == id
  }

  /** Slots are only ever freed, and only those of windows that are gone. */
  predicate Freshened(m: Wm, slots: seq<Slot>, r: seq<Slot>) {
    |r| == |slots| && forall k :: 0 <= k < |slots| ==> r[k] == slots[k] || (Stale(m, slots[k]) && r[k] == Free)
  }

  /** A slot that can be given to no other window. */
  predicate Busy(m: Wm, s: Slot) {
    s.Foreign? || (s.Taken? && Exists(m, s.id))
  }

  lemma FreshenedSelf(m: Wm, slots: seq<Slot>)
    ensures Freshened(m, slots, slots)
  {
  }

  lemma FreshenedOn(m: Wm, a: seq<Slot>, b: seq<Slot>, c: seq<Slot>)
    requires Freshened(m, a, b) && Freshened(m, b, c)
    ensures Freshened(m, a, c)
  {
  }

  /** Freeing one stale slot takes no slot from a live window and makes no slot busy or idle. */
  lemma FreshenOne(m: Wm, slots: seq<Slot>, id: int, i: nat)
    requires Exists(m, id) && i < |slots| && SlotsOk(slots)
    ensures var s := Freshen(m, slots[i]);
            var next := slots[i := s];
            && SlotsOk(next) && Freshened(m, slots, next)
            && (Holds(s, id) ==> s == slots[i])
            && (s.Free? <==> !Busy(m, slots[i]))
            && forall k :: 0 <= k < |slots| ==>
                 (Holds(next[k], id) <==> Holds(slots[k], id)) && (Busy(m, next[k]) <==> Busy(m, slots[k]))
  {
    hide Exists;
  }

  lemma {:induction false} ScanFinds(m: Wm, slots: seq<Slot>, id: int, i: nat, empty: Option<nat>)
    requires Exists(m, id) && i <= |slots| && SlotsOk(slots)
    requires forall k :: 0 <= k < i ==> !Holds(slots[k], id)
    requires if empty.Some? then empty.value < i && slots[empty.value].Free?
             else forall k :: 0 <= k < i ==> Busy(m, slots[k])
    ensures var r := Scan(m, slots, id, i, empty);
            && Freshened(m, slots, r.slots)
            && (r.found.Some? ==> r.slots[r.found.value] == slots[r.found.value])
            && (r.found.None? ==> (forall k :: 0 <= k < |slots| ==> !Holds(slots[k], id))
                                  && (r.empty.Some? ==> r.slots[r.empty.value].Free?)
                                  && (r.empty.None? <==> forall k :: 0 <= k < |slots| ==> Busy(m, slots[k])))
    decreases |slots| - i
  {
    hide Exists, SlotsOk, Freshened, Freshen;
    if i < |slots| {
      var s := Freshen(m, slots[i]);
      FreshenOne(m, slots, id, i);
      if !(s.Taken? && s.id == id) {
        var next := slots[i := s];
        ScanFinds(m, next, id, i + 1, if s.Free? && empty.None? then Some(i) else empty);
        FreshenedOn(m, slots, next, Scan(m, slots, id, i, empty).slots);
      }
    } else {
      FreshenedSelf(m, slots);
    }
  }

  lemma FreshenedOk(m: Wm, slots: seq<Slot>, r: seq<Slot>)
    requires SlotsOk(slots) && Freshened(m, slots, r)
    ensures SlotsOk(r) && forall k, id :: 0 <= k < |r| && Holds(r[k], id) ==> Holds(slots[k], id)
  {
  }

  /** The slot of a window is found if it has one; otherwise it gets one, unless all are busy. */
  lemma SlotFinds(m: Wm, slots: seq<Slot>, id: int, create: bool)
    requires Exists(m, id) && SlotsOk(slots)
    ensures var (r, at) := SlotOf(m, slots, id, create);
            && SlotsOk(r)
            && (forall k :: 0 <= k < |slots| && Holds(slots[k], id) ==> at == Some(k) && r[k] == slots[k])
            && ((forall k :: 0 <= k < |slots| ==> !Holds(slots[k], id)) ==>
                  && (!create ==> at.None? && forall k :: 0 <= k < |r| ==> !Holds(r[k], id))
                  && (create ==> (at.None? <==> forall k :: 0 <= k < |slots| ==> Busy(m, slots[k])))
                  && (at.Some? ==> !r[at.value].maximized))
  {
    hide Exists, Scan;
    ScanFinds(m, slots, id, 0, None);
    var look := Scan(m, slots, id, 0, None);
    FreshenedOk(m, slots, look.slots);
  }

  // ----- The round trip -----

  /** The window is not maximized yet. */
  predicate NotYet(slots: seq<Slot>, id: int) {
    forall k :: 0 <= k < |slots| && Holds(slots[k], id) ==> !slots[k].maximized
  }

  /** What maximizing does, when there is a slot to remember the window in and when there is none. */
  lemma MaximizeOutcome(m: Wm, slots: seq<Slot>, id: int)
    requires CanMove(m, id) && Sized(RectOf(m, id)) && SlotsOk(slots) && NotYet(slots, id)
    ensures var (r, taken, ok) := MaximizeWindow(m, slots, id);
            && (ok <==> exists k :: 0 <= k < |slots| && (Holds(slots[k], id) || !Busy(m, slots[k])))
            && (ok ==> r == Apply(m, id).0 && SlotsOk(taken) && CanMove(r, id)
                       && exists k :: 0 <= k < |taken| && taken[k] == Taken(id, true, RectOf(m, id)))
            && (!ok ==> r == PutBack(Apply(m, id).0, id, RectOf(m, id)))
  {
    hide Exists, Scan, SlotOf, Apply, PutBack, CanMove, RectOf, Ready;
    CanMoveExists(m, id);
    ApplyPutBack(m, id);
    var full := Apply(m, id).0;
    SameWindows(m, id);
    CanMoveExists(full, id);
    SlotFinds(m, slots, id, false);
    var (looked, at) := SlotOf(m, slots, id, false);
    SlotFinds(full, looked, id, true);
    LookedBusy(m, slots, id);
    var (taken, slot) := SlotOf(full, looked, id, true);
    if slot.Some? {
      assert MaximizeWindow(m, slots, id).1[slot.value] == Taken(id, true, RectOf(m, id));
    }
  }

  lemma SameWindows(m: Wm, id: int)
    requires CanMove(m, id)
    ensures forall k :: Exists(Apply(m, id).0, k) == Exists(m, k)
  {
    hide Apply, FullRect, With;
    ApplyIs(m, id);
    WithIs(m, id, FullRect(RectOf(m, id), m.screen));
  }

  /** Looking through the table leaves as many slots to be had as before. */
  lemma LookedBusy(m: Wm, slots: seq<Slot>, id: int)
    requires Exists(m, id) && SlotsOk(slots)
    ensures var looked := SlotOf(m, slots, id, false).0;
            && |looked| == |slots|
            && (forall k :: 0 <= k < |slots| ==>
                  (Busy(m, looked[k]) <==> Busy(m, slots[k])) && (Holds(looked[k], id) <==> Holds(slots[k], id)))
  {
    hide Scan;
    ScanFinds(m, slots, id, 0, None);
  }

  /**
    Maximizing and then unmaximizing an active, visible, movable window, inside the screen or not,
    gives back the very same window manager exactly when the window is restorable.
   */
  lemma RoundTrip(m: Wm, slots: seq<Slot>, id: int)
    requires CanMove(m, id) && Sized(RectOf(m, id)) && SlotsOk(slots) && NotYet(slots, id)
    requires MaximizeWindow(m, slots, id).2
    ensures var (full, taken, _) := MaximizeWindow(m, slots, id);
            var (back, left, ok) := Unmaximize(full, taken, id);
            && IsMaximized(full, taken, id).1 && ok && !IsMaximized(back, left, id).1
            && (back == m <==> Restorable(RectOf(m, id), m.screen))
  {
    hide Exists, SlotOf, Apply, PutBack, CanMove, RectOf, MaximizeWindow, Ready;
    MaximizeOutcome(m, slots, id);
    ApplyPutBack(m, id);
    var (full, taken, _) := MaximizeWindow(m, slots, id);
    CanMoveExists(full, id);
    SlotFinds(full, taken, id, false);
    var (looked, at) := SlotOf(full, taken, id, false);
    var back := PutBack(full, id, RectOf(m, id));
    PutBackExists(full, id, RectOf(m, id));
    var left := looked[at.value := looked[at.value].(maximized := false)];
    SlotFinds(back, left, id, false);
    assert Holds(left[at.value], id);
  }

  lemma PutBackExists(m: Wm, id: int, to: Rect)
    requires CanMove(m, id)
    ensures Exists(PutBack(m, id, to), id)
  {
    hide PutBack, BackRect, With;
    PutBackIs(m, id, to);
    WithIs(m, id, BackRect(RectOf(m, id), to, m.screen));
  }

  /** With every slot busy, maximizing fails and changes nothing exactly for a restorable window. */
  lemma Rollback(m: Wm, slots: seq<Slot>, id: int)
    requires CanMove(m, id) && Sized(RectOf(m, id)) && SlotsOk(slots)
    requires forall k :: 0 <= k < |slots| ==> Busy(m, slots[k]) && !Holds(slots[k], id)
    ensures !MaximizeWindow(m, slots, id).2
    ensures MaximizeWindow(m, slots, id).0 == m <==> Restorable(RectOf(m, id), m.screen)
  {
    hide Exists, SlotOf, Apply, PutBack, CanMove, RectOf, MaximizeWindow;
    MaximizeOutcome(m, slots, id);
    ApplyPutBack(m, id);
  }

  // ----- Two windows that do not come back -----

  const TERMINAL := Screen(24, 80)
  const PLAIN := Kind(false, false)

  /** A window is opened eleven columns wide; or twenty rows high, and then grown by a row onto the bottom row. */
  const NARROW := [Call(NONE, OpCreate(Rect(0, 0, 10, 11), PLAIN))]
  const LOW := [Call(NONE, OpCreate(Rect(3, 0, 20, 40), PLAIN)), Call(NONE, OpResize(1, 0))]

  /** A new window manager with one window, the active one. */
  function Single(at: Rect): Wm {
    Initial(TERMINAL).(wins := [Win(1, PLAIN, at, true, false, false)], nextId := 2, active := 1)
  }

  lemma OpensSingle(spec: Rect)
    requires 0 <= spec.y && 0 <= spec.x && 4 <= spec.h && spec.y + spec.h <= 23 && 8 <= spec.w && spec.x + spec.w <= 80
    ensures Create(Initial(TERMINAL), spec, PLAIN).0 == Single(spec)
  {
    assert Place(spec, 0, TERMINAL) == spec;
    assert Create(Initial(TERMINAL), spec, PLAIN).0.wins == [Win(1, PLAIN, spec, true, false, false)];
  }

  lemma SingleCanMove(at: Rect)
    ensures CanMove(Single(at), 1) && RectOf(Single(at), 1) == at
  {
  }

  lemma BackRects()
    ensures BackRect(FullRect(Rect(0, 0, 10, 11), TERMINAL), Rect(0, 0, 10, 11), TERMINAL) == Rect(0, 0, 10, 12)
    ensures BackRect(FullRect(Rect(3, 0, 21, 40), TERMINAL), Rect(3, 0, 21, 40), TERMINAL) == Rect(2, 0, 21, 40)
  {
    hide FullRect;
    FullRectFills(Rect(0, 0, 10, 11), TERMINAL);
    FullRectFills(Rect(3, 0, 21, 40), TERMINAL);
  }

  lemma Reached()
    ensures Run(Initial(TERMINAL), NARROW) == Single(Rect(0, 0, 10, 11))
    ensures Run(Initial(TERMINAL), LOW) == Single(Rect(3, 0, 21, 40))
  {
    hide Create;
    OpensSingle(Rect(0, 0, 10, 11));
    OpensSingle(Rect(3, 0, 20, 40));
    assert NARROW[..0] == [] && LOW[..1][..0] == [] && LOW[..1] == [LOW[0]];
    assert ResizeActive(Single(Rect(3, 0, 20, 40)), 1, 0).0.wins == Single(Rect(3, 0, 21, 40)).wins;
  }

  /**
    Two runs from a new window manager whose window does not come back from maximizing: one eleven
    columns wide comes back twelve wide, one on the bottom row comes back a row higher.
   */
  lemma NarrowIsNotRestored(slots: seq<Slot>, narrow: bool)
    requires |slots| > 0 && forall k :: 0 <= k < |slots| ==> slots[k].Free?
    ensures var m := Run(Initial(TERMINAL), if narrow then NARROW else LOW);
            var (full, taken, done) := MaximizeWindow(m, slots, 1);
            var (back, _, undone) := Unmaximize(full, taken, 1);
            && done && undone && back != m
            && RectOf(m, 1) == (if narrow then Rect(0, 0, 10, 11) else Rect(3, 0, 21, 40))
            && RectOf(back, 1) == (if narrow then Rect(0, 0, 10, 12) else Rect(2, 0, 21, 40))
  {
    hide MaximizeWindow, Unmaximize, Run, CanMove, RectOf, PutBack, Apply, FullRect, BackRect, With, Restorable;
    var r := if narrow then Rect(0, 0, 10, 11) else Rect(3, 0, 21, 40);
    var m := Single(r);
    Reached();
    BackRects();
    SingleCanMove(r);
    assert !Holds(slots[0], 1) && !Busy(m, slots[0]);
    MaximizeOutcome(m, slots, 1);
    RoundTrip(m, slots, 1);
    UnmaximizePutsBack(m, slots, 1);
    CanMoveExists(m, 1);
    ApplyIs(m, 1);
    var full := FullRect(r, TERMINAL);
    WithIs(m, 1, full);
    SameScreen(m, 1, full);
    PutBackIs(With(m, 1, full), 1, r);
    WithIs(With(m, 1, full), 1, BackRect(full, r, TERMINAL));
  }

  /** Right after maximizing, unmaximizing puts the former rectangle back into place. */
  lemma UnmaximizePutsBack(m: Wm, slots: seq<Slot>, id: int)
    requires CanMove(m, id) && Sized(RectOf(m, id)) && SlotsOk(slots) && NotYet(slots, id)
    requires MaximizeWindow(m, slots, id).2
    ensures var (full, taken, _) := MaximizeWindow(m, slots, id);
            && full == Apply(m, id).0
            && Unmaximize(full, taken, id).0 == PutBack(full, id, RectOf(m, id))
  {
    hide Exists, SlotOf, Apply, PutBack, CanMove, RectOf, MaximizeWindow, Ready;
    MaximizeOutcome(m, slots, id);
    var (full, taken, _) := MaximizeWindow(m, slots, id);
    CanMoveExists(full, id);
    SlotFinds(full, taken, id, false);
  }

  lemma OpsKeepSound(m: Wm, id: int)
    requires Sound(m)
    ensures Sound(Apply(m, id).0) && forall to :: Sound(PutBack(m, id, to))
  {
    hide Sound, MoveActive, ResizeActive;
    var r := RectOf(m, id);
    OpSound(m, id, OpMove(-r.y, -r.x));
    var moved := MoveActive(m, -r.y, -r.x).0;
    OpSound(moved, id, OpResize(GROW, GROW));
    OpSound(ResizeActive(moved, GROW, GROW).0, id, OpResize(-1, 0));
    forall to
      ensures Sound(PutBack(m, id, to))
    {
      OpSound(m, id, OpResize(to.h - r.h, to.w - r.w));
      var sized := ResizeActive(m, to.h - r.h, to.w - r.w).0;
      OpSound(sized, id, OpMove(to.y - RectOf(sized, id).y, to.x - RectOf(sized, id).x));
    }
  }

  /** Maximizing and unmaximizing keep the window manager's invariant, and one slot a window. */
  lemma ToggleSound(m: Wm, slots: seq<Slot>, id: int)
    requires Sound(m) && SlotsOk(slots)
    ensures Sound(Toggle(m, slots, id).0) && SlotsOk(Toggle(m, slots, id).1)
  {
    hide Sound, Exists, Apply, PutBack, RectOf, SlotOf;
    var (looked, maximized) := IsMaximized(m, slots, id);
    LookedOk(m, slots, id, false);
    LookedOk(m, looked, id, false);
    OpsKeepSound(m, id);
    var full := Apply(m, id).0;
    OpsKeepSound(full, id);
    LookedOk(full, SlotOf(m, looked, id, false).0, id, true);
  }

  lemma LookedOk(m: Wm, slots: seq<Slot>, id: int, create: bool)
    requires SlotsOk(slots)
    ensures SlotsOk(SlotOf(m, slots, id, create).0)
  {
    hide Exists;
    if Exists(m, id) {
      SlotFinds(m, slots, id, create);
    }
  }

  // ----- Toggling and refreshing -----

  /** A second look finds the same slot, with the same in it. */
  lemma LooksAgree(m: Wm, slots: seq<Slot>, id: int, k: nat)
    requires Exists(m, id) && SlotsOk(slots) && k < |slots| && Holds(slots[k], id)
    ensures var (looked, at) := SlotOf(m, slots, id, false);
            && at == Some(k) && looked[k] == slots[k] && SlotsOk(looked)
            && SlotOf(m, looked, id, false).1 == Some(k) && SlotOf(m, looked, id, false).0[k] == slots[k]
  {
    hide Exists, SlotOf;
    SlotFinds(m, slots, id, false);
    SlotFinds(m, SlotOf(m, slots, id, false).0, id, false);
  }

  lemma LookedNotYet(m: Wm, slots: seq<Slot>, id: int)
    requires Exists(m, id) && SlotsOk(slots) && NotYet(slots, id)
    ensures var (looked, maximized) := IsMaximized(m, slots, id);
            && SlotsOk(looked) && NotYet(looked, id) && !maximized
  {
    hide Scan, Exists;
    ScanFinds(m, slots, id, 0, None);
    FreshenedOk(m, slots, Scan(m, slots, id, 0, None).slots);
  }

  /** Toggling twice maximizes a window and then gives it back as it was, exactly if it is restorable. */
  lemma ToggleTwice(m: Wm, slots: seq<Slot>, id: int)
    requires CanMove(m, id) && Sized(RectOf(m, id)) && SlotsOk(slots) && NotYet(slots, id)
    requires exists k :: 0 <= k < |slots| && (Holds(slots[k], id) || !Busy(m, slots[k]))
    ensures var (full, taken, done) := Toggle(m, slots, id);
            var (back, _, undone) := Toggle(full, taken, id);
            && done && undone
            && Exists(m, id) && full == With(m, id, FullRect(RectOf(m, id), m.screen))
            && (back == m <==> Restorable(RectOf(m, id), m.screen))
  {
    hide Exists, Scan, SlotOf, Apply, PutBack, CanMove, RectOf, Ready, FullRect, With, Restorable, Busy;
    CanMoveExists(m, id);
    LookedNotYet(m, slots, id);
    LookedBusy(m, slots, id);
    var looked := IsMaximized(m, slots, id).0;
    MaximizeOutcome(m, looked, id);
    ApplyIs(m, id);
    ApplyPutBack(m, id);
    var (full, taken, done) := MaximizeWindow(m, looked, id);
    CanMoveExists(full, id);
    var k :| 0 <= k < |taken| && taken[k] == Taken(id, true, RectOf(m, id));
    LooksAgree(full, taken, id, k);
  }

  /** A maximized window is made to fill the screen as it is now; any other window is left alone. */
  lemma RefreshMeans(m: Wm, slots: seq<Slot>, id: int, k: nat)
    requires CanMove(m, id) && SlotsOk(slots) && k < |slots| && Holds(slots[k], id)
    ensures Exists(m, id)
    ensures var (r, _, ok) := Refresh(m, slots, id);
            if slots[k].maximized then
              && r == With(m, id, FullRect(RectOf(m, id), m.screen))
              && ok == Full(FullRect(RectOf(m, id), m.screen))
            else r == m && !ok
  {
    hide Exists, SlotOf, Apply, CanMove, RectOf, FullRect, With;
    CanMoveExists(m, id);
    LooksAgree(m, slots, id, k);
    ApplyIs(m, id);
  }
}
