/**
  What the operations of the window manager do to the windows: which one, where to, and that all
  others stay as they are.
 */
module WindowActs {
  import opened Basics
  import opened Windows
  import opened WindowLaws

  // ----- Places and sizes -----

  /** A rectangle moved into the screen goes no further than it must: above the bottom row, from the left edge. */
  lemma ClampMeans(r: Rect, s: Screen)
    ensures Clamp(r, s) ==
            r.(y := Min(Max(r.y, 0), Max(s.rows - 1 - r.h, 0)), x := Min(Max(r.x, 0), Max(s.cols - r.w, 0)))
  {
  }

  /** The active window moves by so much, then into the screen; a fixed or hidden one does not. */
  lemma MoveMeans(m: Wm, i: nat, dy: int, dx: int)
    requires Sound(m) && i < |m.wins| && m.wins[i].id == m.active
    ensures var w := m.wins[i];
            MoveActive(m, dy, dx) ==
            if w.minimized || w.closing || w.kind.fixed then (m, false)
            else
              (m.(wins := m.wins[i := w.(at := Clamp(w.at.(y := w.at.y + dy, x := w.at.x + dx), m.screen))]), true)
  {
    hide Sound, Clamp;
    PlaceOf(m, i);
  }

  /** The active window grows by so much, down to 4 by 12 and up to the edges, unless that leaves it as it is. */
  lemma ResizeMeans(m: Wm, i: nat, dh: int, dw: int)
    requires Sound(m) && i < |m.wins| && m.wins[i].id == m.active && m.screen.rows > 0 && m.screen.cols > 0
    ensures var w, s := m.wins[i], m.screen;
            var h, v := Min(Max(w.at.h + dh, 4), s.rows - w.at.y), Min(Max(w.at.w + dw, 12), s.cols - w.at.x);
            ResizeActive(m, dh, dw) ==
            if w.minimized || w.closing || w.kind.fixed || h < 4 || v < 12 || (h == w.at.h && v == w.at.w) then
              (m, false)
            else (m.(wins := m.wins[i := w.(at := w.at.(h := h, w := v))]), true)
  {
    hide Sound;
    PlaceOf(m, i);
  }

  /** Opened on top with the focus, as large as asked for within the screen, cascading where no place is asked for. */
  lemma CreateMeans(m: Wm, spec: Rect, kind: Kind)
    requires Sound(m)
    ensures var (r, id) := Create(m, spec, kind);
            var s, n := m.screen, |m.wins|;
            && r.nextId == m.nextId + 1
            && (if s.rows < 4 || s.cols < 8 then id == NONE && r.wins == m.wins && r.active == m.active
                else
                  var h, w := Min(Max(spec.h, 4), Max(s.rows - 1, 4)), Min(Max(spec.w, 8), s.cols);
                  var y := if spec.y < 0 || spec.x < 0 then 1 + n % 5 else spec.y;
                  var x := if spec.y < 0 || spec.x < 0 then 2 + n % 5 * 3 else spec.x;
                  && id == m.nextId == r.active && |r.wins| == n + 1
                  && r.wins[n] == Win(id, kind, Clamp(Rect(y, x, h, w), s), true, false, false)
                  && forall k :: 0 <= k < n ==> r.wins[k] == m.wins[k].(isActive := false))
  {
    hide Clamp;
    if m.screen.rows >= 4 && m.screen.cols >= 8 {
      forall k | 0 <= k < |m.wins|
        ensures m.wins[k].id != m.nextId
      {
        assert WinOk(m.wins[k], m.nextId);
      }
    }
  }

  // ----- Who has the focus -----

  /** The same window but for the flag that says whether it has the focus. */
  predicate SameButFlag(a: Option<Win>, b: Option<Win>) {
    a.Some? == b.Some? && (a.Some? ==> b.value == a.value.(isActive := b.value.isActive))
  }

  /** The topmost visible window of a list, if there is one. */
  ghost predicate Topmost(wins: seq<Win>, id: int) {
    if exists i :: 0 <= i < |wins| && Visible(wins[i]) then
      exists i :: 0 <= i < |wins| && Visible(wins[i]) && wins[i].id == id
        && forall j :: i < j < |wins| ==> !Visible(wins[j])
    else id == NONE
  }

  lemma {:induction false} NoneVisible(wins: seq<Win>)
    requires forall i :: 0 <= i < |wins| ==> !Visible(wins[i])
    ensures TopVisible(wins) == NONE
  {
    if wins != [] {
      NoneVisible(wins[..|wins| - 1]);
    }
  }

  lemma TopmostIs(wins: seq<Win>)
    ensures Topmost(wins, TopVisible(wins))
  {
    hide TopVisible;
    TopVisibleIs(wins);
    if forall i :: 0 <= i < |wins| ==> !Visible(wins[i]) {
      NoneVisible(wins);
    }
  }

  /** Focusing shows a window and makes it the active one; the others stay, and so does the order. */
  lemma FocusMeans(m: Wm, i: nat)
    requires Sound(m) && i < |m.wins| && !m.wins[i].closing
    ensures var id := m.wins[i].id;
            var r := Focus(m, id);
            && r.active == id && |r.wins| == |m.wins| && r.drag == m.drag && r.screen == m.screen
            && r.wins[i] == m.wins[i].(minimized := false, isActive := true)
            && forall k :: 0 <= k < |m.wins| && k != i ==> r.wins[k] == m.wins[k].(isActive := false)
  {
    PlaceOf(m, i);
    assert forall k :: 0 <= k < |m.wins| && k != i ==> m.wins[k].id != m.wins[i].id;
  }

  /** Restoring shows a window and leaves the focus and all else as they are. */
  lemma RestoreMeans(m: Wm, i: nat)
    requires Sound(m) && NoneClosing(m) && i < |m.wins|
    ensures var (r, ok) := Restore(m, m.wins[i].id);
            && ok == m.wins[i].minimized
            && r.active == m.active && r.drag == m.drag && |r.wins| == |m.wins|
            && r.wins[i] == m.wins[i].(minimized := false)
            && forall k :: 0 <= k < |m.wins| && k != i ==> r.wins[k] == m.wins[k]
  {
    PlaceOf(m, i);
    forall k | 0 <= k < |m.wins|
      ensures m.wins[k] == Flagged(m.wins[k], m.active)
    {
      assert FlagOk(m.wins[k], m.active);
    }
    assert m.wins[i].minimized ==> m.wins[i].id != m.active by {
      SoundMeans(m);
    }
  }

  /** Minimizing hides a window neither fixed nor modal; the focus it had goes to the topmost visible one left. */
  lemma MinimizeMeans(m: Wm, i: nat)
    requires Sound(m) && NoneClosing(m) && i < |m.wins|
    ensures var w := m.wins[i];
            var (r, ok) := Minimize(m, w.id);
            && ok == (!w.minimized && !w.kind.fixed && !w.kind.modal)
            && (!ok ==> r == m)
            && (ok ==>
                  && |r.wins| == |m.wins| && r.wins[i] == w.(minimized := true, isActive := false)
                  && (forall k :: 0 <= k < |m.wins| && k != i ==> SameButFlag(Some(m.wins[k]), Some(r.wins[k])))
                  && (if Shown(m.wins, m.active) && m.active != w.id then r.active == m.active
                      else Topmost(r.wins, r.active)))
  {
    hide Topmost, TopVisible, SelectTop, Sound, Find, Shown;
    var w := m.wins[i];
    PlaceOf(m, i);
    var (r, ok) := Minimize(m, w.id);
    if ok {
      var hidden := m.wins[i := w.(minimized := true, isActive := false)];
      var f := m.(wins := hidden, drag := LetGo(m.drag, w.id), active := if w.id == m.active then NONE else m.active);
      assert r == SelectTop(f);
      SelectTopMeans(f);
      HiddenShown(m, i);
    }
  }

  /** Finding the focus a window: it stays on a visible one, or goes to the topmost visible one. */
  lemma SelectTopMeans(m: Wm)
    ensures var r := SelectTop(m);
            && |r.wins| == |m.wins| && (forall k :: 0 <= k < |m.wins| ==> r.wins[k] == Flagged(m.wins[k], r.active))
            && (if Shown(m.wins, m.active) then r.active == m.active else Topmost(r.wins, r.active))
  {
    hide Topmost, TopVisible, Find;
    TopmostIs(m.wins);
    var r := SelectTop(m);
    assert forall k :: 0 <= k < |m.wins| ==> r.wins[k] == Flagged(m.wins[k], r.active);
    TopmostSame(m.wins, r.wins, r.active);
  }

  lemma HiddenShown(m: Wm, i: nat)
    requires Sound(m) && i < |m.wins|
    ensures var hidden := m.wins[i := m.wins[i].(minimized := true, isActive := false)];
            && !Shown(hidden, NONE)
            && (m.active != m.wins[i].id ==> (Shown(hidden, m.active) <==> Shown(m.wins, m.active)))
  {
    var hidden := m.wins[i := m.wins[i].(minimized := true, isActive := false)];
    FindMapped(m.wins, hidden, m.active);
    forall k | 0 <= k < |hidden|
      ensures hidden[k].id != NONE
    {
      assert WinOk(m.wins[k], m.nextId);
    }
  }

  lemma TopmostSame(a: seq<Win>, b: seq<Win>, id: int)
    requires |a| == |b| && forall k :: 0 <= k < |a| ==> Visible(b[k]) == Visible(a[k]) && b[k].id == a[k].id
    ensures Topmost(a, id) <==> Topmost(b, id)
  {
    if exists i :: 0 <= i < |a| && Visible(a[i]) {
      var i :| 0 <= i < |a| && Visible(a[i]);
      assert Visible(b[i]);
    }
  }

  // ----- Closing -----

  lemma {:induction false} SweepOne(m: Wm, from: nat, at: nat)
    requires from <= at < |m.wins| && m.wins[at].closing
    requires forall k :: 0 <= k < |m.wins| && k != at ==> !m.wins[k].closing
    ensures Sweep(m, from) == Remove(m, at)
    decreases at - from
  {
    if from < at {
      SweepOne(m, from + 1, at);
    } else {
      var r := Remove(m, at);
      assert forall k :: at <= k < |r.wins| ==> r.wins[k] == m.wins[k + 1];
      SweepNone(r, at);
    }
  }

  lemma {:induction false} SweepNone(m: Wm, from: nat)
    requires forall k :: from <= k < |m.wins| ==> !m.wins[k].closing
    ensures Sweep(m, from) == m
    decreases |m.wins| - from
  {
    if from < |m.wins| {
      SweepNone(m, from + 1);
    }
  }

  /** The windows short of the one at a place. */
  function Without(wins: seq<Win>, i: nat): seq<Win>
    requires i < |wins|
  {
    wins[..i] + wins[i + 1..]
  }

  predicate SameButFlags(a: seq<Win>, b: seq<Win>) {
    |a| == |b| && forall k :: 0 <= k < |a| ==> b[k] == a[k].(isActive := b[k].isActive)
  }

  /**
    Closing takes just that window out, the others staying in their order; the focus stays where it is
    or, if it was on that window, goes to the topmost visible one left; a drag of it ends.
   */
  lemma CloseMeans(m: Wm, i: nat)
    requires Sound(m) && NoneClosing(m) && i < |m.wins|
    ensures var id := m.wins[i].id;
            var r := Close(m, id);
            && SameButFlags(Without(m.wins, i), r.wins) && r.screen == m.screen
            && (m.active != id && m.active != NONE ==> r.active == m.active)
            && (m.active == id ==> Topmost(r.wins, r.active))
            && r.drag == if m.drag.window == id then m.drag.(dragging := false, window := NONE) else m.drag
  {
    hide Topmost, TopVisible, Sound;
    PlaceOf(m, i);
    var id := m.wins[i].id;
    var marked := m.(wins := m.wins[i := m.wins[i].(closing := true)]);
    SweepOne(marked, 0, i);
    var swept := Remove(marked, i);
    assert swept.wins == Without(m.wins, i);
    SelectMeans(m, i, swept);
  }

  lemma SelectMeans(m: Wm, i: nat, swept: Wm)
    requires Sound(m) && NoneClosing(m) && i < |m.wins| && swept.wins == Without(m.wins, i)
    requires swept.active == if m.active == m.wins[i].id then NONE else m.active
    ensures var r := SelectTop(swept);
            && SameButFlags(swept.wins, r.wins) && r.drag == swept.drag && r.screen == swept.screen
            && (swept.active != NONE ==> r.active == swept.active)
            && (swept.active == NONE ==> Topmost(r.wins, r.active))
  {
    hide Topmost, TopVisible;
    var r := SelectTop(swept);
    assert Distinct(m.wins) by { SoundIsDistinct(m); }
    assert forall k :: 0 <= k < |r.wins| ==> r.wins[k] == Flagged(swept.wins[k], r.active);
    if swept.active != NONE {
      SoundMeans(m);
      RemoveGet(m.wins, i, m.active);
    } else {
      assert !Shown(swept.wins, NONE) by { NoWindowIsNone(m, i); }
      TopmostIs(swept.wins);
      TopmostSame(swept.wins, r.wins, r.active);
    }
  }

  lemma SoundIsDistinct(m: Wm)
    requires Sound(m)
    ensures Distinct(m.wins)
  {
  }

  lemma NoWindowIsNone(m: Wm, i: nat)
    requires Sound(m) && i < |m.wins|
    ensures !Shown(Without(m.wins, i), NONE)
  {
    var wins := Without(m.wins, i);
    forall k | 0 <= k < |wins|
      ensures wins[k].id != NONE
    {
      assert wins[k] == m.wins[if k < i then k else k + 1];
      assert WinOk(wins[k], m.nextId);
    }
  }

  /** A window that asks for it while it handles a key is closed: it is the topmost modal one, or the active one. */
  lemma KeyCloses(m: Wm, i: nat)
    requires Sound(m) && NoneClosing(m) && i < |m.wins| && !m.wins[i].minimized
    requires if m.wins[i].kind.modal then forall k :: i < k < |m.wins| ==> !(Visible(m.wins[k]) && m.wins[k].kind.modal)
             else
               && m.active == m.wins[i].id
               && forall k :: 0 <= k < |m.wins| ==> !(Visible(m.wins[k]) && m.wins[k].kind.modal)
    ensures Handle(m, KeyEvent([OpLeave])) == Close(m, m.wins[i].id)
  {
    hide Cleanup, Sound;
    PlaceOf(m, i);
    if m.wins[i].kind.modal {
      TopModalIs(m.wins, i);
    }
    NoModalIff(m.wins);
    var ops := [OpLeave];
    assert ops[..0] == [];
    assert PerformAll(m, m.wins[i].id, ops) == Perform(m, m.wins[i].id, OpLeave);
  }

  lemma {:induction false} TopModalIs(wins: seq<Win>, i: nat)
    requires i < |wins| && Visible(wins[i]) && wins[i].kind.modal
    requires forall k :: i < k < |wins| ==> !(Visible(wins[k]) && wins[k].kind.modal)
    ensures TopModal(wins) == Some(i)
  {
    if i < |wins| - 1 {
      TopModalIs(wins[..|wins| - 1], i);
    }
  }

  // ----- Going round the windows -----

  /** The window so many places on, round the end of the list. */
  function Round(wins: seq<Win>, from: nat, steps: nat): Win
    requires wins != []
  {
    wins[(from + steps) % |wins|]
  }

  lemma {:induction false} NextFocusableIs(wins: seq<Win>, from: nat, step: nat) returns (s: nat)
    requires wins != [] && 1 <= step
    ensures step <= s && forall t: nat :: step <= t < s && t <= |wins| ==> !Focusable(Round(wins, from, t))
    ensures s <= |wins| ==>
              NextFocusable(wins, from, step) == Some((from + s) % |wins|) && Focusable(Round(wins, from, s))
    ensures s > |wins| ==> NextFocusable(wins, from, step) == None
    decreases |wins| + 1 - step
  {
    s := step;
    if step <= |wins| && !Focusable(Round(wins, from, step)) {
      s := NextFocusableIs(wins, from, step + 1);
    }
  }

  /** The place the focus is at, or the top of the list. */
  function FocusPlace(m: Wm): nat
    requires m.wins != []
  {
    var i := Find(m.wins, m.active);
    if i == |m.wins| then |m.wins| - 1 else i
  }

  /** The window at place i is the first that can have the focus, s places on from where the focus is, round the end. */
  ghost predicate NextRound(m: Wm, i: nat, s: nat)
    requires m.wins != []
  {
    && 1 <= s <= |m.wins| && i == (FocusPlace(m) + s) % |m.wins| && Focusable(m.wins[i])
    && forall t: nat :: 1 <= t < s ==> !Focusable(Round(m.wins, FocusPlace(m), t))
  }

  /** Going round reaches every place. */
  lemma RoundReaches(from: nat, i: nat, n: nat) returns (t: nat)
    requires from < n && i < n
    ensures 1 <= t <= n && (from + t) % n == i
  {
    t := if i > from then i - from else i + n - from;
    if i <= from {
      assert from + t == i + n;
    }
  }

  lemma NextRoundUnique(m: Wm, i: nat, s: nat, i': nat, s': nat)
    requires m.wins != [] && NextRound(m, i, s) && NextRound(m, i', s')
    ensures i == i'
  {
    assert s < s' ==> !Focusable(Round(m.wins, FocusPlace(m), s));
    assert s' < s ==> !Focusable(Round(m.wins, FocusPlace(m), s'));
  }

  /**
    Going round, with two windows or more: while a modal window is open, or with no window to go to,
    nothing happens; otherwise the next window that is visible and not fixed has the focus and is raised.
   */
  lemma CycleMeans(m: Wm, i: nat, s: nat)
    requires Sound(m) && |m.wins| >= 2
    ensures var (r, ok) := CycleFocus(m);
            if TopModal(m.wins).Some? || forall k :: 0 <= k < |m.wins| ==> !Focusable(m.wins[k]) then
              (r, ok) == (m, false)
            else
              NextRound(m, i, s) ==>
                if m.wins[i].id == m.active then (r, ok) == (m, false)
                else
                  ok && r.active == m.wins[i].id && SameButFlags(Without(m.wins, i) + [m.wins[i]], r.wins)
  {
    hide Sound, NextFocusable, Find, BringToFront, UpdateFlags, SameButFlags;
    var t := NextFocusableIs(m.wins, FocusPlace(m), 1);
    if t <= |m.wins| {
      var k := (FocusPlace(m) + t) % |m.wins|;
      assert NextRound(m, k, t);
      if NextRound(m, i, s) {
        NextRoundUnique(m, i, s, k, t);
        PlaceOf(m, i);
        RaisedMeans(m, i);
      }
    } else {
      forall k | 0 <= k < |m.wins|
        ensures !Focusable(m.wins[k])
      {
        var u := RoundReaches(FocusPlace(m), k, |m.wins|);
        assert Round(m.wins, FocusPlace(m), u) == m.wins[k];
      }
    }
  }

  lemma RaisedMeans(m: Wm, i: nat)
    requires i < |m.wins| && Find(m.wins, m.wins[i].id) == i && Visible(m.wins[i])
    ensures var id := m.wins[i].id;
            var r := UpdateFlags(BringToFront(m.(active := id), id));
            r.active == id && SameButFlags(Without(m.wins, i) + [m.wins[i]], r.wins)
  {
  }

  /** If some window can have the focus there is a next one. */
  lemma NextRoundExists(m: Wm, k: nat) returns (i: nat, s: nat)
    requires k < |m.wins| && Focusable(m.wins[k])
    ensures NextRound(m, i, s)
  {
    hide Find, NextFocusable;
    s := NextFocusableIs(m.wins, FocusPlace(m), 1);
    var t := RoundReaches(FocusPlace(m), k, |m.wins|);
    assert Focusable(Round(m.wins, FocusPlace(m), t));
    i := (FocusPlace(m) + s) % |m.wins|;
  }

  // ----- The screen and the drag -----

  /** A new screen size moves every window into the screen and resizes none. */
  lemma ResizeEventMeans(m: Wm)
    requires Sound(m) && NoneClosing(m) && m.active != NONE
    ensures var r := Handle(m, ResizeEvent);
            && r.active == m.active && |r.wins| == |m.wins|
            && forall k :: 0 <= k < |m.wins| ==> r.wins[k] == m.wins[k].(at := Clamp(m.wins[k].at, m.screen))
  {
    hide Clamp, Cleanup;
    var c := ClampAll(m);
    SoundBase(m);
    forall k | 0 <= k < |m.wins|
      ensures FlagOk(c.wins[k], c.active) && ModalOk(c.wins[k], c.active)
    {
      assert FlagOk(m.wins[k], m.active) && ModalOk(m.wins[k], m.active);
    }
    ClampAllBase(m);
    FindMapped(m.wins, c.wins, m.active);
    CleanupIdle(c);
  }

  /**
    Where it is asked for, the third drag in a row that ends without motion switches dragging off; a
    drag with motion starts the count anew.
   */
  lemma ReleaseCounts(m: Wm, e: Mouse)
    requires Sound(m) && Unblocked(m.wins) && m.active != NONE && m.drag.dragging
    requires e.released && !e.clicked && !e.pressed
    ensures var d, r := m.drag, Handle(m, MouseEvent(e, [])).drag;
            && !r.dragging && r.window == NONE && !r.moved && r.autoDegrade == d.autoDegrade
            && r.idle == (if d.moved then 0 else if d.autoDegrade then d.idle + 1 else d.idle)
            && (r.enabled <==> d.moved || !d.autoDegrade || d.idle + 1 < 3)
            && (r.degraded <==> d.degraded || !(d.moved || !d.autoDegrade || d.idle + 1 < 3))
  {
    hide Sound, Cleanup, TopAt, Press, Grab, Pull, Drop;
    NoModalIff(m.wins);
    assert m.drag.enabled by { HeldEnabled(m); }
    Unpressed(m, e);
    PullUnblocked(m, e);
    MouseSound(m, e, []);
    CleanupIdle(HandleMouse(m, e, []));
    DropMeans(m.drag, e);
  }

  /** Switching dragging on starts its count anew, and off ends a drag; without the watch over it dragging is on. */
  lemma DragSettingsMean(m: Wm, self: int, on: bool)
    ensures var d, r := m.drag, Perform(m, self, OpDragEnabled(on));
            && r == m.(drag := r.drag) && r.drag.enabled == on && r.drag.autoDegrade == d.autoDegrade
            && (on ==> r.drag == d.(enabled := true, degraded := false, idle := 0))
            && (!on ==> r.drag == d.(enabled := false, dragging := false, window := NONE, moved := false))
    ensures Perform(m, self, OpAutoDegrade(on)) ==
            m.(drag := if on then m.drag.(autoDegrade := true)
                       else m.drag.(autoDegrade := false, enabled := true, degraded := false, idle := 0))
  {
  }

  /** Without a press nothing is focused or taken hold of, and a release does not count as motion. */
  lemma Unpressed(m: Wm, e: Mouse)
    requires e.released && !e.clicked && !e.pressed
    ensures forall id :: Press(m, id, e) == m
    ensures forall w :: Grab(m.drag, w, e) == m.drag
    ensures Pull(m, e).drag == m.drag
  {
    hide Clamp;
  }

  lemma DropMeans(d: Drag, e: Mouse)
    requires d.dragging && d.enabled && (e.released || e.clicked)
    ensures var r := Drop(d, e);
            && !r.dragging && r.window == NONE && !r.moved && r.autoDegrade == d.autoDegrade
            && r.idle == (if d.moved then 0 else if d.autoDegrade then d.idle + 1 else d.idle)
            && (r.enabled <==> d.moved || !d.autoDegrade || d.idle + 1 < 3)
            && (r.degraded <==> d.degraded || !(d.moved || !d.autoDegrade || d.idle + 1 < 3))
  {
  }

  lemma HeldEnabled(m: Wm)
    requires Sound(m)
    ensures m.drag.dragging ==> m.drag.enabled
  {
  }
}
