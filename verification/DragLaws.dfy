/**
  Where the mouse takes a window: dragging by the title row, over every run of motions, and the one
  kind of motion that does not move the window.
 */
module DragLaws {
  import opened Basics
  import opened Windows
  import opened WindowLaws

  /** Between events, with no modal window open. */
  ghost predicate Calm(m: Wm) {
    Sound(m) && Unblocked(m.wins)
  }

  /** The rectangle of a window. */
  function At(m: Wm, id: int): Option<Rect> {
    var g := Get(m.wins, id);
    if g.Some? then Some(g.value.at) else None
  }

  predicate Covers(w: Win, y: int, x: int) {
    && !w.minimized && !w.closing
    && w.at.y <= y < w.at.y + w.at.h && w.at.x <= x < w.at.x + w.at.w
  }

  /** The topmost window under the mouse. */
  predicate UnderMouse(m: Wm, e: Mouse, i: nat) {
    i < |m.wins| && Covers(m.wins[i], e.y, e.x) && forall j :: i < j < |m.wins| ==> !Covers(m.wins[j], e.y, e.x)
  }

  /** The button is down on the title row of a window that may be moved. */
  predicate TakesHold(m: Wm, e: Mouse, i: nat) {
    && UnderMouse(m, e, i) && !m.wins[i].kind.fixed && e.y == m.wins[i].at.y
    && e.pressed && !e.clicked && m.drag.enabled
  }

  lemma {:induction false} TopAtIs(wins: seq<Win>, y: int, x: int)
    ensures match TopAt(wins, y, x)
            case Some(i) => Covers(wins[i], y, x) && forall j :: i < j < |wins| ==> !Covers(wins[j], y, x)
            case None => forall j :: 0 <= j < |wins| ==> !Covers(wins[j], y, x)
  {
    if wins != [] {
      TopAtIs(wins[..|wins| - 1], y, x);
    }
  }

  lemma UnderMouseIs(m: Wm, e: Mouse)
    ensures forall i: nat :: UnderMouse(m, e, i) <==> TopAt(m.wins, e.y, e.x) == Some(i)
  {
    TopAtIs(m.wins, e.y, e.x);
  }

  // ----- One event, step by step -----

  /** Focusing and raising a window moves no window. */
  lemma PressAt(m: Wm, i: nat, e: Mouse)
    requires Sound(m) && i < |m.wins| && Visible(m.wins[i])
    ensures var p := Press(m, m.wins[i].id, e);
            p.drag == m.drag && p.screen == m.screen && forall id :: At(p, id) == At(m, id)
  {
    hide Sound, Find;
    var hit := m.wins[i];
    assert Distinct(m.wins) by { SoundDistinct(m); }
    PlaceOf(m, i);
    if e.pressed || e.clicked {
      assert m.wins[i := hit.(minimized := false)] == m.wins;
      var f := Focus(m, hit.id);
      FocusSound(m, hit.id);
      SoundDistinct(f);
      var j := Find(f.wins, hit.id);
      forall id
        ensures At(Press(m, hit.id, e), id) == At(m, id)
      {
        UpdateFlagsGet(m.(active := hit.id), id);
        if j < |f.wins| {
          FrontGet(f.wins, j, id);
        }
      }
    }
  }

  lemma SoundDistinct(m: Wm)
    requires Sound(m)
    ensures Distinct(m.wins)
  {
  }

  /** The window held follows the mouse; no other moves. */
  lemma PullAt(m: Wm, e: Mouse)
    requires Sound(m) && Unblocked(m.wins)
    ensures var r := Pull(m, e);
            && r.screen == m.screen && r.drag == m.drag.(moved := r.drag.moved)
            && forall id :: At(r, id) ==
                 if m.drag.dragging && e.moved && id == m.drag.window && At(m, id).Some? then
                   Some(Clamp(At(m, id).value.(y := e.y - m.drag.offY, x := e.x - m.drag.offX), m.screen))
                 else At(m, id)
  {
    hide Clamp, Sound;
    assert Distinct(m.wins) by { SoundDistinct(m); }
    HeldIsVisible(m);
    var i := Find(m.wins, m.drag.window);
    if m.drag.dragging && e.moved {
      var at := Clamp(m.wins[i].at.(y := e.y - m.drag.offY, x := e.x - m.drag.offX), m.screen);
      forall id
        ensures Get(SetRect(m, i, at).wins, id) ==
                if id == m.drag.window then Some(m.wins[i].(at := at)) else Get(m.wins, id)
      {
        SetGet(m.wins, i, m.wins[i].(at := at), id);
      }
    }
  }

  lemma HeldIsVisible(m: Wm)
    requires Sound(m) && Unblocked(m.wins)
    ensures m.drag.dragging ==>
              var i := Find(m.wins, m.drag.window);
              m.drag.enabled && i < |m.wins| && Visible(m.wins[i]) && m.drag.window != NONE
  {
    var i := Find(m.wins, m.drag.window);
    if m.drag.dragging {
      assert WinOk(m.wins[i], m.nextId);
    }
  }

  /** The drag in progress once the press of an event has been seen to. */
  ghost predicate Taken(m: Wm, e: Mouse, d: Drag) {
    if exists i: nat :: TakesHold(m, e, i) then
      exists i: nat :: TakesHold(m, e, i)
        && d == m.drag.(dragging := true, window := m.wins[i].id, moved := false,
                        offY := 0, offX := e.x - m.wins[i].at.x)
    else d == m.drag
  }

  lemma TakenIs(m: Wm, e: Mouse)
    ensures forall i: nat :: TakesHold(m, e, i) ==> TopAt(m.wins, e.y, e.x) == Some(i)
    ensures var hit := TopAt(m.wins, e.y, e.x);
            Taken(m, e, if hit.Some? then Grab(m.drag, m.wins[hit.value], e) else m.drag)
  {
    hide TopAt, Covers;
    UnderMouseIs(m, e);
    var hit := TopAt(m.wins, e.y, e.x);
    if hit.Some? && Grab(m.drag, m.wins[hit.value], e) != m.drag {
      assert TakesHold(m, e, hit.value);
    }
  }

  /** What a mouse event does to the rectangles, when the callbacks of windows leave them alone. */
  lemma MouseEventIs(m: Wm, e: Mouse) returns (d: Drag)
    requires Calm(m) && (m.active != NONE || exists i: nat :: TakesHold(m, e, i))
    ensures Taken(m, e, d)
    ensures var r := Handle(m, MouseEvent(e, []));
            && Calm(r) && r.active != NONE && r.screen == m.screen
            && (!e.released && !e.clicked ==> r.drag == d.(moved := r.drag.moved))
            && ((e.released || e.clicked) && m.drag.dragging ==> !r.drag.dragging)
            && (!m.drag.dragging && (forall i: nat :: !TakesHold(m, e, i)) ==> !r.drag.dragging)
            && forall id :: At(r, id) ==
                 if d.dragging && e.moved && id == d.window && At(m, id).Some? then
                   Some(Clamp(At(m, id).value.(y := e.y - d.offY, x := e.x - d.offX), m.screen))
                 else At(m, id)
  {
    hide Sound, Press, Pull, Cleanup, TopAt, Clamp, At, Find;
    NoModalIff(m.wins);
    TakenIs(m, e);
    var hit := TopAt(m.wins, e.y, e.x);
    d := m.drag;
    var g := m;
    if hit.Some? {
      var i := hit.value;
      GrabSound(m, i, e);
      PressAt(m, i, e);
      PlaceOf(m, i);
      var p := Press(m, m.wins[i].id, e);
      if e.pressed || e.clicked {
        PressUnblocked(m, i, e);
      } else {
        assert p == m by { NoPress(m, m.wins[i].id, e); }
      }
      d := Grab(p.drag, m.wins[i], e);
      g := p.(drag := d);
      SameAt(p, g);
    }
    PullAt(g, e);
    PullUnblocked(g, e);
    PullSound(g, e);
    var pulled := Pull(g, e);
    var r := HandleMouse(m, e, []);
    assert r == pulled.(drag := Drop(pulled.drag, e));
    SameAt(pulled, r);
    MouseSound(m, e, []);
    CleanupIdle(r);
  }

  lemma NoPress(m: Wm, id: int, e: Mouse)
    requires !e.pressed && !e.clicked
    ensures Press(m, id, e) == m
  {
  }

  lemma SameAt(a: Wm, b: Wm)
    requires a.wins == b.wins
    ensures forall id :: At(a, id) == At(b, id)
  {
  }

  // ----- A drag -----

  /** What was taken hold of: the window, its rectangle then, and the place of the mouse. */
  datatype Hold = Hold(id: int, at: Rect, y: int, x: int)

  /** The rectangle moved as far as the mouse went since. */
  function Shifted(h: Hold, e: Mouse): Rect {
    h.at.(y := h.at.y + (e.y - h.y), x := h.at.x + (e.x - h.x))
  }

  /** The drag in progress is of this window, taken hold of at this point of it. */
  ghost predicate Holds(m: Wm, h: Hold) {
    && Calm(m) && m.active != NONE
    && m.drag.dragging && m.drag.window == h.id && m.drag.offY == h.y - h.at.y && m.drag.offX == h.x - h.at.x
    && At(m, h.id).Some? && At(m, h.id).value.h == h.at.h && At(m, h.id).value.w == h.at.w
  }

  predicate Motion(e: Mouse) {
    e.moved && !e.released && !e.clicked
  }

  ghost predicate Retakes(m: Wm, e: Mouse) {
    exists i: nat :: TakesHold(m, e, i)
  }

  /** A press on its title row takes hold of the topmost window under the mouse, where it stands. */
  lemma PressTakesHold(m: Wm, e: Mouse, i: nat)
    requires Calm(m) && TakesHold(m, e, i) && !e.released
    ensures var h, r := Hold(m.wins[i].id, m.wins[i].at, e.y, e.x), Handle(m, MouseEvent(e, []));
            && Holds(r, h) && r.active == h.id && r.screen == m.screen
            && At(r, h.id) == Some(if e.moved then Clamp(h.at, m.screen) else h.at)
            && forall id :: id != h.id ==> At(r, id) == At(m, id)
  {
    hide Calm, Clamp, Handle;
    var d := MouseEventIs(m, e);
    assert Calm(Handle(m, MouseEvent(e, [])));
    var k: nat :| TakesHold(m, e, k) && d.window == m.wins[k].id && d.offX == e.x - m.wins[k].at.x
                  && d.offY == 0 && d.dragging;
    OneUnderMouse(m, e, i, k);
    assert At(m, m.wins[i].id) == Some(m.wins[i].at) by { PlaceAt(m, i); }
    PressFocuses(m, e, i);
    ClampKeepsSize(m.wins[i].at, m.screen);
  }

  lemma OneUnderMouse(m: Wm, e: Mouse, i: nat, k: nat)
    requires UnderMouse(m, e, i) && UnderMouse(m, e, k)
    ensures i == k
  {
  }

  lemma PlaceAt(m: Wm, i: nat)
    requires Calm(m) && i < |m.wins|
    ensures At(m, m.wins[i].id) == Some(m.wins[i].at)
  {
    PlaceOf(m, i);
  }

  lemma PressFocuses(m: Wm, e: Mouse, i: nat)
    requires Calm(m) && UnderMouse(m, e, i) && (e.pressed || e.clicked)
    ensures Handle(m, MouseEvent(e, [])).active == m.wins[i].id
  {
    hide Sound, Handle, TopAt;
    UnderMouseIs(m, e);
    NoModalIff(m.wins);
    PressTakesFocus(m, e);
  }

  lemma ClampKeepsSize(r: Rect, s: Screen)
    ensures Clamp(r, s).h == r.h && Clamp(r, s).w == r.w
  {
  }

  /**
    A motion while a window is held. Either the button is down on a title row: then that window is
    taken hold of anew, where it stands, and only moved into the screen. Or the window held goes
    where the mouse takes it.
   */
  lemma MotionMoves(m: Wm, h: Hold, e: Mouse)
    requires Holds(m, h) && Motion(e)
    ensures var r := Handle(m, MouseEvent(e, []));
            && r.screen == m.screen
            && (!Retakes(m, e) ==>
                  && Holds(r, h) && At(r, h.id) == Some(Clamp(Shifted(h, e), m.screen))
                  && forall id :: id != h.id ==> At(r, id) == At(m, id))
            && (forall i: nat :: TakesHold(m, e, i) ==>
                  && Holds(r, Hold(m.wins[i].id, m.wins[i].at, e.y, e.x))
                  && forall id :: At(r, id) ==
                       if id == m.wins[i].id then Some(Clamp(m.wins[i].at, m.screen)) else At(m, id))
  {
    hide Calm, Clamp, Handle, Covers;
    var r := Handle(m, MouseEvent(e, []));
    if !Retakes(m, e) {
      var d := MouseEventIs(m, e);
      var at := At(m, h.id).value;
      assert at.(y := e.y - d.offY, x := e.x - d.offX) == Shifted(h, e);
      ClampKeepsSize(Shifted(h, e), m.screen);
    }
    forall i: nat | TakesHold(m, e, i)
      ensures Holds(r, Hold(m.wins[i].id, m.wins[i].at, e.y, e.x))
      ensures forall id :: At(r, id) == if id == m.wins[i].id then Some(Clamp(m.wins[i].at, m.screen)) else At(m, id)
    {
      PressTakesHold(m, e, i);
    }
    if Retakes(m, e) {
      var i: nat :| TakesHold(m, e, i);
      PressTakesHold(m, e, i);
    }
  }

  /**
    Where the drag leaves the window inside the screen and takes it to a new place, the window goes
    there if and only if no title row takes hold of the mouse anew.
   */
  lemma FollowsIff(m: Wm, h: Hold, e: Mouse)
    requires Holds(m, h) && Motion(e)
    requires Clamp(Shifted(h, e), m.screen) == Shifted(h, e) != At(m, h.id).value
    requires Clamp(At(m, h.id).value, m.screen) == At(m, h.id).value
    ensures At(Handle(m, MouseEvent(e, [])), h.id) == Some(Shifted(h, e)) <==> !Retakes(m, e)
  {
    hide Calm, Clamp, Handle, Covers;
    MotionMoves(m, h, e);
    if i: nat :| TakesHold(m, e, i) {
      assert At(m, m.wins[i].id) == Some(m.wins[i].at) by { PlaceAt(m, i); }
    }
  }

  // ----- Whole drags -----

  /** The state after a run of mouse events. */
  function Follow(m: Wm, es: seq<Mouse>): Wm
    decreases |es|
  {
    if es == [] then m else Handle(Follow(m, es[..|es| - 1]), MouseEvent(es[|es| - 1], []))
  }

  /** Motions that take hold of nothing anew, as when they do not report the button. */
  ghost predicate PlainMotions(m: Wm, es: seq<Mouse>) {
    forall k :: 0 <= k < |es| ==> Motion(es[k]) && !Retakes(Follow(m, es[..k]), es[k])
  }

  /** Motions that do not report the button never take hold of anything. */
  lemma ButtonlessIsPlain(m: Wm, es: seq<Mouse>)
    requires forall e <- es :: Motion(e) && !e.pressed
    ensures PlainMotions(m, es)
  {
  }

  /** Over every run of motions a window held stands where the last of them takes it, and no other window moves. */
  lemma {:induction false} MotionsMove(m: Wm, h: Hold, es: seq<Mouse>)
    requires Holds(m, h) && PlainMotions(m, es)
    ensures var r := Follow(m, es);
            && Holds(r, h) && r.screen == m.screen
            && (es != [] ==> At(r, h.id) == Some(Clamp(Shifted(h, es[|es| - 1]), m.screen)))
            && forall id :: id != h.id ==> At(r, id) == At(m, id)
    decreases |es|
  {
    hide Holds, Clamp, Handle, Retakes, At;
    if es != [] {
      var n := |es| - 1;
      assert forall k :: 0 <= k < n ==> es[..n][k] == es[k] && es[..n][..k] == es[..k];
      MotionsMove(m, h, es[..n]);
      assert !Retakes(Follow(m, es[..n]), es[n]);
      MotionMoves(Follow(m, es[..n]), h, es[n]);
    }
  }

  /**
    A whole drag: after a press on the title row and any run of motions, the window stands where the
    press found it, shifted as far as the mouse went and moved into the screen. While that needs no
    moving, the point of it taken hold of is under the mouse. No other window moves.
   */
  lemma DragMoves(m: Wm, press: Mouse, i: nat, es: seq<Mouse>)
    requires Calm(m) && TakesHold(m, press, i) && !press.released
    requires es != [] && PlainMotions(Handle(m, MouseEvent(press, [])), es)
    ensures var h, last := Hold(m.wins[i].id, m.wins[i].at, press.y, press.x), es[|es| - 1];
            var r := Follow(Handle(m, MouseEvent(press, [])), es);
            && At(r, h.id) == Some(Clamp(Shifted(h, last), m.screen))
            && (Clamp(Shifted(h, last), m.screen) == Shifted(h, last) ==>
                  last.y - At(r, h.id).value.y == press.y - h.at.y && last.x - At(r, h.id).value.x == press.x - h.at.x)
            && forall id :: id != h.id ==> At(r, id) == At(m, id)
  {
    hide Holds, Calm, Clamp, Handle, PlainMotions, At, Follow;
    var h := Hold(m.wins[i].id, m.wins[i].at, press.y, press.x);
    PressTakesHold(m, press, i);
    MotionsMove(Handle(m, MouseEvent(press, [])), h, es);
  }

  /** Letting go, or a click, ends the drag; then motions change nothing at all. */
  lemma {:induction false} AfterRelease(m: Wm, e: Mouse, es: seq<Mouse>)
    requires Calm(m) && m.active != NONE && m.drag.dragging && (e.released || e.clicked)
    requires forall f <- es :: !f.pressed && !f.clicked
    ensures var r := Handle(m, MouseEvent(e, [])); !r.drag.dragging && Follow(r, es) == r
  {
    hide Calm, Handle;
    var d := MouseEventIs(m, e);
    Undisturbed(Handle(m, MouseEvent(e, [])), es);
  }

  lemma {:induction false} Undisturbed(m: Wm, es: seq<Mouse>)
    requires Calm(m) && m.active != NONE && !m.drag.dragging && forall f <- es :: !f.pressed && !f.clicked
    ensures Follow(m, es) == m
    decreases |es|
  {
    hide Calm, Handle;
    if es != [] {
      Undisturbed(m, es[..|es| - 1]);
      NothingHappens(m, es[|es| - 1]);
    }
  }

  lemma NothingHappens(m: Wm, e: Mouse)
    requires Calm(m) && m.active != NONE && !m.drag.dragging && !e.pressed && !e.clicked
    ensures Handle(m, MouseEvent(e, [])) == m
  {
    hide Sound, Cleanup, TopAt;
    NoModalIff(m.wins);
    CleanupIdle(m);
  }

  // ----- Motions that report the button -----

  /** A window at row 5, column 10, and the mouse on its title row. */
  const TITLED := Win(1, Kind(false, false), Rect(5, 10, 8, 30), true, false, false)
  const DESKTOP :=
    Wm([TITLED], 2, 1, Drag(true, false, NONE, 0, 0, false, 0, false, false), Screen(25, 80))
  const DOWN := Mouse(5, 20, true, false, false, false)

  lemma DesktopIsCalm()
    ensures Calm(DESKTOP) && TakesHold(DESKTOP, DOWN, 0)
  {
    assert WinOk(TITLED, 2);
  }

  /** The window is taken hold of ten columns in. */
  const HOLDING := DESKTOP.(drag := Drag(true, true, 1, 0, 10, false, 0, false, false))

  lemma PressHolds()
    ensures Handle(DESKTOP, MouseEvent(DOWN, [])) == HOLDING
  {
    hide Cleanup;
    DesktopIsCalm();
    UnderMouseIs(DESKTOP, DOWN);
    NoModalIff(DESKTOP.wins);
    assert Focus(DESKTOP, 1).wins == [TITLED];
    assert ToFront([TITLED], 0) == [TITLED];
    assert HandleMouse(DESKTOP, DOWN, []) == HOLDING;
    MouseSound(DESKTOP, DOWN, []);
    CleanupIdle(HOLDING);
  }

  lemma HoldingIsCalm()
    ensures Calm(HOLDING) && Holds(HOLDING, Hold(1, Rect(5, 10, 8, 30), 5, 20))
    ensures TakesHold(HOLDING, Mouse(5, 22, true, false, false, true), 0)
    ensures !Retakes(HOLDING, Mouse(5, 22, false, false, false, true))
  {
    assert WinOk(TITLED, 2);
  }

  /**
    Two columns along the title row: the window goes with a motion that does not report the button,
    and stays with one that does.
   */
  lemma HeldMotionStays(pressed: bool)
    ensures var h := Hold(1, Rect(5, 10, 8, 30), 5, 20);
            var held := Handle(DESKTOP, MouseEvent(DOWN, []));
            var r := Handle(held, MouseEvent(Mouse(5, 22, pressed, false, false, true), []));
            && Holds(held, h) && Holds(r, if pressed then Hold(1, Rect(5, 10, 8, 30), 5, 22) else h)
            && At(r, 1) == Some(if pressed then Rect(5, 10, 8, 30) else Rect(5, 12, 8, 30))
  {
    hide Handle, Calm, Holds;
    var e := Mouse(5, 22, pressed, false, false, true);
    PressHolds();
    HoldingIsCalm();
    MotionMoves(HOLDING, Hold(1, Rect(5, 10, 8, 30), 5, 20), e);
    assert HOLDING.wins[0] == TITLED;
  }
}
