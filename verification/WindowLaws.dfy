/**
  What every operation and event of the window manager keeps: one focus that names a visible
  window, flags that agree with it, a drag that holds something movable, and windows inside the
  screen.
 */
module WindowLaws {
  import opened Basics
  import opened Windows

  // ----- Windows by id -----

  predicate Distinct(wins: seq<Win>) {
    forall i, j :: 0 <= i < j < |wins| ==> wins[i].id != wins[j].id
  }

  function Get(wins: seq<Win>, id: int): Option<Win> {
    var i := Find(wins, id);
    if i < |wins| then Some(wins[i]) else None
  }

  lemma FindAt(wins: seq<Win>, i: nat)
    requires Distinct(wins) && i < |wins|
    ensures Find(wins, wins[i].id) == i
  {
  }

  /** Two lists that hold the same window under an id, whatever their order. */
  lemma GetBy(wins: seq<Win>, id: int, w: Option<Win>)
    requires Distinct(wins)
    requires match w case Some(win) => win in wins && win.id == id
             case None => forall i :: 0 <= i < |wins| ==> wins[i].id != id
    ensures Get(wins, id) == w
  {
    if w.Some? {
      var i :| 0 <= i < |wins| && wins[i] == w.value;
      FindAt(wins, i);
    }
  }

  lemma SetGet(wins: seq<Win>, i: nat, w: Win, id: int)
    requires Distinct(wins) && i < |wins| && w.id == wins[i].id
    ensures Distinct(wins[i := w])
    ensures Get(wins[i := w], id) == if id == w.id then Some(w) else Get(wins, id)
  {
    var r := wins[i := w];
    var f := Find(wins, id);
    if id == w.id {
      assert r[i] == w;
      GetBy(r, id, Some(w));
    } else if f < |wins| {
      assert r[f] == wins[f];
      GetBy(r, id, Some(wins[f]));
    } else {
      GetBy(r, id, None);
    }
  }

  lemma FrontGet(wins: seq<Win>, i: nat, id: int)
    requires Distinct(wins) && i < |wins|
    ensures Distinct(ToFront(wins, i)) && Get(ToFront(wins, i), id) == Get(wins, id)
  {
    var r := ToFront(wins, i);
    FrontAt(wins, i);
    var f := Find(wins, id);
    if f < |wins| {
      assert wins[f] in r by {
        assert r[if f < i then f else if f == i then |wins| - 1 else f - 1] == wins[f];
      }
      GetBy(r, id, Some(wins[f]));
    } else {
      GetBy(r, id, None);
    }
  }

  lemma FrontAt(wins: seq<Win>, i: nat)
    requires i < |wins|
    ensures var r := ToFront(wins, i);
            && |r| == |wins|
            && forall k :: 0 <= k < |r| ==> r[k] == wins[if k < i then k else if k == |wins| - 1 then i else k + 1]
  {
  }

  lemma RemoveGet(wins: seq<Win>, i: nat, id: int)
    requires Distinct(wins) && i < |wins|
    ensures var r := wins[..i] + wins[i + 1..];
            Distinct(r) && Get(r, id) == if id == wins[i].id then None else Get(wins, id)
  {
    var r := wins[..i] + wins[i + 1..];
    assert forall k :: 0 <= k < |r| ==> r[k] == wins[if k < i then k else k + 1];
    var f := Find(wins, id);
    if f < |wins| && id != wins[i].id {
      assert r[if f < i then f else f - 1] == wins[f];
      GetBy(r, id, Some(wins[f]));
    } else {
      GetBy(r, id, None);
    }
  }

  lemma AppendGet(wins: seq<Win>, w: Win, id: int)
    requires Distinct(wins + [w])
    ensures Get(wins + [w], id) == if id == w.id then Some(w) else Get(wins, id)
  {
    var r := wins + [w];
    var f := Find(wins, id);
    if id == w.id {
      assert r[|wins|] == w;
      GetBy(r, id, Some(w));
    } else if f < |wins| {
      assert r[f] == wins[f];
      GetBy(r, id, Some(wins[f]));
    } else {
      GetBy(r, id, None);
    }
  }

  lemma {:induction false} FindMapped(a: seq<Win>, b: seq<Win>, id: int)
    requires |a| == |b| && forall i :: 0 <= i < |a| ==> a[i].id == b[i].id
    ensures Find(a, id) == Find(b, id)
  {
    if a != [] && a[0].id != id {
      FindMapped(a[1..], b[1..], id);
    }
  }

  // ----- The invariant -----

  predicate WinOk(w: Win, nextId: int) {
    1 <= w.id < nextId && (w.minimized ==> !w.kind.fixed && !w.kind.modal)
  }

  /** A window that can be dragged. */
  predicate Holdable(w: Option<Win>) {
    w.Some? && !w.value.minimized && !w.value.kind.fixed
  }

  predicate DragOk(m: Wm) {
    if m.drag.dragging then m.drag.enabled && Holdable(Get(m.wins, m.drag.window))
    else m.drag.window == NONE
  }

  ghost predicate Base(m: Wm) {
    && m.nextId >= 1 && Distinct(m.wins)
    && (forall i :: 0 <= i < |m.wins| ==> WinOk(m.wins[i], m.nextId))
    && DragOk(m)
  }

  /** The focus is on nothing, or on a window that is not minimized. */
  predicate FocusOk(m: Wm) {
    m.active == NONE || (Get(m.wins, m.active).Some? && !Get(m.wins, m.active).value.minimized)
  }

  /** A window's own flag says whether it has the focus. */
  predicate FlagOk(w: Win, active: int) {
    !w.closing ==> w == Flagged(w, active)
  }

  /** A visible modal window never leaves the focus on nothing. */
  predicate ModalOk(w: Win, active: int) {
    Visible(w) && w.kind.modal ==> active != NONE
  }

  /** Holds after every operation; a window that asked to be closed may still be there. */
  ghost predicate Sound(m: Wm) {
    && Base(m) && FocusOk(m)
    && (forall i :: 0 <= i < |m.wins| ==> FlagOk(m.wins[i], m.active) && ModalOk(m.wins[i], m.active))
  }

  predicate NoneClosing(m: Wm) {
    forall i :: 0 <= i < |m.wins| ==> !m.wins[i].closing
  }

  /**
    Holds after every event: ids are distinct, the focus is on nothing or on a visible window,
    exactly that window's flag is set, and a drag holds a visible movable window.
   */
  lemma SoundMeans(m: Wm)
    requires Sound(m) && NoneClosing(m)
    ensures Distinct(m.wins)
    ensures m.active != NONE ==> Shown(m.wins, m.active)
    ensures forall i :: 0 <= i < |m.wins| ==> (m.wins[i].isActive <==> m.wins[i].id == m.active)
    ensures m.drag.dragging ==>
              m.drag.enabled && Shown(m.wins, m.drag.window) && Movable(m, Find(m.wins, m.drag.window))
  {
    forall i | 0 <= i < |m.wins|
      ensures m.wins[i].isActive <==> m.wins[i].id == m.active
    {
      assert FlagOk(m.wins[i], m.active);
      assert WinOk(m.wins[i], m.nextId);
      FindAt(m.wins, i);
    }
  }

  // ----- Flags and focus -----

  lemma UpdateFlagsGet(m: Wm, id: int)
    ensures var g, r := Get(m.wins, id), Get(UpdateFlags(m).wins, id);
            r == if g.Some? then Some(Flagged(g.value, m.active)) else None
  {
    FindMapped(m.wins, UpdateFlags(m).wins, id);
  }

  lemma UpdateFlagsSound(m: Wm)
    requires Base(m) && FocusOk(m) && forall i :: 0 <= i < |m.wins| ==> ModalOk(m.wins[i], m.active)
    ensures Sound(UpdateFlags(m))
  {
    var r := UpdateFlags(m);
    UpdateFlagsGet(m, m.active);
    UpdateFlagsGet(m, m.drag.window);
    assert forall i :: 0 <= i < |r.wins| ==> r.wins[i] == Flagged(m.wins[i], m.active);
    assert forall i :: 0 <= i < |r.wins| ==> WinOk(m.wins[i], m.nextId) && ModalOk(m.wins[i], m.active);
  }

  lemma {:induction false} TopVisibleIs(wins: seq<Win>)
    ensures TopVisible(wins) == NONE ||
            exists i :: 0 <= i < |wins| && Visible(wins[i]) && wins[i].id == TopVisible(wins)
    ensures (exists i :: 0 <= i < |wins| && Visible(wins[i])) ==>
              exists i :: 0 <= i < |wins| && Visible(wins[i]) && wins[i].id == TopVisible(wins)
                          && forall j :: i < j < |wins| ==> !Visible(wins[j])
  {
    if wins != [] && !Visible(wins[|wins| - 1]) {
      TopVisibleIs(wins[..|wins| - 1]);
    }
  }

  lemma SelectTopSound(m: Wm)
    requires Base(m)
    ensures Sound(SelectTop(m))
  {
    var wins := m.wins;
    if Shown(wins, m.active) {
      var i := Find(wins, m.active);
      assert WinOk(wins[i], m.nextId);
      UpdateFlagsSound(m);
    } else {
      TopVisibleIs(wins);
      var r := m.(active := TopVisible(wins));
      if r.active != NONE {
        var i :| 0 <= i < |wins| && Visible(wins[i]) && wins[i].id == r.active;
        FindAt(wins, i);
      } else {
        forall i | 0 <= i < |wins|
          ensures ModalOk(wins[i], r.active)
        {
          assert WinOk(wins[i], m.nextId);
        }
      }
      UpdateFlagsSound(r);
    }
  }

  // ----- Every operation keeps the invariant -----

  lemma RemoveBase(m: Wm, i: nat)
    requires Base(m) && i < |m.wins|
    ensures Base(Remove(m, i))
  {
    var r := Remove(m, i);
    RemoveGet(m.wins, i, m.drag.window);
    forall k | 0 <= k < |r.wins|
      ensures WinOk(r.wins[k], r.nextId)
    {
      assert r.wins[k] == m.wins[if k < i then k else k + 1];
    }
  }

  /** The windows closing are removed, every other one stays. */
  lemma {:induction false} SweepBase(m: Wm, i: nat)
    requires Base(m) && i <= |m.wins| && forall k :: 0 <= k < i ==> !m.wins[k].closing
    ensures Base(Sweep(m, i)) && NoneClosing(Sweep(m, i)) && Sweep(m, i).screen == m.screen
    ensures NoneClosing(m) ==> Sweep(m, i) == m
    decreases |m.wins| - i
  {
    hide Base;
    if i < |m.wins| {
      if m.wins[i].closing {
        RemoveBase(m, i);
        SweepBase(Remove(m, i), i);
      } else {
        SweepBase(m, i + 1);
      }
    }
  }

  lemma SelectTopKeeps(m: Wm)
    ensures NoneClosing(m) ==> NoneClosing(SelectTop(m))
  {
    var r := SelectTop(m);
    assert forall i :: 0 <= i < |r.wins| ==> r.wins[i] == Flagged(m.wins[i], r.active);
  }

  lemma CleanupSound(m: Wm)
    requires Base(m)
    ensures Sound(Cleanup(m)) && NoneClosing(Cleanup(m))
  {
    hide Base, Sound, Sweep, SelectTop;
    SweepBase(m, 0);
    SelectTopSound(Sweep(m, 0));
    SelectTopKeeps(Sweep(m, 0));
  }

  /** Replacing a window by one with its id keeps ids and kinds in order. */
  lemma SetBase(m: Wm, i: nat, w: Win)
    requires Base(m) && i < |m.wins| && w.id == m.wins[i].id && WinOk(w, m.nextId)
    requires m.drag.dragging && m.drag.window == w.id ==> Holdable(Some(w))
    ensures Base(m.(wins := m.wins[i := w]))
  {
    SetGet(m.wins, i, w, m.drag.window);
  }

  lemma CloseSound(m: Wm, id: int)
    requires Sound(m)
    ensures Sound(Close(m, id)) && (Exists(m, id) ==> NoneClosing(Close(m, id)))
  {
    hide Cleanup;
    var i := Find(m.wins, id);
    if i < |m.wins| {
      FindAt(m.wins, i);
      assert WinOk(m.wins[i], m.nextId);
      var w := m.wins[i].(closing := true);
      SetBase(m, i, w);
      CleanupSound(m.(wins := m.wins[i := w]));
    }
  }

  /** Replacing a window that keeps the focus in order keeps the invariant. */
  lemma SetSound(m: Wm, i: nat, w: Win)
    requires Sound(m) && i < |m.wins| && w.id == m.wins[i].id && WinOk(w, m.nextId)
    requires w.minimized == m.wins[i].minimized && w.kind == m.wins[i].kind
    requires FlagOk(w, m.active) && ModalOk(w, m.active)
    ensures Sound(m.(wins := m.wins[i := w]))
  {
    FindAt(m.wins, i);
    SetGet(m.wins, i, w, m.drag.window);
    SetGet(m.wins, i, w, m.active);
  }

  lemma RequestCloseSound(m: Wm, id: int)
    requires Sound(m)
    ensures Sound(RequestClose(m, id))
  {
    var i := Find(m.wins, id);
    if i < |m.wins| {
      assert WinOk(m.wins[i], m.nextId);
      SetSound(m, i, m.wins[i].(closing := true));
    }
  }

  lemma CreateSound(m: Wm, spec: Rect, kind: Kind)
    requires Sound(m)
    ensures Sound(Create(m, spec, kind).0)
  {
    hide Place;
    if m.screen.rows < 4 || m.screen.cols < 8 {
      var r := m.(nextId := m.nextId + 1);
      assert forall i :: 0 <= i < |r.wins| ==> WinOk(m.wins[i], m.nextId);
    } else {
      var w := Win(m.nextId, kind, Place(spec, |m.wins|, m.screen), false, false, false);
      var r := m.(wins := m.wins + [w], nextId := m.nextId + 1, active := m.nextId);
      assert forall i :: 0 <= i < |m.wins| ==> WinOk(m.wins[i], m.nextId);
      AppendGet(m.wins, w, m.drag.window);
      AppendGet(m.wins, w, r.active);
      UpdateFlagsSound(r);
    }
  }

  lemma FocusSound(m: Wm, id: int)
    requires Sound(m)
    ensures Sound(Focus(m, id))
  {
    var i := Find(m.wins, id);
    if i < |m.wins| && !m.wins[i].closing {
      assert WinOk(m.wins[i], m.nextId);
      var w := m.wins[i].(minimized := false);
      var r := m.(wins := m.wins[i := w], active := id);
      SetGet(m.wins, i, w, m.drag.window);
      SetGet(m.wins, i, w, id);
      UpdateFlagsSound(r);
    }
  }

  lemma FrontSound(m: Wm, id: int)
    requires Sound(m)
    ensures Sound(BringToFront(m, id))
  {
    var i := Find(m.wins, id);
    if i < |m.wins| && Visible(m.wins[i]) {
      var r := m.(wins := ToFront(m.wins, i));
      FrontGet(m.wins, i, m.drag.window);
      FrontGet(m.wins, i, m.active);
      FrontAt(m.wins, i);
      forall k | 0 <= k < |r.wins|
        ensures WinOk(r.wins[k], r.nextId) && FlagOk(r.wins[k], r.active) && ModalOk(r.wins[k], r.active)
      {
        var j := if k < i then k else if k == |m.wins| - 1 then i else k + 1;
        assert r.wins[k] == m.wins[j];
        assert WinOk(m.wins[j], m.nextId);
      }
    }
  }

  lemma CycleSound(m: Wm)
    requires Sound(m)
    ensures Sound(CycleFocus(m).0)
  {
    if CycleFocus(m).1 {
      var found := Find(m.wins, m.active);
      var i := NextFocusable(m.wins, if found == |m.wins| then |m.wins| - 1 else found, 1).value;
      var id := m.wins[i].id;
      FindAt(m.wins, i);
      assert WinOk(m.wins[i], m.nextId);
      var f := m.(active := id);
      FrontGet(m.wins, i, m.drag.window);
      FrontGet(m.wins, i, id);
      FrontAt(m.wins, i);
      var r := BringToFront(f, id);
      forall k | 0 <= k < |r.wins|
        ensures WinOk(r.wins[k], r.nextId) && ModalOk(r.wins[k], r.active)
      {
        assert WinOk(m.wins[if k < i then k else if k == |m.wins| - 1 then i else k + 1], m.nextId);
      }
      UpdateFlagsSound(r);
    }
  }

  lemma MinimizeSound(m: Wm, id: int)
    requires Sound(m)
    ensures Sound(Minimize(m, id).0)
  {
    hide SelectTop;
    if Minimize(m, id).1 {
      var i := Find(m.wins, id);
      var w := m.wins[i].(minimized := true, isActive := false);
      assert WinOk(m.wins[i], m.nextId);
      var r := m.(wins := m.wins[i := w],
                  drag := LetGo(m.drag, id),
                  active := if id == m.active then NONE else m.active);
      SetGet(m.wins, i, w, m.drag.window);
      SelectTopSound(r);
    }
  }

  lemma RestoreSound(m: Wm, id: int)
    requires Sound(m)
    ensures Sound(Restore(m, id).0)
  {
    if Restore(m, id).1 {
      var i := Find(m.wins, id);
      var w := m.wins[i].(minimized := false);
      assert WinOk(m.wins[i], m.nextId) && ModalOk(m.wins[i], m.active);
      var r := m.(wins := m.wins[i := w]);
      SetGet(m.wins, i, w, m.drag.window);
      SetGet(m.wins, i, w, m.active);
      UpdateFlagsSound(r);
    }
  }

  lemma SetRectSound(m: Wm, i: nat, at: Rect)
    requires Sound(m) && i < |m.wins|
    ensures Sound(SetRect(m, i, at))
  {
    assert WinOk(m.wins[i], m.nextId) && FlagOk(m.wins[i], m.active) && ModalOk(m.wins[i], m.active);
    SetSound(m, i, m.wins[i].(at := at));
  }

  lemma DragSound(m: Wm, d: Drag)
    requires Sound(m) && DragOk(m.(drag := d))
    ensures Sound(m.(drag := d))
  {
  }

  lemma OpSound(m: Wm, self: int, op: Op)
    requires Sound(m)
    ensures Sound(Perform(m, self, op))
  {
    hide Sound, Create, Close, Focus, BringToFront, CycleFocus, Minimize, Restore, SetRect, Get, Clamp;
    match op
    case OpCreate(spec, kind) => CreateSound(m, spec, kind);
    case OpClose(id) => CloseSound(m, id);
    case OpFocus(id) => FocusSound(m, id);
    case OpFront(id) => FrontSound(m, id);
    case OpCycle => CycleSound(m);
    case OpMinimize(id) => MinimizeSound(m, id);
    case OpRestore(id) => RestoreSound(m, id);
    case OpMove(dy, dx) =>
      if MoveActive(m, dy, dx).1 {
        var i := Find(m.wins, m.active);
        var r := m.wins[i].at;
        SetRectSound(m, i, Clamp(r.(y := r.y + dy, x := r.x + dx), m.screen));
      }
    case OpResize(dh, dw) =>
      if ResizeActive(m, dh, dw).1 {
        var i := Find(m.wins, m.active);
        SetRectSound(m, i, Resized(m.wins[i].at, dh, dw, m.screen).value);
      }
    case OpDragEnabled(on) => DragSettings(m);
    case OpAutoDegrade(on) => DragSettings(m);
    case OpLeave => RequestCloseSound(m, self);
  }

  lemma DragSettings(m: Wm)
    requires Sound(m)
    ensures forall on :: Sound(m.(drag := SetDragEnabled(m.drag, on))) && Sound(m.(drag := SetAutoDegrade(m.drag, on)))
  {
    forall on
      ensures Sound(m.(drag := SetDragEnabled(m.drag, on))) && Sound(m.(drag := SetAutoDegrade(m.drag, on)))
    {
      DragSound(m, SetDragEnabled(m.drag, on));
      DragSound(m, SetAutoDegrade(m.drag, on));
    }
  }

  lemma {:induction false} OpsSound(m: Wm, self: int, ops: seq<Op>)
    requires Sound(m)
    ensures Sound(PerformAll(m, self, ops))
    decreases |ops|
  {
    hide Sound, Perform;
    if ops != [] {
      OpsSound(m, self, ops[..|ops| - 1]);
      OpSound(PerformAll(m, self, ops[..|ops| - 1]), self, ops[|ops| - 1]);
    }
  }

  // ----- Events -----

  /** Focusing and raising a visible window leaves it where it is, visible. */
  lemma PressGet(m: Wm, i: nat, e: Mouse)
    requires Sound(m) && i < |m.wins| && Visible(m.wins[i])
    ensures var hit := m.wins[i];
            var g := Get(Press(m, hit.id, e).wins, hit.id);
            g.Some? && Visible(g.value) && g.value.kind == hit.kind && g.value.at == hit.at
    ensures Press(m, m.wins[i].id, e).drag == m.drag
  {
    var hit := m.wins[i];
    FindAt(m.wins, i);
    if e.pressed || e.clicked {
      SetGet(m.wins, i, hit.(minimized := false), hit.id);
      UpdateFlagsGet(m.(wins := m.wins[i := hit.(minimized := false)], active := hit.id), hit.id);
      var f := Focus(m, hit.id);
      FocusSound(m, hit.id);
      var j := Find(f.wins, hit.id);
      FrontGet(f.wins, j, hit.id);
    }
  }

  lemma PressSound(m: Wm, id: int, e: Mouse)
    requires Sound(m)
    ensures Sound(Press(m, id, e))
  {
    hide Sound, Focus, BringToFront;
    FocusSound(m, id);
    FrontSound(Focus(m, id), id);
  }

  lemma PullSound(m: Wm, e: Mouse)
    requires Sound(m)
    ensures Sound(Pull(m, e))
  {
    hide Clamp, Sound, SetRect, DragOk;
    var i := Find(m.wins, m.drag.window);
    if m.drag.dragging && m.drag.window != NONE && e.moved && i < |m.wins| && Visible(m.wins[i]) {
      var at := Clamp(m.wins[i].at.(y := e.y - m.drag.offY, x := e.x - m.drag.offX), m.screen);
      SetRectSound(m, i, at);
      SoundDrag(SetRect(m, i, at), m.drag.moved || !(e.released || e.clicked));
      SetRectDrag(m, i, at);
    }
  }

  lemma SetRectDrag(m: Wm, i: nat, at: Rect)
    requires i < |m.wins|
    ensures SetRect(m, i, at).drag == m.drag
  {
  }

  lemma SoundDrag(m: Wm, moved: bool)
    requires Sound(m)
    ensures m.drag.dragging ==> Sound(m.(drag := m.drag.(moved := moved)))
  {
  }

  lemma DropSound(m: Wm, e: Mouse)
    requires Sound(m)
    ensures Sound(m.(drag := Drop(m.drag, e)))
  {
    DragSound(m, Drop(m.drag, e));
  }

  lemma GrabSound(m: Wm, i: nat, e: Mouse)
    requires Sound(m) && i < |m.wins| && Visible(m.wins[i])
    ensures var p := Press(m, m.wins[i].id, e); Sound(p.(drag := Grab(p.drag, m.wins[i], e)))
  {
    hide Press;
    var hit := m.wins[i];
    PressSound(m, hit.id, e);
    PressGet(m, i, e);
    var p := Press(m, hit.id, e);
    DragSound(p, Grab(p.drag, hit, e));
  }

  lemma MouseSound(m: Wm, e: Mouse, ops: seq<Op>)
    requires Sound(m)
    ensures Sound(HandleMouse(m, e, ops))
  {
    hide Sound, Cleanup, Press, Grab, Pull, Drop;
    var modal, hit := TopModal(m.wins), TopAt(m.wins, e.y, e.x);
    if modal.Some? {
      OpsSound(m, m.wins[modal.value].id, ops);
      SoundBase(PerformAll(m, m.wins[modal.value].id, ops));
      CleanupSound(PerformAll(m, m.wins[modal.value].id, ops));
    } else if hit.None? {
      PullSound(m, e);
      DropSound(Pull(m, e), e);
    } else {
      var w := m.wins[hit.value];
      GrabSound(m, hit.value, e);
      var p := Press(m, w.id, e);
      var g := p.(drag := Grab(p.drag, w, e));
      PullSound(g, e);
      DropSound(Pull(g, e), e);
      var d := Pull(g, e);
      OpsSound(d.(drag := Drop(d.drag, e)), w.id, ops);
    }
  }

  lemma SoundBase(m: Wm)
    requires Sound(m)
    ensures Base(m)
  {
  }

  lemma ClampAllBase(m: Wm)
    requires Base(m)
    ensures Base(ClampAll(m))
  {
    hide Clamp;
    var r := ClampAll(m);
    FindMapped(m.wins, r.wins, m.drag.window);
    forall i | 0 <= i < |r.wins|
      ensures WinOk(r.wins[i], r.nextId)
    {
      assert WinOk(m.wins[i], m.nextId);
    }
  }

  /** Every event keeps the invariant and leaves no window that is closing. */
  lemma EventSound(m: Wm, e: Event)
    requires Sound(m)
    ensures Sound(Handle(m, e)) && NoneClosing(Handle(m, e))
  {
    hide Sound, Base, NoneClosing, Cleanup, HandleMouse, ClampAll, KeyTarget;
    match e
    case MouseEvent(mouse, ops) =>
      MouseSound(m, mouse, ops);
      SoundBase(HandleMouse(m, mouse, ops));
      CleanupSound(HandleMouse(m, mouse, ops));
    case KeyEvent(ops) =>
      var t := KeyTarget(m);
      var r := if t.Some? then PerformAll(m, m.wins[t.value].id, ops) else m;
      if t.Some? {
        OpsSound(m, m.wins[t.value].id, ops);
      }
      SoundBase(r);
      CleanupSound(r);
    case ResizeEvent =>
      SoundBase(m);
      ClampAllBase(m);
      CleanupSound(ClampAll(m));
  }

  // ----- Modal windows -----

  lemma CleanupIdle(m: Wm)
    requires Sound(m) && NoneClosing(m) && m.active != NONE
    ensures Cleanup(m) == m
  {
    SweepBase(m, 0);
    forall i | 0 <= i < |m.wins|
      ensures m.wins[i] == Flagged(m.wins[i], m.active)
    {
      assert FlagOk(m.wins[i], m.active);
    }
    assert UpdateFlags(m).wins == m.wins;
  }

  /**
    With a visible modal window, a mouse event changes nothing by itself, not the focus, the order
    or any geometry; and where the mouse is and what it does makes no difference to what happens.
   */
  lemma ModalShields(m: Wm, e: Mouse, e': Mouse, ops: seq<Op>)
    requires Sound(m) && NoneClosing(m) && TopModal(m.wins).Some?
    ensures Handle(m, MouseEvent(e, [])) == m
    ensures Handle(m, MouseEvent(e, ops)) == Handle(m, MouseEvent(e', ops))
    ensures Handle(m, KeyEvent([])) == m && !CycleFocus(m).1
  {
    var i := TopModal(m.wins).value;
    assert ModalOk(m.wins[i], m.active);
    CleanupIdle(m);
    hide Cleanup, Sound;
  }

  // ----- Moving the focus by mouse -----

  lemma {:induction false} NoModalIff(wins: seq<Win>)
    ensures TopModal(wins).None? <==> forall i :: 0 <= i < |wins| ==> !(Visible(wins[i]) && wins[i].kind.modal)
  {
    if wins != [] {
      NoModalIff(wins[..|wins| - 1]);
    }
  }

  /** No window is closing, and none that is visible is modal. */
  predicate Unblocked(wins: seq<Win>) {
    forall i :: 0 <= i < |wins| ==> !wins[i].closing && !(Visible(wins[i]) && wins[i].kind.modal)
  }

  lemma FrontUnblocked(m: Wm, id: int)
    requires Unblocked(m.wins)
    ensures Unblocked(BringToFront(m, id).wins) && BringToFront(m, id).active == m.active
  {
    hide Find, Unblocked;
    var i := Find(m.wins, id);
    if i < |m.wins| && Visible(m.wins[i]) {
      UnblockedSame(m.wins, ToFront(m.wins, i));
    }
  }

  lemma UnblockedSame(a: seq<Win>, b: seq<Win>)
    requires Unblocked(a) && forall w <- b :: w in a
    ensures Unblocked(b)
  {
    forall i | 0 <= i < |b|
      ensures !b[i].closing && !(Visible(b[i]) && b[i].kind.modal)
    {
      assert b[i] in a;
    }
  }

  lemma FocusUnblocked(m: Wm, i: nat)
    requires Sound(m) && i < |m.wins| && Visible(m.wins[i]) && Unblocked(m.wins)
    ensures var f := Focus(m, m.wins[i].id); f.active == m.wins[i].id && Unblocked(f.wins)
  {
    hide Sound, Find;
    var id := m.wins[i].id;
    PlaceOf(m, i);
    assert m.wins[i := m.wins[i].(minimized := false)] == m.wins;
    var f := Focus(m, id);
    assert forall k :: 0 <= k < |f.wins| ==> f.wins[k] == Flagged(m.wins[k], id);
  }

  lemma PressUnblocked(m: Wm, i: nat, e: Mouse)
    requires Sound(m) && i < |m.wins| && Visible(m.wins[i]) && Unblocked(m.wins) && (e.pressed || e.clicked)
    ensures var r := Press(m, m.wins[i].id, e); r.active == m.wins[i].id && Unblocked(r.wins)
  {
    hide Sound, Unblocked, Focus, BringToFront;
    FocusUnblocked(m, i);
    FrontUnblocked(Focus(m, m.wins[i].id), m.wins[i].id);
  }

  lemma PlaceOf(m: Wm, i: nat)
    requires Sound(m) && i < |m.wins|
    ensures Find(m.wins, m.wins[i].id) == i && m.wins[i].id != NONE
  {
    FindAt(m.wins, i);
    assert WinOk(m.wins[i], m.nextId);
  }

  lemma PullUnblocked(m: Wm, e: Mouse)
    requires Unblocked(m.wins)
    ensures Unblocked(Pull(m, e).wins) && Pull(m, e).active == m.active
  {
  }

  /** Where no modal window is open, a press on a window gives it the focus: it is then the one that gets the keys. */
  lemma PressTakesFocus(m: Wm, e: Mouse)
    requires Sound(m) && NoneClosing(m) && TopModal(m.wins).None?
    requires TopAt(m.wins, e.y, e.x).Some? && (e.pressed || e.clicked)
    ensures var hit, r := m.wins[TopAt(m.wins, e.y, e.x).value].id, Handle(m, MouseEvent(e, []));
            && r.active == hit
            && KeyTarget(r).Some? && r.wins[KeyTarget(r).value].id == hit
  {
    hide Sound, Press, Pull, Drop, Grab, Cleanup;
    var i := TopAt(m.wins, e.y, e.x).value;
    var hit := m.wins[i];
    NoModalIff(m.wins);
    PressUnblocked(m, i, e);
    var p := Press(m, hit.id, e);
    var g := p.(drag := Grab(p.drag, hit, e));
    PullUnblocked(g, e);
    var r := HandleMouse(m, e, []);
    MouseSound(m, e, []);
    assert hit.id != NONE by { PlaceOf(m, i); }
    CleanupIdle(r);
    SoundMeans(r);
    NoModalIff(r.wins);
  }

  // ----- Order -----

  /** The windows other than one, from bottom to top. */
  function Others(wins: seq<Win>, id: int): seq<Win> {
    if wins == [] then []
    else if wins[0].id == id then Others(wins[1..], id)
    else [wins[0]] + Others(wins[1..], id)
  }

  lemma {:induction false} OthersJoin(a: seq<Win>, b: seq<Win>, id: int)
    ensures Others(a + b, id) == Others(a, id) + Others(b, id)
  {
    if a == [] {
      assert a + b == b;
    } else {
      assert (a + b)[1..] == a[1..] + b;
      OthersJoin(a[1..], b, id);
    }
  }

  /** Raising a window keeps all windows, and the order of the others; the window ends on top if it is visible. */
  lemma FrontKeepsOrder(m: Wm, id: int)
    ensures var r := BringToFront(m, id).wins;
            && Others(r, id) == Others(m.wins, id)
            && multiset(r) == multiset(m.wins)
            && (Shown(m.wins, id) ==> r != [] && r[|r| - 1].id == id)
  {
    var wins, i := m.wins, Find(m.wins, id);
    if i < |wins| && Visible(wins[i]) {
      assert wins == wins[..i] + ([wins[i]] + wins[i + 1..]);
      assert ToFront(wins, i) == wins[..i] + (wins[i + 1..] + [wins[i]]);
      OthersJoin(wins[..i], [wins[i]] + wins[i + 1..], id);
      OthersJoin([wins[i]], wins[i + 1..], id);
      OthersJoin(wins[..i], wins[i + 1..] + [wins[i]], id);
      OthersJoin(wins[i + 1..], [wins[i]], id);
    }
  }

  // ----- Whole runs -----

  /** What can happen to a window manager: a call of a public operation, an input event, a new screen size. */
  datatype Action = Call(self: int, op: Op) | Input(event: Event) | NewScreen(screen: Screen)

  function Act(m: Wm, a: Action): Wm {
    match a
    case Call(self, op) => Perform(m, self, op)
    case Input(e) => Handle(m, e)
    case NewScreen(s) => m.(screen := s)
  }

  function Run(m: Wm, actions: seq<Action>): Wm
    decreases |actions|
  {
    if actions == [] then m else Act(Run(m, actions[..|actions| - 1]), actions[|actions| - 1])
  }

  /** A new window manager: no windows, no focus, dragging on. */
  function Initial(s: Screen): Wm {
    Wm([], 1, NONE, Drag(true, false, NONE, 0, 0, false, 0, false, false), s)
  }

  /** Whatever happens, the invariant holds, and after an input event no window is left closing. */
  lemma {:induction false} RunSound(s: Screen, actions: seq<Action>)
    ensures Sound(Run(Initial(s), actions))
    ensures actions != [] && actions[|actions| - 1].Input? ==> NoneClosing(Run(Initial(s), actions))
    decreases |actions|
  {
    hide Perform, Handle;
    if actions != [] {
      var before, last := Run(Initial(s), actions[..|actions| - 1]), actions[|actions| - 1];
      RunSound(s, actions[..|actions| - 1]);
      match last
      case Call(self, op) => OpSound(before, self, op);
      case Input(e) => EventSound(before, e);
      case NewScreen(_) =>
    }
  }
}
