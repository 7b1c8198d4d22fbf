/**
  The window manager as a value: the stack of windows from bottom to top, the focus, the drag in
  progress and the screen, and what each operation and input event makes of them.
 */
module Windows {
  import opened Basics

  /** The window id that names no window. */
  const NONE := -1

  datatype Rect = Rect(y: int, x: int, h: int, w: int)

  datatype Screen = Screen(rows: int, cols: int)

  datatype Kind = Kind(fixed: bool, modal: bool)

  datatype Win = Win(id: int, kind: Kind, at: Rect, isActive: bool, minimized: bool, closing: bool)

  datatype Drag = Drag(
    enabled: bool, dragging: bool, window: int, offY: int, offX: int, moved: bool,
    idle: nat, degraded: bool, autoDegrade: bool)

  datatype Wm = Wm(wins: seq<Win>, nextId: int, active: int, drag: Drag, screen: Screen)

  predicate Visible(w: Win) {
    !w.minimized && !w.closing
  }

  /** The position of the window with an id, or the number of windows. */
  function Find(wins: seq<Win>, id: int): (i: nat)
    ensures i <= |wins| && (i < |wins| ==> wins[i].id == id)
    ensures forall j :: 0 <= j < i ==> wins[j].id != id
  {
    if wins == [] then 0 else if wins[0].id == id then 0 else 1 + Find(wins[1..], id)
  }

  predicate Exists(m: Wm, id: int) {
    Find(m.wins, id) < |m.wins|
  }

  // ----- Focus -----

  function Flagged(w: Win, active: int): Win {
    w.(isActive := Visible(w) && w.id == active)
  }

  /** Brings the windows' own flags in line with the focus. */
  function UpdateFlags(m: Wm): Wm {
    m.(wins := seq(|m.wins|, i requires 0 <= i < |m.wins| => Flagged(m.wins[i], m.active)))
  }

  /** The topmost visible window. */
  function TopVisible(wins: seq<Win>): int {
    if wins == [] then NONE
    else if Visible(wins[|wins| - 1]) then wins[|wins| - 1].id
    else TopVisible(wins[..|wins| - 1])
  }

  predicate Shown(wins: seq<Win>, id: int) {
    var i := Find(wins, id);
    i < |wins| && Visible(wins[i])
  }

  function SelectTop(m: Wm): Wm {
    if Shown(m.wins, m.active) then UpdateFlags(m)
    else UpdateFlags(m.(active := TopVisible(m.wins)))
  }

  // ----- Opening and closing -----

  function Limit(v: int, max: int): int {
    var top := if max < 0 then 0 else max;
    if v < 0 then 0 else if v > top then top else v
  }

  /** Moves a rectangle into the screen, above the bottom row. */
  function Clamp(r: Rect, s: Screen): Rect {
    r.(y := Limit(r.y, s.rows - r.h - 1), x := Limit(r.x, s.cols - r.w))
  }

  function ForgetDrag(d: Drag): Drag {
    d.(dragging := false, window := NONE)
  }

  function Remove(m: Wm, i: nat): Wm
    requires i < |m.wins|
  {
    var id := m.wins[i].id;
    m.(wins := m.wins[..i] + m.wins[i + 1..],
       active := if id == m.active then NONE else m.active,
       drag := if id == m.drag.window then ForgetDrag(m.drag) else m.drag)
  }

  function Sweep(m: Wm, i: nat): Wm
    decreases |m.wins| - i
  {
    if i >= |m.wins| then m
    else if m.wins[i].closing then Sweep(Remove(m, i), i)
    else Sweep(m, i + 1)
  }

  /** Removes the windows that are closing and finds the focus a window. */
  function Cleanup(m: Wm): Wm {
    SelectTop(Sweep(m, 0))
  }

  function Bound(v: int, low: int, high: int): int {
    var raised := if v < low then low else v;
    if raised > high then high else raised
  }

  function Place(spec: Rect, count: nat, s: Screen): Rect {
    var maxH := if s.rows - 1 < 4 then 4 else s.rows - 1;
    var h, w := Bound(spec.h, 4, maxH), Bound(spec.w, 8, s.cols);
    var cascade := count % 5;
    var r := if spec.y < 0 || spec.x < 0 then Rect(1 + cascade, 2 + cascade * 3, h, w) else Rect(spec.y, spec.x, h, w);
    Clamp(r, s)
  }

  function Added(m: Wm, at: Rect, kind: Kind): Wm {
    m.(wins := m.wins + [Win(m.nextId, kind, at, false, false, false)], nextId := m.nextId + 1, active := m.nextId)
  }

  /** Opens a window on top, focused; a screen too small for any window opens none. */
  function Create(m: Wm, spec: Rect, kind: Kind): (Wm, int) {
    if m.screen.rows < 4 || m.screen.cols < 8 then (m.(nextId := m.nextId + 1), NONE)
    else
      (UpdateFlags(Added(m, Place(spec, |m.wins|, m.screen), kind)), m.nextId)
  }

  function Close(m: Wm, id: int): Wm {
    var i := Find(m.wins, id);
    if i == |m.wins| then m else Cleanup(m.(wins := m.wins[i := m.wins[i].(closing := true)]))
  }

  /** A window asks to be closed; it goes at the next cleanup. */
  function RequestClose(m: Wm, id: int): Wm {
    var i := Find(m.wins, id);
    if i == |m.wins| then m else m.(wins := m.wins[i := m.wins[i].(closing := true)])
  }

  function Focus(m: Wm, id: int): Wm {
    var i := Find(m.wins, id);
    if i == |m.wins| || m.wins[i].closing then m
    else UpdateFlags(m.(wins := m.wins[i := m.wins[i].(minimized := false)], active := id))
  }

  function ToFront(wins: seq<Win>, i: nat): seq<Win>
    requires i < |wins|
  {
    wins[..i] + wins[i + 1..] + [wins[i]]
  }

  function BringToFront(m: Wm, id: int): Wm {
    var i := Find(m.wins, id);
    if i == |m.wins| || !Visible(m.wins[i]) then m else m.(wins := ToFront(m.wins, i))
  }

  /** The topmost visible modal window, as a position, or the number of windows. */
  function TopModal(wins: seq<Win>): (i: Option<nat>)
    ensures i.Some? ==> i.value < |wins| && Visible(wins[i.value]) && wins[i.value].kind.modal
  {
    if wins == [] then None
    else if Visible(wins[|wins| - 1]) && wins[|wins| - 1].kind.modal then Some(|wins| - 1)
    else TopModal(wins[..|wins| - 1])
  }

  predicate Focusable(w: Win) {
    Visible(w) && !w.kind.fixed
  }

  function NextFocusable(wins: seq<Win>, from: nat, step: nat): (i: Option<nat>)
    requires wins != []
    ensures i.Some? ==> i.value < |wins| && Focusable(wins[i.value])
    decreases |wins| + 1 - step
  {
    if step > |wins| then None
    else if Focusable(wins[(from + step) % |wins|]) then Some((from + step) % |wins|)
    else NextFocusable(wins, from, step + 1)
  }

  /** Moves the focus to the next window that can have it, and that window to the top. */
  function CycleFocus(m: Wm): (Wm, bool) {
    if |m.wins| < 2 || TopModal(m.wins).Some? then (m, false)
    else
      var found := Find(m.wins, m.active);
      match NextFocusable(m.wins, if found == |m.wins| then |m.wins| - 1 else found, 1)
      case None => (m, false)
      case Some(i) =>
        var id := m.wins[i].id;
        if id == m.active then (m, false) else (UpdateFlags(BringToFront(m.(active := id), id)), true)
  }

  /** Ends a drag of the window. */
  function LetGo(d: Drag, id: int): Drag {
    if id == d.window then ForgetDrag(d).(moved := false) else d
  }

  function Minimize(m: Wm, id: int): (Wm, bool) {
    var i := Find(m.wins, id);
    if i == |m.wins| || m.wins[i].minimized || m.wins[i].kind.fixed || m.wins[i].kind.modal then (m, false)
    else
      (SelectTop(m.(wins := m.wins[i := m.wins[i].(minimized := true, isActive := false)],
                    drag := LetGo(m.drag, id),
                    active := if id == m.active then NONE else m.active)), true)
  }

  /** Shows a minimized window again, without focusing it. */
  function Restore(m: Wm, id: int): (Wm, bool) {
    var i := Find(m.wins, id);
    if i == |m.wins| || !m.wins[i].minimized then (m, false)
    else (UpdateFlags(m.(wins := m.wins[i := m.wins[i].(minimized := false)])), true)
  }

  // ----- Moving and resizing -----

  predicate Movable(m: Wm, i: nat) {
    i < |m.wins| && Visible(m.wins[i]) && !m.wins[i].kind.fixed
  }

  function SetRect(m: Wm, i: nat, r: Rect): Wm
    requires i < |m.wins|
  {
    m.(wins := m.wins[i := m.wins[i].(at := r)])
  }

  function MoveActive(m: Wm, dy: int, dx: int): (Wm, bool) {
    var i := Find(m.wins, m.active);
    if !Movable(m, i) then (m, false)
    else
      var r := m.wins[i].at;
      (SetRect(m, i, Clamp(r.(y := r.y + dy, x := r.x + dx), m.screen)), true)
  }

  /** The size after growing by dh and dw within the screen, if it is a size a window can have. */
  function Resized(r: Rect, dh: int, dw: int, s: Screen): Option<Rect> {
    var h0 := if r.h + dh < 4 then 4 else r.h + dh;
    var w0 := if r.w + dw < 12 then 12 else r.w + dw;
    var h := if s.rows > 0 && r.y + h0 > s.rows then s.rows - r.y else h0;
    var w := if s.cols > 0 && r.x + w0 > s.cols then s.cols - r.x else w0;
    if h < 4 || w < 12 || (h == r.h && w == r.w) then None else Some(r.(h := h, w := w))
  }

  function ResizeActive(m: Wm, dh: int, dw: int): (Wm, bool) {
    var i := Find(m.wins, m.active);
    if !Movable(m, i) then (m, false)
    else
      match Resized(m.wins[i].at, dh, dw, m.screen)
      case None => (m, false)
      case Some(r) => (SetRect(m, i, r), true)
  }

  function SetDragEnabled(d: Drag, enabled: bool): Drag {
    if enabled then d.(enabled := true, degraded := false, idle := 0)
    else ForgetDrag(d).(enabled := false, moved := false)
  }

  function SetAutoDegrade(d: Drag, on: bool): Drag {
    if on then d.(autoDegrade := true) else d.(autoDegrade := false, idle := 0, degraded := false, enabled := true)
  }

  // ----- Events -----

  /** What the callback of a window may do to the window manager; `Leave` closes the window itself. */
  datatype Op =
    | OpCreate(spec: Rect, kind: Kind)
    | OpClose(id: int)
    | OpFocus(id: int)
    | OpFront(id: int)
    | OpCycle
    | OpMinimize(id: int)
    | OpRestore(id: int)
    | OpMove(dy: int, dx: int)
    | OpResize(dh: int, dw: int)
    | OpDragEnabled(on: bool)
    | OpAutoDegrade(on: bool)
    | OpLeave

  function Perform(m: Wm, self: int, op: Op): Wm {
    match op
    case OpCreate(spec, kind) => Create(m, spec, kind).0
    case OpClose(id) => Close(m, id)
    case OpFocus(id) => Focus(m, id)
    case OpFront(id) => BringToFront(m, id)
    case OpCycle => CycleFocus(m).0
    case OpMinimize(id) => Minimize(m, id).0
    case OpRestore(id) => Restore(m, id).0
    case OpMove(dy, dx) => MoveActive(m, dy, dx).0
    case OpResize(dh, dw) => ResizeActive(m, dh, dw).0
    case OpDragEnabled(on) => m.(drag := SetDragEnabled(m.drag, on))
    case OpAutoDegrade(on) => m.(drag := SetAutoDegrade(m.drag, on))
    case OpLeave => RequestClose(m, self)
  }

  function PerformAll(m: Wm, self: int, ops: seq<Op>): Wm
    decreases |ops|
  {
    if ops == [] then m else Perform(PerformAll(m, self, ops[..|ops| - 1]), self, ops[|ops| - 1])
  }

  datatype Mouse = Mouse(y: int, x: int, pressed: bool, clicked: bool, released: bool, moved: bool)

  predicate Contains(w: Win, y: int, x: int) {
    Visible(w) && w.at.y <= y < w.at.y + w.at.h && w.at.x <= x < w.at.x + w.at.w
  }

  function TopAt(wins: seq<Win>, y: int, x: int): (i: Option<nat>)
    ensures i.Some? ==> i.value < |wins| && Contains(wins[i.value], y, x)
  {
    if wins == [] then None
    else if Contains(wins[|wins| - 1], y, x) then Some(|wins| - 1)
    else TopAt(wins[..|wins| - 1], y, x)
  }

  /** A press on the title row of a movable window takes hold of it. */
  function Grab(d: Drag, hit: Win, e: Mouse): Drag {
    if d.enabled && e.pressed && !e.clicked && !hit.kind.fixed && e.y == hit.at.y then
      d.(dragging := true, window := hit.id, offY := e.y - hit.at.y, offX := e.x - hit.at.x, moved := false)
    else d
  }

  /** The window held follows the mouse. */
  function Pull(m: Wm, e: Mouse): Wm {
    if !m.drag.dragging || m.drag.window == NONE || !e.moved then m
    else
      var i := Find(m.wins, m.drag.window);
      if i == |m.wins| || !Visible(m.wins[i]) then m
      else
        var r := m.wins[i].at.(y := e.y - m.drag.offY, x := e.x - m.drag.offX);
        SetRect(m, i, Clamp(r, m.screen)).(drag := m.drag.(moved := m.drag.moved || !(e.released || e.clicked)))
  }

  /** Letting go ends the drag; three drags without motion switch dragging off where that is wanted. */
  function Drop(d: Drag, e: Mouse): Drag {
    if !d.dragging || !(e.released || e.clicked) then d
    else
      var counted :=
        if d.moved then d.(idle := 0)
        else if !d.autoDegrade then d
        else if d.idle + 1 >= 3 then d.(idle := d.idle + 1, enabled := false, degraded := true)
        else d.(idle := d.idle + 1);
      ForgetDrag(counted).(moved := false)
  }

  function Press(m: Wm, id: int, e: Mouse): Wm {
    if e.pressed || e.clicked then BringToFront(Focus(m, id), id) else m
  }

  function HandleMouse(m: Wm, e: Mouse, ops: seq<Op>): Wm {
    match TopModal(m.wins)
    case Some(i) => Cleanup(PerformAll(m, m.wins[i].id, ops))
    case None =>
      match TopAt(m.wins, e.y, e.x)
      case None =>
        var pulled := Pull(m, e);
        pulled.(drag := Drop(pulled.drag, e))
      case Some(i) =>
        var hit := m.wins[i];
        var pressed := Press(m, hit.id, e);
        var pulled := Pull(pressed.(drag := Grab(pressed.drag, hit, e)), e);
        PerformAll(pulled.(drag := Drop(pulled.drag, e)), hit.id, ops)
  }

  /** The window that gets the keys: the topmost modal one, or the active one if it is visible. */
  function KeyTarget(m: Wm): (t: Option<nat>)
    ensures t.Some? ==> t.value < |m.wins| && Visible(m.wins[t.value])
  {
    var modal, active := TopModal(m.wins), Find(m.wins, m.active);
    if modal.Some? then modal
    else if active < |m.wins| && Visible(m.wins[active]) then Some(active)
    else None
  }

  function ClampAll(m: Wm): Wm {
    m.(wins := seq(|m.wins|, i requires 0 <= i < |m.wins| => m.wins[i].(at := Clamp(m.wins[i].at, m.screen))))
  }

  datatype Event = MouseEvent(mouse: Mouse, ops: seq<Op>) | KeyEvent(ops: seq<Op>) | ResizeEvent

  function Handle(m: Wm, e: Event): Wm {
    match e
    case MouseEvent(mouse, ops) => Cleanup(HandleMouse(m, mouse, ops))
    case KeyEvent(ops) =>
      var t := KeyTarget(m);
      Cleanup(if t.Some? then PerformAll(m, m.wins[t.value].id, ops) else m)
    case ResizeEvent => Cleanup(ClampAll(m))
  }
}
