/**
  Maximizing a window through the window manager's own moves and resizes, and the table that
  remembers where to put it back.
 */
module Maximize {
  import opened Basics
  import opened Windows

  const SLOTS := 64
  const GROW := 1000000

  /** A slot of the table: free, used by another window manager, or holding a window's former place. */
  datatype Slot = Free | Foreign | Taken(id: int, maximized: bool, restore: Rect)

  function RectOf(m: Wm, id: int): Rect {
    var i := Find(m.wins, id);
    if i < |m.wins| then m.wins[i].at else Rect(0, 0, 0, 0)
  }

  predicate Stale(m: Wm, s: Slot) {
    s.Taken? && !Exists(m, s.id)
  }

  function Freshen(m: Wm, s: Slot): Slot {
    if Stale(m, s) then Free else s
  }

  /** What a look through the table finds: the table with stale slots freed on the way, the slot, the first free one. */
  datatype Look = Look(slots: seq<Slot>, found: Option<nat>, empty: Option<nat>)

  function Scan(m: Wm, slots: seq<Slot>, id: int, i: nat, empty: Option<nat>): (r: Look)
    requires i <= |slots| && (empty.Some? ==> empty.value < i)
    ensures |r.slots| == |slots|
    ensures r.found.Some? ==>
              r.found.value < |slots| && r.slots[r.found.value].Taken? && r.slots[r.found.value].id == id
    ensures r.empty.Some? ==> r.empty.value < |slots|
    decreases |slots| - i
  {
    if i == |slots| then Look(slots, None, empty)
    else
      var s := Freshen(m, slots[i]);
      var next := slots[i := s];
      if s.Taken? && s.id == id then Look(next, Some(i), empty)
      else Scan(m, next, id, i + 1, if s.Free? && empty.None? then Some(i) else empty)
  }

  /** The slot of a window, taking a free one for it when asked to. */
  function SlotOf(m: Wm, slots: seq<Slot>, id: int, create: bool): (r: (seq<Slot>, Option<nat>))
    ensures |r.0| == |slots|
    ensures r.1.Some? ==> r.1.value < |slots| && r.0[r.1.value].Taken? && r.0[r.1.value].id == id
  {
    if !Exists(m, id) then (slots, None)
    else
      var look := Scan(m, slots, id, 0, None);
      if look.found.Some? then (look.slots, look.found)
      else if !create || look.empty.None? then (look.slots, None)
      else (look.slots[look.empty.value := Taken(id, false, Rect(0, 0, 0, 0))], look.empty)
  }

  /** The active window is the one named and is not minimized. */
  predicate Ready(m: Wm, id: int) {
    m.active == id && Exists(m, id) && !m.wins[Find(m.wins, id)].minimized
  }

  /** As large as the screen allows, short of the bottom row. */
  function Grow(m: Wm, id: int): Wm {
    var grown := ResizeActive(m, GROW, GROW).0;
    if RectOf(grown, id).h > 4 then ResizeActive(grown, -1, 0).0 else grown
  }

  function Apply(m: Wm, id: int): (Wm, bool) {
    if !Ready(m, id) then (m, false)
    else
      var r := RectOf(m, id);
      var (moved, ok) := MoveActive(m, -r.y, -r.x);
      if !ok then (m, false)
      else
        var full := Grow(moved, id);
        (full, Full(RectOf(full, id)))
  }

  predicate Full(r: Rect) {
    r.y == 0 && r.x == 0 && r.h >= 4 && r.w >= 8
  }

  /** Gives a window a size and then a place, both by difference from what it has. */
  function PutBack(m: Wm, id: int, to: Rect): Wm {
    var r := RectOf(m, id);
    var sized := ResizeActive(m, to.h - r.h, to.w - r.w).0;
    var s := RectOf(sized, id);
    MoveActive(sized, to.y - s.y, to.x - s.x).0
  }

  function MaximizeWindow(m: Wm, slots: seq<Slot>, id: int): (Wm, seq<Slot>, bool) {
    if !Ready(m, id) then (m, slots, false)
    else
      var (looked, at) := SlotOf(m, slots, id, false);
      if at.Some? && looked[at.value].maximized then (m, looked, false)
      else
        var r := RectOf(m, id);
        var (full, ok) := Apply(m, id);
        if !ok then (full, looked, false)
        else
          var (taken, slot) := SlotOf(full, looked, id, true);
          if slot.None? then (PutBack(full, id, r), taken, false)
          else (full, taken[slot.value := Taken(id, true, r)], true)
  }

  function Unmaximize(m: Wm, slots: seq<Slot>, id: int): (Wm, seq<Slot>, bool) {
    var (looked, at) := SlotOf(m, slots, id, false);
    if at.None? || !looked[at.value].maximized || !Ready(m, id) then (m, looked, false)
    else (PutBack(m, id, looked[at.value].restore), looked[at.value := looked[at.value].(maximized := false)], true)
  }

  function IsMaximized(m: Wm, slots: seq<Slot>, id: int): (seq<Slot>, bool) {
    var (looked, at) := SlotOf(m, slots, id, false);
    (looked, at.Some? && looked[at.value].maximized)
  }

  function Toggle(m: Wm, slots: seq<Slot>, id: int): (Wm, seq<Slot>, bool) {
    var (looked, maximized) := IsMaximized(m, slots, id);
    if maximized then Unmaximize(m, looked, id) else MaximizeWindow(m, looked, id)
  }

  function Refresh(m: Wm, slots: seq<Slot>, id: int): (Wm, seq<Slot>, bool) {
    var (looked, maximized) := IsMaximized(m, slots, id);
    if !maximized then (m, looked, false)
    else
      var (full, ok) := Apply(m, id);
      (full, looked, ok)
  }
}
