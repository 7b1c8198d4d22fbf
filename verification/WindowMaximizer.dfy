/**
  The table of maximized windows beside the window manager, and the calls that maximize, put back
  and refresh the active window.
 */
module WindowMaximizers {
  import opened Basics
  import opened Windows
  import opened Maximize
  import M = WindowManagers

  class WindowMaximizer {
    const wm: M.WindowManager
    const slots: array<Slot>

    constructor (wm: M.WindowManager)
      ensures this.wm == wm && fresh(slots) && slots.Length == 64 && forall k :: 0 <= k < 64 ==> slots[k] == Free
    {
      this.wm := wm;
      slots := new Slot[SLOTS](_ => Free);
    }

    /** The slot of a window, taking a free one for it when asked to; slots of windows that are gone are freed. */
    method MaximizeSlot(id: int, create: bool) returns (at: Option<nat>)
      requires wm.Valid()
      modifies slots
      ensures (slots[..], at) == SlotOf(wm.V(), old(slots[..]), id, create)
    {
      hide Exists, M.WindowManager.Values, M.WindowManager.DragValue;
      ghost var m := wm.V();
      var isOpen := WindowExists(id);
      if !isOpen {
        return None;
      }
      var empty: Option<nat> := None;
      var i := 0;
      while i < slots.Length
        invariant i <= slots.Length && (empty.Some? ==> empty.value < i) && wm.V() == m
        invariant Scan(m, slots[..], id, i, empty) == Scan(m, old(slots[..]), id, 0, None)
      {
        ghost var was := slots[..];
        FreshenSlot(i);
        assert slots[..] == was[i := Freshen(m, was[i])];
        var slot := slots[i];
        if slot.Taken? && slot.id == id {
          return Some(i);
        }
        if slot.Free? && empty.None? {
          empty := Some(i);
        }
        i := i + 1;
      }
      if !create || empty.None? {
        return None;
      }
      ghost var swept := slots[..];
      slots[empty.value] := Taken(id, false, Rect(0, 0, 0, 0));
      assert slots[..] == swept[empty.value := Taken(id, false, Rect(0, 0, 0, 0))];
      at := empty;
    }

    /** Frees a slot whose window is gone. */
    method FreshenSlot(i: nat)
      requires wm.Valid() && i < slots.Length
      modifies slots
      ensures slots[..] == old(slots[..])[i := Freshen(wm.V(), old(slots[i]))] && wm.V() == old(wm.V())
    {
      hide Exists, M.WindowManager.DragValue, M.WindowManager.Values;
      var slot := slots[i];
      if slot.Taken? {
        var isOpen := WindowExists(slot.id);
        if !isOpen {
          slots[i] := Free;
        }
      }
    }

    method WindowExists(id: int) returns (isOpen: bool)
      requires wm.Valid()
      ensures isOpen == Exists(wm.V(), id)
    {
      var k := wm.FindIndex(id);
      isOpen := k < |wm.windows|;
    }

    /** The active window is the one named and is not minimized. */
    method IsReady(id: int) returns (ready: bool)
      requires wm.Valid()
      ensures ready == Ready(wm.V(), id)
    {
      var k := wm.FindIndex(id);
      ready := wm.activeId == id && k < |wm.windows| && !wm.windows[k].minimized;
    }

    method Geometry(id: int) returns (r: Rect)
      requires wm.Valid()
      ensures r == RectOf(wm.V(), id)
    {
      var k := wm.FindIndex(id);
      if k == |wm.windows| {
        return Rect(0, 0, 0, 0);
      }
      var window := wm.windows[k];
      r := Rect(window.y, window.x, window.h, window.w);
    }

    method ApplyMaximizedGeometry(id: int) returns (ok: bool)
      requires wm.Valid()
      modifies wm.Objs()
      ensures (wm.V(), ok) == Apply(old(wm.V()), id)
    {
      hide M.WindowManager.V, M.WindowManager.Wins, M.WindowManager.Values, M.WindowManager.DragValue, MoveActive,
        Grow, Ready, RectOf, Full;
      var ready := IsReady(id);
      if !ready {
        return false;
      }
      var r := Geometry(id);
      var moved := wm.MoveActiveWindow(-r.y, -r.x);
      if !moved {
        MoveFails(old(wm.V()), -r.y, -r.x);
        return false;
      }
      GrowActive(id);
      r := Geometry(id);
      ok := Full(r);
    }

    /** As large as the screen allows, short of the bottom row. */
    method GrowActive(id: int)
      requires wm.Valid()
      modifies wm.Objs()
      ensures wm.V() == Grow(old(wm.V()), id)
    {
      hide M.WindowManager.V, M.WindowManager.Wins, M.WindowManager.Values, M.WindowManager.DragValue,
        ResizeActive, RectOf;
      var _ := wm.ResizeActiveWindow(GROW, GROW);
      var r := Geometry(id);
      if r.h > 4 {
        var _ := wm.ResizeActiveWindow(-1, 0);
      }
    }

    static lemma MoveFails(m: Wm, dy: int, dx: int)
      ensures !MoveActive(m, dy, dx).1 ==> MoveActive(m, dy, dx).0 == m
    {
    }

    /** Gives the active window a size and then a place. */
    method PutWindowBack(id: int, to: Rect)
      requires wm.Valid()
      modifies wm.Objs()
      ensures wm.V() == PutBack(old(wm.V()), id, to)
    {
      hide M.WindowManager.V, M.WindowManager.Wins, M.WindowManager.Values, M.WindowManager.DragValue, MoveActive,
        ResizeActive, RectOf;
      var r := Geometry(id);
      var _ := wm.ResizeActiveWindow(to.h - r.h, to.w - r.w);
      r := Geometry(id);
      var _ := wm.MoveActiveWindow(to.y - r.y, to.x - r.x);
    }

    method MaximizeActive(id: int) returns (ok: bool)
      requires wm.Valid()
      modifies slots, wm.Objs()
      ensures (wm.V(), slots[..], ok) == MaximizeWindow(old(wm.V()), old(slots[..]), id)
    {
      hide M.WindowManager.Values, M.WindowManager.DragValue, SlotOf, Apply, PutBack, Ready, RectOf;
      var ready := IsReady(id);
      if !ready {
        return false;
      }
      var existing := MaximizeSlot(id, false);
      if existing.Some? && slots[existing.value].maximized {
        return false;
      }
      var r := Geometry(id);
      var applied := ApplyMaximizedGeometry(id);
      if !applied {
        return false;
      }
      var slot := MaximizeSlot(id, true);
      if slot.None? {
        PutWindowBack(id, r);
        return false;
      }
      slots[slot.value] := Taken(id, true, r);
      ok := true;
    }

    method UnmaximizeActive(id: int) returns (ok: bool)
      requires wm.Valid()
      modifies slots, wm.Objs()
      ensures (wm.V(), slots[..], ok) == Unmaximize(old(wm.V()), old(slots[..]), id)
    {
      hide M.WindowManager.Values, M.WindowManager.DragValue, SlotOf, PutBack, Ready;
      var slot := MaximizeSlot(id, false);
      var ready := IsReady(id);
      if slot.None? || !slots[slot.value].maximized || !ready {
        return false;
      }
      PutWindowBack(id, slots[slot.value].restore);
      slots[slot.value] := slots[slot.value].(maximized := false);
      ok := true;
    }

    method WindowIsMaximized(id: int) returns (b: bool)
      requires wm.Valid()
      modifies slots
      ensures (slots[..], b) == IsMaximized(wm.V(), old(slots[..]), id)
    {
      hide M.WindowManager.Values, M.WindowManager.DragValue, SlotOf;
      var slot := MaximizeSlot(id, false);
      b := slot.Some? && slots[slot.value].maximized;
    }

    method ToggleMaximize(id: int) returns (ok: bool)
      requires wm.Valid()
      modifies slots, wm.Objs()
      ensures (wm.V(), slots[..], ok) == Toggle(old(wm.V()), old(slots[..]), id)
    {
      hide M.WindowManager.Values, M.WindowManager.DragValue, IsMaximized, Unmaximize, MaximizeWindow;
      var maximized := WindowIsMaximized(id);
      if maximized {
        ok := UnmaximizeActive(id);
      } else {
        ok := MaximizeActive(id);
      }
    }

    method RefreshMaximized(id: int) returns (ok: bool)
      requires wm.Valid()
      modifies slots, wm.Objs()
      ensures (wm.V(), slots[..], ok) == Refresh(old(wm.V()), old(slots[..]), id)
    {
      hide M.WindowManager.Values, M.WindowManager.DragValue, IsMaximized, Apply;
      var maximized := WindowIsMaximized(id);
      if !maximized {
        return false;
      }
      ok := ApplyMaximizedGeometry(id);
    }
  }
}
