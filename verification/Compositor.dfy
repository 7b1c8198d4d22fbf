/**
  What each draw command paints, cell by cell: the declarative side of composing a frame.
 */
module Compositor {
  import opened Basics
  import opened AnsiTerminal
  import opened FrameDiff

  datatype DrawCommand =
    | Fill(ch: Byte, style: Style)
    | Box(title: Bytes, style: Style, titleStyle: Style)
    | Text(y: int, x: int, text: Bytes, style: Style)
    | Hline(y: int, x: int, len: int, ch: Byte, style: Style)

  /** The region a draw list is composed into. */
  datatype Region = Region(y: int, x: int, h: int, w: int)

  function Ink(ch: Byte, style: Style): Option<Cell> {
    Some(Cell(Sanitize(ch), style))
  }

  /** The frame of a box: corners, edges, and for a narrow box corners only. */
  function BoxFrame(h: int, w: int, style: Style, y: int, x: int): Option<Cell> {
    if !(0 <= y < h && 0 <= x < w) then None
    else if (y == 0 || y == h - 1) && (x == 0 || x == w - 1) then Ink('+' as Byte, style)
    else if y == 0 || y == h - 1 then Ink('-' as Byte, style)
    else if (x == 0 || x == w - 1) && w > 1 then Ink('|' as Byte, style)
    else None
  }

  /** The title in the top edge, with a blank on each side while there is room. */
  function BoxTitle(w: int, title: Bytes, style: Style, y: int, x: int): Option<Cell> {
    var n := Min(|title|, w - 4);
    if title == [] || w <= 4 || y != 0 then None
    else if x == 2 || (x == 3 + n && n < w - 4) then Ink(0x20, style)
    else if 3 <= x < 3 + n then Ink(title[x - 3], style)
    else None
  }

  /** What a command paints at a cell, in coordinates of its region. */
  function Painted(cmd: DrawCommand, h: int, w: int, y: int, x: int): Option<Cell> {
    match cmd
    case Fill(ch, style) => if 0 <= y < h && 0 <= x < w then Ink(ch, style) else None
    case Box(title, style, titleStyle) =>
      var t := BoxTitle(w, title, titleStyle, y, x);
      if t.Some? then t else BoxFrame(h, w, style, y, x)
    case Text(ty, tx, text, style) =>
      if 0 <= ty < h && 0 <= tx < w && y == ty && tx <= x < tx + Min(|text|, w - tx)
      then Ink(text[x - tx], style) else None
    case Hline(hy, hx, len, ch, style) =>
      if 0 <= hy < h && y == hy && Max(hx, 0) <= x < Min(hx + len, w) then Ink(ch, style) else None
  }

  function RowOfIndex(i: nat, cols: nat): nat
    requires cols > 0
  {
    i / cols
  }

  function ColOfIndex(i: nat, cols: nat): nat
    requires cols > 0
  {
    i % cols
  }

  lemma IndexOf(rows: nat, cols: nat, y: nat, x: nat)
    requires y < rows && x < cols
    ensures y * cols + x < rows * cols
    ensures RowOfIndex(y * cols + x, cols) == y && ColOfIndex(y * cols + x, cols) == x
  {
    IndexInGrid(rows, cols, y, x);
    DivModOf(y, x, cols);
  }

  lemma {:induction false} DivModOf(y: nat, x: nat, cols: nat)
    requires x < cols
    ensures (y * cols + x) / cols == y && (y * cols + x) % cols == x
  {
    var i := y * cols + x;
    var q, r := i / cols, i % cols;
    assert i == q * cols + r;
    MulMonotone(q + 1, y, cols);
    MulMonotone(y + 1, q, cols);
    assert (q + 1) * cols == q * cols + cols && (y + 1) * cols == y * cols + cols;
  }

  /** A cell of the screen after a command. */
  function PaintCell(cmd: DrawCommand, r: Region, cols: nat, i: nat, before: Cell): Cell
    requires cols > 0
  {
    var p := if r.h <= 0 || r.w <= 0 then None
             else Painted(cmd, r.h, r.w, RowOfIndex(i, cols) - r.y, ColOfIndex(i, cols) - r.x);
    if p.Some? then p.value else before
  }

  function Paint(cells: seq<Cell>, cols: nat, cmd: DrawCommand, r: Region): seq<Cell>
    requires cols > 0
  {
    seq(|cells|, i requires 0 <= i < |cells| => PaintCell(cmd, r, cols, i, cells[i]))
  }

  /** A draw list paints its commands in order. */
  function PaintAll(cells: seq<Cell>, cols: nat, cmds: seq<DrawCommand>, r: Region): seq<Cell>
    requires cols > 0
    decreases |cmds|
  {
    if cmds == [] then cells
    else Paint(PaintAll(cells, cols, cmds[..|cmds| - 1], r), cols, cmds[|cmds| - 1], r)
  }
}
