/**
  What a composed frame looks like: each draw command as the rows of characters it puts on the
  screen, and which command a cell shows.
 */
module PictureLaws {
  import opened Basics
  import opened FrameDiff
  import opened Compositor

  /** Control characters and bytes past ASCII never reach a cell. */
  lemma SanitizeMeans(ch: Byte)
    ensures Sanitize(ch) == if ch == 0 then ' ' as Byte else if 0x20 <= ch <= 0x7E then ch else '?' as Byte
  {
  }

  /** The cell in row y and column x of a grid. */
  function CellAt(cells: seq<Cell>, rows: nat, cols: nat, y: nat, x: nat): Cell
    requires y < rows && x < cols && |cells| == rows * cols
  {
    IndexOf(rows, cols, y, x);
    cells[y * cols + x]
  }

  /** The cell after a command is what the command puts at that place of its region, or the cell before. */
  ghost predicate Puts(
      cells: seq<Cell>, rows: nat, cols: nat, cmd: DrawCommand, r: Region, y: nat, x: nat, p: Option<Cell>)
    requires y < rows && x < cols && |cells| == rows * cols
  {
    CellAt(Paint(cells, cols, cmd, r), rows, cols, y, x) ==
      if p.Some? then p.value else CellAt(cells, rows, cols, y, x)
  }

  lemma PaintedAt(cells: seq<Cell>, rows: nat, cols: nat, cmd: DrawCommand, r: Region, y: nat, x: nat)
    requires y < rows && x < cols && |cells| == rows * cols
    ensures Puts(cells, rows, cols, cmd, r, y, x,
                 if r.h <= 0 || r.w <= 0 then None else Painted(cmd, r.h, r.w, y - r.y, x - r.x))
  {
    hide Painted, RowOfIndex, ColOfIndex;
    IndexOf(rows, cols, y, x);
  }

  /** A fill covers just the part of its region that is on the screen. */
  lemma FillLooks(cells: seq<Cell>, rows: nat, cols: nat, ch: Byte, style: Style, r: Region, y: nat, x: nat)
    requires y < rows && x < cols && |cells| == rows * cols
    ensures Puts(cells, rows, cols, Fill(ch, style), r, y, x,
                 if r.y <= y < r.y + r.h && r.x <= x < r.x + r.w then Some(Cell(Sanitize(ch), style)) else None)
  {
    PaintedAt(cells, rows, cols, Fill(ch, style), r, y, x);
    hide Puts;
  }

  /** A text starts at its place in the region and is cut at the region's right edge. */
  lemma TextLooks(
      cells: seq<Cell>, rows: nat, cols: nat, ty: int, tx: int, text: Bytes, style: Style, r: Region, y: nat, x: nat)
    requires y < rows && x < cols && |cells| == rows * cols
    ensures var shown := if 0 <= ty < r.h && 0 <= tx < r.w then text[..Min(|text|, r.w - tx)] else [];
            var at := x - (r.x + tx);
            Puts(cells, rows, cols, Text(ty, tx, text, style), r, y, x,
                 if y == r.y + ty && 0 <= at < |shown| then Some(Cell(Sanitize(shown[at]), style)) else None)
  {
    PaintedAt(cells, rows, cols, Text(ty, tx, text, style), r, y, x);
    hide Puts;
  }

  /** A line covers just the part of it that is in the region. */
  lemma LineLooks(
      cells: seq<Cell>, rows: nat, cols: nat, hy: int, hx: int, len: int, ch: Byte, style: Style,
      r: Region, y: nat, x: nat)
    requires y < rows && x < cols && |cells| == rows * cols
    ensures Puts(cells, rows, cols, Hline(hy, hx, len, ch, style), r, y, x,
                 if && y == r.y + hy && 0 <= hy < r.h
                    && r.x + hx <= x < r.x + hx + len && r.x <= x < r.x + r.w
                 then Some(Cell(Sanitize(ch), style)) else None)
  {
    PaintedAt(cells, rows, cols, Hline(hy, hx, len, ch, style), r, y, x);
    hide Puts;
  }

  // ----- Boxes -----

  function Dashes(n: nat): Bytes {
    seq<Byte>(n, _ => '-' as Byte)
  }

  /** The bottom row of a box, and the top row of one without a title. */
  function Edge(w: nat): Bytes
    requires w > 0
  {
    if w == 1 then ['+' as Byte] else ['+' as Byte] + Dashes(w - 2) + ['+' as Byte]
  }

  /** As much of the title as fits between two corners and the blanks around it. */
  function FittingTitle(w: nat, title: Bytes): Bytes {
    if w <= 4 then [] else title[..Min(|title|, w - 4)]
  }

  /** The top row: a title stands two columns in, between blanks while there is room for the second one. */
  function TopEdge(w: nat, title: Bytes): Bytes
    requires w > 0
  {
    var t := FittingTitle(w, title);
    if t == [] then Edge(w)
    else
      ['+' as Byte, '-' as Byte, ' ' as Byte] + t
      + (if |t| < w - 4 then [' ' as Byte] + Dashes(w - 5 - |t|) else [])
      + ['+' as Byte]
  }

  /** The columns that the title and its blanks take. */
  predicate InTitle(w: nat, title: Bytes, x: int) {
    var t := FittingTitle(w, title);
    t != [] && 2 <= x < 3 + |t| + (if |t| < w - 4 then 1 else 0)
  }

  lemma TopEdgeLooks(w: nat, title: Bytes, x: nat)
    requires x < w
    ensures |TopEdge(w, title)| == w
    ensures var p := BoxTitle(w, title, DEFAULT_STYLE, 0, x);
            && (p.Some? <==> InTitle(w, title, x))
            && (p.Some? ==> p.value.ch == Sanitize(TopEdge(w, title)[x]))
            && (p.None? ==> TopEdge(w, title)[x] == if x == 0 || x == w - 1 then '+' as Byte else '-' as Byte)
  {
  }

  /**
    A box, row by row: the edge with the title, the sides where there is an inside and room for two of
    them, the lower edge. The inside is left as it was.
   */
  lemma BoxLooks(
      cells: seq<Cell>, rows: nat, cols: nat, title: Bytes, style: Style, titleStyle: Style, r: Region,
      y: nat, x: nat)
    requires y < rows && x < cols && |cells| == rows * cols
    ensures var v, u := y - r.y, x - r.x;
            Puts(cells, rows, cols, Box(title, style, titleStyle), r, y, x,
                 if !(0 <= v < r.h && 0 <= u < r.w) then None
                 else if v == 0 then
                   assert |TopEdge(r.w, title)| == r.w by { TopEdgeLooks(r.w, title, u); }
                   Some(Cell(Sanitize(TopEdge(r.w, title)[u]), if InTitle(r.w, title, u) then titleStyle else style))
                 else if v == r.h - 1 then Some(Cell(Edge(r.w)[u], style))
                 else if r.w > 1 && (u == 0 || u == r.w - 1) then Some(Cell('|' as Byte, style))
                 else None)
  {
    PaintedAt(cells, rows, cols, Box(title, style, titleStyle), r, y, x);
    hide Puts, TopEdge, InTitle;
    var v, u := y - r.y, x - r.x;
    if 0 <= v < r.h && 0 <= u < r.w {
      TopEdgeLooks(r.w, title, u);
      TitleStyled(r.w, title, titleStyle, v, u);
    }
  }

  lemma TitleStyled(w: nat, title: Bytes, style: Style, y: int, x: int)
    ensures BoxTitle(w, title, style, y, x) ==
            if y == 0 && BoxTitle(w, title, DEFAULT_STYLE, 0, x).Some? then
              Some(Cell(BoxTitle(w, title, DEFAULT_STYLE, 0, x).value.ch, style))
            else None
  {
  }

  // ----- Draw lists -----

  /** A cell shows what the last command of the list that puts anything there puts; without one it is left. */
  lemma {:induction false} LastPainterShows(
      cells: seq<Cell>, rows: nat, cols: nat, cmds: seq<DrawCommand>, r: Region, y: nat, x: nat)
    requires y < rows && x < cols && |cells| == rows * cols && r.h > 0 && r.w > 0
    ensures |PaintAll(cells, cols, cmds, r)| == rows * cols
    ensures var shown := CellAt(PaintAll(cells, cols, cmds, r), rows, cols, y, x);
            || (exists k :: 0 <= k < |cmds| && Painted(cmds[k], r.h, r.w, y - r.y, x - r.x) == Some(shown)
                  && forall j :: k < j < |cmds| ==> Painted(cmds[j], r.h, r.w, y - r.y, x - r.x).None?)
            || (shown == CellAt(cells, rows, cols, y, x)
                && forall j :: 0 <= j < |cmds| ==> Painted(cmds[j], r.h, r.w, y - r.y, x - r.x).None?)
    decreases |cmds|
  {
    hide Painted;
    if cmds != [] {
      var n := |cmds| - 1;
      var before := PaintAll(cells, cols, cmds[..n], r);
      LastPainterShows(cells, rows, cols, cmds[..n], r, y, x);
      PaintedAt(before, rows, cols, cmds[n], r, y, x);
      if Painted(cmds[n], r.h, r.w, y - r.y, x - r.x).None? {
        assert forall j :: 0 <= j < n ==> cmds[..n][j] == cmds[j];
      }
    }
  }
}
