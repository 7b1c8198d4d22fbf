/**
  The frame-diff renderer: two grids of cells, painted into and compared in place.
 */
module AnsiRenderers {
  import opened Basics
  import opened AnsiTerminal
  import opened FrameDiff
  import opened Decimals
  import opened AnsiBytes
  import opened Compositor

  const ZERO_CELL := Cell(0, Style(0, 0, false, false))

  /** What the renderer remembers between calls. */
  datatype State = State(ready: bool, rows: nat, cols: nat, valid: bool, prev: seq<Cell>, curr: seq<Cell>)

  class AnsiRenderer {
    var rows: nat
    var cols: nat
    var prev: array?<Cell>
    var curr: array?<Cell>
    var prevValid: bool

    ghost predicate Shaped()
      reads this, prev, curr
    {
      && (prev == null <==> curr == null)
      && (curr == null ==> !prevValid)
      && (curr != null ==>
            prev != curr && rows > 0 && cols > 0 && prev.Length == curr.Length == rows * cols)
    }

    /** The grids match the size, and the new frame holds printable characters only. */
    ghost predicate Valid()
      reads this, prev, curr
    {
      Shaped() && (curr != null ==> forall i :: 0 <= i < curr.Length ==> Printable(curr[i].ch))
    }

    ghost function Abs(): State
      reads this, prev, curr
    {
      State(curr != null, rows, cols, prevValid,
            if prev == null then [] else prev[..], if curr == null then [] else curr[..])
    }

    constructor ()
      ensures Valid() && !Abs().ready
    {
      rows, cols, prevValid := 0, 0, false;
      prev, curr := null, null;
    }

    // ----- Starting a frame -----

    method ResizeIfNeeded(rows': int, cols': int) returns (ok: bool)
      requires Shaped()
      modifies this
      ensures Shaped() && ok == (rows' > 0 && cols' > 0)
      ensures !ok || (old(curr) != null && old(rows) == rows' && old(cols) == cols') ==>
                rows == old(rows) && cols == old(cols) && prev == old(prev) && curr == old(curr)
                && prevValid == old(prevValid)
      ensures ok ==> curr != null && rows == rows' && cols == cols'
      ensures ok && !(old(curr) != null && old(rows) == rows' && old(cols) == cols') ==>
                !prevValid && fresh(prev) && fresh(curr)
    {
      if rows' <= 0 || cols' <= 0 {
        return false;
      }
      if rows == rows' && cols == cols' && prev != null && curr != null {
        return true;
      }
      IndexInGrid(rows', cols', rows' - 1, cols' - 1);
      var nextPrev := new Cell[rows' * cols'](_ => ZERO_CELL);
      var nextCurr := new Cell[rows' * cols'](_ => ZERO_CELL);
      prev, curr := nextPrev, nextCurr;
      rows, cols := rows', cols';
      prevValid := false;
      ok := true;
    }

    method ClearCurr()
      requires Shaped() && curr != null
      modifies curr
      ensures Valid() && forall i :: 0 <= i < curr.Length ==> curr[i] == Cell(0x20, DEFAULT_STYLE)
    {
      var i := 0;
      while i < curr.Length
        invariant 0 <= i <= curr.Length
        invariant forall j :: 0 <= j < i ==> curr[j] == Cell(0x20, DEFAULT_STYLE)
        invariant forall j :: i <= j < curr.Length ==> curr[j] == old(curr[j])
      {
        curr[i] := Cell(0x20, DEFAULT_STYLE);
        i := i + 1;
      }
    }

    method BeginFrame(rows': int, cols': int) returns (ok: bool)
      requires Valid()
      modifies this, curr
      ensures Valid() && ok == (rows' > 0 && cols' > 0)
      ensures BeginStep(old(Abs()), Abs(), rows', cols')
    {
      ok := ResizeIfNeeded(rows', cols');
      if !ok {
        return;
      }
      ClearCurr();
    }

    // ----- Composing -----

    /** Every cell has one row and one column on the screen. */
    lemma Grid()
      requires Shaped() && curr != null
      ensures forall i :: 0 <= i < curr.Length ==>
                && RowOfIndex(i, cols) < rows && ColOfIndex(i, cols) < cols
                && i == RowOfIndex(i, cols) * cols + ColOfIndex(i, cols)
    {
      forall i | 0 <= i < curr.Length
        ensures RowOfIndex(i, cols) < rows && ColOfIndex(i, cols) < cols
        ensures i == RowOfIndex(i, cols) * cols + ColOfIndex(i, cols)
      {
        RowOf(rows, cols, i);
      }
    }

    method WriteCell(y: nat, x: nat, cell: Cell)
      requires Valid() && curr != null && y < rows && x < cols && Printable(cell.ch)
      modifies curr
      ensures Valid()
      ensures forall i :: 0 <= i < curr.Length ==>
                curr[i] == if RowOfIndex(i, cols) == y && ColOfIndex(i, cols) == x then cell else old(curr[i])
    {
      Grid();
      IndexOf(rows, cols, y, x);
      curr[y * cols + x] := cell;
    }

    method SetCell(y: int, x: int, ch: Byte, style: Style)
      requires Valid() && curr != null
      modifies curr
      ensures Valid()
      ensures forall i :: 0 <= i < curr.Length ==>
                curr[i] == if RowOfIndex(i, cols) == y && ColOfIndex(i, cols) == x
                           then Cell(Sanitize(ch), style) else old(curr[i])
    {
      hide RowOfIndex, ColOfIndex;
      Grid();
      if y < 0 || x < 0 || y >= rows || x >= cols {
        return;
      }
      WriteCell(y, x, Cell(Sanitize(ch), style));
    }

    method ComposeFill(r: Region, ch: Byte, style: Style)
      requires Valid() && curr != null && r.h > 0 && r.w > 0
      modifies curr
      ensures Valid() && curr[..] == Paint(old(curr[..]), cols, Fill(ch, style), r)
    {
      hide RowOfIndex, ColOfIndex;
      Grid();
      var ink := Cell(Sanitize(ch), style);
      var yy := 0;
      while yy < r.h
        invariant 0 <= yy <= r.h && Valid()
        invariant forall i :: 0 <= i < curr.Length ==>
                    var y, x := RowOfIndex(i, cols) - r.y, ColOfIndex(i, cols) - r.x;
                    curr[i] == if 0 <= y < yy && 0 <= x < r.w then ink else old(curr[i])
      {
        var y := r.y + yy;
        if 0 <= y < rows {
          var xx := if r.x < 0 then 0 else r.x;
          var end := if r.x + r.w > cols then cols else r.x + r.w;
          while xx < end
            invariant r.x <= xx && 0 <= xx && Valid()
            invariant forall i :: 0 <= i < curr.Length ==>
                        var y', x := RowOfIndex(i, cols) - r.y, ColOfIndex(i, cols) - r.x;
                        curr[i] == if 0 <= x < r.w && (0 <= y' < yy || (y' == yy && x < xx - r.x))
                                   then ink else old(curr[i])
          {
            WriteCell(y, xx, ink);
            xx := xx + 1;
          }
        }
        yy := yy + 1;
      }
    }

    /** Paints one character along a row, left to right. */
    method PaintRow(y: int, x: int, chars: Bytes, style: Style)
      requires Valid() && curr != null
      modifies curr
      ensures Valid()
      ensures forall i :: 0 <= i < curr.Length ==>
                curr[i] == if RowOfIndex(i, cols) == y && x <= ColOfIndex(i, cols) < x + |chars|
                           then Cell(Sanitize(chars[ColOfIndex(i, cols) - x]), style) else old(curr[i])
    {
      hide RowOfIndex, ColOfIndex;
      var k := 0;
      while k < |chars|
        invariant 0 <= k <= |chars| && Valid()
        invariant forall i :: 0 <= i < curr.Length ==>
                    curr[i] == if RowOfIndex(i, cols) == y && x <= ColOfIndex(i, cols) < x + k
                               then Cell(Sanitize(chars[ColOfIndex(i, cols) - x]), style) else old(curr[i])
      {
        SetCell(y, x + k, chars[k], style);
        k := k + 1;
      }
    }

    method ComposeText(r: Region, ty: int, tx: int, text: Bytes, style: Style)
      requires Valid() && curr != null && r.h > 0 && r.w > 0
      modifies curr
      ensures Valid() && curr[..] == Paint(old(curr[..]), cols, Text(ty, tx, text, style), r)
    {
      hide RowOfIndex, ColOfIndex;
      if ty < 0 || ty >= r.h || tx < 0 || tx >= r.w {
        return;
      }
      var maxChars := r.w - tx;
      var n := if |text| > maxChars then maxChars else |text|;
      PaintRow(r.y + ty, r.x + tx, text[..n], style);
    }

    method ComposeHline(r: Region, y: int, x: int, len: int, ch: Byte, style: Style)
      requires Valid() && curr != null && r.h > 0 && r.w > 0
      modifies curr
      ensures Valid() && curr[..] == Paint(old(curr[..]), cols, Hline(y, x, len, ch, style), r)
    {
      hide RowOfIndex, ColOfIndex;
      if len <= 0 || y < 0 || y >= r.h {
        return;
      }
      var startX, n := x, len;
      if startX < 0 {
        n := n + startX;
        startX := 0;
      }
      if startX >= r.w || n <= 0 {
        return;
      }
      if startX + n > r.w {
        n := r.w - startX;
      }
      PaintRow(r.y + y, r.x + startX, seq<Byte>(n, _ => ch), style);
    }

    /** A horizontal edge of a box at least two cells wide. */
    method PaintEdge(y: int, x: int, w: int, style: Style)
      requires Valid() && curr != null && w > 1
      modifies curr
      ensures Valid()
      ensures forall i :: 0 <= i < curr.Length ==>
                var x' := ColOfIndex(i, cols) - x;
                curr[i] == if RowOfIndex(i, cols) == y && 0 <= x' < w
                           then Cell(if x' == 0 || x' == w - 1 then '+' as Byte else '-' as Byte, style)
                           else old(curr[i])
    {
      hide RowOfIndex, ColOfIndex;
      SetCell(y, x, '+' as Byte, style);
      PaintRow(y, x + 1, seq<Byte>(w - 2, _ => '-' as Byte), style);
      SetCell(y, x + w - 1, '+' as Byte, style);
    }

    method PaintFrame(r: Region, style: Style)
      requires Valid() && curr != null && r.h > 0 && r.w > 0
      modifies curr
      ensures Valid()
      ensures forall i :: 0 <= i < curr.Length ==>
                var p := BoxFrame(r.h, r.w, style, RowOfIndex(i, cols) - r.y, ColOfIndex(i, cols) - r.x);
                curr[i] == if p.Some? then p.value else old(curr[i])
    {
      hide RowOfIndex, ColOfIndex;
      if r.w == 1 {
        SetCell(r.y, r.x, '+' as Byte, style);
        if r.h > 1 {
          SetCell(r.y + r.h - 1, r.x, '+' as Byte, style);
        }
      } else {
        PaintEdge(r.y, r.x, r.w, style);
        if r.h > 1 {
          PaintEdge(r.y + r.h - 1, r.x, r.w, style);
        }
      }
      if r.w > 1 && r.h > 2 {
        label sides:
        var yy := 1;
        while yy < r.h - 1
          invariant 1 <= yy <= r.h - 1 && Valid()
          invariant forall i :: 0 <= i < curr.Length ==>
                      var y, x := RowOfIndex(i, cols) - r.y, ColOfIndex(i, cols) - r.x;
                      curr[i] == if 1 <= y < yy && (x == 0 || x == r.w - 1)
                                 then Cell('|' as Byte, style) else old@sides(curr[i])
        {
          SetCell(r.y + yy, r.x, '|' as Byte, style);
          SetCell(r.y + yy, r.x + r.w - 1, '|' as Byte, style);
          yy := yy + 1;
        }
      }
    }

    method ComposeBox(r: Region, title: Bytes, style: Style, titleStyle: Style)
      requires Valid() && curr != null && r.h > 0 && r.w > 0
      modifies curr
      ensures Valid() && curr[..] == Paint(old(curr[..]), cols, Box(title, style, titleStyle), r)
    {
      hide RowOfIndex, ColOfIndex;
      PaintFrame(r, style);
      if title != [] && r.w > 4 {
        var maxTitle := r.w - 4;
        var n := if |title| > maxTitle then maxTitle else |title|;
        SetCell(r.y, r.x + 2, 0x20, titleStyle);
        PaintRow(r.y, r.x + 3, title[..n], titleStyle);
        if n < maxTitle {
          SetCell(r.y, r.x + 3 + n, 0x20, titleStyle);
        }
      }
    }

    method Compose(r: Region, list: seq<DrawCommand>)
      requires Valid()
      modifies curr
      ensures Valid()
      ensures ComposeStep(old(Abs()), Abs())
      ensures curr != null ==>
                curr[..] == if r.h <= 0 || r.w <= 0 then old(curr[..]) else PaintAll(old(curr[..]), cols, list, r)
    {
      if r.h <= 0 || r.w <= 0 || curr == null {
        return;
      }
      var k := 0;
      while k < |list|
        invariant 0 <= k <= |list| && Valid()
        invariant curr[..] == PaintAll(old(curr[..]), cols, list[..k], r)
      {
        assert list[..k + 1][..k] == list[..k];
        match list[k] {
          case Fill(ch, style) => ComposeFill(r, ch, style);
          case Box(title, style, titleStyle) => ComposeBox(r, title, style, titleStyle);
          case Text(y, x, text, style) => ComposeText(r, y, x, text, style);
          case Hline(y, x, len, ch, style) => ComposeHline(r, y, x, len, ch, style);
        }
        k := k + 1;
      }
      assert list[..k] == list;
    }

    // ----- Flushing -----

    /** The state of the grids from `idx` on is that of the diff being flushed. */
    ghost predicate Matches(d: Diff, idx: nat)
      reads this, prev, curr
    {
      && Shaped() && curr != null && DiffOk(d, rows)
      && d.cols == cols && d.valid == prevValid && d.curr == curr[..]
      && forall i :: idx <= i < prev.Length ==> d.prev[i] == prev[i]
    }

    method IsDirty(ghost d: Diff, ghost idx: nat, i: nat) returns (dirty: bool)
      requires Matches(d, idx) && idx <= i < curr.Length
      ensures dirty == Dirty(d, i)
      ensures !dirty ==> prev[i] == curr[i]
    {
      dirty := !(prevValid && prev[i] == curr[i]);
    }

    /**
      Peeks past clean cells of the run's style, at most four of them, for another dirty one. With
      none in reach the run cannot be made longer.
     */
    method Bridge(ghost d: Diff, idx: nat, runEnd: nat, rowLimit: nat) returns (found: bool, peek: nat)
      requires Matches(d, idx) && idx < runEnd < rowLimit == RowEnd(cols, idx) && rowLimit <= curr.Length
      requires !Dirty(d, runEnd) && SameStyle(d, idx, runEnd, runEnd + 1)
      ensures found ==> runEnd < peek <= runEnd + BRIDGE_GAP && peek < rowLimit && Dirty(d, peek)
      ensures found ==> SameStyle(d, idx, runEnd, peek + 1)
      ensures !found ==> Maximal(d, Run(idx, runEnd))
    {
      hide RowEnd;
      var style := curr[idx].style;
      var gap := 0;
      peek := runEnd;
      while peek < curr.Length && peek < rowLimit && gap < BRIDGE_GAP
        invariant runEnd <= peek <= rowLimit && gap == peek - runEnd <= BRIDGE_GAP
        invariant SameStyle(d, idx, runEnd, peek)
        invariant forall j :: runEnd <= j < peek ==> !Dirty(d, j)
      {
        if curr[peek].style != style {
          break;
        }
        var dirty := IsDirty(d, idx, peek);
        if dirty {
          break;
        }
        peek := peek + 1;
        gap := gap + 1;
      }
      found := false;
      if peek < curr.Length && peek < rowLimit && curr[peek].style == style {
        found := IsDirty(d, idx, peek);
      }
    }

    /** Extends a run from a dirty cell as far as it may go. */
    method RunEndFrom(ghost d: Diff, idx: nat) returns (runEnd: nat)
      requires Matches(d, idx) && idx < curr.Length && Dirty(d, idx)
      ensures RunOk(d, Run(idx, runEnd)) && Maximal(d, Run(idx, runEnd))
    {
      hide RowEnd, Dirty;
      RowOf(rows, cols, idx);
      runEnd := idx + 1;
      var rowLimit := RowEnd(cols, idx);
      var style := curr[idx].style;
      while runEnd < curr.Length && runEnd < rowLimit
        invariant RunOk(d, Run(idx, runEnd))
      {
        if style != curr[runEnd].style {
          return;
        }
        var dirty := IsDirty(d, idx, runEnd);
        if !dirty {
          var found, peek := Bridge(d, idx, runEnd, rowLimit);
          if !found {
            return;
          }
          RunBridged(d, idx, runEnd, peek);
          runEnd := peek + 1;
        } else {
          RunBridged(d, idx, runEnd, runEnd);
          runEnd := runEnd + 1;
        }
      }
    }

    /** Writes the cells of a run; cells that are all alike are repeated. */
    method EmitRun(start: nat, end: nat) returns (out: Bytes)
      requires Shaped() && curr != null && start < end <= curr.Length
      ensures out == Chars(curr[..], start, end)
    {
      var first := curr[start].ch;
      var allSame := true;
      var i := start + 1;
      while i < end && allSame
        invariant start < i <= end
        invariant allSame ==> forall j :: start <= j < i ==> curr[j].ch == first
      {
        if curr[i].ch != first {
          allSame := false;
        }
        i := i + 1;
      }
      if allSame {
        out := Repeat(first, end - start);
        return;
      }
      out := [];
      i := start;
      while i < end
        invariant start <= i <= end && out == Chars(curr[..], start, i)
      {
        var one := Repeat(curr[i].ch, 1);
        out := out + one;
        i := i + 1;
      }
    }

    static method Repeat(ch: Byte, count: nat) returns (out: Bytes)
      ensures out == seq<Byte>(count, _ => Sanitize(ch))
    {
      var c := Sanitize(ch);
      out := [];
      var i := 0;
      while i < count
        invariant i <= count && out == seq<Byte>(i, _ => Sanitize(ch))
      {
        out := out + [c];
        i := i + 1;
      }
    }

    /** Moves the cursor to a cell, counted from zero. */
    static method Move(y: nat, x: nat) returns (out: Bytes)
      ensures out == Printed(MoveTo(y + 1, x + 1))
    {
      out := CSI + Decimal(y + 1) + [SEMICOLON] + Decimal(x + 1) + ['H' as Byte];
      JoinedTwo(y + 1, x + 1);
    }

    /** Resets the rendition and sets that of a style. */
    static method SetStyle(style: Style) returns (out: Bytes)
      ensures out == Printed(Sgr(SgrParams(style)))
    {
      hide Joined, Decimal;
      var fg, bg := FgCode(style.fg), BgCode(style.bg);
      ghost var params := [0, fg, bg];
      out := CSI + ['0' as Byte, SEMICOLON] + Decimal(fg) + [SEMICOLON] + Decimal(bg);
      JoinedStyle(fg, bg);
      if style.bold {
        out := out + [SEMICOLON, '1' as Byte];
        JoinedDigit(params, 1);
        params := params + [1];
      }
      if style.reverse {
        out := out + [SEMICOLON, '7' as Byte];
        JoinedDigit(params, 7);
        params := params + [7];
      }
      assert params == SgrParams(style) && out == CSI + Joined(params);
      out := out + ['m' as Byte];
    }

    /** The bytes of one run, with a style change only where the style changes. */
    method DrawRun(ghost d: Diff, start: nat, end: nat, active: Option<Style>) returns (out: Bytes)
      requires Matches(d, start) && start < end <= curr.Length
      ensures out == PrintedAll(RunTokens(d, Run(start, end), active))
    {
      hide Chars, Prints, SgrParams, Printed, PrintedAll;
      var style := curr[start].style;
      out := Move(start / cols, start % cols);
      ghost var tokens := [MoveTo(start / cols + 1, start % cols + 1)];
      PrintedOne(tokens[0]);
      if active != Some(style) {
        var change := SetStyle(style);
        out := out + change;
        PrintedOne(Sgr(SgrParams(style)));
        PrintedJoin(tokens, [Sgr(SgrParams(style))]);
        tokens := tokens + [Sgr(SgrParams(style))];
      }
      var chars := EmitRun(start, end);
      out := out + chars;
      PrintedChars(chars);
      PrintedJoin(tokens, Prints(chars));
      assert tokens + Prints(chars) == RunTokens(d, Run(start, end), active);
    }

    method CopyRun(ghost d: Diff, start: nat, end: nat)
      requires Matches(d, start) && start <= end <= curr.Length
      modifies prev
      ensures Matches(d, end) && curr[..] == old(curr[..])
      ensures forall j :: 0 <= j < start ==> prev[j] == old(prev[j])
      ensures forall j :: start <= j < end ==> prev[j] == curr[j]
    {
      var i := start;
      while i < end
        invariant start <= i <= end
        invariant forall j :: 0 <= j < start || i <= j < prev.Length ==> prev[j] == old(prev[j])
        invariant forall j :: start <= j < i ==> prev[j] == curr[j]
        invariant forall j :: 0 <= j < curr.Length ==> curr[j] == old(curr[j])
      {
        prev[i] := curr[i];
        i := i + 1;
      }
    }

    /** Draws the run that starts at a dirty cell and copies it to the remembered frame. */
    method FlushRun(ghost d: Diff, idx: nat, active: Option<Style>) returns (runEnd: nat, out: Bytes)
      requires Matches(d, idx) && idx < curr.Length && Dirty(d, idx)
      modifies prev
      ensures idx < runEnd <= curr.Length && Matches(d, runEnd) && curr[..] == old(curr[..])
      ensures RunOk(d, Run(idx, runEnd)) && Maximal(d, Run(idx, runEnd))
      ensures out == PrintedAll(RunTokens(d, Run(idx, runEnd), active))
      ensures forall j :: 0 <= j < idx ==> prev[j] == old(prev[j])
      ensures forall j :: idx <= j < runEnd ==> prev[j] == curr[j]
    {
      hide RunOk, Maximal, RowEnd, RunTokens, Dirty, PrintedAll;
      runEnd := RunEndFrom(d, idx);
      RunBounds(d, Run(idx, runEnd));
      out := DrawRun(d, idx, runEnd, active);
      CopyRun(d, idx, runEnd);
    }

    method Flush() returns (out: Bytes)
      requires Valid()
      modifies this`prevValid, prev
      ensures Valid()
      ensures FlushStep(old(Abs()), Abs(), out)
    {
      hide RunOk, Maximal, RowEnd, RunTokens, GoodRuns, Emit, LastStyle, Printable, Dirty, PrintedAll;
      if curr == null {
        return [];
      }
      ghost var d := DiffOf(Abs());
      ghost var runs := [];
      NoRunsYet(d);
      NothingPrinted();
      out := if prevValid then [] else CLEAR;
      ghost var opening := out;
      var active: Option<Style> := None;
      var idx := 0;
      while idx < curr.Length
        invariant idx <= curr.Length && Valid() && Matches(d, idx)
        invariant forall j :: 0 <= j < idx ==> prev[j] == curr[j]
        invariant GoodRuns(d, runs, idx) && RunsWithin(d, runs)
        invariant active == LastStyle(d, runs)
        invariant out == opening + PrintedAll(Emit(d, runs))
      {
        var dirty := IsDirty(d, idx, idx);
        if !dirty {
          GoodRunsSkip(d, runs, idx);
          idx := idx + 1;
          continue;
        }
        var runEnd, bytes := FlushRun(d, idx, active);
        ghost var r := Run(idx, runEnd);
        GoodRunsSnoc(d, runs, idx, r);
        EmitSnoc(d, runs, r);
        PrintedJoin(Emit(d, runs), RunTokens(d, r, active));
        out := out + bytes;
        active := Some(curr[idx].style);
        runs := runs + [r];
        idx := runEnd;
      }
      prevValid := true;
      out := out + RESET;
      ResetIs();
      assert out == FlushBytes(d, runs);
      assert prev[..] == curr[..];
    }
  }

  ghost function DiffOf(s: State): Diff {
    Diff(s.cols, s.valid, s.prev, s.curr)
  }

  // ----- The calls as steps -----

  ghost predicate BeginStep(s: State, s': State, rows: int, cols: int) {
    if rows <= 0 || cols <= 0 then s' == s
    else
      && s'.ready && s'.rows == rows && s'.cols == cols
      && |s'.prev| == |s'.curr| == rows * cols
      && (forall i :: 0 <= i < |s'.curr| ==> s'.curr[i] == Cell(0x20, DEFAULT_STYLE))
      && (if s.ready && s.rows == rows && s.cols == cols then s'.valid == s.valid && s'.prev == s.prev
          else !s'.valid)
  }

  /** A flush writes good runs and remembers the frame; before the first frame it writes nothing. */
  ghost predicate FlushStep(s: State, s': State, out: Bytes) {
    if !s.ready then s' == s && out == []
    else
      && DiffOk(DiffOf(s), s.rows)
      && s' == s.(valid := true, prev := s.curr)
      && exists runs ::
           && GoodRuns(DiffOf(s), runs, |s.curr|) && RunsWithin(DiffOf(s), runs)
           && out == FlushBytes(DiffOf(s), runs)
  }

  // ----- Whole sessions -----

  /** Composing paints into the new frame and touches nothing else. */
  ghost predicate ComposeStep(s: State, s': State) {
    && s' == s.(curr := s'.curr) && |s'.curr| == |s.curr|
    && forall i :: 0 <= i < |s'.curr| ==> Printable(s'.curr[i].ch)
  }

  datatype Call = BeginFrame(rows: int, cols: int) | ComposeList | FlushFrame

  /**
    A call on the renderer with the terminal that reads what it writes, byte by byte. When a frame
    begins at a new size the terminal has that size, with any contents, and is not in the middle of
    a control sequence; otherwise only a flush changes it.
   */
  ghost predicate SessionStep(s: State, t: ByteTerminal, call: Call, s': State, t': ByteTerminal) {
    match call
    case BeginFrame(rows, cols) =>
      && BeginStep(s, s', rows, cols)
      && (if rows <= 0 || cols <= 0 || (s.ready && s.rows == rows && s.cols == cols) then t' == t
          else TerminalOk(t'.term) && t'.term.rows == rows && t'.term.cols == cols && t'.scan == Ground)
    case ComposeList => ComposeStep(s, s') && t' == t
    case FlushFrame =>
      exists out ::
        && FlushStep(s, s', out)
        && (if s.ready then TerminalOk(t.term) && t' == FeedAll(t, out) else t' == t)
  }

  /** Between calls a remembered frame is what the terminal shows. */
  ghost predicate InStep(s: State, t: ByteTerminal) {
    s.ready ==>
      && DiffOk(DiffOf(s), s.rows)
      && (forall i :: 0 <= i < |s.curr| ==> Printable(s.curr[i].ch))
      && TerminalOk(t.term) && t.term.rows == s.rows && t.term.cols == s.cols && t.scan == Ground
      && (s.valid ==> t.term.cells == ShownAll(s.prev))
  }

  lemma StepStaysInStep(s: State, t: ByteTerminal, call: Call, s': State, t': ByteTerminal)
    requires InStep(s, t) && SessionStep(s, t, call, s', t')
    ensures InStep(s', t')
    ensures call.FlushFrame? && s.ready ==>
              && s'.prev == s'.curr == s.curr && s'.valid && |t'.term.cells| == |s.curr|
              && forall i :: 0 <= i < |s.curr| ==>
                   var style := s.curr[i].style;
                   t'.term.cells[i] ==
                     Glyph(s.curr[i].ch, Attr(if 0 <= style.fg <= 7 then style.fg else -1,
                                              if 0 <= style.bg <= 7 then style.bg else -1, style.bold, style.reverse))
  {
    hide Interpret, FlushTokens, FlushBytes, FeedAll, GoodRuns;
    if call.FlushFrame? && s.ready {
      var out :| FlushStep(s, s', out) && t' == FeedAll(t, out);
      var runs :| && GoodRuns(DiffOf(s), runs, |s.curr|) && RunsWithin(DiffOf(s), runs)
                  && out == FlushBytes(DiffOf(s), runs);
      FeedFlush(t.term, DiffOf(s), runs);
      FlushShowsFrame(t.term, DiffOf(s), s.rows, runs);
      forall i | 0 <= i < |s.curr|
        ensures t'.term.cells[i] == Glyph(s.curr[i].ch, ShownAttr(s.curr[i].style))
      {
        assert ShownAll(s.curr)[i] == Shown(s.curr[i]);
      }
    }
  }

  lemma StartsInStep(s: State, t: ByteTerminal)
    requires !s.ready
    ensures InStep(s, t)
  {
  }

  /** A run of calls from a fresh renderer. */
  ghost predicate Session(states: seq<State>, terms: seq<ByteTerminal>, calls: seq<Call>) {
    && |states| == |terms| == |calls| + 1 && !states[0].ready
    && forall i :: 0 <= i < |calls| ==> SessionStep(states[i], terms[i], calls[i], states[i + 1], terms[i + 1])
  }

  /**
    Over every run of frames, resizes and flushes, after each flush the terminal that reads the bytes
    written shows exactly the composed frame, in character and in style, and the renderer remembers it.
   */
  lemma {:induction false} EveryFlushShowsItsFrame(
      states: seq<State>, terms: seq<ByteTerminal>, calls: seq<Call>, i: nat)
    requires Session(states, terms, calls) && i < |calls|
    ensures InStep(states[i + 1], terms[i + 1])
    ensures calls[i].FlushFrame? && states[i].ready ==>
              && states[i + 1].prev == states[i + 1].curr == states[i].curr
              && |terms[i + 1].term.cells| == |states[i].curr|
              && forall k :: 0 <= k < |states[i].curr| ==>
                   var cell := states[i].curr[k];
                   terms[i + 1].term.cells[k] ==
                     Glyph(cell.ch, Attr(if 0 <= cell.style.fg <= 7 then cell.style.fg else -1,
                                         if 0 <= cell.style.bg <= 7 then cell.style.bg else -1,
                                         cell.style.bold, cell.style.reverse))
  {
    hide SessionStep, InStep;
    StartsInStep(states[0], terms[0]);
    if i > 0 {
      EveryFlushShowsItsFrame(states, terms, calls, i - 1);
    }
    StepStaysInStep(states[i], terms[i], calls[i], states[i + 1], terms[i + 1]);
  }
}
