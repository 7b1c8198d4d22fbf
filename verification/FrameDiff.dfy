/**
  What a flush emits: the runs of cells that cover every change of a frame, and the tokens that
  draw them. Interpreting those tokens turns the old screen into the new frame.
 */
module FrameDiff {
  import opened Basics
  import opened AnsiTerminal

  datatype Style = Style(fg: int, bg: int, reverse: bool, bold: bool)

  const DEFAULT_STYLE := Style(-1, -1, false, false)

  datatype Cell = Cell(ch: Byte, style: Style)

  /** What a cell may hold on its way to a terminal. */
  function Sanitize(ch: Byte): Byte {
    if ch == 0 then 0x20 else if ch < 0x20 || ch > 0x7E then 0x3F else ch
  }

  predicate Printable(ch: Byte) {
    0x20 <= ch <= 0x7E
  }

  function FgCode(color: int): nat {
    if 0 <= color <= 7 then 30 + color else 39
  }

  function BgCode(color: int): nat {
    if 0 <= color <= 7 then 40 + color else 49
  }

  function SgrParams(s: Style): seq<nat> {
    [0, FgCode(s.fg), BgCode(s.bg)] + (if s.bold then [1] else []) + (if s.reverse then [7] else [])
  }

  function ShownColor(color: int): int {
    if 0 <= color <= 7 then color else -1
  }

  function ShownAttr(s: Style): Attr {
    Attr(ShownColor(s.fg), ShownColor(s.bg), s.bold, s.reverse)
  }

  /** The glyph that shows a cell: its character and its style, unknown colours as the default. */
  function Shown(c: Cell): Glyph {
    Glyph(Sanitize(c.ch), ShownAttr(c.style))
  }

  function ShownAll(cells: seq<Cell>): seq<Glyph> {
    seq(|cells|, i requires 0 <= i < |cells| => Shown(cells[i]))
  }

  lemma SgrOne(a: Attr, params: seq<nat>)
    requires params != []
    ensures ApplySgrs(a, params) == ApplySgrs(ApplySgr(a, params[0]), params[1..])
  {
  }

  function SgrTail(s: Style): seq<nat> {
    (if s.bold then [1] else []) + (if s.reverse then [7] else [])
  }

  lemma SgrTailSets(a: Attr, s: Style)
    ensures ApplySgrs(a, SgrTail(s)) == a.(bold := a.bold || s.bold, reverse := a.reverse || s.reverse)
  {
    var tail := SgrTail(s);
    if s.bold {
      SgrOne(a, tail);
      assert tail[1..] == if s.reverse then [7] else [];
    }
    if s.reverse {
      SgrOne(a, [7]);
      SgrOne(a.(bold := true), [7]);
      assert [7][1..] == [];
    }
  }

  /** Whatever the rendition was, the parameters of a style set exactly that style. */
  lemma SgrSetsStyle(a: Attr, s: Style)
    ensures ApplySgrs(a, SgrParams(s)) == ShownAttr(s)
  {
    hide ApplySgrs;
    var p := SgrParams(s);
    assert p[1..] == [FgCode(s.fg), BgCode(s.bg)] + SgrTail(s);
    assert p[1..][1..] == [BgCode(s.bg)] + SgrTail(s);
    assert p[1..][1..][1..] == SgrTail(s);
    SgrOne(a, p);
    SgrOne(DEFAULT_ATTR, p[1..]);
    SgrOne(ApplySgr(DEFAULT_ATTR, FgCode(s.fg)), p[1..][1..]);
    SgrTailSets(Attr(ShownColor(s.fg), ShownColor(s.bg), false, false), s);
  }

  // ----- Runs -----

  /** A frame against the last one shown, in rows of `cols` cells. */
  datatype Diff = Diff(cols: nat, valid: bool, prev: seq<Cell>, curr: seq<Cell>)

  ghost predicate DiffOk(d: Diff, rows: nat) {
    rows > 0 && d.cols > 0 && |d.prev| == |d.curr| == rows * d.cols
  }

  datatype Run = Run(start: nat, end: nat)

  /** Cells that must be drawn: all of them on a first frame, the changed ones afterwards. */
  predicate Dirty(d: Diff, i: nat)
    requires i < |d.prev| == |d.curr|
  {
    !d.valid || d.prev[i] != d.curr[i]
  }

  function RowEnd(cols: nat, i: nat): nat
    requires cols > 0
  {
    (i / cols + 1) * cols
  }

  /** The cells from..to lie in one row and one style with the cell at `i`. */
  ghost predicate SameStyle(d: Diff, i: nat, from: nat, to: nat)
    requires i < |d.curr| && to <= |d.curr|
  {
    forall j :: from <= j < to ==> d.curr[j].style == d.curr[i].style
  }

  const BRIDGE_GAP := 4

  /** One of the five cells from `i` on is dirty. */
  ghost predicate DirtySoon(d: Diff, i: nat)
    requires |d.prev| == |d.curr|
  {
    exists j: nat :: i <= j <= i + BRIDGE_GAP && j < |d.curr| && Dirty(d, j)
  }

  /**
    A run stays in one row and one style, starts and ends on a dirty cell, and never spans more
    than four clean cells in a row.
   */
  ghost predicate RunOk(d: Diff, r: Run)
    requires d.cols > 0 && |d.prev| == |d.curr|
  {
    && r.start < r.end <= |d.curr| && r.end <= RowEnd(d.cols, r.start)
    && SameStyle(d, r.start, r.start, r.end)
    && Dirty(d, r.start) && Dirty(d, r.end - 1)
    && forall i: nat :: r.start <= i && i + BRIDGE_GAP < r.end ==> DirtySoon(d, i)
  }

  /** No dirty cell of the run's row can be reached from its end over at most four cells of its style. */
  ghost predicate Maximal(d: Diff, r: Run)
    requires d.cols > 0 && |d.prev| == |d.curr| && r.start < |d.curr|
  {
    forall j: nat ::
      (&& r.end <= j <= r.end + BRIDGE_GAP && j < |d.curr| && j < RowEnd(d.cols, r.start)
       && SameStyle(d, r.start, r.end, j + 1)) ==> !Dirty(d, j)
  }

  ghost predicate InRuns(runs: seq<Run>, i: nat) {
    exists k :: 0 <= k < |runs| && runs[k].start <= i < runs[k].end
  }

  /** The runs, in order, cover every dirty cell below `upto` and are as long as they may be. */
  ghost predicate GoodRuns(d: Diff, runs: seq<Run>, upto: nat)
    requires d.cols > 0 && |d.prev| == |d.curr| && upto <= |d.curr|
  {
    && (forall k :: 0 <= k < |runs| ==> RunOk(d, runs[k]) && Maximal(d, runs[k]) && runs[k].end <= upto)
    && (forall k :: 0 <= k < |runs| - 1 ==> runs[k].end <= runs[k + 1].start)
    && (forall i: nat :: i < upto && Dirty(d, i) ==> InRuns(runs, i))
  }

  lemma GoodRunsSnoc(d: Diff, runs: seq<Run>, upto: nat, r: Run)
    requires d.cols > 0 && |d.prev| == |d.curr| && r.end <= |d.curr| && upto == r.start < r.end
    requires GoodRuns(d, runs, upto) && RunOk(d, r) && Maximal(d, r)
    ensures GoodRuns(d, runs + [r], r.end)
  {
    hide RunOk, Maximal, Dirty;
    var runs' := runs + [r];
    forall i: nat | i < r.end && Dirty(d, i)
      ensures InRuns(runs', i)
    {
      if i < upto {
        var k :| 0 <= k < |runs| && runs[k].start <= i < runs[k].end;
        assert runs'[k] == runs[k];
      } else {
        assert runs'[|runs|] == r;
      }
    }
  }

  lemma GoodRunsSkip(d: Diff, runs: seq<Run>, upto: nat)
    requires d.cols > 0 && |d.prev| == |d.curr| && upto < |d.curr|
    requires GoodRuns(d, runs, upto) && !Dirty(d, upto)
    ensures GoodRuns(d, runs, upto + 1)
  {
  }

  /** Runs that only cells of one style separate are at least five clean cells apart. */
  lemma RunsApart(d: Diff, runs: seq<Run>, k: nat)
    requires d.cols > 0 && |d.prev| == |d.curr| && GoodRuns(d, runs, |d.curr|) && k + 1 < |runs|
    requires runs[k + 1].start < RowEnd(d.cols, runs[k].start)
    requires SameStyle(d, runs[k].start, runs[k].end, runs[k + 1].start + 1)
    ensures runs[k + 1].start >= runs[k].end + 5
  {
    assert Dirty(d, runs[k + 1].start);
    assert RunOk(d, runs[k + 1]);
  }

  /** No five cells in a row of a run are all clean. */
  lemma RunSpans(d: Diff, r: Run, i: nat)
    requires d.cols > 0 && |d.prev| == |d.curr| && RunOk(d, r) && r.start <= i && i + 4 < r.end
    ensures exists j: nat :: i <= j <= i + 4 && j < |d.curr| && Dirty(d, j)
  {
    assert DirtySoon(d, i);
  }

  // ----- Tokens -----

  function Chars(cells: seq<Cell>, start: nat, end: nat): Bytes
    requires start <= end <= |cells|
  {
    seq<Byte>(end - start, i requires 0 <= i < end - start => Sanitize(cells[start + i].ch))
  }

  /** One run: a cursor move, the style if it is not the active one, and the characters. */
  function RunTokens(d: Diff, r: Run, active: Option<Style>): seq<Token>
    requires d.cols > 0 && r.start < r.end <= |d.curr|
  {
    var style := d.curr[r.start].style;
    [MoveTo(r.start / d.cols + 1, r.start % d.cols + 1)]
    + (if active == Some(style) then [] else [Sgr(SgrParams(style))])
    + Prints(Chars(d.curr, r.start, r.end))
  }

  function LastStyle(d: Diff, runs: seq<Run>): Option<Style>
    requires forall k :: 0 <= k < |runs| ==> runs[k].start < |d.curr|
  {
    if runs == [] then None else Some(d.curr[runs[|runs| - 1].start].style)
  }

  function Emit(d: Diff, runs: seq<Run>): seq<Token>
    requires d.cols > 0 && forall k :: 0 <= k < |runs| ==> runs[k].start < runs[k].end <= |d.curr|
    decreases |runs|
  {
    if runs == [] then []
    else
      var before := runs[..|runs| - 1];
      Emit(d, before) + RunTokens(d, runs[|runs| - 1], LastStyle(d, before))
  }

  /** Everything a flush writes, for given runs. */
  function FlushTokens(d: Diff, runs: seq<Run>): seq<Token>
    requires d.cols > 0 && forall k :: 0 <= k < |runs| ==> runs[k].start < runs[k].end <= |d.curr|
  {
    (if d.valid then [] else [EraseDisplay, MoveTo(1, 1)]) + Emit(d, runs) + [Sgr([0])]
  }

  // ----- What a terminal makes of them -----

  lemma RowOf(rows: nat, cols: nat, i: nat)
    requires cols > 0 && i < rows * cols
    ensures i / cols < rows && i % cols < cols && i == (i / cols) * cols + i % cols
    ensures i < RowEnd(cols, i) == i - i % cols + cols <= rows * cols
  {
    var y, x := i / cols, i % cols;
    assert i == y * cols + x;
    if y >= rows {
      MulMonotone(rows, y, cols);
    }
    MulMonotone(y + 1, rows, cols);
    assert (y + 1) * cols == y * cols + cols;
  }

  lemma {:induction false} MulMonotone(a: nat, b: nat, n: nat)
    ensures a <= b ==> a * n <= b * n
  {
    if a < b {
      MulMonotone(a, b - 1, n);
      assert b * n == (b - 1) * n + n;
    }
  }

  /** A terminal shows the new cell wherever a run has drawn it, and still its old one elsewhere. */
  ghost predicate Drawn(d: Diff, runs: seq<Run>, before: seq<Glyph>, after: seq<Glyph>) {
    && |after| == |before| == |d.curr|
    && forall i: nat :: i < |d.curr| ==> after[i] == if InRuns(runs, i) then Shown(d.curr[i]) else before[i]
  }

  lemma MoveAndStyle(t: Terminal, rows: nat, cols: nat, start: nat, style: Style, active: Option<Style>)
    requires TerminalOk(t) && t.rows == rows && t.cols == cols && start < rows * cols
    requires active.Some? ==> t.attr == ShownAttr(active.value)
    ensures Interpret(t, [MoveTo(start / cols + 1, start % cols + 1)]
                         + (if active == Some(style) then [] else [Sgr(SgrParams(style))]))
            == t.(row := start / cols, col := start % cols, pendingWrap := false, attr := ShownAttr(style))
  {
    hide ApplySgrs, SgrParams, ShownAttr;
    RowOf(rows, cols, start);
    var move, sgr := MoveTo(start / cols + 1, start % cols + 1), Sgr(SgrParams(style));
    var t1 := Apply(t, move);
    InterpretOne(t, move);
    InterpretOne(t1, sgr);
    SgrSetsStyle(t.attr, style);
    InterpretJoin(t, [move], [sgr]);
    assert [move] + [] == [move];
  }

  lemma DrawRun(t: Terminal, d: Diff, rows: nat, r: Run, active: Option<Style>)
    requires DiffOk(d, rows) && RunOk(d, r)
    requires TerminalOk(t) && t.rows == rows && t.cols == d.cols
    requires active.Some? ==> t.attr == ShownAttr(active.value)
    ensures var t' := Interpret(t, RunTokens(d, r, active));
            && t'.attr == ShownAttr(d.curr[r.start].style)
            && forall i :: 0 <= i < |t.cells| ==>
                 t'.cells[i] == if r.start <= i < r.end then Shown(d.curr[i]) else t.cells[i]
  {
    hide ApplySgrs, Interpret, Apply, SgrParams, ShownAttr, RunOk, RowEnd, Shown, Chars, Prints;
    RunBounds(d, r);
    var style := d.curr[r.start].style;
    var chars := Chars(d.curr, r.start, r.end);
    var opening := [MoveTo(r.start / d.cols + 1, r.start % d.cols + 1)]
      + (if active == Some(style) then [] else [Sgr(SgrParams(style))]);
    RowOf(rows, d.cols, r.start);
    MoveAndStyle(t, rows, d.cols, r.start, style, active);
    InterpretJoin(t, opening, Prints(chars));
    PrintCells(Interpret(t, opening), d.curr, r.start, r.end, style);
  }

  lemma PrintCells(t: Terminal, cells: seq<Cell>, start: nat, end: nat, style: Style)
    requires TerminalOk(t) && !t.pendingWrap && start <= end <= |cells|
    requires t.row * t.cols + t.col == start && t.col + (end - start) <= t.cols
    requires t.attr == ShownAttr(style) && forall j :: start <= j < end ==> cells[j].style == style
    ensures var t' := Interpret(t, Prints(Chars(cells, start, end)));
            && t'.attr == t.attr
            && forall i :: 0 <= i < |t.cells| ==>
                 t'.cells[i] == if start <= i < end then Shown(cells[i]) else t.cells[i]
  {
    hide Interpret, Prints, ShownAttr, Sanitize;
    PrintRun(t, Chars(cells, start, end));
  }

  lemma {:induction false} DrawRuns(t: Terminal, d: Diff, rows: nat, runs: seq<Run>)
    requires DiffOk(d, rows)
    requires forall k :: 0 <= k < |runs| ==> RunOk(d, runs[k]) && runs[k].start < runs[k].end <= |d.curr|
    requires TerminalOk(t) && t.rows == rows && t.cols == d.cols
    ensures var t' := Interpret(t, Emit(d, runs));
            && Drawn(d, runs, t.cells, t'.cells)
            && (LastStyle(d, runs).Some? ==> t'.attr == ShownAttr(LastStyle(d, runs).value))
    decreases |runs|
  {
    hide RunOk, RunTokens, Shown, Interpret, InRuns, Dirty;
    InterpretNothing(t);
    if runs != [] {
      var before, r := runs[..|runs| - 1], runs[|runs| - 1];
      DrawRuns(t, d, rows, before);
      var t1 := Interpret(t, Emit(d, before));
      RunBounds(d, r);
      DrawRun(t1, d, rows, r, LastStyle(d, before));
      InterpretJoin(t, Emit(d, before), RunTokens(d, r, LastStyle(d, before)));
      forall i: nat
        ensures InRuns(runs, i) <==> InRuns(before, i) || r.start <= i < r.end
      {
        InRunsSnoc(before, r, i);
        assert runs == before + [r];
      }
    } else {
      forall i: nat
        ensures !InRuns([], i)
      {
        NoRuns(i);
      }
    }
  }

  lemma InterpretNothing(t: Terminal)
    requires TerminalOk(t)
    ensures Interpret(t, []) == t
  {
  }

  lemma RunBounds(d: Diff, r: Run)
    requires d.cols > 0 && |d.prev| == |d.curr| && RunOk(d, r)
    ensures r.start < r.end <= |d.curr| && r.end <= RowEnd(d.cols, r.start)
    ensures forall j :: r.start <= j < r.end ==> d.curr[j].style == d.curr[r.start].style
    ensures Dirty(d, r.start)
  {
  }

  lemma NoRuns(i: nat)
    ensures !InRuns([], i)
  {
  }

  lemma InRunsSnoc(runs: seq<Run>, r: Run, i: nat)
    ensures InRuns(runs + [r], i) <==> InRuns(runs, i) || r.start <= i < r.end
  {
    var runs' := runs + [r];
    if InRuns(runs, i) {
      var k :| 0 <= k < |runs| && runs[k].start <= i < runs[k].end;
      assert runs'[k] == runs[k];
    }
    assert runs'[|runs|] == r;
  }

  /**
    A flush turns the screen into the new frame: any terminal that showed the last frame (or any
    terminal at all, when there was none) then shows exactly the new one, in the default rendition.
   */
  lemma FlushShowsFrame(t: Terminal, d: Diff, rows: nat, runs: seq<Run>)
    requires DiffOk(d, rows) && GoodRuns(d, runs, |d.curr|)
    requires TerminalOk(t) && t.rows == rows && t.cols == d.cols
    requires d.valid ==> t.cells == ShownAll(d.prev)
    ensures var t' := Interpret(t, FlushTokens(d, runs));
            t'.cells == ShownAll(d.curr) && t'.attr == DEFAULT_ATTR
  {
    hide RunTokens, Emit, Apply, Shown;
    var opening := if d.valid then [] else [EraseDisplay, MoveTo(1, 1)];
    var t1 := Interpret(t, opening);
    InterpretJoin(t, opening, Emit(d, runs));
    InterpretJoin(t, opening + Emit(d, runs), [Sgr([0])]);
    DrawRuns(t1, d, rows, runs);
    var t2 := Interpret(t1, Emit(d, runs));
    ResetOnly(t2);
    forall i: nat | i < |d.curr|
      ensures t2.cells[i] == Shown(d.curr[i])
    {
      if !InRuns(runs, i) {
        assert !Dirty(d, i);
      }
    }
  }

  lemma ResetOnly(t: Terminal)
    requires TerminalOk(t)
    ensures Interpret(t, [Sgr([0])]) == t.(attr := DEFAULT_ATTR)
  {
    InterpretOne(t, Sgr([0]));
    assert [0][1..] == [];
  }

  /** A frame like the last one is flushed by the final reset alone. */
  lemma UnchangedFrame(d: Diff, rows: nat, runs: seq<Run>)
    requires DiffOk(d, rows) && GoodRuns(d, runs, |d.curr|) && d.valid && d.prev == d.curr
    ensures FlushTokens(d, runs) == [Sgr([0])]
  {
    if runs != [] {
      FirstRunDirty(d, runs);
    }
  }

  lemma FirstRunDirty(d: Diff, runs: seq<Run>)
    requires d.cols > 0 && |d.prev| == |d.curr| && GoodRuns(d, runs, |d.curr|) && runs != []
    ensures runs[0].start < |d.curr| && Dirty(d, runs[0].start)
  {
    RunBounds(d, runs[0]);
  }

  // ----- Building runs -----

  ghost predicate RunsWithin(d: Diff, runs: seq<Run>) {
    forall k :: 0 <= k < |runs| ==> runs[k].start < runs[k].end <= |d.curr|
  }

  lemma EmitSnoc(d: Diff, runs: seq<Run>, r: Run)
    requires d.cols > 0 && RunsWithin(d, runs) && r.start < r.end <= |d.curr|
    ensures RunsWithin(d, runs + [r])
    ensures Emit(d, runs + [r]) == Emit(d, runs) + RunTokens(d, r, LastStyle(d, runs))
    ensures LastStyle(d, runs + [r]) == Some(d.curr[r.start].style)
  {
    assert (runs + [r])[..|runs|] == runs;
  }

  lemma NoRunsYet(d: Diff)
    requires d.cols > 0 && |d.prev| == |d.curr|
    ensures GoodRuns(d, [], 0) && RunsWithin(d, []) && Emit(d, []) == [] && LastStyle(d, []) == None
  {
  }

  /** A run grows by at most four clean cells and a dirty one, all of its style and row. */
  lemma RunBridged(d: Diff, start: nat, end: nat, peek: nat)
    requires d.cols > 0 && |d.prev| == |d.curr| && RunOk(d, Run(start, end))
    requires end <= peek <= end + BRIDGE_GAP && peek < |d.curr| && peek < RowEnd(d.cols, start)
    requires Dirty(d, peek) && SameStyle(d, start, end, peek + 1)
    ensures RunOk(d, Run(start, peek + 1))
  {
    hide RowEnd;
    forall i: nat | start <= i && i + BRIDGE_GAP < peek + 1
      ensures DirtySoon(d, i)
    {
      if i + BRIDGE_GAP < end {
        assert DirtySoon(d, i);
      } else if i < end {
        assert Dirty(d, end - 1);
      } else {
        assert Dirty(d, peek);
      }
    }
  }
}
