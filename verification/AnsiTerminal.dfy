/**
  A terminal as the renderer's output drives it: CUP, ED and SGR as in sections 8.3.21, 8.3.39
  and 8.3.117 of ECMA-48, and printing with deferred wrap at the right margin.
 */
module AnsiTerminal {
  import opened Basics

  /** The rendition of a cell; -1 is the default colour. */
  datatype Attr = Attr(fg: int, bg: int, bold: bool, reverse: bool)

  const DEFAULT_ATTR := Attr(-1, -1, false, false)

  datatype Glyph = Glyph(ch: Byte, attr: Attr)

  datatype Token =
    | EraseDisplay
    | MoveTo(line: nat, column: nat)
    | Sgr(params: seq<nat>)
    | Print(ch: Byte)

  datatype Terminal = Terminal(
    rows: nat, cols: nat, cells: seq<Glyph>, row: nat, col: nat, pendingWrap: bool, attr: Attr)

  ghost predicate TerminalOk(t: Terminal) {
    && t.rows > 0 && t.cols > 0 && |t.cells| == t.rows * t.cols
    && t.row < t.rows && t.col < t.cols
  }

  function ApplySgr(a: Attr, param: nat): Attr {
    if param == 0 then DEFAULT_ATTR
    else if param == 1 then a.(bold := true)
    else if param == 7 then a.(reverse := true)
    else if 30 <= param <= 37 then a.(fg := param - 30)
    else if param == 39 then a.(fg := -1)
    else if 40 <= param <= 47 then a.(bg := param - 40)
    else if param == 49 then a.(bg := -1)
    else a
  }

  function ApplySgrs(a: Attr, params: seq<nat>): Attr
    decreases |params|
  {
    if params == [] then a else ApplySgrs(ApplySgr(a, params[0]), params[1..])
  }

  function Clamp(n: nat, size: nat): (c: nat)
    requires size > 0
    ensures c < size
  {
    if n == 0 then 0 else if n > size then size - 1 else n - 1
  }

  function Blanks(n: nat): seq<Glyph> {
    seq(n, _ => Glyph(0x20, DEFAULT_ATTR))
  }

  /** Goes to the start of the next line, scrolling at the bottom. */
  function Wrapped(t: Terminal): (t': Terminal)
    requires TerminalOk(t)
    ensures TerminalOk(t') && t'.rows == t.rows && t'.cols == t.cols && !t'.pendingWrap
  {
    if t.row + 1 < t.rows then t.(row := t.row + 1, col := 0, pendingWrap := false)
    else
      assert t.rows * t.cols >= t.cols by { MulAtLeast(t.rows, t.cols); }
      t.(cells := t.cells[t.cols..] + Blanks(t.cols), col := 0, pendingWrap := false)
  }

  lemma {:induction false} MulAtLeast(rows: nat, cols: nat)
    requires rows > 0
    ensures rows * cols >= cols
  {
    if rows > 1 {
      MulAtLeast(rows - 1, cols);
      assert rows * cols == (rows - 1) * cols + cols;
    }
  }

  lemma {:induction false} IndexInGrid(rows: nat, cols: nat, y: nat, x: nat)
    requires y < rows && x < cols
    ensures y * cols + x < rows * cols
    decreases rows
  {
    if y + 1 < rows {
      IndexInGrid(rows - 1, cols, y, x);
      assert rows * cols == (rows - 1) * cols + cols;
    } else {
      assert rows * cols == y * cols + cols;
    }
  }

  /** Writes a character where the cursor stands; the last column leaves the wrap pending. */
  function Put(t: Terminal, ch: Byte): (t': Terminal)
    requires TerminalOk(t)
    ensures TerminalOk(t') && t'.rows == t.rows && t'.cols == t.cols
  {
    IndexInGrid(t.rows, t.cols, t.row, t.col);
    var written := t.(cells := t.cells[t.row * t.cols + t.col := Glyph(ch, t.attr)]);
    if t.col + 1 == t.cols then written.(pendingWrap := true) else written.(col := t.col + 1)
  }

  function Apply(t: Terminal, token: Token): (t': Terminal)
    requires TerminalOk(t)
    ensures TerminalOk(t') && t'.rows == t.rows && t'.cols == t.cols
  {
    match token
    case EraseDisplay => t.(cells := Blanks(t.rows * t.cols))
    case MoveTo(line, column) =>
      t.(row := Clamp(line, t.rows), col := Clamp(column, t.cols), pendingWrap := false)
    case Sgr(params) => t.(attr := ApplySgrs(t.attr, params))
    case Print(ch) => Put(if t.pendingWrap then Wrapped(t) else t, ch)
  }

  function Interpret(t: Terminal, tokens: seq<Token>): (t': Terminal)
    requires TerminalOk(t)
    ensures TerminalOk(t') && t'.rows == t.rows && t'.cols == t.cols
    decreases |tokens|
  {
    if tokens == [] then t
    else Apply(Interpret(t, tokens[..|tokens| - 1]), tokens[|tokens| - 1])
  }

  lemma {:induction false} InterpretJoin(t: Terminal, a: seq<Token>, b: seq<Token>)
    requires TerminalOk(t)
    ensures Interpret(t, a + b) == Interpret(Interpret(t, a), b)
    decreases |b|
  {
    if b == [] {
      assert a + b == a;
    } else {
      InterpretJoin(t, a, b[..|b| - 1]);
      assert (a + b)[..|a + b| - 1] == a + b[..|b| - 1];
    }
  }

  lemma InterpretOne(t: Terminal, token: Token)
    requires TerminalOk(t)
    ensures Interpret(t, [token]) == Apply(t, token)
  {
    assert [token][..0] == [];
  }

  function Prints(chars: Bytes): seq<Token> {
    seq(|chars|, i requires 0 <= i < |chars| => Print(chars[i]))
  }

  /** Printing within a row writes exactly the cells under it, in the current rendition. */
  lemma {:induction false} PrintRun(t: Terminal, chars: Bytes)
    requires TerminalOk(t) && !t.pendingWrap && t.col + |chars| <= t.cols
    ensures var t' := Interpret(t, Prints(chars)); var base := t.row * t.cols + t.col;
            && t'.attr == t.attr && t'.row == t.row && base + |chars| <= |t.cells|
            && (if t.col + |chars| < t.cols then !t'.pendingWrap && t'.col == t.col + |chars|
                else t'.pendingWrap || chars == [])
            && forall i :: 0 <= i < |t.cells| ==>
                 t'.cells[i] == if base <= i < base + |chars| then Glyph(chars[i - base], t.attr) else t.cells[i]
    decreases |chars|
  {
    IndexInGrid(t.rows, t.cols, t.row, t.col);
    if chars != [] {
      var n := |chars| - 1;
      PrintRun(t, chars[..n]);
      assert Prints(chars)[..n] == Prints(chars[..n]);
      IndexInGrid(t.rows, t.cols, t.row, t.col + n);
    }
  }
}
