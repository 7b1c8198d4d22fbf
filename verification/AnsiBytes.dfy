/**
  The bytes of the renderer's output: control sequences of section 5.4 of ECMA-48 with decimal
  parameters, and a terminal that reads them one by one.
 */
module AnsiBytes {
  import opened Basics
  import opened Decimals
  import opened AnsiTerminal
  import opened FrameDiff

  const ESC: Byte := 0x1B
  const CSI: Bytes := [ESC, '[' as Byte]
  const SEMICOLON: Byte := ';' as Byte

  // ----- Writing -----

  /** Numbers in decimal with semicolons between. */
  function Joined(params: seq<nat>): Bytes
    decreases |params|
  {
    if params == [] then []
    else
      var n := |params| - 1;
      (if n == 0 then [] else Joined(params[..n]) + [SEMICOLON]) + Decimal(params[n])
  }

  function Sequence(params: seq<nat>, final: Byte): Bytes {
    CSI + Joined(params) + [final]
  }

  function Printed(token: Token): Bytes {
    match token
    case EraseDisplay => Sequence([2], 'J' as Byte)
    case MoveTo(line, column) => Sequence([line, column], 'H' as Byte)
    case Sgr(params) => Sequence(params, 'm' as Byte)
    case Print(ch) => [ch]
  }

  function PrintedAll(tokens: seq<Token>): Bytes
    decreases |tokens|
  {
    if tokens == [] then [] else PrintedAll(tokens[..|tokens| - 1]) + Printed(tokens[|tokens| - 1])
  }

  // ----- Reading -----

  /** Where the terminal is in its input: in text, after ESC, or in the parameters of a control sequence. */
  datatype Scan = Ground | Escaped | Parameters(done: seq<nat>, now: Option<nat>)

  datatype ByteTerminal = ByteTerminal(term: Terminal, scan: Scan)

  function ParamsOf(done: seq<nat>, now: Option<nat>): seq<nat> {
    if done == [] && now.None? then [] else done + [if now.Some? then now.value else 0]
  }

  /** What a control sequence asks for; CUP without parameters goes to the first cell, SGR without any resets. */
  function Command(params: seq<nat>, final: Byte): Option<Token> {
    if final == 'H' as Byte && |params| <= 2 then
      Some(MoveTo(if |params| > 0 then params[0] else 1, if |params| > 1 then params[1] else 1))
    else if final == 'J' as Byte && params == [2] then Some(EraseDisplay)
    else if final == 'm' as Byte then Some(Sgr(if params == [] then [0] else params))
    else None
  }

  function Obey(t: Terminal, command: Option<Token>): (t': Terminal)
    requires TerminalOk(t)
    ensures TerminalOk(t') && t'.rows == t.rows && t'.cols == t.cols
  {
    if command.Some? then Apply(t, command.value) else t
  }

  /** One byte; what is neither text nor part of a known sequence is passed over. */
  function Feed(t: ByteTerminal, b: Byte): (t': ByteTerminal)
    requires TerminalOk(t.term)
    ensures TerminalOk(t'.term) && t'.term.rows == t.term.rows && t'.term.cols == t.term.cols
  {
    match t.scan
    case Ground =>
      if b == ESC then t.(scan := Escaped)
      else if Printable(b) then t.(term := Apply(t.term, Print(b)))
      else t
    case Escaped => t.(scan := if b == '[' as Byte then Parameters([], None) else Ground)
    case Parameters(done, now) =>
      if Digit(b) then
        t.(scan := Parameters(done, Some((if now.Some? then now.value * 10 else 0) + DigitValue(b))))
      else if b == SEMICOLON then
        t.(scan := Parameters(done + [if now.Some? then now.value else 0], None))
      else ByteTerminal(Obey(t.term, Command(ParamsOf(done, now), b)), Ground)
  }

  function FeedAll(t: ByteTerminal, s: Bytes): (t': ByteTerminal)
    requires TerminalOk(t.term)
    ensures TerminalOk(t'.term) && t'.term.rows == t.term.rows && t'.term.cols == t.term.cols
    decreases |s|
  {
    if s == [] then t else Feed(FeedAll(t, s[..|s| - 1]), s[|s| - 1])
  }

  // ----- Reading what was written -----

  lemma {:induction false} FeedJoin(t: ByteTerminal, a: Bytes, b: Bytes)
    requires TerminalOk(t.term)
    ensures FeedAll(t, a + b) == FeedAll(FeedAll(t, a), b)
    decreases |b|
  {
    hide Feed;
    if b == [] {
      assert a + b == a;
    } else {
      FeedJoin(t, a, b[..|b| - 1]);
      assert (a + b)[..|a + b| - 1] == a + b[..|b| - 1];
    }
  }

  lemma FeedOne(t: ByteTerminal, b: Byte)
    requires TerminalOk(t.term)
    ensures FeedAll(t, [b]) == Feed(t, b)
  {
    assert [b][..0] == [];
  }

  lemma {:induction false} FeedDecimal(t: ByteTerminal, n: nat)
    requires TerminalOk(t.term) && t.scan.Parameters? && t.scan.now.None?
    ensures FeedAll(t, Decimal(n)) == t.(scan := Parameters(t.scan.done, Some(n)))
    decreases n
  {
    if n < 10 {
      FeedOne(t, 0x30 + n);
    } else {
      FeedDecimal(t, n / 10);
      FeedJoin(t, Decimal(n / 10), [0x30 + n % 10]);
      FeedOne(t.(scan := Parameters(t.scan.done, Some(n / 10))), 0x30 + n % 10);
    }
  }

  lemma {:induction false} FeedJoined(t: ByteTerminal, params: seq<nat>)
    requires TerminalOk(t.term) && t.scan == Parameters([], None) && params != []
    ensures var n := |params| - 1;
            FeedAll(t, Joined(params)) == t.(scan := Parameters(params[..n], Some(params[n])))
    decreases |params|
  {
    hide FeedAll, Decimal;
    var n := |params| - 1;
    if n == 0 {
      assert Joined(params) == Decimal(params[0]);
      FeedDecimal(t, params[0]);
    } else {
      var front := Joined(params[..n]);
      FeedJoined(t, params[..n]);
      FeedJoin(t, front, [SEMICOLON]);
      FeedOne(FeedAll(t, front), SEMICOLON);
      assert params[..n][..n - 1] + [params[n - 1]] == params[..n];
      FeedJoin(t, front + [SEMICOLON], Decimal(params[n]));
      FeedDecimal(t.(scan := Parameters(params[..n], None)), params[n]);
    }
  }

  /** A control sequence is obeyed with the very parameters it was printed from. */
  lemma FeedSequence(t: Terminal, params: seq<nat>, final: Byte)
    requires TerminalOk(t) && params != [] && !Digit(final) && final != SEMICOLON
    ensures FeedAll(ByteTerminal(t, Ground), Sequence(params, final)) ==
            ByteTerminal(Obey(t, Command(params, final)), Ground)
  {
    hide FeedAll, Joined;
    var start, n := ByteTerminal(t, Ground), |params| - 1;
    FeedOne(start, ESC);
    FeedOne(start.(scan := Escaped), '[' as Byte);
    FeedJoin(start, [ESC], ['[' as Byte]);
    assert CSI == [ESC] + ['[' as Byte];
    var begun := start.(scan := Parameters([], None));
    FeedJoin(start, CSI, Joined(params));
    FeedJoined(begun, params);
    FeedJoin(start, CSI + Joined(params), [final]);
    FeedOne(begun.(scan := Parameters(params[..n], Some(params[n]))), final);
    assert ParamsOf(params[..n], Some(params[n])) == params;
  }

  /** What the renderer writes: rendition parameters are never missing and characters are printable. */
  predicate Writable(token: Token) {
    (token.Sgr? ==> token.params != []) && (token.Print? ==> Printable(token.ch))
  }

  lemma FeedPrinted(t: Terminal, token: Token)
    requires TerminalOk(t) && Writable(token)
    ensures FeedAll(ByteTerminal(t, Ground), Printed(token)) == ByteTerminal(Apply(t, token), Ground)
  {
    hide FeedAll, Sequence, Apply;
    match token
    case EraseDisplay => FeedSequence(t, [2], 'J' as Byte);
    case MoveTo(line, column) => FeedSequence(t, [line, column], 'H' as Byte);
    case Sgr(params) => FeedSequence(t, params, 'm' as Byte);
    case Print(ch) => FeedOne(ByteTerminal(t, Ground), ch);
  }

  /** The bytes printed for tokens are read back as these very tokens. */
  lemma {:induction false} FeedPrintedAll(t: Terminal, tokens: seq<Token>)
    requires TerminalOk(t) && forall token <- tokens :: Writable(token)
    ensures FeedAll(ByteTerminal(t, Ground), PrintedAll(tokens)) == ByteTerminal(Interpret(t, tokens), Ground)
    decreases |tokens|
  {
    hide FeedAll, Printed, Apply, Writable;
    if tokens == [] {
      FeedNothing(ByteTerminal(t, Ground));
    } else {
      var n := |tokens| - 1;
      FeedPrintedAll(t, tokens[..n]);
      FeedJoin(ByteTerminal(t, Ground), PrintedAll(tokens[..n]), Printed(tokens[n]));
      FeedPrinted(Interpret(t, tokens[..n]), tokens[n]);
    }
  }

  lemma FeedNothing(t: ByteTerminal)
    requires TerminalOk(t.term)
    ensures FeedAll(t, []) == t
  {
  }

  lemma {:induction false} PrintedJoin(a: seq<Token>, b: seq<Token>)
    ensures PrintedAll(a + b) == PrintedAll(a) + PrintedAll(b)
    decreases |b|
  {
    hide Printed;
    if b == [] {
      assert a + b == a;
    } else {
      var n := |b| - 1;
      PrintedJoin(a, b[..n]);
      assert (a + b)[..|a + b| - 1] == a + b[..n];
    }
  }

  lemma NothingPrinted()
    ensures PrintedAll([]) == []
  {
  }

  lemma JoinedTwo(a: nat, b: nat)
    ensures Joined([a, b]) == Decimal(a) + [SEMICOLON] + Decimal(b)
  {
    hide Decimal;
    assert [a, b][..1] == [a];
    assert Joined([a]) == Decimal(a);
  }

  lemma JoinedStyle(fg: nat, bg: nat)
    ensures Joined([0, fg, bg]) == ['0' as Byte, SEMICOLON] + Decimal(fg) + [SEMICOLON] + Decimal(bg)
  {
    assert [0, fg, bg][..2] == [0, fg];
    JoinedTwo(0, fg);
    assert Decimal(0) == ['0' as Byte];
  }

  lemma JoinedDigit(params: seq<nat>, n: nat)
    requires params != [] && n < 10
    ensures Joined(params + [n]) == Joined(params) + [SEMICOLON, 0x30 + n]
  {
    assert (params + [n])[..|params|] == params;
    assert Decimal(n) == [0x30 + n];
  }

  lemma PrintedOne(token: Token)
    ensures PrintedAll([token]) == Printed(token)
  {
    assert [token][..0] == [];
  }

  lemma {:induction false} PrintedChars(chars: Bytes)
    ensures PrintedAll(Prints(chars)) == chars
    decreases |chars|
  {
    if chars != [] {
      var n := |chars| - 1;
      PrintedChars(chars[..n]);
      assert Prints(chars)[..n] == Prints(chars[..n]);
    }
  }

  /** The bytes of a cursor move and of erasing the display. */
  lemma MoveLooks(line: nat, column: nat)
    ensures Printed(MoveTo(line, column)) ==
            [27, '[' as Byte] + Decimal(line) + [';' as Byte] + Decimal(column) + ['H' as Byte]
    ensures Printed(EraseDisplay) == [27, '[' as Byte, '2' as Byte, 'J' as Byte]
  {
    hide Decimal, Joined;
    JoinedTwo(line, column);
    EraseIs();
  }

  /**
    The bytes of a style: reset, a foreground of 30 to 37 or the default 39, a background of 40 to 47
    or the default 49, then 1 for bold and 7 for reverse.
   */
  lemma StyleLooks(s: Style)
    ensures Printed(Sgr(SgrParams(s))) ==
            [27, '[' as Byte]
            + (['0' as Byte, ';' as Byte]
               + Decimal(if 0 <= s.fg <= 7 then 30 + s.fg else 39) + [';' as Byte]
               + Decimal(if 0 <= s.bg <= 7 then 40 + s.bg else 49)
               + (if s.bold then [';' as Byte, '1' as Byte] else [])
               + (if s.reverse then [';' as Byte, '7' as Byte] else []))
            + ['m' as Byte]
  {
    hide Decimal, Joined, SgrParams;
    JoinedParams(s);
    assert FgCode(s.fg) == if 0 <= s.fg <= 7 then 30 + s.fg else 39;
    assert BgCode(s.bg) == if 0 <= s.bg <= 7 then 40 + s.bg else 49;
  }

  lemma JoinedParams(s: Style)
    ensures Joined(SgrParams(s)) ==
            ['0' as Byte, ';' as Byte] + Decimal(FgCode(s.fg)) + [';' as Byte] + Decimal(BgCode(s.bg))
            + (if s.bold then [';' as Byte, '1' as Byte] else [])
            + (if s.reverse then [';' as Byte, '7' as Byte] else [])
  {
    hide Decimal, Joined;
    var base := [0, FgCode(s.fg), BgCode(s.bg)];
    JoinedStyle(FgCode(s.fg), BgCode(s.bg));
    if s.bold {
      JoinedDigit(base, 1);
      if s.reverse {
        JoinedDigit(base + [1], 7);
      } else {
        assert SgrParams(s) == base + [1];
      }
    } else if s.reverse {
      JoinedDigit(base, 7);
      assert SgrParams(s) == base + [7];
    } else {
      assert SgrParams(s) == base;
    }
  }

  // ----- A flush -----

  /** Erase the display; home the cursor, without parameters. */
  const CLEAR: Bytes := CSI + ['2' as Byte, 'J' as Byte] + CSI + ['H' as Byte]

  /** The default rendition. */
  const RESET: Bytes := CSI + ['0' as Byte, 'm' as Byte]

  lemma ResetIs()
    ensures RESET == Printed(Sgr([0]))
  {
    assert Joined([0]) == Decimal(0);
  }

  /** Everything a flush writes, for given runs. */
  function FlushBytes(d: Diff, runs: seq<Run>): Bytes
    requires d.cols > 0 && forall k :: 0 <= k < |runs| ==> runs[k].start < runs[k].end <= |d.curr|
  {
    (if d.valid then [] else CLEAR) + PrintedAll(Emit(d, runs)) + RESET
  }

  lemma FeedClear(t: Terminal)
    requires TerminalOk(t)
    ensures FeedAll(ByteTerminal(t, Ground), CLEAR) ==
            ByteTerminal(Interpret(t, [EraseDisplay, MoveTo(1, 1)]), Ground)
  {
    hide FeedAll, Apply, Printed;
    var start := ByteTerminal(t, Ground);
    FeedPrinted(t, EraseDisplay);
    var erased := Apply(t, EraseDisplay);
    var home := CSI + ['H' as Byte];
    assert CLEAR == Printed(EraseDisplay) + home by { EraseIs(); }
    FeedJoin(start, Printed(EraseDisplay), home);
    FeedHome(erased);
    InterpretOne(t, EraseDisplay);
    InterpretOne(erased, MoveTo(1, 1));
    InterpretJoin(t, [EraseDisplay], [MoveTo(1, 1)]);
    assert [EraseDisplay] + [MoveTo(1, 1)] == [EraseDisplay, MoveTo(1, 1)];
  }

  lemma EraseIs()
    ensures CSI + ['2' as Byte, 'J' as Byte] == Printed(EraseDisplay)
  {
    assert Joined([2]) == Decimal(2);
  }

  lemma FeedHome(t: Terminal)
    requires TerminalOk(t)
    ensures FeedAll(ByteTerminal(t, Ground), CSI + ['H' as Byte]) == ByteTerminal(Apply(t, MoveTo(1, 1)), Ground)
  {
    hide FeedAll, Apply;
    var start := ByteTerminal(t, Ground);
    FeedOne(start, ESC);
    FeedOne(start.(scan := Escaped), '[' as Byte);
    FeedJoin(start, [ESC], ['[' as Byte]);
    assert CSI == [ESC] + ['[' as Byte];
    FeedJoin(start, CSI, ['H' as Byte]);
    FeedOne(start.(scan := Parameters([], None)), 'H' as Byte);
  }

  lemma CharsWritable(cells: seq<Cell>, start: nat, end: nat)
    requires start <= end <= |cells|
    ensures forall token <- Prints(Chars(cells, start, end)) :: Writable(token)
  {
    var chars := Chars(cells, start, end);
    forall i | 0 <= i < |chars|
      ensures Writable(Prints(chars)[i])
    {
      assert chars[i] == Sanitize(cells[start + i].ch);
    }
  }

  lemma RunWritable(d: Diff, r: Run, active: Option<Style>)
    requires d.cols > 0 && r.start < r.end <= |d.curr|
    ensures forall token <- RunTokens(d, r, active) :: Writable(token)
  {
    hide Prints, Chars;
    CharsWritable(d.curr, r.start, r.end);
  }

  lemma {:induction false} EmitWritable(d: Diff, runs: seq<Run>)
    requires d.cols > 0 && RunsWithin(d, runs)
    ensures forall token <- Emit(d, runs) :: Writable(token)
    decreases |runs|
  {
    hide Writable, RunTokens;
    if runs != [] {
      var n := |runs| - 1;
      EmitWritable(d, runs[..n]);
      RunWritable(d, runs[n], LastStyle(d, runs[..n]));
    }
  }

  /** Reading the bytes of a flush is interpreting its tokens. */
  lemma FeedFlush(t: Terminal, d: Diff, runs: seq<Run>)
    requires TerminalOk(t) && d.cols > 0 && RunsWithin(d, runs)
    ensures FeedAll(ByteTerminal(t, Ground), FlushBytes(d, runs)) ==
            ByteTerminal(Interpret(t, FlushTokens(d, runs)), Ground)
  {
    hide FeedAll, Interpret, Emit, Printed, PrintedAll, Writable, Apply;
    var start := ByteTerminal(t, Ground);
    var opening := if d.valid then [] else [EraseDisplay, MoveTo(1, 1)];
    var bytes := if d.valid then [] else CLEAR;
    FeedClear(t);
    FeedNothing(start);
    InterpretNothing(t);
    var t1 := Interpret(t, opening);
    EmitWritable(d, runs);
    FeedPrintedAll(t1, Emit(d, runs));
    FeedJoin(start, bytes, PrintedAll(Emit(d, runs)));
    InterpretJoin(t, opening, Emit(d, runs));
    var t2 := Interpret(t1, Emit(d, runs));
    ResetIs();
    assert Writable(Sgr([0])) by { ResetWritable(); }
    FeedPrinted(t2, Sgr([0]));
    FeedJoin(start, bytes + PrintedAll(Emit(d, runs)), Printed(Sgr([0])));
    InterpretJoin(t, opening + Emit(d, runs), [Sgr([0])]);
    InterpretOne(t2, Sgr([0]));
  }

  lemma ResetWritable()
    ensures Writable(Sgr([0]))
  {
  }
}
