/**
  The flat view of a text: one run of bytes with LF between lines, a cursor offset and an
  optional selection anchor. Editing the array of lines is specified by what it does here.
 */
module FlatText {
  import opened Basics
  import opened Utf8
  import opened Utf8Text

  const LF: Byte := 10

  // ----- Lines and the document they stand for -----

  predicate LineOk(line: Bytes) {
    Valid(line) && LF !in line && 0 !in line
  }

  predicate LinesOk(ls: seq<Bytes>) {
    forall i :: 0 <= i < |ls| ==> LineOk(ls[i])
  }

  /** The lines of a prefix, each followed by its LF. */
  function Before(ls: seq<Bytes>): Bytes {
    if ls == [] then [] else ls[0] + [LF] + Before(ls[1..])
  }

  /** The lines of a suffix, each preceded by its LF. */
  function After(ls: seq<Bytes>): Bytes {
    if ls == [] then [] else [LF] + ls[0] + After(ls[1..])
  }

  function Join(ls: seq<Bytes>): Bytes
    requires ls != []
  {
    ls[0] + After(ls[1..])
  }

  /** The offset of the first LF, or the length. */
  function FirstLF(d: Bytes): (k: nat)
    ensures k <= |d| && LF !in d[..k] && (k < |d| ==> d[k] == LF)
  {
    if d == [] || d[0] == LF then 0
    else
      assert d[..1 + FirstLF(d[1..])] == [d[0]] + d[1..][..FirstLF(d[1..])];
      1 + FirstLF(d[1..])
  }

  function Split(d: Bytes): (ls: seq<Bytes>)
    ensures ls != []
    decreases |d|
  {
    var k := FirstLF(d);
    if k == |d| then [d] else [d[..k]] + Split(d[k + 1..])
  }

  function Offset(ls: seq<Bytes>, row: nat, col: nat): nat
    requires row < |ls|
  {
    |Before(ls[..row])| + col
  }

  lemma {:induction false} JoinAt(ls: seq<Bytes>, row: nat)
    requires row < |ls|
    ensures Join(ls) == Before(ls[..row]) + ls[row] + After(ls[row + 1..])
  {
    if row > 0 {
      JoinAt(ls[1..], row - 1);
      assert ls[..row][1..] == ls[1..][..row - 1];
      assert ls[1..][row..] == ls[row + 1..];
      assert After(ls[1..]) == [LF] + Join(ls[1..]);
    }
  }

  lemma {:induction false} BeforeSnoc(ls: seq<Bytes>, line: Bytes)
    ensures Before(ls + [line]) == Before(ls) + line + [LF]
  {
    if ls == [] {
      assert (ls + [line])[1..] == [];
    } else {
      BeforeSnoc(ls[1..], line);
      assert (ls + [line])[1..] == ls[1..] + [line];
    }
  }

  lemma BeforeNext(ls: seq<Bytes>, row: nat)
    requires row < |ls|
    ensures Before(ls[..row + 1]) == Before(ls[..row]) + ls[row] + [LF]
  {
    assert ls[..row + 1] == ls[..row] + [ls[row]];
    BeforeSnoc(ls[..row], ls[row]);
  }

  lemma AfterNext(ls: seq<Bytes>, row: nat)
    requires row < |ls|
    ensures After(ls[row..]) == [LF] + ls[row] + After(ls[row + 1..])
  {
  }

  // ----- Splitting and joining are inverses -----

  lemma JoinCons(l: Bytes, ls: seq<Bytes>)
    requires ls != []
    ensures Join([l] + ls) == l + ([LF] + Join(ls))
  {
    assert ([l] + ls)[1..] == ls;
  }

  lemma {:induction false} JoinOfSplit(d: Bytes)
    ensures Join(Split(d)) == d
    decreases |d|
  {
    hide FirstLF;
    var k := FirstLF(d);
    if k < |d| {
      var rest := d[k + 1..];
      JoinOfSplit(rest);
      assert Split(d) == [d[..k]] + Split(rest);
      JoinCons(d[..k], Split(rest));
      assert d[..k] + ([LF] + rest) == d;
    }
  }

  lemma FirstLFUnique(d: Bytes, k: nat)
    requires k <= |d| && LF !in d[..k] && (k < |d| ==> d[k] == LF)
    ensures FirstLF(d) == k
  {
    var f := FirstLF(d);
    assert forall j :: 0 <= j < k ==> d[j] in d[..k];
    assert forall j :: 0 <= j < f ==> d[j] in d[..f];
  }

  lemma SplitStep(d: Bytes)
    ensures var k := FirstLF(d); Split(d) == if k == |d| then [d] else [d[..k]] + Split(d[k + 1..])
  {
    hide FirstLF;
  }

  /** One line more is split off a text of which some lines are split off already. */
  lemma SplitAhead(d: Bytes, from: nat, done: seq<Bytes>)
    requires from <= |d| && Split(d) == done + Split(d[from..])
    ensures var rest := d[from..];
            var k := FirstLF(rest);
            Split(d) == done + [rest[..k]] + (if k == |rest| then [] else Split(d[from + k + 1..]))
  {
    hide FirstLF, Split;
    var rest := d[from..];
    var k := FirstLF(rest);
    SplitStep(rest);
    if k == |rest| {
      assert rest[..k] == rest;
    } else {
      assert rest[k + 1..] == d[from + k + 1..];
    }
  }

  lemma {:induction false} SplitOfJoin(ls: seq<Bytes>)
    requires ls != [] && forall i :: 0 <= i < |ls| ==> LF !in ls[i]
    ensures Split(Join(ls)) == ls
  {
    hide FirstLF, Split;
    var d := Join(ls);
    var k := |ls[0]|;
    assert d[..k] == ls[0];
    SplitStep(d);
    if |ls| == 1 {
      assert d == ls[0];
      FirstLFUnique(d, k);
    } else {
      assert d[k] == LF by {
        assert After(ls[1..])[0] == LF;
      }
      FirstLFUnique(d, k);
      SplitOfJoin(ls[1..]);
      assert d[k + 1..] == Join(ls[1..]);
    }
  }

  /** LF is a character of its own, so both sides of it are boundaries. */
  lemma AroundLF(d: Bytes, k: nat)
    requires Valid(d) && k < |d| && d[k] == LF
    ensures Boundary(d, k) && Boundary(d, k + 1) && Decode(d, k) == Scalar(10, 1)
  {
    assert d[k..k + 1] == [LF];
    DecodeAtBoundary(d, k);
  }

  lemma {:induction false} SplitIsOk(d: Bytes)
    requires Valid(d) && 0 !in d
    ensures LinesOk(Split(d))
    decreases |d|
  {
    var k := FirstLF(d);
    if k < |d| {
      AroundLF(d, k);
      ValidSplit(d, k);
      ValidSplit(d, k + 1);
      SplitIsOk(d[k + 1..]);
    }
  }

  lemma ValidLF()
    ensures Valid([LF])
  {
    assert [LF][0..1] == [LF];
  }

  lemma {:induction false} JoinIsOk(ls: seq<Bytes>)
    requires ls != [] && LinesOk(ls)
    ensures Valid(Join(ls)) && 0 !in Join(ls)
  {
    if |ls| == 1 {
      assert Join(ls) == ls[0];
    } else {
      JoinIsOk(ls[1..]);
      assert Join(ls) == ls[0] + ([LF] + Join(ls[1..]));
      ValidLF();
      ValidJoin([LF], Join(ls[1..]));
      ValidJoin(ls[0], [LF] + Join(ls[1..]));
    }
  }

  // ----- The flat editor -----

  datatype Editor = Editor(doc: Bytes, cursor: nat, anchor: Option<nat>)

  predicate EditorOk(e: Editor) {
    && Valid(e.doc) && 0 !in e.doc
    && Boundary(e.doc, e.cursor)
    && (e.anchor.Some? ==> Boundary(e.doc, e.anchor.value))
  }

  function Splice(d: Bytes, start: nat, end: nat, inserted: Bytes): Bytes
    requires start <= end <= |d|
  {
    d[..start] + inserted + d[end..]
  }

  /** The selected range, when the anchor is set and away from the cursor. */
  function Selection(e: Editor): Option<(nat, nat)> {
    if e.anchor.None? || e.anchor.value == e.cursor then None
    else if e.anchor.value < e.cursor then Some((e.anchor.value, e.cursor))
    else Some((e.cursor, e.anchor.value))
  }

  function SelectionOrCursor(e: Editor): (nat, nat) {
    if Selection(e).Some? then Selection(e).value else (e.cursor, e.cursor)
  }

  /** Puts text in place of the selection, or at the cursor, and leaves the cursor after it. */
  function Replace(e: Editor, inserted: Bytes): Editor
    requires EditorOk(e)
  {
    var (a, b) := SelectionOrCursor(e);
    Editor(Splice(e.doc, a, b, inserted), a + |inserted|, None)
  }

  predicate Insertable(text: Bytes) {
    Valid(text) && 0 !in text
  }

  function InsertText(e: Editor, text: Bytes): (Editor, bool)
    requires EditorOk(e)
  {
    if !Insertable(text) || (text == [] && Selection(e).None?) then (e, false)
    else (Replace(e, text), true)
  }

  function InsertCodepoint(e: Editor, cp: nat): (Editor, bool)
    requires EditorOk(e)
  {
    if cp == 0 || cp == 10 || cp == 13 || !IsScalarValue(cp) then (e, false)
    else (Replace(e, Encode(cp).value), true)
  }

  function DeleteSelection(e: Editor): (Editor, bool)
    requires EditorOk(e)
  {
    if Selection(e).Some? then (Replace(e, []), true) else (e, false)
  }

  function DeleteBackward(e: Editor): (Editor, bool)
    requires EditorOk(e)
  {
    if Selection(e).Some? then (Replace(e, []), true)
    else if e.cursor == 0 then (e.(anchor := None), false)
    else
      var p := Prev(e.doc, e.cursor);
      (Editor(Splice(e.doc, p, e.cursor, []), p, None), true)
  }

  function DeleteForward(e: Editor): (Editor, bool)
    requires EditorOk(e)
  {
    if Selection(e).Some? then (Replace(e, []), true)
    else if e.cursor == |e.doc| then (e.(anchor := None), false)
    else
      var n := Next(e.doc, e.cursor);
      (Editor(Splice(e.doc, e.cursor, n, []), e.cursor, None), true)
  }

  function LineStart(d: Bytes, k: nat): (s: nat)
    requires k <= |d|
    ensures s <= k
  {
    if k == 0 || d[k - 1] == LF then k else LineStart(d, k - 1)
  }

  function LineEnd(d: Bytes, k: nat): (s: nat)
    requires k <= |d|
    ensures k <= s <= |d|
    decreases |d| - k
  {
    if k == |d| || d[k] == LF then k else LineEnd(d, k + 1)
  }

  /** Deletes to the end of the line; a collapsed anchor stays where it is. */
  function KillToEnd(e: Editor): (Editor, bool)
    requires EditorOk(e)
  {
    if Selection(e).Some? then (Replace(e, []), true)
    else
      var end := LineEnd(e.doc, e.cursor);
      if end == e.cursor then (e, false)
      else (Editor(Splice(e.doc, e.cursor, end, []), e.cursor, e.anchor), true)
  }

  // ----- Cursor motion -----

  function Up(d: Bytes, k: nat): (u: nat)
    requires k <= |d|
    ensures u <= |d|
  {
    var start := LineStart(d, k);
    if start == 0 then k
    else
      var above := LineStart(d, start - 1);
      above + PrefixBytes(d[above..start - 1], Columns(d[start..k]))
  }

  function Down(d: Bytes, k: nat): (u: nat)
    requires k <= |d|
    ensures u <= |d|
  {
    var start, end := LineStart(d, k), LineEnd(d, k);
    if end == |d| then k
    else
      var below := end + 1;
      below + PrefixBytes(d[below..LineEnd(d, below)], Columns(d[start..k]))
  }

  datatype Command =
    | Newline | Backspace | Delete | Kill
    | Home | End | Left | Right | UpLine | DownLine

  predicate IsMovement(c: Command) {
    !c.Newline? && !c.Backspace? && !c.Delete? && !c.Kill?
  }

  datatype Key = Key(code: int, printable: bool, ascii: Byte, codepoint: nat, modifiers: nat) {
    predicate Shift() {
      modifiers % 2 == 1
    }
  }

  /** The key bindings, by portable key code. */
  function Binding(code: int): Option<Command> {
    match code
    case 0x0A => Some(Newline)
    case 0x0D => Some(Newline)
    case 0x08 => Some(Backspace)
    case 0x7F => Some(Backspace)
    case 0x01 => Some(Home)
    case 0x05 => Some(End)
    case 0x0B => Some(Kill)
    case 0x04 => Some(Delete)
    case 0x1002 => Some(Left)
    case 0x1003 => Some(Right)
    case 0x1000 => Some(UpLine)
    case 0x1001 => Some(DownLine)
    case 0x1004 => Some(Home)
    case 0x1005 => Some(End)
    case 0x1008 => Some(Delete)
    case _ => None
  }

  /** Shift starts or keeps a selection; plain motion drops it. */
  function Prepare(e: Editor, shift: bool): Editor {
    if !shift then e.(anchor := None)
    else if e.anchor.Some? then e
    else e.(anchor := Some(e.cursor))
  }

  function Target(d: Bytes, k: nat, c: Command): (t: nat)
    requires k <= |d| && IsMovement(c)
    ensures t <= |d|
  {
    match c
    case Home => LineStart(d, k)
    case End => LineEnd(d, k)
    case Left => Prev(d, k)
    case Right => Next(d, k)
    case UpLine => Up(d, k)
    case DownLine => Down(d, k)
  }

  function Edit(e: Editor, c: Command): (Editor, bool)
    requires EditorOk(e) && !IsMovement(c)
  {
    match c
    case Newline => (Replace(e, [LF]), true)
    case Backspace => DeleteBackward(e)
    case Delete => DeleteForward(e)
    case Kill => KillToEnd(e)
  }

  function Move(e: Editor, c: Command, shift: bool): Editor
    requires EditorOk(e) && IsMovement(c)
  {
    Prepare(e, shift).(cursor := Target(e.doc, e.cursor, c))
  }

  function TypedCodepoint(key: Key): nat {
    if key.codepoint == 0 && key.ascii > 0 then key.ascii else key.codepoint
  }

  /** What a key does to the flat editor, and whether it is consumed. */
  function KeyStep(e: Editor, key: Key): (Editor, bool)
    requires EditorOk(e)
  {
    match Binding(key.code)
    case Some(c) => if IsMovement(c) then (Move(e, c, key.Shift()), true) else Edit(e, c)
    case None =>
      var cp := TypedCodepoint(key);
      if key.printable && cp >= 0x20 && cp != 0x7F then InsertCodepoint(e, cp) else (e, false)
  }
}
