/**
  Laws of the flat editor, and so of the text buffer that refines it: every key keeps the text
  well formed and makes at most one splice; cutting and re-inserting, typing and backspace,
  right and left undo each other; vertical motion keeps the column.
 */
module EditorLaws {
  import opened Basics
  import opened Utf8
  import opened Utf8Text
  import opened FlatText
  import opened LineEdits

  // ----- Well-formedness over every run of keys -----

  function Run(e: Editor, keys: seq<Key>): Editor
    requires EditorOk(e)
    decreases |keys|
  {
    if keys == [] then e
    else
      KeyStepOk(e, keys[0]);
      Run(KeyStep(e, keys[0]).0, keys[1..])
  }

  lemma ReplaceOk(e: Editor, text: Bytes)
    requires EditorOk(e) && Insertable(text)
    ensures EditorOk(Replace(e, text))
  {
    var (a, b) := SelectionOrCursor(e);
    SpliceOk(e.doc, a, b, text);
  }

  lemma EmptyInsertable()
    ensures Insertable([])
  {
  }

  lemma DeleteOk(e: Editor, a: nat, b: nat)
    requires EditorOk(e) && Boundary(e.doc, a) && Boundary(e.doc, b) && a <= b
    ensures Insertable(Splice(e.doc, a, b, [])) && Boundary(Splice(e.doc, a, b, []), a)
  {
    EmptyInsertable();
    SpliceOk(e.doc, a, b, []);
  }

  lemma StepBoundaries(d: Bytes, k: nat)
    requires Valid(d) && Boundary(d, k)
    ensures Boundary(d, Next(d, k)) && k <= Next(d, k) && (k < |d| ==> k < Next(d, k))
    ensures Boundary(d, Prev(d, k)) && Prev(d, k) <= k
  {
    hide Decode, Valid;
    ValidStartsBoundary(d);
    if k < |d| {
      NextStep(d, k);
    }
    if k > 0 {
      PrevIsBoundary(d, k);
    }
  }

  lemma {:induction false} LineStartIsStart(d: Bytes, k: nat)
    requires k <= |d|
    ensures LineStart(d, k) == 0 || d[LineStart(d, k) - 1] == LF
    ensures forall j :: LineStart(d, k) <= j < k ==> d[j] != LF
  {
    if !(k == 0 || d[k - 1] == LF) {
      LineStartIsStart(d, k - 1);
    }
  }

  lemma {:induction false} LineEndIsEnd(d: Bytes, k: nat)
    requires k <= |d|
    ensures LineEnd(d, k) == |d| || d[LineEnd(d, k)] == LF
    ensures forall j :: k <= j < LineEnd(d, k) ==> d[j] != LF
    decreases |d| - k
  {
    if !(k == |d| || d[k] == LF) {
      LineEndIsEnd(d, k + 1);
    }
  }

  lemma LineBoundsOk(d: Bytes, k: nat)
    requires Valid(d) && k <= |d|
    ensures Boundary(d, LineStart(d, k)) && Boundary(d, LineEnd(d, k))
  {
    hide Decode, Valid;
    LineStartIsStart(d, k);
    LineEndIsEnd(d, k);
    ValidStartsBoundary(d);
    if LineStart(d, k) > 0 {
      AroundLF(d, LineStart(d, k) - 1);
    }
    if LineEnd(d, k) < |d| {
      AroundLF(d, LineEnd(d, k));
    }
  }

  /** A byte offset found within a line by columns is a boundary of the document. */
  lemma PrefixInDoc(d: Bytes, a: nat, b: nat, m: nat)
    requires Valid(d) && Boundary(d, a) && Boundary(d, b) && a <= b
    ensures Boundary(d, a + PrefixBytes(d[a..b], m))
  {
    hide Decode, Valid, PrefixBytes;
    SliceIsValid(d, a, b);
    assert forall j :: 0 <= j < b - a ==> d[a..b][j] == d[a + j];
    PrefixBytesIsBoundary(d[a..b], m);
  }

  lemma TargetOk(d: Bytes, k: nat, c: Command)
    requires Valid(d) && Boundary(d, k) && IsMovement(c)
    ensures Boundary(d, Target(d, k, c))
  {
    hide Decode, Valid, PrefixBytes, Columns, LineStart, LineEnd;
    StepBoundaries(d, k);
    LineBoundsOk(d, k);
    match c {
      case UpLine =>
        var start := LineStart(d, k);
        LineStartIsStart(d, k);
        if start > 0 {
          AroundLF(d, start - 1);
          LineBoundsOk(d, start - 1);
          PrefixInDoc(d, LineStart(d, start - 1), start - 1, Columns(d[start..k]));
        }
      case DownLine =>
        var start, end := LineStart(d, k), LineEnd(d, k);
        LineEndIsEnd(d, k);
        if end < |d| {
          AroundLF(d, end);
          LineBoundsOk(d, end + 1);
          PrefixInDoc(d, end + 1, LineEnd(d, end + 1), Columns(d[start..k]));
        }
      case _ =>
    }
  }

  /** Every key keeps the document valid UTF-8 without NUL and the cursor and anchor on boundaries. */
  lemma KeyStepOk(e: Editor, key: Key)
    requires EditorOk(e)
    ensures EditorOk(KeyStep(e, key).0)
  {
    hide Decode, Valid, Prev, Next, Splice, Replace, Target, LineEnd;
    ValidLF();
    EmptyInsertable();
    StepBoundaries(e.doc, e.cursor);
    LineBoundsOk(e.doc, e.cursor);
    DeleteOk(e, Prev(e.doc, e.cursor), e.cursor);
    DeleteOk(e, e.cursor, Next(e.doc, e.cursor));
    DeleteOk(e, e.cursor, LineEnd(e.doc, e.cursor));
    ReplaceOk(e, [LF]);
    ReplaceOk(e, []);
    match Binding(key.code)
    case Some(c) =>
      if IsMovement(c) {
        TargetOk(e.doc, e.cursor, c);
      }
    case None =>
      var cp := TypedCodepoint(key);
      if cp >= 0x20 && IsScalarValue(cp) {
        EncodingIsInsertable(cp);
        ReplaceOk(e, Encode(cp).value);
      }
  }

  lemma {:induction false} RunOk(e: Editor, keys: seq<Key>)
    requires EditorOk(e)
    ensures EditorOk(Run(e, keys))
    decreases |keys|
  {
    hide EditorOk, KeyStep;
    if keys != [] {
      KeyStepOk(e, keys[0]);
      RunOk(KeyStep(e, keys[0]).0, keys[1..]);
    }
  }

  // ----- One key, at most one splice -----

  /** The document after is the one before with one range replaced, and the cursor ends that range. */
  ghost predicate OneSplice(e: Editor, e': Editor, a: nat, b: nat, text: Bytes) {
    a <= b <= |e.doc| && e'.doc == Splice(e.doc, a, b, text) && e'.cursor == a + |text|
  }

  /** What a key may replace: the selection, or without one nothing, a neighbour character or the rest of the line. */
  predicate KeyRange(e: Editor, a: nat, b: nat, text: Bytes)
    requires EditorOk(e)
  {
    if Selection(e).Some? then (a, b) == Selection(e).value
    else
      || (a == e.cursor == b && text != [])
      || (a == Prev(e.doc, e.cursor) && b == e.cursor && text == [])
      || (a == e.cursor && b == Next(e.doc, e.cursor) && text == [])
      || (a == e.cursor && b == LineEnd(e.doc, e.cursor) && text == [])
  }

  /** A key either leaves the document alone or splices it once, at the selection or beside the cursor. */
  lemma KeyIsOneSplice(e: Editor, key: Key)
    requires EditorOk(e)
    ensures var e' := KeyStep(e, key).0;
            || e'.doc == e.doc
            || exists a: nat, b: nat, text: Bytes :: OneSplice(e, e', a, b, text) && KeyRange(e, a, b, text)
  {
    hide Decode, Valid, Prev, Next, Target, LineEnd, LineStart, Splice;
    StepBoundaries(e.doc, e.cursor);
    var e' := KeyStep(e, key).0;
    var (a, b) := SelectionOrCursor(e);
    if Selection(e).Some? && e' == Replace(e, []) {
      assert OneSplice(e, e', a, b, []);
    } else {
      match Binding(key.code)
      case Some(Newline) => assert OneSplice(e, e', a, b, [LF]);
      case Some(Backspace) =>
        if e.cursor > 0 {
          assert OneSplice(e, e', Prev(e.doc, e.cursor), e.cursor, []);
        }
      case Some(Delete) =>
        if e.cursor < |e.doc| {
          assert OneSplice(e, e', e.cursor, Next(e.doc, e.cursor), []);
        }
      case Some(Kill) =>
        assert e'.doc != e.doc ==> OneSplice(e, e', e.cursor, LineEnd(e.doc, e.cursor), []);
      case Some(_) =>
      case None =>
        if e'.doc != e.doc {
          assert OneSplice(e, e', a, b, Encode(TypedCodepoint(key)).value);
        }
    }
  }

  // ----- Inverse operations -----

  lemma SpliceBack(d: Bytes, a: nat, b: nat)
    requires a <= b <= |d|
    ensures |Splice(d, a, b, [])| >= a && Splice(Splice(d, a, b, []), a, a, d[a..b]) == d
  {
    var cut := Splice(d, a, b, []);
    assert cut[..a] == d[..a] && cut[a..] == d[b..];
    assert d[..a] + d[a..b] == d[..b];
    assert d[..b] + d[b..] == d;
  }

  /** Cutting a selection and inserting what was cut restores the document. */
  lemma CutThenInsert(e: Editor)
    requires EditorOk(e) && Selection(e).Some?
    ensures var (a, b) := Selection(e).value;
            var cut := DeleteSelection(e).0;
            && b <= |e.doc| && EditorOk(cut)
            && InsertText(cut, e.doc[a..b]) == (Editor(e.doc, b, None), true)
  {
    hide Decode, Valid, Splice;
    var (a, b) := Selection(e).value;
    DeleteOk(e, a, b);
    SliceIsValid(e.doc, a, b);
    SpliceBack(e.doc, a, b);
  }

  /** Deleting an inserted text by splices: what is spliced in can be spliced out. */
  lemma SpliceOut(d: Bytes, a: nat, text: Bytes)
    requires a <= |d|
    ensures |Splice(d, a, a, text)| >= a + |text| && Splice(Splice(d, a, a, text), a, a + |text|, []) == d
  {
    var s := Splice(d, a, a, text);
    assert s[..a] == d[..a] && s[a + |text|..] == d[a..];
  }

  lemma SpliceInside(d: Bytes, a: nat, text: Bytes)
    requires a <= |d|
    ensures |Splice(d, a, a, text)| == |d| + |text|
    ensures forall j :: 0 <= j < |text| ==> Splice(d, a, a, text)[a + j] == text[j]
    ensures forall j :: a <= j < a + |text| ==> Splice(d, a, a, text)[j] == text[j - a]
  {
  }

  /** Backspace removes exactly the code point that was typed. */
  lemma BackspaceUndoesTyping(e: Editor, cp: nat)
    requires EditorOk(e) && Selection(e).None? && InsertCodepoint(e, cp).1
    ensures var typed := InsertCodepoint(e, cp).0;
            EditorOk(typed) && DeleteBackward(typed) == (Editor(e.doc, e.cursor, None), true)
  {
    hide Decode, Valid, Splice, IsScalarValue, IsContinuation, Prev;
    EncodeSucceeds(cp);
    var text := Encode(cp).value;
    var k := e.cursor;
    EncodingIsInsertable(cp);
    ReplaceOk(e, text);
    var d := Splice(e.doc, k, k, text);
    EncodedTail(cp);
    SpliceInside(e.doc, k, text);
    assert forall j :: k < j < k + |text| ==> d[j] == text[j - k];
    PrevSkips(d, k, k + |text|);
    SpliceOut(e.doc, k, text);
  }

  lemma EncodedTail(cp: nat)
    requires IsScalarValue(cp)
    ensures var s := Encode(cp).value;
            s != [] && !IsContinuation(s[0]) && forall j :: 1 <= j < |s| ==> IsContinuation(s[j])
  {
    EncodeIsWellFormed(cp);
  }

  lemma {:induction false} PrevSkips(d: Bytes, a: nat, k: nat)
    requires a < k <= |d| && !IsContinuation(d[a])
    requires forall j :: a < j < k ==> IsContinuation(d[j])
    ensures Prev(d, k) == a
  {
    if a + 1 < k {
      PrevSkips(d, a, k - 1);
    }
  }

  /** Right then Left, and Left then Right, return to the same place. */
  lemma LeftRightInverse(d: Bytes, k: nat)
    requires Valid(d) && Boundary(d, k)
    ensures k < |d| ==> Target(d, Target(d, k, Right), Left) == k
    ensures k > 0 ==> Target(d, Target(d, k, Left), Right) == k
  {
    hide Decode, Valid;
    StepBoundaries(d, k);
    NextPrevInverse(d, k);
  }

  // ----- Vertical motion keeps the column -----

  /** The column of an offset, in terminal cells from the start of its line. */
  function ColumnAt(d: Bytes, k: nat): nat
    requires k <= |d|
  {
    Columns(d[LineStart(d, k)..k])
  }

  function LineColumns(d: Bytes, k: nat): nat
    requires k <= |d|
  {
    Columns(d[LineStart(d, k)..LineEnd(d, k)])
  }

  lemma LandsInLine(d: Bytes, a: nat, b: nat, m: nat)
    requires Valid(d) && Boundary(d, a) && Boundary(d, b) && a <= b
    requires (a == 0 || d[a - 1] == LF) && (b == |d| || d[b] == LF) && forall j :: a <= j < b ==> d[j] != LF
    ensures var t := a + PrefixBytes(d[a..b], m);
            && LineStart(d, t) == a && LineEnd(d, t) == b
            && ColumnAt(d, t) == Min(m, LineColumns(d, t))
  {
    hide Decode, Valid, Columns, PrefixBytes;
    var n := PrefixBytes(d[a..b], m);
    LineStartOf(d, a, a + n);
    LineEndOf(d, a + n, b);
    SliceIsValid(d, a, b);
    PrefixBytesFills(d[a..b], m);
    SliceOfSlice(d, a, b, 0, n);
    assert d[a..b][0..n] == d[a..b][..n];
  }

  lemma UpIs(d: Bytes, k: nat)
    requires k <= |d| && LineStart(d, k) > 0
    ensures var end := LineStart(d, k) - 1;
            Up(d, k) == LineStart(d, end) + PrefixBytes(d[LineStart(d, end)..end], ColumnAt(d, k))
  {
  }

  lemma DownIs(d: Bytes, k: nat)
    requires k <= |d| && LineEnd(d, k) < |d|
    ensures var below := LineEnd(d, k) + 1;
            Down(d, k) == below + PrefixBytes(d[below..LineEnd(d, below)], ColumnAt(d, k))
  {
  }

  /** Up and Down land at the same column, or at the end of a shorter line. */
  lemma UpKeepsColumn(d: Bytes, k: nat)
    requires Valid(d) && Boundary(d, k) && LineStart(d, k) > 0
    ensures LineEnd(d, Up(d, k)) == LineStart(d, k) - 1
    ensures ColumnAt(d, Up(d, k)) == Min(ColumnAt(d, k), LineColumns(d, Up(d, k)))
  {
    hide Decode, Valid, Columns, PrefixBytes, LineStart, LineEnd, LineColumns, ColumnAt, Up, Down;
    var start := LineStart(d, k);
    LineStartIsStart(d, k);
    AroundLF(d, start - 1);
    LineBoundsOk(d, start - 1);
    LineStartIsStart(d, start - 1);
    var above, m := LineStart(d, start - 1), ColumnAt(d, k);
    LandsInLine(d, above, start - 1, m);
    UpIs(d, k);
  }

  lemma DownKeepsColumn(d: Bytes, k: nat)
    requires Valid(d) && Boundary(d, k) && LineEnd(d, k) < |d|
    ensures LineStart(d, Down(d, k)) == LineEnd(d, k) + 1
    ensures ColumnAt(d, Down(d, k)) == Min(ColumnAt(d, k), LineColumns(d, Down(d, k)))
  {
    hide Decode, Valid, Columns, PrefixBytes, LineStart, LineEnd, LineColumns, ColumnAt, Up, Down;
    var end := LineEnd(d, k);
    LineEndIsEnd(d, k);
    AroundLF(d, end);
    LineBoundsOk(d, end + 1);
    LineEndIsEnd(d, end + 1);
    var below, m := LineEnd(d, end + 1), ColumnAt(d, k);
    LandsInLine(d, end + 1, below, m);
    DownIs(d, k);
  }
}
