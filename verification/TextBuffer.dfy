/**
  The editor's text buffer: an array of lines, a byte-offset cursor and a selection anchor,
  changed in place. Flat() is the document it stands for; every operation is specified by its
  effect there.
 */
module TextBuffers {
  import opened Basics
  import opened Utf8
  import T = Utf8Text
  import opened FlatText
  import F = FlatText
  import opened LineEdits
  import opened TextSearch
  import opened TextWrap

  datatype TextPosition = TextPosition(row: nat, col: nat)

  function Compare(left: TextPosition, right: TextPosition): int {
    if left.row < right.row then -1
    else if left.row > right.row then 1
    else if left.col < right.col then -1
    else if left.col > right.col then 1
    else 0
  }

  datatype Match = Match(row: nat, start: nat, end: nat)

  predicate Searchable(query: Bytes) {
    query != [] && T.Valid(query) && 0 !in query && 10 !in query && 13 !in query
  }

  predicate AtOrPast(from: TextPosition, row: nat, col: nat) {
    row > from.row || (row == from.row && col >= from.col)
  }

  /** The order of places met going round the text from `from`. */
  predicate CyclicLeq(from: TextPosition, row: nat, col: nat, row': nat, col': nat) {
    if AtOrPast(from, row, col) != AtOrPast(from, row', col') then AtOrPast(from, row, col)
    else row < row' || (row == row' && col <= col')
  }

  lemma OccurrencesFit(line: Bytes, query: Bytes, ci: bool)
    requires T.Valid(line) && T.Valid(query)
    ensures forall p: nat :: Occurs(line, p, query, ci) ==> p + |query| <= |line|
  {
  }

  /** The document offset of a place, its row and column moved into the text first. */
  function ClampedOffset(ls: seq<Bytes>, p: TextPosition): nat
    requires ls != []
  {
    var row := if p.row >= |ls| then |ls| - 1 else p.row;
    Offset(ls, row, AtOrBefore(ls[row], p.col))
  }

  lemma ClampedIsBoundary(ls: seq<Bytes>, p: TextPosition)
    requires ls != [] && LinesOk(ls)
    ensures ClampedOffset(ls, p) <= |Join(ls)| && T.Boundary(Join(ls), ClampedOffset(ls, p))
  {
    hide T.Valid, Offset, Join;
    var row := if p.row >= |ls| then |ls| - 1 else p.row;
    AtOrBeforeIsBoundary(ls[row], p.col);
    BoundaryInDoc(ls, row, AtOrBefore(ls[row], p.col));
  }

  class TextBuffer {
    var lines: seq<Bytes>
    var cursorRow: nat
    var cursorCol: nat
    var selectionActive: bool
    var anchorRow: nat
    var anchorCol: nat

    ghost predicate Valid()
      reads this
    {
      && lines != [] && LinesOk(lines)
      && Position(lines, cursorRow, cursorCol)
      && (selectionActive ==> Position(lines, anchorRow, anchorCol))
    }

    ghost function Doc(): Bytes
      requires lines != []
      reads this
    {
      Join(lines)
    }

    /** The flat document, cursor and anchor that the line array stands for. */
    ghost function Flat(): Editor
      requires Valid()
      reads this
    {
      Editor(Join(lines), Offset(lines, cursorRow, cursorCol),
             if selectionActive then Some(Offset(lines, anchorRow, anchorCol)) else None)
    }

    lemma FlatOk()
      requires Valid()
      ensures EditorOk(Flat())
    {
      hide Offset, Join, T.Valid;
      JoinIsOk(lines);
      BoundaryInDoc(lines, cursorRow, cursorCol);
      if selectionActive {
        BoundaryInDoc(lines, anchorRow, anchorCol);
      }
    }

    constructor ()
      ensures Valid() && Flat() == Editor([], 0, None)
    {
      lines := [[]];
      cursorRow, cursorCol := 0, 0;
      selectionActive, anchorRow, anchorCol := false, 0, 0;
    }

    // ----- Selection and cursor -----

    method ClearSelection()
      requires Valid()
      modifies this`selectionActive, this`anchorRow, this`anchorCol
      ensures Valid() && !selectionActive && Flat() == old(Flat()).(anchor := None)
    {
      selectionActive, anchorRow, anchorCol := false, 0, 0;
    }

    /** The selected range in document order. */
    method SelectionRange() returns (selected: bool, start: TextPosition, end: TextPosition)
      requires Valid()
      ensures selected == Selection(Flat()).Some?
      ensures selected ==> Position(lines, start.row, start.col) && Position(lines, end.row, end.col)
      ensures selected ==> Selection(Flat()).value ==
                           (Offset(lines, start.row, start.col), Offset(lines, end.row, end.col))
    {
      start, end := TextPosition(0, 0), TextPosition(0, 0);
      if !selectionActive {
        return false, start, end;
      }
      var anchor := TextPosition(anchorRow, anchorCol);
      var cursor := TextPosition(cursorRow, cursorCol);
      OffsetOrder(lines, anchor.row, anchor.col, cursor.row, cursor.col);
      OffsetOrder(lines, cursor.row, cursor.col, anchor.row, anchor.col);
      if Compare(anchor, cursor) == 0 {
        return false, start, end;
      }
      if Compare(anchor, cursor) < 0 {
        return true, anchor, cursor;
      }
      return true, cursor, anchor;
    }

    method HasSelection() returns (b: bool)
      requires Valid()
      ensures b == Selection(Flat()).Some?
    {
      var selected, _, _ := SelectionRange();
      return selected;
    }

    method ClearCollapsedSelection()
      requires Valid() && Selection(Flat()).None?
      modifies this`selectionActive, this`anchorRow, this`anchorCol
      ensures Valid() && Flat() == old(Flat()).(anchor := None)
    {
      if selectionActive {
        var selected := HasSelection();
        if !selected {
          ClearSelection();
        }
      }
    }

    method ClampCursor()
      requires lines != [] && LinesOk(lines)
      modifies this`cursorRow, this`cursorCol
      ensures cursorRow == if old(cursorRow) >= |lines| then |lines| - 1 else old(cursorRow)
      ensures cursorCol == AtOrBefore(lines[cursorRow], old(cursorCol))
      ensures Position(lines, cursorRow, cursorCol)
      ensures old(Position(lines, cursorRow, cursorCol)) ==>
                cursorRow == old(cursorRow) && cursorCol == old(cursorCol)
    {
      if cursorRow >= |lines| {
        cursorRow := |lines| - 1;
      }
      AtOrBeforeIsBoundary(lines[cursorRow], cursorCol);
      cursorCol := BoundaryAtOrBefore(lines[cursorRow], cursorCol);
    }

    method SetCursor(row: nat, col: nat)
      requires Valid()
      modifies this
      ensures Valid() && lines == old(lines) && !selectionActive
      ensures cursorRow == if row >= |lines| then |lines| - 1 else row
      ensures cursorCol == AtOrBefore(lines[cursorRow], col)
      ensures Position(lines, row, col) ==> Flat() == Editor(old(Doc()), Offset(lines, row, col), None)
    {
      cursorRow := if row >= |lines| then |lines| - 1 else row;
      cursorCol := col;
      ClampCursor();
      AtOrBeforeIsBoundary(lines[cursorRow], col);
      ClearSelection();
    }

    method SelectAll()
      requires Valid()
      modifies this
      ensures Valid() && Flat() == Editor(old(Doc()), |old(Doc())|, if old(Doc()) == [] then None else Some(0))
    {
      LineInDoc(lines, 0);
      LineInDoc(lines, |lines| - 1);
      T.ValidStartsBoundary(lines[0]);
      anchorRow, anchorCol := 0, 0;
      cursorRow := |lines| - 1;
      cursorCol := |lines[cursorRow]|;
      selectionActive := cursorRow != 0 || cursorCol != 0;
    }

    // ----- The document as one text -----

    method ToText() returns (out: Bytes)
      requires lines != []
      ensures out == Doc()
    {
      out := [];
      var index := 0;
      while index < |lines|
        invariant index <= |lines|
        invariant out == if index < |lines| then Before(lines[..index]) else Join(lines)
      {
        JoinAt(lines, index);
        BeforeNext(lines, index);
        out := out + lines[index];
        if index + 1 < |lines| {
          out := out + [LF];
        } else {
          assert lines[index + 1..] == [];
        }
        index := index + 1;
      }
    }

    /** The lines of a text, found one LF at a time. */
    static method SplitLines(text: Bytes) returns (next: seq<Bytes>)
      ensures next == Split(text)
    {
      hide FirstLF, Split;
      next := [];
      var cursor := 0;
      assert text[0..] == text;
      while true
        invariant cursor <= |text|
        invariant Split(text) == next + Split(text[cursor..])
        decreases |text| - cursor
      {
        var rest := text[cursor..];
        var newline := FirstLF(rest);
        SplitAhead(text, cursor, next);
        next := next + [rest[..newline]];
        if newline == |rest| {
          break;
        }
        cursor := cursor + newline + 1;
      }
    }

    /** Replaces the whole text by a C string, split at each LF; refuses malformed UTF-8. */
    method SetText(text: Bytes) returns (ok: bool)
      requires Valid() && 0 !in text
      modifies this
      ensures ok == T.Valid(text) && Valid()
      ensures ok ==> lines == Split(text) && Flat() == Editor(text, |text|, None)
      ensures !ok ==> unchanged(this)
    {
      hide T.Valid, Split, Join;
      ok := T.Validate(text);
      if !ok {
        return;
      }
      var next := SplitLines(text);
      SplitIsOk(text);
      JoinOfSplit(text);
      LineInDoc(next, |next| - 1);
      lines := next;
      cursorRow := |next| - 1;
      cursorCol := |lines[cursorRow]|;
      selectionActive, anchorRow, anchorCol := false, 0, 0;
    }

    method DocumentOffset(position: TextPosition) returns (offset: nat)
      requires Valid()
      ensures offset == ClampedOffset(lines, position)
    {
      var last := if position.row >= |lines| then |lines| - 1 else position.row;
      var col := BoundaryAtOrBefore(lines[last], position.col);
      offset := 0;
      var row := 0;
      while row < last
        invariant row <= last && offset == |Before(lines[..row])|
      {
        BeforeNext(lines, row);
        offset := offset + |lines[row]| + 1;
        row := row + 1;
      }
      offset := offset + col;
    }

    /** Places the cursor at a document offset, at the nearest boundary on its left. */
    method SetCursorFromOffset(offset: nat)
      requires lines != [] && LinesOk(lines)
      modifies this`cursorRow, this`cursorCol
      ensures Position(lines, cursorRow, cursorCol)
      ensures T.Boundary(Doc(), offset) ==> Offset(lines, cursorRow, cursorCol) == offset
    {
      hide T.Valid, Join;
      var rest: nat, row: nat := offset, 0;
      while row < |lines|
        invariant row <= |lines|
        invariant offset <= |Doc()| ==> row < |lines| && offset == Offset(lines, row, 0) + rest
      {
        LineInDoc(lines, row);
        if rest <= |lines[row]| {
          cursorRow := row;
          cursorCol := BoundaryAtOrBefore(lines[row], rest);
          AtOrBeforeIsBoundary(lines[row], rest);
          if offset <= |Doc()| {
            BoundaryInDoc(lines, row, rest);
          }
          return;
        }
        if row + 1 < |lines| {
          LineInDoc(lines, row + 1);
        }
        rest := rest - |lines[row]|;
        if row + 1 < |lines| && rest > 0 {
          rest := rest - 1;
        }
        row := row + 1;
      }
      cursorRow := |lines| - 1;
      cursorCol := |lines[cursorRow]|;
    }

    method SelectedText() returns (selected: bool, text: Bytes)
      requires Valid()
      ensures selected == Selection(Flat()).Some?
      ensures selected ==> var (a, b) := Selection(Flat()).value; b <= |Doc()| && text == Doc()[a..b]
    {
      var start, end;
      selected, start, end := SelectionRange();
      if !selected {
        return false, [];
      }
      var document := ToText();
      PositionNormal(start);
      PositionNormal(end);
      BoundaryInDoc(lines, end.row, end.col);
      var a := DocumentOffset(start);
      var b := DocumentOffset(end);
      text := document[a..b];
    }

    lemma PositionNormal(p: TextPosition)
      requires Valid() && Position(lines, p.row, p.col)
      ensures AtOrBefore(lines[p.row], p.col) == p.col
    {
      AtOrBeforeIsBoundary(lines[p.row], p.col);
    }

    // ----- Editing -----

    /** Puts text in place of a range; refuses a reversed range and text that cannot be inserted. */
    method ReplaceRange(start: TextPosition, end: TextPosition, inserted: Bytes) returns (ok: bool)
      requires Valid()
      modifies this
      ensures Valid()
      ensures ok == (Insertable(inserted) && old(ClampedOffset(lines, start)) <= old(ClampedOffset(lines, end)))
      ensures ok ==> var a, b := old(ClampedOffset(lines, start)), old(ClampedOffset(lines, end));
                     b <= |old(Doc())| && Flat() == Editor(Splice(old(Doc()), a, b, inserted), a + |inserted|, None)
      ensures !ok ==> unchanged(this)
    {
      hide T.Valid, Offset, Join, Split, ClampedOffset;
      ok := T.Validate(inserted);
      if !ok || 0 in inserted {
        return false;
      }
      var document := ToText();
      var a := DocumentOffset(start);
      var b := DocumentOffset(end);
      ClampedIsBoundary(lines, start);
      ClampedIsBoundary(lines, end);
      if a > b || b > |document| {
        return false;
      }
      JoinIsOk(lines);
      SpliceOk(document, a, b, inserted);
      var next := document[..a] + inserted + document[b..];
      ok := SetText(next);
      SetCursorFromOffset(a + |inserted|);
      ClearSelection();
    }

    method InsertText(text: Bytes) returns (ok: bool)
      requires Valid()
      modifies this
      ensures Valid() && old(EditorOk(Flat())) && (Flat(), ok) == F.InsertText(old(Flat()), text)
      ensures !ok ==> unchanged(this)
    {
      hide T.Valid, Offset, Join;
      FlatOk();
      BoundaryInDoc(lines, cursorRow, cursorCol);
      var start, end := TextPosition(cursorRow, cursorCol), TextPosition(cursorRow, cursorCol);
      var selected, from, to := SelectionRange();
      if selected {
        start, end := from, to;
      }
      OffsetOrder(lines, start.row, start.col, end.row, end.col);
      PositionNormal(start);
      PositionNormal(end);
      if text == [] && Compare(start, end) == 0 {
        return false;
      }
      ok := ReplaceRange(start, end, text);
    }

    /** Moves the tail of a line over a removed range, or aside for inserted bytes. */
    method ShiftLine(row: nat, a: nat, b: nat, inserted: Bytes)
      requires LinesOk(lines) && Position(lines, row, a) && T.Boundary(lines[row], b) && a <= b
      requires inserted == [] || (Insertable(inserted) && LF !in inserted)
      modifies this`lines
      ensures LinesOk(lines) && Position(lines, row, a + |inserted|)
      ensures lines == old(lines)[row := old(lines)[row][..a] + inserted + old(lines)[row][b..]]
      ensures old(Offset(lines, row, b)) <= |old(Doc())|
      ensures Doc() == Splice(old(Doc()), old(Offset(lines, row, a)), old(Offset(lines, row, b)), inserted)
      ensures Offset(lines, row, a) == old(Offset(lines, row, a))
      ensures Offset(lines, row, a + |inserted|) == old(Offset(lines, row, a)) + |inserted|
    {
      hide T.Valid, Offset, Join;
      InlineIsOk(lines, row, a, b, inserted);
      SpliceInLine(lines, row, a, b, inserted);
      OffsetIsLinear(lines, row, a, |inserted|);
      var line := lines[row];
      lines := lines[row := line[..a] + inserted + line[b..]];
    }

    method InsertCodepoint(cp: nat) returns (ok: bool)
      requires Valid()
      modifies this
      ensures Valid() && old(EditorOk(Flat())) && (Flat(), ok) == F.InsertCodepoint(old(Flat()), cp)
    {
      hide T.Valid, Offset, Join, Encode, IsScalarValue;
      FlatOk();
      if cp == 0 || cp == 10 || cp == 13 {
        return false;
      }
      var code := Encode(cp);
      EncodeSucceeds(cp);
      if code.None? {
        return false;
      }
      var encoded := code.value;
      EncodingIsInsertable(cp);
      var selected := HasSelection();
      if selected {
        ok := InsertText(encoded);
        return;
      }
      ClearCollapsedSelection();
      ClampCursor();
      ShiftLine(cursorRow, cursorCol, cursorCol, encoded);
      cursorCol := cursorCol + |encoded|;
      ok := true;
    }

    method InsertNewline() returns (ok: bool)
      requires Valid()
      modifies this
      ensures ok && Valid() && old(EditorOk(Flat())) && Flat() == Replace(old(Flat()), [LF])
    {
      hide T.Valid, Offset, Join;
      FlatOk();
      ValidLF();
      var selected := HasSelection();
      if selected {
        ok := InsertText([LF]);
        return;
      }
      ClearCollapsedSelection();
      ClampCursor();
      BreakIsOk(lines, cursorRow, cursorCol);
      BreakLine(lines, cursorRow, cursorCol);
      var col := cursorCol;
      var newLine := lines[cursorRow][col..];
      var insertAt := cursorRow + 1;
      ghost var before := lines;
      lines := lines[..insertAt] + [newLine] + lines[insertAt..];
      lines := lines[cursorRow := lines[cursorRow][..col]];
      assert lines == before[..cursorRow] + [before[cursorRow][..col], newLine] + before[insertAt..];
      cursorRow := insertAt;
      cursorCol := 0;
      ok := true;
    }

    method DeleteSelection() returns (ok: bool)
      requires Valid()
      modifies this
      ensures Valid() && old(EditorOk(Flat())) && (Flat(), ok) == F.DeleteSelection(old(Flat()))
      ensures !ok ==> unchanged(this)
    {
      hide Offset, Join, Splice;
      FlatOk();
      var selected := HasSelection();
      if !selected {
        return false;
      }
      ok := InsertText([]);
    }

    method DeleteBackward() returns (ok: bool)
      requires Valid()
      modifies this
      ensures Valid() && old(EditorOk(Flat())) && (Flat(), ok) == F.DeleteBackward(old(Flat()))
    {
      hide T.Valid, T.Prev, Offset, Join, Decode, Splice;
      FlatOk();
      var selected := HasSelection();
      if selected {
        ok := DeleteSelection();
        return;
      }
      ClearCollapsedSelection();
      ClampCursor();
      PrevInDoc(lines, cursorRow, cursorCol);
      LineInDoc(lines, cursorRow);
      if cursorCol > 0 {
        var line := lines[cursorRow];
        T.PrevIsBoundary(line, cursorCol);
        var previous := T.PrevAt(line, cursorCol);
        ShiftLine(cursorRow, previous, cursorCol, []);
        cursorCol := previous;
        return true;
      }
      if cursorRow == 0 {
        return false;
      }
      var previousRow := cursorRow - 1;
      MergeIsOk(lines, previousRow);
      MergeLines(lines, previousRow);
      var oldPreviousLength := |lines[previousRow]|;
      MergeRows(previousRow);
      cursorRow := previousRow;
      cursorCol := oldPreviousLength;
      ok := true;
    }

    /** Appends the next row to a row and removes it from the array of lines. */
    method MergeRows(row: nat)
      requires row + 1 < |lines|
      modifies this`lines
      ensures lines == old(lines)[..row] + [old(lines)[row] + old(lines)[row + 1]] + old(lines)[row + 2..]
    {
      assert lines[row + 1] == [] ==> lines[row] + lines[row + 1] == lines[row];
      if |lines[row + 1]| > 0 {
        lines := lines[row := lines[row] + lines[row + 1]];
      }
      lines := lines[..row + 1] + lines[row + 2..];
    }

    method DeleteForward() returns (ok: bool)
      requires Valid()
      modifies this
      ensures Valid() && old(EditorOk(Flat())) && (Flat(), ok) == F.DeleteForward(old(Flat()))
    {
      hide T.Valid, T.Next, Offset, Join, Decode, Splice;
      FlatOk();
      var selected := HasSelection();
      if selected {
        ok := DeleteSelection();
        return;
      }
      ClearCollapsedSelection();
      ClampCursor();
      NextInDoc(lines, cursorRow, cursorCol);
      LineInDoc(lines, cursorRow);
      var line := lines[cursorRow];
      if cursorCol < |line| {
        NextStep(line, cursorCol);
        var next := T.Next(line, cursorCol);
        if next <= cursorCol {
          return false;
        }
        ShiftLine(cursorRow, cursorCol, next, []);
        return true;
      }
      if cursorRow + 1 >= |lines| {
        return false;
      }
      LineInDoc(lines, cursorRow + 1);
      MergeIsOk(lines, cursorRow);
      MergeLines(lines, cursorRow);
      MergeRows(cursorRow);
      ok := true;
    }

    method KillToEnd() returns (ok: bool)
      requires Valid()
      modifies this
      ensures Valid() && old(EditorOk(Flat())) && (Flat(), ok) == F.KillToEnd(old(Flat()))
    {
      hide T.Valid, Offset, Join;
      FlatOk();
      var selected := HasSelection();
      if selected {
        ok := DeleteSelection();
        return;
      }
      ClampCursor();
      LineBoundsInDoc(lines, cursorRow, cursorCol);
      LineInDoc(lines, cursorRow);
      var line := lines[cursorRow];
      if cursorCol >= |line| {
        return false;
      }
      if selectionActive {
        OffsetOrder(lines, anchorRow, anchorCol, cursorRow, cursorCol);
        OffsetOrder(lines, cursorRow, cursorCol, anchorRow, anchorCol);
      }
      ShiftLine(cursorRow, cursorCol, |line|, []);
      ok := true;
    }

    // ----- Keys -----

    method MoveHome()
      requires Valid()
      modifies this`cursorRow, this`cursorCol
      ensures Valid() && |Doc()| >= old(Flat()).cursor
      ensures Flat() == old(Flat()).(cursor := Target(Doc(), old(Flat()).cursor, Home))
    {
      hide T.Valid, Offset, Join, LineStart;
      LineBoundsInDoc(lines, cursorRow, cursorCol);
      T.ValidStartsBoundary(lines[cursorRow]);
      cursorCol := 0;
    }

    method MoveEnd()
      requires Valid()
      modifies this`cursorRow, this`cursorCol
      ensures Valid() && |Doc()| >= old(Flat()).cursor
      ensures Flat() == old(Flat()).(cursor := Target(Doc(), old(Flat()).cursor, End))
    {
      hide T.Valid, Offset, Join, LineEnd;
      LineBoundsInDoc(lines, cursorRow, cursorCol);
      cursorCol := |lines[cursorRow]|;
    }

    method MoveLeft()
      requires Valid()
      modifies this`cursorRow, this`cursorCol
      ensures Valid() && |Doc()| >= old(Flat()).cursor
      ensures Flat() == old(Flat()).(cursor := Target(Doc(), old(Flat()).cursor, Left))
    {
      hide T.Valid, Offset, Join;
      ClampCursor();
      PrevInDoc(lines, cursorRow, cursorCol);
      if cursorCol > 0 {
        T.PrevIsBoundary(lines[cursorRow], cursorCol);
        cursorCol := T.PrevAt(lines[cursorRow], cursorCol);
      } else if cursorRow > 0 {
        cursorRow := cursorRow - 1;
        cursorCol := |lines[cursorRow]|;
      }
    }

    method MoveRight()
      requires Valid()
      modifies this`cursorRow, this`cursorCol
      ensures Valid() && |Doc()| >= old(Flat()).cursor
      ensures Flat() == old(Flat()).(cursor := Target(Doc(), old(Flat()).cursor, Right))
    {
      hide T.Valid, Offset, Join, Decode;
      ClampCursor();
      NextInDoc(lines, cursorRow, cursorCol);
      BoundaryInDoc(lines, cursorRow, cursorCol);
      if cursorCol < |lines[cursorRow]| {
        NextStep(lines[cursorRow], cursorCol);
        cursorCol := T.Next(lines[cursorRow], cursorCol);
      } else if cursorRow + 1 < |lines| {
        T.ValidStartsBoundary(lines[cursorRow + 1]);
        cursorRow := cursorRow + 1;
        cursorCol := 0;
      }
    }

    /** The column, counted in terminal cells, of a byte offset in a row. */
    method ColumnsTo(row: nat, col: nat) returns (columns: nat)
      requires Valid() && Position(lines, row, col)
      ensures columns == T.Columns(lines[row][..col])
    {
      hide T.Valid, T.Columns;
      AtOrBeforeIsBoundary(lines[row], col);
      var end := BoundaryAtOrBefore(lines[row], col);
      columns := T.ColumnsBetween(lines[row], 0, end);
      assert lines[row][0..end] == lines[row][..end];
    }

    method MoveUp()
      requires Valid()
      modifies this`cursorRow, this`cursorCol
      ensures Valid() && |Doc()| >= old(Flat()).cursor
      ensures Flat() == old(Flat()).(cursor := Target(Doc(), old(Flat()).cursor, UpLine))
    {
      hide T.Valid, Offset, Join, Up, T.Columns, T.PrefixBytes;
      UpInDoc(lines, cursorRow, cursorCol);
      if cursorRow > 0 {
        var desired := ColumnsTo(cursorRow, cursorCol);
        cursorRow := cursorRow - 1;
        T.PrefixBytesIsBoundary(lines[cursorRow], desired);
        cursorCol := T.PrefixBytesOf(lines[cursorRow], desired);
      }
    }

    method MoveDown()
      requires Valid()
      modifies this`cursorRow, this`cursorCol
      ensures Valid() && |Doc()| >= old(Flat()).cursor
      ensures Flat() == old(Flat()).(cursor := Target(Doc(), old(Flat()).cursor, DownLine))
    {
      hide T.Valid, Offset, Join, Down, T.Columns, T.PrefixBytes;
      DownInDoc(lines, cursorRow, cursorCol);
      if cursorRow + 1 < |lines| {
        var desired := ColumnsTo(cursorRow, cursorCol);
        cursorRow := cursorRow + 1;
        T.PrefixBytesIsBoundary(lines[cursorRow], desired);
        cursorCol := T.PrefixBytesOf(lines[cursorRow], desired);
      }
    }

    method PrepareMovement(shift: bool)
      requires Valid()
      modifies this`selectionActive, this`anchorRow, this`anchorCol
      ensures Valid() && Flat() == Prepare(old(Flat()), shift)
    {
      if shift {
        if !selectionActive {
          selectionActive := true;
          anchorRow := cursorRow;
          anchorCol := cursorCol;
        }
      } else {
        ClearSelection();
      }
    }

    method RunMovement(command: Command)
      requires Valid() && IsMovement(command)
      modifies this`cursorRow, this`cursorCol
      ensures Valid() && |Doc()| >= old(Flat()).cursor
      ensures Flat() == old(Flat()).(cursor := Target(Doc(), old(Flat()).cursor, command))
    {
      hide Offset, Join, T.Valid, LineStart, LineEnd, Up, Down, Decode;
      match command
      case Home => MoveHome();
      case End => MoveEnd();
      case Left => MoveLeft();
      case Right => MoveRight();
      case UpLine => MoveUp();
      case DownLine => MoveDown();
    }

    method HandleKey(key: Key) returns (consumed: bool)
      requires Valid()
      modifies this
      ensures Valid() && old(EditorOk(Flat())) && (Flat(), consumed) == KeyStep(old(Flat()), key)
    {
      hide Offset, Join, T.Valid, Target, IsScalarValue, Encode, F.InsertCodepoint, Binding;
      FlatOk();
      match Binding(key.code) {
        case Some(command) =>
          if IsMovement(command) {
            PrepareMovement(key.Shift());
            RunMovement(command);
            return true;
          }
          match command {
            case Newline => consumed := InsertNewline();
            case Backspace => consumed := DeleteBackward();
            case Delete => consumed := DeleteForward();
            case Kill => consumed := KillToEnd();
          }
        case None =>
          if key.printable {
            var codepoint := if key.codepoint == 0 && key.ascii > 0 then key.ascii else key.codepoint;
            if codepoint >= 0x20 && codepoint != 0x7F {
              consumed := InsertCodepoint(codepoint);
              return;
            }
          }
          consumed := false;
      }
    }

    // ----- Soft wrap -----

    /** Walks the characters of a line until the next one would not fit in the window. */
    static method WrapEnd(line: Bytes, start: nat, w: nat) returns (end: nat)
      requires T.Valid(line) && T.Boundary(line, start)
      ensures end == if w == 0 then |line| else ChunkEnd(line, start, w)
    {
      hide T.Valid, T.PrefixBytes, Decode;
      if start >= |line| || w == 0 {
        return |line|;
      }
      AtOrBeforeIsBoundary(line, start);
      var position := BoundaryAtOrBefore(line, start);
      var used := 0;
      assert line[start..|line|] == line[start..];
      while position < |line|
        invariant start <= position <= |line| && used <= w
        invariant ChunkEnd(line, start, w) == position + T.PrefixBytes(line[position..|line|], w - used)
      {
        T.PrefixStep(line, position, |line|, w - used);
        var codepoint, length := T.ReadHead(line, position, |line|);
        var width := T.Width(codepoint);
        if width > 0 && used > 0 && used + width > w {
          break;
        }
        if width > w && used == 0 {
          position := position + length;
          break;
        }
        if width > 0 && used + width > w {
          break;
        }
        used := used + width;
        position := position + length;
      }
      ChunkShape(line, start, w);
      // A window of one column holds any character, so the walk always moves on.
      assert position > start;
      return position;
    }

    static method WrapChunkCount(line: Bytes, w: nat) returns (count: nat)
      requires T.Valid(line)
      ensures w > 0 ==> count == |RowChunks(line, 0, w)|
      ensures w == 0 ==> count == 1
    {
      hide T.Valid, ChunkEnd;
      if line == [] || w == 0 {
        return 1;
      }
      count := 0;
      var start := 0;
      T.ValidStartsBoundary(line);
      while start < |line|
        invariant start <= |line| && T.Boundary(line, start)
        invariant count + |LineChunks(line, 0, start, w)| == |LineChunks(line, 0, 0, w)|
      {
        ChunkShape(line, start, w);
        var end := WrapEnd(line, start, w);
        if end <= start {
          break;
        }
        count := count + 1;
        start := end;
      }
      LineChunksTile(line, 0, 0, w);
      assert count > 0;
    }

    method VisualRowCount(w: nat) returns (total: nat)
      requires Valid()
      ensures w == 0 ==> total == 0
      ensures w > 0 ==> total == |VisualRows(lines, 0, w)|
    {
      hide T.Valid, RowChunks;
      if w == 0 {
        return 0;
      }
      total := 0;
      var row := 0;
      while row < |lines|
        invariant row <= |lines|
        invariant total + |VisualRows(lines, row, w)| == |VisualRows(lines, 0, w)|
      {
        var count := WrapChunkCount(lines[row], w);
        RowChunksSameCount(lines[row], 0, row, w);
        total := total + count;
        row := row + 1;
      }
    }

    /** Walks the chunks of one line, counting up to `visualRow`. */
    static method ChunkInLine(line: Bytes, row: nat, w: nat, index: nat, visualRow: nat)
      returns (found: bool, chunk: Chunk, next: nat)
      requires T.Valid(line) && w > 0 && index <= visualRow
      ensures next == index + |RowChunks(line, row, w)| || found
      ensures found == (visualRow < index + |RowChunks(line, row, w)|)
      ensures found ==> chunk == RowChunks(line, row, w)[visualRow - index]
    {
      hide T.Valid, ChunkEnd, T.Columns;
      chunk, next := Chunk(row, 0, 0), index;
      if line == [] {
        return index == visualRow, chunk, index + 1;
      }
      ghost var all := LineChunks(line, row, 0, w);
      var start := 0;
      T.ValidStartsBoundary(line);
      while start < |line|
        invariant start <= |line| && T.Boundary(line, start)
        invariant index <= next <= visualRow && next - index <= |all|
        invariant all[next - index..] == LineChunks(line, row, start, w)
      {
        ChunkShape(line, start, w);
        var end := WrapEnd(line, start, w);
        if end <= start {
          assert false;
        }
        assert all[next - index] == all[next - index..][0] == Chunk(row, start, end);
        if next == visualRow {
          return true, Chunk(row, start, end), next;
        }
        assert all[next + 1 - index..] == all[next - index..][1..];
        next, start := next + 1, end;
      }
      assert |all[next - index..]| == 0 by {
        LineChunksTile(line, row, start, w);
      }
      return false, chunk, next;
    }

    method ChunkAtVisual(w: nat, visualRow: nat) returns (found: bool, chunk: Chunk)
      requires Valid()
      ensures found == (w > 0 && visualRow < |VisualRows(lines, 0, w)|)
      ensures found ==> chunk == VisualRows(lines, 0, w)[visualRow]
    {
      hide T.Valid, RowChunks, VisualRows;
      chunk := Chunk(0, 0, 0);
      if w == 0 {
        return false, chunk;
      }
      ghost var all := VisualRows(lines, 0, w);
      var index, row := 0, 0;
      while row < |lines|
        invariant row <= |lines| && index <= visualRow && index <= |all|
        invariant all[index..] == VisualRows(lines, row, w)
      {
        VisualRowsStep(lines, row, w);
        ghost var here := RowChunks(lines[row], row, w);
        var next;
        found, chunk, next := ChunkInLine(lines[row], row, w, index, visualRow);
        assert visualRow < |all| ==> all[visualRow] == all[index..][visualRow - index];
        if found {
          return;
        }
        assert all[next..] == all[index..][|here|..];
        index := next;
        row := row + 1;
      }
      VisualRowsEnd(lines, w);
      assert |all[index..]| == 0;
      return false, chunk;
    }

    /** The number of visual rows above the cursor's row. */
    method VisualRowsAbove(w: nat) returns (visual: nat)
      requires Valid() && w > 0
      ensures visual <= |VisualRows(lines, 0, w)|
      ensures VisualRows(lines, 0, w)[visual..] == VisualRows(lines, cursorRow, w)
    {
      hide T.Valid, RowChunks;
      var row := 0;
      visual := 0;
      while row < cursorRow
        invariant row <= cursorRow && visual <= |VisualRows(lines, 0, w)|
        invariant VisualRows(lines, 0, w)[visual..] == VisualRows(lines, row, w)
      {
        var count := WrapChunkCount(lines[row], w);
        RowChunksSameCount(lines[row], 0, row, w);
        assert VisualRows(lines, row, w)[count..] == VisualRows(lines, row + 1, w);
        visual := visual + count;
        row := row + 1;
      }
    }

    /** Finds the visual row that shows the cursor. */
    method ChunkForCursor(w: nat) returns (found: bool, chunk: Chunk, visualRow: nat)
      requires Valid()
      ensures found == (w > 0)
      ensures found ==> Shows(lines, w, visualRow, cursorRow, cursorCol)
      ensures found ==> chunk == VisualRows(lines, 0, w)[visualRow]
    {
      hide T.Valid, ChunkEnd, T.Columns, VisualRows;
      chunk, visualRow := Chunk(0, 0, 0), 0;
      if w == 0 {
        return false, chunk, 0;
      }
      ghost var all := VisualRows(lines, 0, w);
      var visual := VisualRowsAbove(w);
      var line := lines[cursorRow];
      ghost var later := VisualRows(lines, cursorRow + 1, w);
      VisualRowsStep(lines, cursorRow, w);
      assert all[visual..] == RowChunks(line, cursorRow, w) + later;
      if line == [] {
        assert all[visual] == all[visual..][0] == Chunk(cursorRow, 0, 0);
        return true, Chunk(cursorRow, 0, 0), visual;
      }
      AtOrBeforeIsBoundary(line, cursorCol);
      var cursor := BoundaryAtOrBefore(line, cursorCol);
      var start := 0;
      T.ValidStartsBoundary(line);
      while start < |line|
        invariant start <= |line| && T.Boundary(line, start) && visual <= |all|
        invariant all[visual..] == LineChunks(line, cursorRow, start, w) + later
        invariant start <= cursor && (start < |line| || cursor < start)
      {
        ChunkShape(line, start, w);
        var end := WrapEnd(line, start, w);
        if end <= start {
          assert false;
        }
        assert all[visual] == all[visual..][0] == Chunk(cursorRow, start, end);
        if cursor < end || end == |line| {
          return true, Chunk(cursorRow, start, end), visual;
        }
        assert all[visual..][1..] == all[visual + 1..];
        visual, start := visual + 1, end;
      }
      assert false;
    }

    method CursorVisualRow(w: nat) returns (visualRow: nat)
      requires Valid()
      ensures w > 0 ==> Shows(lines, w, visualRow, cursorRow, cursorCol)
      ensures w == 0 ==> visualRow == 0
    {
      var found, _, v := ChunkForCursor(w);
      return if found then v else 0;
    }

    /** Where a vertical move lands in the target row. */
    method LandIn(line: Bytes, chunk: Chunk, desired: nat) returns (col: nat)
      requires T.Valid(line) && chunk.start <= chunk.end <= |line|
      requires T.Boundary(line, chunk.start) && T.Boundary(line, chunk.end)
      requires chunk.end < |line| ==> chunk.start < chunk.end
      ensures LastWithin(line, chunk, desired, col)
    {
      hide T.Valid, T.Columns, T.PrefixBytes;
      var s := line[chunk.start..chunk.end];
      T.SliceIsValid(line, chunk.start, chunk.end);
      T.PrefixBytesIsBoundary(s, desired);
      var relative := T.PrefixBytesOf(s, desired);
      col := chunk.start + relative;
      WithinChunk(line, chunk.start, chunk.end, desired);
      if chunk.end < |line| && col >= chunk.end && chunk.end > chunk.start {
        T.PrevIsBoundary(line, chunk.end);
        PrevStaysRight(line, chunk.start, chunk.end);
        col := T.PrevAt(line, chunk.end);
      }
    }

    /**
      Moves the cursor one visual row up or down, or nowhere from the first or last: to the last
      place of the target row that is at most as many columns in as the cursor was.
     */
    method MoveWrappedVertical(up: bool, w: nat) returns (ok: bool)
      requires Valid()
      modifies this`cursorRow, this`cursorCol
      ensures Valid() && ok == (w > 0)
      ensures !ok ==> unchanged(this)
      ensures ok ==> VerticalMove(lines, w, up, old(cursorRow), old(cursorCol), cursorRow, cursorCol)
    {
      hide T.Valid, T.Columns, VisualRows;
      if w == 0 {
        return false;
      }
      var found, current, visual := ChunkForCursor(w);
      forall v: nat | Shows(lines, w, v, cursorRow, cursorCol)
        ensures v == visual
      {
        ShowsUnique(lines, w, v, visual, cursorRow, cursorCol);
      }
      var target := visual;
      if up {
        if visual == 0 {
          return true;
        }
        target := target - 1;
      } else {
        var total := VisualRowCount(w);
        if visual + 1 >= total {
          return true;
        }
        target := target + 1;
      }
      var chunk;
      found, chunk := ChunkAtVisual(w, target);
      VisualRowsCut(lines, 0, w, target);
      VisualRowsCut(lines, 0, w, visual);
      var desired := T.ColumnsBetween(lines[current.row], current.start, cursorCol);
      cursorCol := LandIn(lines[chunk.row], chunk, desired);
      cursorRow := chunk.row;
      ok := true;
    }

    method HandleKeyWrapped(key: Key, w: nat) returns (consumed: bool)
      requires Valid()
      modifies this
      ensures Valid() && old(EditorOk(Flat()))
      ensures w == 0 || (key.code != 0x1000 && key.code != 0x1001) ==>
                (Flat(), consumed) == KeyStep(old(Flat()), key)
      ensures w > 0 && (key.code == 0x1000 || key.code == 0x1001) ==>
                && consumed && lines == old(lines)
                && Flat().anchor == Prepare(old(Flat()), key.Shift()).anchor
                && VerticalMove(lines, w, key.code == 0x1000, old(cursorRow), old(cursorCol), cursorRow, cursorCol)
    {
      hide T.Valid, Offset, Join, VisualRows, Shows, TargetRow, VerticalMove;
      FlatOk();
      if w == 0 || (key.code != 0x1000 && key.code != 0x1001) {
        consumed := HandleKey(key);
        return;
      }
      PrepareMovement(key.Shift());
      consumed := MoveWrappedVertical(key.code == 0x1000, w);
    }

    // ----- Search -----

    /** The query occurs in the text at a row and column. */
    ghost predicate Found(query: Bytes, ci: bool, row: nat, p: nat)
      requires LinesOk(lines) && T.Valid(query)
      reads this
    {
      row < |lines| && Occurs(lines[row], p, query, ci)
    }

    /**
      The occurrences that a search from a place can report: those that do not straddle it, and
      without wrap only those from it on.
     */
    ghost predicate Candidate(query: Bytes, ci: bool, wrap: bool, from: TextPosition, row: nat, p: nat)
      requires LinesOk(lines) && T.Valid(query)
      reads this
    {
      && Found(query, ci, row, p)
      && !(row == from.row && p < from.col < p + |query|)
      && (wrap || AtOrPast(from, row, p))
    }

    /** Finds the first occurrence in cyclic order from a place. */
    method FindNext(query: Bytes, ci: bool, startRow: nat, startCol: nat, wrap: bool)
      returns (found: bool, match_: Match)
      requires Valid()
      ensures found ==> Searchable(query)
      ensures Searchable(query) ==>
                var row := if startRow >= |lines| then |lines| - 1 else startRow;
                var from := TextPosition(row, AtOrAfter(lines[row], startCol));
                && (found ==>
                      && match_.end == match_.start + |query|
                      && Candidate(query, ci, wrap, from, match_.row, match_.start)
                      && forall r: nat, p: nat :: Candidate(query, ci, wrap, from, r, p) ==>
                           CyclicLeq(from, match_.row, match_.start, r, p))
                && (!found ==> forall r: nat, p: nat :: !Candidate(query, ci, wrap, from, r, p))
    {
      hide T.Valid, Occurs;
      match_ := Match(0, 0, 0);
      if query == [] {
        return false, match_;
      }
      var valid := T.Validate(query);
      if !valid || 0 in query || 10 in query || 13 in query {
        return false, match_;
      }
      var first := if startRow >= |lines| then |lines| - 1 else startRow;
      var col := BoundaryAtOrAfter(lines[first], startCol);
      ghost var from := TextPosition(first, col);
      var row := first;
      while row < |lines|
        invariant first <= row <= |lines|
        invariant forall r: nat, p: nat :: Found(query, ci, r, p) && AtOrPast(from, r, p) ==> row <= r
      {
        var line := lines[row];
        var rowStart := if row == first then col else 0;
        var start, end;
        found, start, end := FindRange(line, query, ci, rowStart, |line|);
        OccurrencesFit(line, query, ci);
        assert forall p: nat :: Found(query, ci, row, p) && AtOrPast(from, row, p) ==>
          OccursIn(line, query, ci, rowStart, |line|, p);
        if found {
          assert Found(query, ci, row, start);
          return true, Match(row, start, end);
        }
        row := row + 1;
      }
      if !wrap {
        return false, match_;
      }
      row := 0;
      while row < first
        invariant row <= first
        invariant forall r: nat, p: nat :: Found(query, ci, r, p) ==> row <= r <= first && !AtOrPast(from, r, p)
      {
        var line := lines[row];
        var start, end;
        found, start, end := FindRange(line, query, ci, 0, |line|);
        OccurrencesFit(line, query, ci);
        assert forall p: nat :: Found(query, ci, row, p) ==> OccursIn(line, query, ci, 0, |line|, p);
        if found {
          assert Found(query, ci, row, start);
          return true, Match(row, start, end);
        }
        row := row + 1;
      }
      var start, end;
      found, start, end := FindRange(lines[first], query, ci, 0, col);
      assert forall p: nat :: Found(query, ci, first, p) && p + |query| <= col ==>
        OccursIn(lines[first], query, ci, 0, col, p);
      if found {
        assert Found(query, ci, first, start);
        return true, Match(first, start, end);
      }
      return false, match_;
    }

    method SelectMatch(m: Match) returns (ok: bool)
      requires Valid()
      modifies this
      ensures Valid() && lines == old(lines)
      ensures !ok ==> unchanged(this)
      ensures ok == (m.row < |lines| && AtOrBefore(lines[m.row], m.start) < AtOrBefore(lines[m.row], m.end))
      ensures ok ==> Flat() == Editor(old(Doc()), Offset(lines, m.row, AtOrBefore(lines[m.row], m.end)),
                                      Some(Offset(lines, m.row, AtOrBefore(lines[m.row], m.start))))
    {
      if m.row >= |lines| {
        return false;
      }
      var line := lines[m.row];
      AtOrBeforeIsBoundary(line, m.start);
      AtOrBeforeIsBoundary(line, m.end);
      var start := BoundaryAtOrBefore(line, m.start);
      var end := BoundaryAtOrBefore(line, m.end);
      if start >= end {
        return false;
      }
      anchorRow, anchorCol := m.row, start;
      cursorRow, cursorCol := m.row, end;
      selectionActive := true;
      ok := true;
    }
  }
}
