/**
  What each key does to Notepad, said of its text, its file, its fields and the clipboard.
 */
module NotepadKeys {
  import opened Basics
  import T = Utf8Text
  import opened FlatText
  import opened TextWrap
  import opened LineEdits
  import opened NotepadModel
  import C = CharacterLaws
  import L = NotepadLaws
  import B = TextBuffers
  import H = History
  import A = AppRuntime

  /** A key arrives with no prompt, path or search field open. */
  ghost predicate Typed(v: View, key: Key, io: Io, next: View) {
    EditorOk(v.ed) && KeyEvent(v, key, io, next) && !v.ui.prompt && !v.ui.saveAs && !v.ui.search
  }

  /** The two ends of the selection, both the cursor where there is none. */
  function Low(e: Editor): nat {
    if e.anchor.Some? then Min(e.anchor.value, e.cursor) else e.cursor
  }

  function High(e: Editor): nat {
    if e.anchor.Some? then Max(e.anchor.value, e.cursor) else e.cursor
  }

  // ----- The text -----

  /** Ctrl+A selects the whole text. */
  lemma SelectAllKey(v: View, key: Key, io: Io, next: View)
    requires Typed(v, key, io, next) && key.code == 0x01
    ensures next == v.(ed := next.ed) && next.ed.doc == v.ed.doc
    ensures Low(next.ed) == 0 && High(next.ed) == |v.ed.doc| == next.ed.cursor
  {
    hide EditorOk;
  }

  /** Ctrl+C puts the selected text on the clipboard, and without a selection does nothing. */
  lemma CopyKey(v: View, key: Key, io: Io, next: View)
    requires Typed(v, key, io, next) && key.code == 0x03
    ensures High(v.ed) <= |v.ed.doc|
    ensures next == if Low(v.ed) < High(v.ed) then v.(clip := v.ed.doc[Low(v.ed)..High(v.ed)]) else v
  {
    hide T.Valid;
  }

  /** The text is now another; the one before can be undone to, if it is at most a mebibyte, and nothing redone. */
  predicate NewText(v: View, next: View, ed: Editor) {
    && next == v.(ed := ed, undo := next.undo, redo := [], clip := next.clip,
                  file := v.file.(dirty := ed.doc != v.file.saved, force := false))
    && (if |v.ed.doc| <= 1048576 then
          next.undo != [] && next.undo[|next.undo| - 1] == H.Snap(v.ed.doc, v.ed.cursor)
        else next.undo == [])
  }

  lemma PushEnds(s: seq<H.Snap>, e: H.Snap)
    requires |e.text| <= 1048576
    ensures H.Push(s, e) != [] && H.Push(s, e)[|H.Push(s, e)| - 1] == e
  {
  }

  /** Ctrl+X moves the selected text to the clipboard, and without a selection does nothing. */
  lemma CutKey(v: View, key: Key, io: Io, next: View)
    requires Typed(v, key, io, next) && key.code == 0x18
    ensures var a, b := Low(v.ed), High(v.ed);
            && b <= |v.ed.doc|
            && (a == b ==> next == v)
            && (a < b ==>
                  && next.clip == v.ed.doc[a..b]
                  && NewText(v, next, Editor(v.ed.doc[..a] + v.ed.doc[b..], a, None)))
  {
    hide T.Valid, H.Push;
    var a := Low(v.ed);
    assert v.ed.doc[..a] + [] == v.ed.doc[..a];
    if |v.ed.doc| <= 1048576 {
      PushEnds(v.undo, SnapOf(v.ed));
    }
  }

  /** Ctrl+V puts the clipboard in place of the selection, or at the cursor; with nothing on it, nothing happens. */
  lemma PasteKey(v: View, key: Key, io: Io, next: View)
    requires Typed(v, key, io, next) && key.code == 0x16 && Insertable(v.clip)
    ensures var a, b := Low(v.ed), High(v.ed);
            && b <= |v.ed.doc|
            && (v.clip == [] ==> next == v)
            && (v.clip != [] ==>
                  && next.clip == v.clip
                  && NewText(v, next, Editor(v.ed.doc[..a] + v.clip + v.ed.doc[b..], a + |v.clip|, None)))
  {
    hide T.Valid, H.Push, Insertable;
    if |v.ed.doc| <= 1048576 {
      PushEnds(v.undo, SnapOf(v.ed));
    }
  }

  /** Ctrl+Z and Ctrl+Y bring back the newest text undone from, or undone, and keep this one on the other stack. */
  lemma UndoRedoKeys(v: View, key: Key, io: Io, next: View)
    requires Typed(v, key, io, next) && key.code in {0x1A, 0x19}
    ensures var (from, to) := if key.code == 0x1A then (v.undo, v.redo) else (v.redo, v.undo);
            var (from', to') := if key.code == 0x1A then (next.undo, next.redo) else (next.redo, next.undo);
            if from == [] || |v.ed.doc| > 1048576 then next == v
            else
              var s := from[|from| - 1];
              && from' == from[..|from| - 1]
              && to' != [] && to'[|to'| - 1] == H.Snap(v.ed.doc, v.ed.cursor)
              && next == v.(ed := Editor(s.text, s.cursor, None), undo := next.undo, redo := next.redo,
                            file := v.file.(dirty := s.text != v.file.saved, force := false))
  {
    hide EditorOk, H.Push;
    if |v.ed.doc| <= 1048576 {
      PushEnds(v.undo, SnapOf(v.ed));
      PushEnds(v.redo, SnapOf(v.ed));
    }
  }

  // ----- Files and modes -----

  /** Ctrl+S writes the text to its path, a failure changing nothing; without a path it asks for one. */
  lemma SaveKeyMeans(v: View, key: Key, io: Io, next: View)
    requires Typed(v, key, io, next) && key.code == 0x13
    ensures if !v.file.hasPath then
              next == v.(ui := v.ui.(saveAs := true, search := false, closeAfterSave := false, input := []))
            else
              next == v.(ui := v.ui.(closeAfterSave := false),
                         file := if io.writeOk then v.file.(saved := v.ed.doc, dirty := false) else v.file)
  {
    hide EditorOk;
  }

  /** Save As asks for a path, Ctrl+F for a query, and wrapping is switched; Escape drops a selection. */
  lemma ModeKeys(v: View, key: Key, io: Io, next: View)
    requires Typed(v, key, io, next)
    ensures key.code == 0x1102 ==>
              next == v.(ui := v.ui.(saveAs := true, search := false, closeAfterSave := false, input := []))
    ensures key.code == 0x06 ==>
              next == v.(ui := v.ui.(search := true, hasMatch := false, input := []), ed := v.ed.(anchor := None))
    ensures key.code == 0x1103 ==> next == v.(ui := v.ui.(wrap := !v.ui.wrap))
    ensures key.code == 0x1B ==>
              next == v.(ed := if Low(v.ed) < High(v.ed) then v.ed.(anchor := None) else v.ed)
  {
    hide EditorOk;
  }

  // ----- The close prompt -----

  /** The answer to the question whether Notepad may close, if one is waited for. */
  function Answered(close: A.CloseState, yes: bool): A.CloseState {
    if !close.pending then close
    else if yes then A.CloseState(true, false, A.Allowed)
    else A.CloseState(false, false, A.Cancelled)
  }

  /** Escape cancels; d discards; s saves, or asks for a path to save to; any other key is ignored. */
  lemma PromptKeys(v: View, key: Key, io: Io, next: View)
    requires EditorOk(v.ed) && KeyEvent(v, key, io, next) && v.ui.prompt
    ensures var ui, discards, saves := v.ui.(prompt := false, closeAfterSave := false),
                                       key.ascii in {0x64, 0x44}, key.ascii in {0x73, 0x53};
            next ==
            if key.code == 0x1B then v.(ui := ui, close := Answered(v.close, false))
            else if discards then
              v.(ui := ui, close := Answered(v.close, true), file := v.file.(dirty := false, force := true))
            else if saves && v.file.hasPath && io.writeOk then
              v.(ui := ui, close := Answered(v.close, true),
                 file := v.file.(saved := v.ed.doc, dirty := false, force := true))
            else if saves && !v.file.hasPath then
              v.(ui := v.ui.(prompt := false, saveAs := true, search := false, closeAfterSave := true, input := []))
            else v
  {
    hide EditorOk;
  }

  // ----- The path field -----

  /**
    Escape gives up; Enter writes the text to a good path where there is no file yet, and otherwise
    does nothing. Giving up or failing to write calls off the close that was to follow; writing lets
    it go on. Any other key only edits the path.
   */
  lemma PathKeys(v: View, key: Key, io: Io, next: View)
    requires EditorOk(v.ed) && KeyEvent(v, key, io, next) && !v.ui.prompt && v.ui.saveAs
    ensures var enter, closing := key.code in {0x0A, 0x0D}, v.ui.closeAfterSave;
            var ui := v.ui.(saveAs := false, closeAfterSave := false);
            next ==
            if key.code == 0x1B then v.(ui := ui, close := if closing then Answered(v.close, false) else v.close)
            else if !enter then v.(ui := v.ui.(input := io.newInput))
            else if !io.pathOk || io.fileExists then v
            else if !io.writeOk then
              v.(ui := ui, file := v.file.(hasPath := true),
                 close := if closing then Answered(v.close, false) else v.close)
            else
              v.(ui := ui.(prompt := !closing && v.ui.prompt),
                 file := v.file.(hasPath := true, saved := v.ed.doc, dirty := false, force := closing || v.file.force),
                 close := if closing then Answered(v.close, true) else v.close)
  {
    hide EditorOk;
  }

  // ----- The search field -----

  /** Escape closes the field; any key but Enter edits the query, and drops the selection if the field takes it. */
  lemma QueryKeys(v: View, key: Key, io: Io, next: View)
    requires EditorOk(v.ed) && KeyEvent(v, key, io, next) && !v.ui.prompt && !v.ui.saveAs && v.ui.search
    ensures key.code == 0x1B ==> next == v.(ui := v.ui.(search := false, hasMatch := false))
    ensures key.code !in {0x1B, 0x0A, 0x0D} ==>
              next == v.(ui := v.ui.(input := io.newInput, hasMatch := v.ui.hasMatch && !io.inputHandled),
                         ed := if io.inputHandled then v.ed.(anchor := None) else v.ed)
  {
    hide EditorOk, FindStep;
  }

  /** An occurrence of the query, up to case, that starts at an offset and does not have the cursor inside it. */
  ghost predicate MatchAt(v: View, at: nat)
    requires Insertable(v.ed.doc) && T.Valid(v.ui.input)
  {
    && !(at < v.ed.cursor < at + |v.ui.input|)
    && exists row: nat, p: nat :: FoundAt(v.ed.doc, v.ui.input, row, p) && At(v.ed.doc, row, p) == at
  }

  /** A match is as many characters of one line as the query has, the same one by one up to case. */
  lemma FoundMeans(d: Bytes, query: Bytes, row: nat, p: nat)
    requires Insertable(d) && T.Valid(query)
    ensures FoundAt(d, query, row, p) <==>
            && row < |Split(d)| && p + |query| <= |Split(d)[row]|
            && T.Boundary(Split(d)[row], p) && T.Boundary(Split(d)[row], p + |query|)
            && T.Valid(Split(d)[row][p..p + |query|])
            && C.AllAlike(C.CodePoints(Split(d)[row][p..p + |query|]), C.CodePoints(query))
  {
    hide T.Valid, Split, C.AllAlike, C.CodePoints;
    SplitIsOk(d);
    if row < |Split(d)| {
      C.OccursMeans(Split(d)[row], p, query, true);
    }
  }

  /**
    Enter selects the first match from the cursor on, or if there is none the first in the text, with
    the cursor at its end; with no match at all it changes nothing but to say so.
   */
  lemma EnterFinds(v: View, key: Key, io: Io, next: View)
    requires EditorOk(v.ed) && KeyEvent(v, key, io, next) && !v.ui.prompt && !v.ui.saveAs && v.ui.search
    requires Insertable(v.ed.doc) && key.code in {0x0A, 0x0D} && B.Searchable(v.ui.input)
    ensures next.ui == v.ui.(hasMatch := next.ui.hasMatch) && next == v.(ed := next.ed, ui := next.ui)
    ensures !next.ui.hasMatch ==> next.ed == v.ed && forall at: nat :: !MatchAt(v, at)
    ensures next.ui.hasMatch ==>
              exists at: nat ::
                && MatchAt(v, at) && next.ed == Editor(v.ed.doc, at + |v.ui.input|, Some(at))
                && (forall b: nat :: MatchAt(v, b) ==>
                      if at >= v.ed.cursor then b < v.ed.cursor || at <= b else b < v.ed.cursor && at <= b)
  {
    hide EditorOk, FoundAt, At, Insertable, T.Valid;
    if row: nat, p: nat :| Selected(v, next, row, p) {
      L.FoundBetween(v.ed.doc, v.ui.input, row, p);
      var at := At(v.ed.doc, row, p);
      assert MatchAt(v, at);
    }
  }

  // ----- Up and down with wrapping -----

  /** With wrapping on, Up and Down go one visual row of 64 columns up or down, and stay in the first and last. */
  lemma WrappedKeys(
      v: View, key: Key, io: Io, next: View, row: nat, col: nat, at: nat) returns (row': nat, col': nat)
    requires Typed(v, key, io, next) && v.ui.wrap && key.code in {0x1000, 0x1001}
    requires !key.printable || |v.ed.doc| <= 1048576
    requires Insertable(v.ed.doc) && Placed(v.ed.doc, row, col, v.ed.cursor)
    requires Shows(Split(v.ed.doc), 64, at, row, col)
    ensures next == v.(ed := next.ed) && next.ed.doc == v.ed.doc && Placed(v.ed.doc, row', col', next.ed.cursor)
    ensures var total := |VisualRows(Split(v.ed.doc), 0, 64)|;
            var to := if key.code == 0x1000 then Max(at - 1, 0) else Min(at + 1, total - 1);
            && Shows(Split(v.ed.doc), 64, to, row', col')
            && (to == at ==> next.ed.cursor == v.ed.cursor)
  {
    hide EditorOk, KeyStep, H.Push, Shows, VisualRows, LastWithin, Insertable;
    var consumed :| BufferStep(v, key, next.ed, consumed) && next == EditorKey(v, key, next.ed, consumed);
    var r: nat, c: nat, r', c' :| Placed(v.ed.doc, r, c, v.ed.cursor) && Placed(v.ed.doc, r', c', next.ed.cursor)
      && VerticalMove(Split(v.ed.doc), 64, key.code == 0x1000, r, c, r', c');
    OnePlace(v.ed.doc, row, col, r, c, v.ed.cursor);
    row', col' := r', c';
    assert Shows(Split(v.ed.doc), 64, at, r, c);
    SomeRow(v.ed.doc, row, col, at);
  }

  lemma OnePlace(d: Bytes, row: nat, col: nat, row': nat, col': nat, offset: nat)
    requires Insertable(d) && Placed(d, row, col, offset) && Placed(d, row', col', offset)
    ensures row == row' && col == col'
  {
    hide T.Valid, Split, Offset;
    SplitIsOk(d);
    OffsetOrder(Split(d), row, col, row', col');
    OffsetOrder(Split(d), row', col', row, col);
  }

  lemma SomeRow(d: Bytes, row: nat, col: nat, at: nat)
    requires Shows(Split(d), 64, at, row, col)
    ensures at < |VisualRows(Split(d), 0, 64)|
  {
  }
}
