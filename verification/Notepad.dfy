/**
  Notepad: a text buffer with undo and redo stacks, a dirty flag kept against the text last
  written, and the prompts that stand between a close request and lost work.
 */
module Notepads {
  import opened Basics
  import T = Utf8Text
  import opened FlatText
  import opened LineEdits
  import opened TextSearch
  import opened TextWrap
  import opened NotepadModel
  import W = NotepadLaws
  import H = History
  import A = AppRuntime
  import S = HistoryStacks
  import TB = TextBuffers

  class Clipboard {
    var text: Bytes

    constructor ()
      ensures text == []
    {
      text := [];
    }

    /** Takes any text without NUL; an empty text counts as none. */
    method SetText(next: Bytes) returns (ok: bool)
      modifies this
      ensures ok == Insertable(next)
      ensures text == if ok then next else old(text)
    {
      if 0 in next {
        return false;
      }
      ok := T.Validate(next);
      if ok {
        text := next;
      }
    }
  }

  class Notepad {
    const instance: A.AppInstance
    const buffer: TB.TextBuffer
    const clipboard: Clipboard
    const undo: S.HistoryStack
    const redo: S.HistoryStack
    var input: Bytes
    var saved: Bytes
    var dirty: bool
    var forceClose: bool
    var hasPath: bool
    var saveAs: bool
    var searchMode: bool
    var searchHasMatch: bool
    var wrapMode: bool
    var closePrompt: bool
    var closeAfterSave: bool

    ghost predicate Valid()
      reads this, instance, buffer, clipboard, undo, undo.entries, redo, redo.entries
    {
      && undo != redo && undo.entries != redo.entries
      && buffer.Valid() && undo.Valid() && redo.Valid()
    }

    ghost function FileView(): File
      reads this
    {
      File(saved, dirty, forceClose, hasPath)
    }

    ghost function UiView(): Ui
      reads this
    {
      Ui(input, saveAs, searchMode, searchHasMatch, wrapMode, closePrompt, closeAfterSave)
    }

    ghost function V(): View
      requires Valid()
      reads this, instance, buffer, clipboard, undo, undo.entries, redo, redo.entries
    {
      View(buffer.Flat(), undo.Snaps(), redo.Snaps(), FileView(), UiView(), clipboard.text, instance.Close())
    }

    /** An untitled, empty document. */
    constructor (clipboard: Clipboard)
      ensures Valid() && this.clipboard == clipboard && Insertable([])
      ensures fresh(instance) && fresh(buffer)
      ensures fresh(undo) && fresh(redo) && fresh(undo.entries) && fresh(redo.entries)
      ensures V() == View(Editor([], 0, None), [], [], File([], false, false, false),
                          Ui([], false, false, false, false, false, false), clipboard.text, A.IDLE)
    {
      this.clipboard := clipboard;
      instance := new A.AppInstance(true);
      buffer := new TB.TextBuffer();
      undo := new S.HistoryStack();
      redo := new S.HistoryStack();
      input, saved := [], [];
      dirty, forceClose, hasPath := false, false, false;
      saveAs, searchMode, searchHasMatch := false, false, false;
      wrapMode, closePrompt, closeAfterSave := false, false, false;
    }

    method CaptureSavedSnapshot()
      requires Valid()
      modifies this`saved, this`dirty
      ensures Valid() && V() == old(V()).(file := old(FileView()).(saved := old(V()).ed.doc, dirty := false))
    {
      hide S.HistoryStack.Valid, S.HistoryStack.Snaps, TB.TextBuffer.Valid, TB.TextBuffer.Flat;
      BufferText();
      saved := buffer.ToText();
      dirty := false;
    }

    /** Opens a new document, untitled or on what the storage answers; on failure there is no document. */
    method Open(resource: Resource) returns (ok: bool)
      requires Valid() && undo.Snaps() == [] && redo.Snaps() == [] && (resource.Read? ==> 0 !in resource.text)
      modifies this, buffer
      ensures Valid() && ok == (resource.Untitled? || (resource.Read? && T.Valid(resource.text)))
      ensures !ok ==> V() == old(V())
      ensures ok ==>
                var v := old(V());
                if resource.Read? then
                  V() == v.(ed := Editor(resource.text, |resource.text|, None),
                            file := File(resource.text, false, v.file.force, true))
                else V() == v.(file := v.file.(saved := v.ed.doc, dirty := false))
    {
      hide S.HistoryStack.Valid, S.HistoryStack.Snaps, TB.TextBuffer.Valid, TB.TextBuffer.Flat;
      if !resource.Untitled? {
        if !resource.Read? {
          return false;
        }
        ok := buffer.SetText(resource.text);
        if !ok {
          return false;
        }
        hasPath := true;
      }
      CaptureSavedSnapshot();
      return true;
    }

    // ----- History -----

    method ClearHistory()
      requires Valid()
      modifies undo, undo.entries, redo, redo.entries
      ensures Valid() && V() == old(V()).(undo := [], redo := [])
    {
      undo.Clear();
      redo.Clear();
    }

    method HistoryCapture() returns (captured: bool, entry: S.Entry)
      requires Valid()
      ensures captured == Captured(V())
      ensures captured ==> S.EntryOk(entry) && S.SnapOf(entry) == SnapOf(V().ed)
    {
      var text := buffer.ToText();
      if |text| > H.MAX_BYTES {
        return false, S.EMPTY;
      }
      JoinIsOk(buffer.lines);
      SplitOfJoin(buffer.lines);
      return true, S.Entry(text, buffer.cursorRow, buffer.cursorCol);
    }

    method RefreshDirty()
      requires Valid()
      modifies this`dirty
      ensures Valid() && V() == old(V()).(file := old(FileView()).(dirty := old(V()).ed.doc != saved))
    {
      var text := buffer.ToText();
      dirty := text != saved;
    }

    method RestoreHistoryEntry(entry: S.Entry)
      requires Valid() && S.EntryOk(entry)
      modifies this, buffer
      ensures Valid() && V() == Restored(old(V()), S.SnapOf(entry))
    {
      var ok := buffer.SetText(entry.text);
      buffer.SetCursor(entry.row, entry.col);
      forceClose := false;
      RefreshDirty();
    }

    method Undo()
      requires Valid()
      modifies this, buffer, undo, undo.entries, redo, redo.entries
      ensures Valid() && V() == UndoKey(old(V()))
    {
      hide H.Push, S.EntryOk, S.SnapOf, S.HistoryStack.Valid, S.HistoryStack.Snaps, TB.TextBuffer.Valid,
        TB.TextBuffer.Flat;
      if undo.count == 0 {
        return;
      }
      var captured, current := HistoryCapture();
      if !captured {
        return;
      }
      ghost var v, top := V(), |undo.Snaps()| - 1;
      var ok, target := undo.Pop();
      assert V() == v.(undo := v.undo[..top]);
      RestoreHistoryEntry(target);
      assert V() == Restored(v, v.undo[top]).(undo := v.undo[..top]);
      redo.Push(current);
    }

    method Redo()
      requires Valid()
      modifies this, buffer, undo, undo.entries, redo, redo.entries
      ensures Valid() && V() == RedoKey(old(V()))
    {
      hide H.Push, S.EntryOk, S.SnapOf, S.HistoryStack.Valid, S.HistoryStack.Snaps, TB.TextBuffer.Valid,
        TB.TextBuffer.Flat;
      if redo.count == 0 {
        return;
      }
      var captured, current := HistoryCapture();
      if !captured {
        return;
      }
      ghost var v, top := V(), |redo.Snaps()| - 1;
      var ok, target := redo.Pop();
      assert V() == v.(redo := v.redo[..top]);
      RestoreHistoryEntry(target);
      assert V() == Restored(v, v.redo[top]).(redo := v.redo[..top]);
      undo.Push(current);
    }

    // ----- Editing -----

    /** What follows a change of the text whose state before it was captured, or could not be. */
    method FinishChange(before: S.Entry, captured: bool, ghost v: View, ghost next: Editor)
      requires Valid() && V() == Capture(v).(ed := next) && EditorOk(v.ed)
      requires captured == Captured(v) && (captured ==> S.EntryOk(before) && S.SnapOf(before) == SnapOf(v.ed))
      modifies this, undo, undo.entries, redo, redo.entries
      ensures Valid() && V() == Changed(v, next)
    {
      hide H.Push, S.EntryOk, S.SnapOf, S.HistoryStack.Valid, S.HistoryStack.Snaps, TB.TextBuffer.Valid,
        TB.TextBuffer.Flat, EditorOk;
      if captured {
        undo.Push(before);
        redo.Clear();
      }
      forceClose := false;
      RefreshDirty();
    }

    /** Captures the text before an edit; a text too large to capture costs the whole history. */
    method CaptureBefore() returns (captured: bool, before: S.Entry)
      requires Valid()
      modifies undo, undo.entries, redo, redo.entries
      ensures Valid() && V() == Capture(old(V()))
      ensures captured == old(Captured(V()))
      ensures captured ==> S.EntryOk(before) && S.SnapOf(before) == SnapOf(old(V()).ed)
    {
      hide S.EntryOk, S.SnapOf, S.HistoryStack.Valid, S.HistoryStack.Snaps, TB.TextBuffer.Valid, TB.TextBuffer.Flat;
      captured, before := HistoryCapture();
      if !captured {
        ClearHistory();
      }
    }

    /** A move by visual rows among lines is one in the document. */
    static lemma VisualMove(ls: seq<Bytes>, row: nat, col: nat, row': nat, col': nat, up: bool)
      requires ls != [] && LinesOk(ls) && Position(ls, row, col) && Position(ls, row', col')
      requires VerticalMove(ls, WRAP_COLUMNS, up, row, col, row', col')
      ensures MovesOneRow(Join(ls), Offset(ls, row, col), Offset(ls, row', col'), up)
    {
      hide VerticalMove, Offset, T.Valid, Split, Join;
      SplitOfJoin(ls);
      assert Placed(Join(ls), row, col, Offset(ls, row, col));
      assert Placed(Join(ls), row', col', Offset(ls, row', col'));
    }

    method BufferKey(key: Key) returns (consumed: bool)
      requires Valid()
      modifies buffer
      ensures Valid() && old(EditorOk(V().ed)) && V() == old(V()).(ed := V().ed)
      ensures BufferStep(old(V()), key, V().ed, consumed)
    {
      hide S.HistoryStack.Valid, S.HistoryStack.Snaps, T.Valid, T.Boundary, KeyStep, VerticalMove,
        MovesOneRow, Offset;
      buffer.FlatOk();
      if wrapMode {
        ghost var ls, row, col := buffer.lines, buffer.cursorRow, buffer.cursorCol;
        consumed := buffer.HandleKeyWrapped(key, WRAP_COLUMNS);
        if key.code == 0x1000 || key.code == 0x1001 {
          VisualMove(ls, row, col, buffer.cursorRow, buffer.cursorCol, key.code == 0x1000);
        }
      } else {
        consumed := buffer.HandleKey(key);
      }
      buffer.FlatOk();
    }

    method HandleEditorKey(key: Key)
      requires Valid()
      modifies this, buffer, undo, undo.entries, redo, redo.entries
      ensures Valid() && old(EditorOk(V().ed))
      ensures exists consumed ::
                BufferStep(old(V()), key, V().ed, consumed) && V() == EditorKey(old(V()), key, V().ed, consumed)
    {
      hide H.Push, S.EntryOk, S.SnapOf, S.HistoryStack.Valid, S.HistoryStack.Snaps, TB.TextBuffer.Valid,
        TB.TextBuffer.Flat, EditorOk, KeyStep, MayEdit;
      ghost var v := V();
      var mayEdit := MayEdit(key);
      var captured, before := false, S.EMPTY;
      if mayEdit {
        captured, before := CaptureBefore();
      }
      var consumed := BufferKey(key);
      ghost var next := V().ed;
      assert BufferStep(v, key, next, consumed);
      if !consumed {
        return;
      }
      if mayEdit {
        BufferText();
        var text := buffer.ToText();
        EntryText(before);
        var changed := !captured || text != before.text;
        assert changed <==> !Captured(v) || next.doc != v.ed.doc;
        if changed {
          FinishChange(before, captured, v, next);
        }
      }
      assert V() == EditorKey(v, key, next, consumed);
    }

    method CopySelection() returns (copied: bool)
      requires Valid()
      modifies clipboard
      ensures Valid() && EditorOk(V().ed) && V() == Copy(old(V()))
      ensures copied == Selection(V().ed).Some?
    {
      hide H.Push, S.EntryOk, S.SnapOf, S.HistoryStack.Valid, S.HistoryStack.Snaps, TB.TextBuffer.Valid,
        TB.TextBuffer.Flat, Insertable, T.Boundary;
      buffer.FlatOk();
      BufferText();
      var selected, text := buffer.SelectedText();
      if !selected {
        return false;
      }
      W.CopiedIsOk(buffer.Flat());
      copied := clipboard.SetText(text);
    }

    method CutSelection()
      requires Valid()
      modifies this, clipboard, buffer, undo, undo.entries, redo, redo.entries
      ensures Valid() && old(EditorOk(V().ed)) && V() == Cut(old(V()))
    {
      hide H.Push, S.EntryOk, S.SnapOf, S.HistoryStack.Valid, S.HistoryStack.Snaps, TB.TextBuffer.Valid,
        TB.TextBuffer.Flat, EditorOk, T.Boundary, DeleteSelection;
      ghost var v := V();
      var copied := CopySelection();
      if !copied {
        return;
      }
      var captured, before := CaptureBefore();
      assert V() == Capture(Copy(v));
      var changed := buffer.DeleteSelection();
      ghost var next := DeleteSelection(v.ed).0;
      assert V() == Capture(Copy(v)).(ed := next);
      if changed {
        FinishChange(before, captured, Copy(v), next);
      }
    }

    method PasteClipboard()
      requires Valid()
      modifies this, buffer, undo, undo.entries, redo, redo.entries
      ensures Valid() && old(EditorOk(V().ed)) && V() == Paste(old(V()))
    {
      hide H.Push, S.EntryOk, S.SnapOf, S.HistoryStack.Valid, S.HistoryStack.Snaps, TB.TextBuffer.Valid,
        TB.TextBuffer.Flat, EditorOk, T.Boundary, InsertText;
      buffer.FlatOk();
      if |clipboard.text| == 0 {
        return;
      }
      ghost var v := V();
      var captured, before := CaptureBefore();
      var changed := buffer.InsertText(clipboard.text);
      ghost var next := InsertText(v.ed, v.clip).0;
      assert V() == Capture(v).(ed := next);
      if changed {
        FinishChange(before, captured, v, next);
      }
    }

    // ----- Saving and closing -----

    /** Writes the text to its path; `writeOk` is whether the storage takes it. */
    method Save(writeOk: bool) returns (ok: bool)
      requires Valid()
      modifies this
      ensures Valid() && (V(), ok) == NotepadModel.Save(old(V()), writeOk)
    {
      hide H.Push, S.EntryOk, S.SnapOf, S.HistoryStack.Valid, S.HistoryStack.Snaps, TB.TextBuffer.Valid,
        TB.TextBuffer.Flat;
      if !hasPath {
        return false;
      }
      BufferText();
      var text := buffer.ToText();
      if !writeOk {
        return false;
      }
      saved := text;
      dirty := false;
      ok := true;
    }

    method ResolveClose(result: A.CloseResult)
      requires Valid()
      modifies instance
      ensures Valid() && V() == Resolve(old(V()), result)
    {
      hide H.Push, S.EntryOk, S.SnapOf, S.HistoryStack.Valid, S.HistoryStack.Snaps, TB.TextBuffer.Valid,
        TB.TextBuffer.Flat, A.Resolved;
      instance.ResolveClose(result);
    }

    method FinishClose()
      requires Valid()
      modifies this, instance
      ensures Valid() && V() == NotepadModel.FinishClose(old(V()))
    {
      hide H.Push, S.EntryOk, S.SnapOf, S.HistoryStack.Valid, S.HistoryStack.Snaps, TB.TextBuffer.Valid,
        TB.TextBuffer.Flat, Resolve;
      closePrompt := false;
      closeAfterSave := false;
      forceClose := true;
      ResolveClose(A.Allowed);
    }

    method OpenSaveAs(closing: bool)
      requires Valid()
      modifies this
      ensures Valid() && V() == AskPath(old(V()), closing)
    {
      hide H.Push, S.EntryOk, S.SnapOf, S.HistoryStack.Valid, S.HistoryStack.Snaps, TB.TextBuffer.Valid,
        TB.TextBuffer.Flat;
      searchMode := false;
      input := [];
      saveAs := true;
      closeAfterSave := closing;
    }

    method HandleSaveKey(writeOk: bool)
      requires Valid()
      modifies this
      ensures Valid() && V() == SaveKey(old(V()), writeOk)
    {
      hide H.Push, S.EntryOk, S.SnapOf, S.HistoryStack.Valid, S.HistoryStack.Snaps, TB.TextBuffer.Valid,
        TB.TextBuffer.Flat, NotepadModel.Save;
      ghost var v := V();
      closeAfterSave := false;
      assert V() == v.(ui := v.ui.(closeAfterSave := false));
      if hasPath {
        var _ := Save(writeOk);
      } else {
        OpenSaveAs(false);
      }
    }

    /** Drops the close that was to follow a save, if any. */
    method CancelClose()
      requires Valid()
      modifies this, instance
      ensures Valid() && V() == CallOff(old(V()))
    {
      hide H.Push, S.EntryOk, S.SnapOf, S.HistoryStack.Valid, S.HistoryStack.Snaps, TB.TextBuffer.Valid,
        TB.TextBuffer.Flat, Resolve;
      var wasClosing := closeAfterSave;
      closeAfterSave := false;
      if wasClosing {
        ResolveClose(A.Cancelled);
      }
    }

    method HandleClosePrompt(key: Key, io: Io)
      requires Valid()
      modifies this, instance
      ensures Valid() && V() == ClosePrompt(old(V()), key, io)
    {
      hide H.Push, S.EntryOk, S.SnapOf, S.HistoryStack.Valid, S.HistoryStack.Snaps, TB.TextBuffer.Valid,
        TB.TextBuffer.Flat, Resolve, NotepadModel.FinishClose, NotepadModel.Save, AskPath;
      if key.code == ESC {
        closePrompt := false;
        closeAfterSave := false;
        ResolveClose(A.Cancelled);
        return;
      }
      if key.ascii == 0x64 || key.ascii == 0x44 {
        dirty := false;
        FinishClose();
        return;
      }
      if key.ascii != 0x73 && key.ascii != 0x53 {
        return;
      }
      if !hasPath {
        closePrompt := false;
        OpenSaveAs(true);
        return;
      }
      var ok := Save(io.writeOk);
      if ok {
        FinishClose();
      }
    }

    method WriteToNewPath(writeOk: bool)
      requires Valid()
      modifies this, instance
      ensures Valid() && V() == WriteAs(old(V()), writeOk)
    {
      hide H.Push, S.EntryOk, S.SnapOf, S.HistoryStack.Valid, S.HistoryStack.Snaps, TB.TextBuffer.Valid,
        TB.TextBuffer.Flat, NotepadModel.FinishClose, NotepadModel.Save, CallOff;
      ghost var v := V();
      ghost var named := v.(file := v.file.(hasPath := true), ui := v.ui.(saveAs := false));
      var shouldClose := closeAfterSave;
      hasPath := true;
      saveAs := false;
      assert V() == named;
      var ok := Save(writeOk);
      if !ok {
        CancelClose();
      } else if shouldClose {
        FinishClose();
      }
    }

    method HandleSaveAs(key: Key, io: Io)
      requires Valid()
      modifies this, instance
      ensures Valid() && V() == SaveAs(old(V()), key, io)
    {
      hide H.Push, S.EntryOk, S.SnapOf, S.HistoryStack.Valid, S.HistoryStack.Snaps, TB.TextBuffer.Valid,
        TB.TextBuffer.Flat, CallOff, WriteAs;
      if key.code == ESC {
        saveAs := false;
        CancelClose();
        return;
      }
      if key.code == 0x0D || key.code == 0x0A {
        if !io.pathOk || io.fileExists {
          return;
        }
        WriteToNewPath(io.writeOk);
        return;
      }
      input := io.newInput;
    }

    /** When a Notepad is destroyed: writes the text to the first recovery file that takes it. */
    method WriteRecovery(attempts: seq<Attempt>) returns (recovered: bool, written: Option<Bytes>)
      requires Valid() && |attempts| == 32
      ensures written == if Recovers(attempts) then Recovery(V()) else None
      ensures recovered == (Recovery(V()).None? || written.Some?)
    {
      hide S.HistoryStack.Valid, S.HistoryStack.Snaps, TB.TextBuffer.Valid, TB.TextBuffer.Flat;
      if !dirty {
        return true, None;
      }
      BufferText();
      var text := buffer.ToText();
      var attempt := 0;
      while attempt < RECOVERY_ATTEMPTS
        invariant 0 <= attempt <= RECOVERY_ATTEMPTS
        invariant forall j :: 0 <= j < attempt ==> !attempts[j].NoPath? && !attempts[j].Written?
      {
        if attempts[attempt].NoPath? {
          break;
        }
        if attempts[attempt].Written? {
          return true, Some(text);
        }
        attempt := attempt + 1;
      }
      return false, None;
    }

    /** Asks the application whether it may close, deferring to the prompt when work would be lost. */
    method RequestClose() returns (result: A.CloseResult)
      requires Valid() && instance.hasCanClose
      modifies this, instance
      ensures Valid() && V() == NotepadModel.RequestClose(old(V()))
      ensures result == if V().close == A.WAITING then A.Deferred else A.Allowed
    {
      hide H.Push, S.EntryOk, S.SnapOf, S.HistoryStack.Valid, S.HistoryStack.Snaps, TB.TextBuffer.Valid,
        TB.TextBuffer.Flat;
      var mayClose := !dirty || forceClose;
      if !mayClose {
        closePrompt := true;
        closeAfterSave := false;
      }
      result := instance.RequestClose(!mayClose);
    }

    // ----- Searching -----

    /** An occurrence among the lines is one in the document, at the offset of its place. */
    lemma OccurrenceInDoc(query: Bytes, row: nat, p: nat)
      requires Valid() && T.Valid(query)
      ensures LinesOk(buffer.lines) && Insertable(buffer.Flat().doc)
      ensures buffer.lines == Split(buffer.Flat().doc)
      ensures buffer.Found(query, true, row, p) == FoundAt(buffer.Flat().doc, query, row, p)
    {
      hide T.Valid, Occurs;
      JoinIsOk(buffer.lines);
      SplitOfJoin(buffer.lines);
    }

    lemma MatchEnds(query: Bytes, row: nat, p: nat)
      requires Valid() && T.Valid(query) && LinesOk(buffer.lines) && buffer.Found(query, true, row, p)
      ensures row < |buffer.lines| && AtOrBefore(buffer.lines[row], p) == p
      ensures AtOrBefore(buffer.lines[row], p + |query|) == p + |query|
    {
      hide T.Valid;
      buffer.PositionNormal(TB.TextPosition(row, p));
      buffer.PositionNormal(TB.TextPosition(row, p + |query|));
    }

    ghost predicate Nowhere(query: Bytes)
      requires Valid() && LinesOk(buffer.lines) && T.Valid(query)
      reads this, instance, buffer, clipboard, undo, undo.entries, redo, redo.entries
    {
      var from := TB.TextPosition(buffer.cursorRow, buffer.cursorCol);
      forall r: nat, p: nat :: !buffer.Candidate(query, true, true, from, r, p)
    }

    lemma OccurrenceFits(query: Bytes, row: nat, p: nat)
      requires Valid() && T.Valid(query) && LinesOk(buffer.lines) && buffer.Found(query, true, row, p)
      ensures row < |buffer.lines| && p + |query| <= |buffer.lines[row]|
    {
    }

    /** Rows and columns tell what straddles the cursor and what is past it just as offsets do. */
    lemma PlaceInDoc(query: Bytes, row: nat, p: nat)
      requires Valid() && LinesOk(buffer.lines) && Insertable(buffer.Flat().doc)
      requires T.Valid(query) && FoundAt(buffer.Flat().doc, query, row, p)
      ensures buffer.Found(query, true, row, p)
      ensures var from := TB.TextPosition(buffer.cursorRow, buffer.cursorCol);
              var at, c := At(buffer.Flat().doc, row, p), buffer.Flat().cursor;
              && (Straddles(c, at, |query|) <==> row == from.row && p < from.col < p + |query|)
              && (TB.AtOrPast(from, row, p) <==> at >= c)
    {
      hide T.Valid, FoundAt, Offset, Occurs, TB.TextBuffer.Found;
      OccurrenceInDoc(query, row, p);
      OccurrenceFits(query, row, p);
      var ls := buffer.lines;
      OffsetIsLinear(ls, row, p, |query|);
      OffsetOrder(ls, row, p, buffer.cursorRow, buffer.cursorCol);
      OffsetOrder(ls, buffer.cursorRow, buffer.cursorCol, row, p + |query|);
    }

    /** With no candidate, every occurrence straddles the cursor. */
    lemma OnlyStraddling(query: Bytes, row: nat, p: nat)
      requires Valid() && LinesOk(buffer.lines) && Insertable(buffer.Flat().doc)
      requires T.Valid(query) && Nowhere(query) && FoundAt(buffer.Flat().doc, query, row, p)
      ensures Straddles(buffer.Flat().cursor, At(buffer.Flat().doc, row, p), |query|)
    {
      hide T.Valid, FoundAt, Offset, Straddles, TB.AtOrPast;
      PlaceInDoc(query, row, p);
      assert !buffer.Candidate(query, true, true, TB.TextPosition(buffer.cursorRow, buffer.cursorCol), row, p);
    }

    ghost predicate Nearest(query: Bytes, row: nat, p: nat)
      requires Valid() && LinesOk(buffer.lines) && T.Valid(query)
      reads this, instance, buffer, clipboard, undo, undo.entries, redo, redo.entries
    {
      var from := TB.TextPosition(buffer.cursorRow, buffer.cursorCol);
      && buffer.Candidate(query, true, true, from, row, p)
      && forall r: nat, q: nat :: buffer.Candidate(query, true, true, from, r, q) ==>
           TB.CyclicLeq(from, row, p, r, q)
    }

    /** The first candidate in cyclic order of places is the first in cyclic order of offsets. */
    lemma NearestIsMetFirst(query: Bytes, row: nat, p: nat, r: nat, q: nat)
      requires Valid() && LinesOk(buffer.lines) && Insertable(buffer.Flat().doc)
      requires T.Valid(query) && Nearest(query, row, p)
      requires FoundAt(buffer.Flat().doc, query, row, p) && FoundAt(buffer.Flat().doc, query, r, q)
      requires !Straddles(buffer.Flat().cursor, At(buffer.Flat().doc, r, q), |query|)
      ensures MetFirst(buffer.Flat().cursor, At(buffer.Flat().doc, row, p), At(buffer.Flat().doc, r, q))
    {
      hide T.Valid, FoundAt, Offset, Straddles, Occurs;
      PlaceInDoc(query, row, p);
      PlaceInDoc(query, r, q);
      OccurrenceInDoc(query, row, p);
      OccurrenceFits(query, row, p);
      OccurrenceFits(query, r, q);
      OffsetOrder(buffer.lines, r, q, row, p);
      var from := TB.TextPosition(buffer.cursorRow, buffer.cursorCol);
      assert buffer.Candidate(query, true, true, from, r, q);
    }

    lemma NearestIsFirst(query: Bytes, row: nat, p: nat)
      requires Valid() && LinesOk(buffer.lines) && Insertable(buffer.Flat().doc)
      requires T.Valid(query) && Nearest(query, row, p) && FoundAt(buffer.Flat().doc, query, row, p)
      ensures First(buffer.Flat().doc, query, buffer.Flat().cursor, row, p)
    {
      hide T.Valid, Offset, Occurs, Straddles, MetFirst, TB.TextBuffer.Valid, TB.TextBuffer.Flat;
      var d, c := buffer.Flat().doc, buffer.Flat().cursor;
      PlaceInDoc(query, row, p);
      forall r: nat, q: nat | FoundAt(d, query, r, q) && !Straddles(c, At(d, r, q), |query|)
        ensures MetFirst(c, At(d, row, p), At(d, r, q))
      {
        NearestIsMetFirst(query, row, p, r, q);
      }
    }

    lemma CursorPlace()
      requires Valid()
      ensures buffer.cursorRow < |buffer.lines|
      ensures AtOrAfter(buffer.lines[buffer.cursorRow], buffer.cursorCol) == buffer.cursorCol
    {
      hide T.Valid;
      var line := buffer.lines[buffer.cursorRow];
      AtOrAfterIs(line, buffer.cursorCol, buffer.cursorCol) by { T.ValidStartsBoundary(line); }
    }

    lemma AllStraddle(query: Bytes)
      requires Valid() && LinesOk(buffer.lines) && Insertable(buffer.Flat().doc)
      requires T.Valid(query) && Nowhere(query)
      ensures var d, c := buffer.Flat().doc, buffer.Flat().cursor;
              forall row: nat, p: nat :: FoundAt(d, query, row, p) ==> Straddles(c, At(d, row, p), |query|)
    {
      hide T.Valid, Occurs, TB.TextBuffer.Valid, TB.TextBuffer.Flat, Nowhere;
      var d, c := buffer.Flat().doc, buffer.Flat().cursor;
      forall row: nat, p: nat | FoundAt(d, query, row, p)
        ensures Straddles(c, At(d, row, p), |query|)
      {
        OnlyStraddling(query, row, p);
      }
    }

    method FindNext()
      requires Valid()
      modifies this, buffer
      ensures Valid() && Insertable(old(V()).ed.doc) && FindStep(old(V()), V())
    {
      hide H.Push, S.EntryOk, S.SnapOf, S.HistoryStack.Valid, S.HistoryStack.Snaps, TB.TextBuffer.Valid,
        TB.TextBuffer.Flat, T.Valid, Insertable, TB.TextBuffer.Found, FoundAt,
        AtOrBefore, AtOrAfter, First, Straddles, Offset, Split, Join;
      ghost var v := V();
      OccurrenceInDoc([], 0, 0) by { EmptyQuery(); }
      if input == [] {
        return;
      }
      CursorPlace();
      var found, place := buffer.FindNext(input, true, buffer.cursorRow, buffer.cursorCol, true);
      if !found {
        if TB.Searchable(input) {
          assert Nowhere(input);
          AllStraddle(input);
        }
        searchHasMatch := false;
        return;
      }
      MatchEnds(input, place.row, place.start);
      OccurrenceInDoc(input, place.row, place.start);
      assert Nearest(input, place.row, place.start);
      NearestIsFirst(input, place.row, place.start);
      OffsetIsLinear(buffer.lines, place.row, place.start, |input|);
      BufferText();
      var ok := buffer.SelectMatch(place);
      assert ok;
      searchHasMatch := true;
      assert Selected(v, V(), place.row, place.start);
    }

    lemma EmptyQuery()
      ensures T.Valid([])
    {
    }

    method HandleSearch(key: Key, io: Io)
      requires Valid()
      modifies this, buffer
      ensures Valid() && Insertable(old(V()).ed.doc) && SearchStep(old(V()), key, io, V())
    {
      hide H.Push, S.EntryOk, S.SnapOf, S.HistoryStack.Valid, S.HistoryStack.Snaps, TB.TextBuffer.Valid,
        TB.TextBuffer.Flat, FindStep, T.Valid, T.Boundary;
      buffer.FlatOk();
      if key.code == ESC {
        searchMode := false;
        searchHasMatch := false;
        return;
      }
      if key.code == 0x0D || key.code == 0x0A {
        FindNext();
        return;
      }
      input := io.newInput;
      if io.inputHandled {
        searchHasMatch := false;
        buffer.ClearSelection();
      }
    }

    method OpenSearch()
      requires Valid()
      modifies this, buffer
      ensures Valid() && V() == SearchKey(old(V()))
    {
      hide H.Push, S.EntryOk, S.SnapOf, S.HistoryStack.Valid, S.HistoryStack.Snaps, TB.TextBuffer.Valid,
        TB.TextBuffer.Flat;
      searchMode := true;
      searchHasMatch := false;
      input := [];
      buffer.ClearSelection();
    }

    method DropSelection()
      requires Valid()
      modifies buffer
      ensures Valid() && V() == EscapeKey(old(V()))
    {
      hide H.Push, S.EntryOk, S.SnapOf, S.HistoryStack.Valid, S.HistoryStack.Snaps, TB.TextBuffer.Valid,
        TB.TextBuffer.Flat;
      var selected := buffer.HasSelection();
      if selected {
        buffer.ClearSelection();
      }
    }

    // ----- Events -----

    method HandleEvent(key: Key, io: Io)
      requires Valid()
      modifies this, instance, clipboard, buffer, undo, undo.entries, redo, redo.entries
      ensures Valid() && old(EditorOk(V().ed)) && KeyEvent(old(V()), key, io, V())
    {
      hide H.Push, S.EntryOk, S.SnapOf, S.HistoryStack.Valid, S.HistoryStack.Snaps, TB.TextBuffer.Valid,
        TB.TextBuffer.Flat, EditorOk, ClosePrompt, SaveAs, SearchStep, BufferStep, EditorKey, Copy, Cut, Paste,
        UndoKey, RedoKey, AskPath, SaveKey, SearchKey, EscapeKey;
      FlatIsOk();
      if closePrompt {
        HandleClosePrompt(key, io);
        return;
      }
      if saveAs {
        HandleSaveAs(key, io);
        return;
      }
      if searchMode {
        HandleSearch(key, io);
        return;
      }
      if key.code == 0x06 {
        OpenSearch();
        return;
      }
      if key.code == 0x01 {
        BufferText();
        buffer.SelectAll();
        return;
      }
      if key.code == 0x03 {
        var _ := CopySelection();
        return;
      }
      if key.code == 0x18 {
        CutSelection();
        return;
      }
      if key.code == 0x16 {
        PasteClipboard();
        return;
      }
      if key.code == 0x1A {
        Undo();
        return;
      }
      if key.code == 0x19 {
        Redo();
        return;
      }
      if key.code == 0x13 {
        HandleSaveKey(io.writeOk);
        return;
      }
      if key.code == 0x1102 {
        OpenSaveAs(false);
        return;
      }
      if key.code == 0x1103 {
        wrapMode := !wrapMode;
        return;
      }
      if key.code == ESC {
        DropSelection();
        return;
      }
      HandleEditorKey(key);
    }

    lemma FlatIsOk()
      requires Valid()
      ensures EditorOk(V().ed)
    {
      buffer.FlatOk();
    }

    lemma BufferText()
      requires Valid()
      ensures buffer.lines != [] && buffer.Flat().doc == buffer.Doc()
    {
    }

    lemma EntryText(e: S.Entry)
      ensures S.EntryOk(e) ==> S.SnapOf(e).text == e.text
    {
    }
  }
}
