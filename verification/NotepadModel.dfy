/**
  What Notepad's events do, on a value view of its state: editing with history, the clipboard,
  saving, searching and the negotiation of a close.
 */
module NotepadModel {
  import opened Basics
  import T = Utf8Text
  import opened FlatText
  import opened TextSearch
  import opened TextWrap
  import B = TextBuffers
  import H = History
  import A = AppRuntime

  const WRAP_COLUMNS := 64

  /** The text as last written, and what is known of the difference. */
  datatype File = File(saved: Bytes, dirty: bool, force: bool, hasPath: bool)

  /** Modes, and the field that paths and queries are typed into. */
  datatype Ui = Ui(
    input: Bytes, saveAs: bool, search: bool, hasMatch: bool, wrap: bool, prompt: bool, closeAfterSave: bool)

  datatype View = View(
    ed: Editor, undo: seq<H.Snap>, redo: seq<H.Snap>, file: File, ui: Ui, clip: Bytes, close: A.CloseState)

  /**
    What the storage and the input field answer during an event: whether the typed path is good,
    whether a file is there already, whether writing succeeds, and how the field takes the key.
   */
  datatype Io = Io(pathOk: bool, fileExists: bool, writeOk: bool, inputHandled: bool, newInput: Bytes)

  /** What a new Notepad is opened on: nothing, a path that is no good or cannot be read, or the text read. */
  datatype Resource = Untitled | BadPath | Unreadable | Read(text: Bytes)

  function SnapOf(e: Editor): H.Snap {
    H.Snap(e.doc, e.cursor)
  }

  // ----- Editing -----

  predicate MayEdit(key: Key) {
    || key.code in {0x0A, 0x0D, 0x08, 0x7F, 0x0B, 0x04, 0x1008}
    || key.printable
  }

  predicate Captured(v: View) {
    |v.ed.doc| <= H.MAX_BYTES
  }

  /** A text too large to capture costs the whole history. */
  function Capture(v: View): View {
    if Captured(v) then v else v.(undo := [], redo := [])
  }

  /** An edit makes the difference known again and takes back what the user waved through. */
  function Edited(f: File, doc: Bytes): File {
    f.(force := false, dirty := doc != f.saved)
  }

  function Changed(v: View, next: Editor): View {
    v.(ed := next,
       undo := if Captured(v) then H.Push(v.undo, SnapOf(v.ed)) else [],
       redo := [],
       file := Edited(v.file, next.doc))
  }

  predicate WrappedVertical(v: View, key: Key) {
    v.ui.wrap && (key.code == 0x1000 || key.code == 0x1001)
  }

  /** The document offset of a place. */
  function At(d: Bytes, row: nat, p: nat): nat
    requires row < |Split(d)|
  {
    Offset(Split(d), row, p)
  }

  /** A place in the lines of the document, and its offset. */
  predicate Placed(d: Bytes, row: nat, col: nat, offset: nat) {
    row < |Split(d)| && col <= |Split(d)[row]| && At(d, row, col) == offset
  }

  /** The cursor goes one visual row up or down, or stays in the first or last. */
  ghost predicate MovesOneRow(d: Bytes, cursor: nat, next: nat, up: bool) {
    exists row: nat, col: nat, row': nat, col': nat ::
      && Placed(d, row, col, cursor) && Placed(d, row', col', next)
      && VerticalMove(Split(d), WRAP_COLUMNS, up, row, col, row', col')
  }

  /** What the text buffer makes of a key; a wrapped vertical move leaves the text alone. */
  ghost predicate BufferStep(v: View, key: Key, next: Editor, consumed: bool)
    requires EditorOk(v.ed)
  {
    if WrappedVertical(v, key) then
      && consumed && EditorOk(next) && next.doc == v.ed.doc && next.anchor == Prepare(v.ed, key.Shift()).anchor
      && MovesOneRow(v.ed.doc, v.ed.cursor, next.cursor, key.code == 0x1000)
    else
      (next, consumed) == KeyStep(v.ed, key)
  }

  function EditorKey(v: View, key: Key, next: Editor, consumed: bool): View {
    if !MayEdit(key) then v.(ed := next)
    else if consumed && (!Captured(v) || next.doc != v.ed.doc) then Changed(v, next)
    else Capture(v).(ed := next)
  }

  function ManualEdit(v: View, next: Editor, changed: bool): View {
    if changed then Changed(v, next) else Capture(v).(ed := next)
  }

  function Copy(v: View): View
    requires EditorOk(v.ed)
  {
    match Selection(v.ed)
    case None => v
    case Some(range) => v.(clip := v.ed.doc[range.0..range.1])
  }

  function Cut(v: View): View
    requires EditorOk(v.ed)
  {
    if Selection(v.ed).None? then v
    else
      var (next, changed) := DeleteSelection(v.ed);
      ManualEdit(Copy(v), next, changed)
  }

  function Paste(v: View): View
    requires EditorOk(v.ed)
  {
    if v.clip == [] then v
    else
      var (next, changed) := InsertText(v.ed, v.clip);
      ManualEdit(v, next, changed)
  }

  function Restored(v: View, s: H.Snap): View {
    v.(ed := Editor(s.text, s.cursor, None), file := Edited(v.file, s.text))
  }

  function UndoKey(v: View): View {
    if v.undo == [] || !Captured(v) then v
    else
      var top := |v.undo| - 1;
      Restored(v, v.undo[top]).(undo := v.undo[..top], redo := H.Push(v.redo, SnapOf(v.ed)))
  }

  function RedoKey(v: View): View {
    if v.redo == [] || !Captured(v) then v
    else
      var top := |v.redo| - 1;
      Restored(v, v.redo[top]).(redo := v.redo[..top], undo := H.Push(v.undo, SnapOf(v.ed)))
  }

  // ----- Saving and closing -----

  function Save(v: View, writeOk: bool): (View, bool) {
    if v.file.hasPath && writeOk then (v.(file := v.file.(saved := v.ed.doc, dirty := false)), true) else (v, false)
  }

  function Resolve(v: View, result: A.CloseResult): View {
    v.(close := A.Resolved(v.close, result))
  }

  function FinishClose(v: View): View {
    Resolve(v.(ui := v.ui.(prompt := false, closeAfterSave := false), file := v.file.(force := true)), A.Allowed)
  }

  const ESC := 0x1B

  /** Opens the field for a path, with a close to go on with afterwards or not. */
  function AskPath(v: View, closing: bool): View {
    v.(ui := v.ui.(search := false, input := [], saveAs := true, closeAfterSave := closing))
  }

  function ClosePrompt(v: View, key: Key, io: Io): View {
    if key.code == ESC then Resolve(v.(ui := v.ui.(prompt := false, closeAfterSave := false)), A.Cancelled)
    else if key.ascii == 0x64 || key.ascii == 0x44 then FinishClose(v.(file := v.file.(dirty := false)))
    else if key.ascii != 0x73 && key.ascii != 0x53 then v
    else if !v.file.hasPath then AskPath(v.(ui := v.ui.(prompt := false)), true)
    else
      var (next, ok) := Save(v, io.writeOk);
      if ok then FinishClose(next) else next
  }

  function SaveKey(v: View, writeOk: bool): View {
    if v.file.hasPath then Save(v.(ui := v.ui.(closeAfterSave := false)), writeOk).0 else AskPath(v, false)
  }

  /** Writes to the new path; a failure calls off the close that was to follow. */
  function WriteAs(v: View, writeOk: bool): View {
    var (next, ok) := Save(v.(file := v.file.(hasPath := true), ui := v.ui.(saveAs := false)), writeOk);
    if ok then if v.ui.closeAfterSave then FinishClose(next) else next
    else CallOff(next)
  }

  function CallOff(v: View): View {
    var next := v.(ui := v.ui.(closeAfterSave := false));
    if v.ui.closeAfterSave then Resolve(next, A.Cancelled) else next
  }

  function SaveAs(v: View, key: Key, io: Io): View {
    if key.code == ESC then CallOff(v.(ui := v.ui.(saveAs := false)))
    else if key.code == 0x0D || key.code == 0x0A then
      if !io.pathOk || io.fileExists then v else WriteAs(v, io.writeOk)
    else v.(ui := v.ui.(input := io.newInput))
  }

  // ----- Searching -----

  ghost predicate FoundAt(d: Bytes, query: Bytes, row: nat, p: nat)
    requires Insertable(d) && T.Valid(query)
  {
    SplitIsOk(d);
    row < |Split(d)| && Occurs(Split(d)[row], p, query, true)
  }

  /** An occurrence at an offset has the cursor inside it. */
  predicate Straddles(cursor: nat, at: nat, length: nat) {
    at < cursor < at + length
  }

  /** The order in which offsets are met going round the text from the cursor. */
  predicate MetFirst(cursor: nat, a: nat, b: nat) {
    if (a >= cursor) != (b >= cursor) then a >= cursor else a <= b
  }

  /** The occurrence comes first, going round from the cursor, among those that do not straddle it. */
  ghost predicate First(d: Bytes, query: Bytes, cursor: nat, row: nat, p: nat)
    requires Insertable(d) && T.Valid(query)
  {
    && FoundAt(d, query, row, p) && !Straddles(cursor, At(d, row, p), |query|)
    && forall r: nat, q: nat :: FoundAt(d, query, r, q) && !Straddles(cursor, At(d, r, q), |query|) ==>
         MetFirst(cursor, At(d, row, p), At(d, r, q))
  }

  /** The match is selected with the cursor at its end. */
  ghost predicate Selected(v: View, next: View, row: nat, p: nat)
    requires Insertable(v.ed.doc) && T.Valid(v.ui.input)
  {
    && First(v.ed.doc, v.ui.input, v.ed.cursor, row, p)
    && var at := At(v.ed.doc, row, p);
       next == v.(ed := Editor(v.ed.doc, at + |v.ui.input|, Some(at)), ui := v.ui.(hasMatch := true))
  }

  /** Selects the next occurrence of the query, round the text, or reports that all straddle the cursor. */
  ghost predicate FindStep(v: View, next: View)
    requires Insertable(v.ed.doc)
  {
    if v.ui.input == [] then next == v
    else if !B.Searchable(v.ui.input) then next == v.(ui := v.ui.(hasMatch := false))
    else
      || (exists row: nat, p: nat :: Selected(v, next, row, p))
      || (&& next == v.(ui := v.ui.(hasMatch := false))
          && forall row: nat, p: nat :: FoundAt(v.ed.doc, v.ui.input, row, p) ==>
               Straddles(v.ed.cursor, At(v.ed.doc, row, p), |v.ui.input|))
  }

  function SearchKey(v: View): View {
    v.(ui := v.ui.(search := true, hasMatch := false, input := []), ed := v.ed.(anchor := None))
  }

  function EscapeKey(v: View): View {
    v.(ed := if Selection(v.ed).Some? then v.ed.(anchor := None) else v.ed)
  }

  ghost predicate SearchStep(v: View, key: Key, io: Io, next: View)
    requires Insertable(v.ed.doc)
  {
    if key.code == ESC then next == v.(ui := v.ui.(search := false, hasMatch := false))
    else if key.code == 0x0D || key.code == 0x0A then FindStep(v, next)
    else if io.inputHandled then
      next == v.(ui := v.ui.(input := io.newInput, hasMatch := false), ed := v.ed.(anchor := None))
    else next == v.(ui := v.ui.(input := io.newInput))
  }

  // ----- Events -----

  /** Keys go to the text only when no prompt, path or search field is open. */
  predicate Editing(v: View) {
    !v.ui.prompt && !v.ui.saveAs && !v.ui.search
  }

  ghost predicate KeyEvent(v: View, key: Key, io: Io, next: View)
    requires EditorOk(v.ed)
  {
    if v.ui.prompt then next == ClosePrompt(v, key, io)
    else if v.ui.saveAs then next == SaveAs(v, key, io)
    else if v.ui.search then SearchStep(v, key, io, next)
    else
      match key.code
      case 0x06 => next == SearchKey(v)
      case 0x01 => next == v.(ed := SelectAll(v.ed.doc))
      case 0x03 => next == Copy(v)
      case 0x18 => next == Cut(v)
      case 0x16 => next == Paste(v)
      case 0x1A => next == UndoKey(v)
      case 0x19 => next == RedoKey(v)
      case 0x13 => next == SaveKey(v, io.writeOk)
      case 0x1102 => next == AskPath(v, false)
      case 0x1103 => next == v.(ui := v.ui.(wrap := !v.ui.wrap))
      case 0x1B => next == EscapeKey(v)
      case _ => exists consumed :: BufferStep(v, key, next.ed, consumed) && next == EditorKey(v, key, next.ed, consumed)
  }

  function SelectAll(d: Bytes): Editor {
    Editor(d, |d|, if d == [] then None else Some(0))
  }

  /** A request to close: granted at once, or deferred to the user's answer to the prompt. */
  function RequestClose(v: View): View {
    if v.file.dirty && !v.file.force then v.(ui := v.ui.(prompt := true, closeAfterSave := false), close := A.WAITING)
    else v.(close := A.AUTHORISED)
  }

  /** What is handed to recovery when a Notepad is destroyed: a text that was neither saved nor let go. */
  function Recovery(v: View): Option<Bytes> {
    if v.file.dirty then Some(v.ed.doc) else None
  }

  const RECOVERY_ATTEMPTS := 32

  /** How one attempt at a recovery file ends; only without a path are there no further ones. */
  datatype Attempt = NoPath | Exists | NotOpened | NotWritten | Written

  /** Some attempt writes the file, and none before it is without a path. */
  ghost predicate Recovers(attempts: seq<Attempt>) {
    exists k :: 0 <= k < |attempts| && attempts[k].Written? && forall j :: 0 <= j < k ==> !attempts[j].NoPath?
  }

  /**
    An event: a key, a request to close, or what the rest of the desktop does to the shared
    clipboard and to the close flags.
   */
  datatype Event = Press(key: Key, io: Io) | CloseRequest | Outside

  ghost predicate EventStep(v: View, e: Event, next: View)
    requires EditorOk(v.ed)
  {
    match e
    case Press(key, io) => KeyEvent(v, key, io, next)
    case CloseRequest => next == RequestClose(v)
    case Outside => next == v.(clip := next.clip, close := next.close) && Insertable(next.clip)
  }
}
