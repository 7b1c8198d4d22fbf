# RetroDesk, verified

RetroDesk is a text-mode desktop in one C process. This project models its core in Dafny and proves
what that core keeps, over every input and every run.

- **Text** (`Basics`, `Utf8`, `Utf8Text`, `CharacterLaws`, `FlatText`, `LineEdits`, `TextBuffer`,
  `EditorLaws`, `KeyLaws`). A text buffer is a list of lines with a byte cursor and an anchor,
  edited in place. `FlatText.Editor` is the one document it stands for; every operation of class
  `TextBuffer` is proved to be its flat counterpart, and the laws of editing are proved there.
- **Wrap and search** (`TextWrap`, `TextSearch`). Soft wrap is a second index of the same text;
  search walks it cyclically up to case.
- **Frame diff** (`AnsiTerminal`, `FrameDiff`, `AnsiBytes`, `Compositor`, `PictureLaws`,
  `AnsiRenderer`). The renderer writes cursor moves, renditions and characters for what changed.
  `AnsiTerminal` is a terminal with deferred wrap (CUP, ED and SGR of sections 8.3.21, 8.3.39 and
  8.3.117 of ECMA-48), and `AnsiBytes` reads the output into it byte by byte.
- **Input** (`Decimals`, `TtyGrammar`, `TtyDecoder`, `TtyLaws`, `InputLaws`). A 64-byte buffer
  decoded call by call, against a grammar of what stands at its start.
- **Notepad** (`History`, `HistoryStack`, `NotepadModel`, `Notepad`, `NotepadLaws`, `NotepadKeys`).
  Bounded undo and redo against a history that forgets nothing; the dirty flag, saving and the close
  prompt.
- **Shutdown** (`AppRuntime`, `Shutdown`, `Desktop`, `ShutdownLaws`, `CloseLaws`, `SafeQuit`). The
  quit protocol as a state machine whose applications act as they like, and what it means for the
  text of a Notepad that takes part.
- **Windows** (`Windows`, `WindowManager`, `WindowLaws`, `WindowActs`, `DragLaws`, `WindowBounds`,
  `Maximize`, `WindowMaximizer`, `MaximizeLaws`, `MaximizeRuns`). The stack of windows, focus, drag
  and modal policy, and maximizing built on them.

Each class is in the form of its source: objects with fields, its loops and early returns, arrays
for buffers of a fixed size (the input buffer, the grids of the renderer, the history stack, the
slot table) and sequences for lists that grow. A class has an abstract value (`Flat`, `Snaps`,
`Abs`, `Pending`, `V`, `D`), and the contract of each method equates the new value with a function
of the old one. What the program promises is then proved of those functions, mostly by induction
over runs. What each key, byte and command means is said once more, at the codes themselves and
without those functions, in `KeyLaws`, `CharacterLaws`, `PictureLaws`, `InputLaws`, `NotepadKeys`,
`CloseLaws`, `WindowActs` and `DragLaws`.

What the model takes from outside are parameters: whether a path is good, a file exists and a write
succeeds (`NotepadModel.Io`), what an application does when it is called and who refuses to close
(`Shutdown.Event`), what a window's callback does to the window manager (`Windows.Op`), the key map
of the terminal. All are arbitrary, so the theorems hold for every answer.

## Where the code differs from what is promised

- Maximize and exact restore (`docs/RELEASE_0.1_CHECKLIST.md`, line 161): on a screen of at least
  twelve columns a window narrower than that, on any screen one that reaches the bottom row without
  filling it, and one that the screen has become too small for, does not come back as it was.
  `MaximizeLaws.RoundTrip` states exactly when a window does, on every screen;
  `MaximizeLaws.NarrowIsNotRestored` reaches the first two cases from a new window manager.
- Find with wraparound (`docs/PROJECT_STATUS.md`, line 134): a match that straddles the cursor is
  never found. `NotepadLaws.FindsIff` says exactly when there is a match,
  `NotepadLaws.StraddlingMatchIsMissed` gives a text.
- Undo then redo loses the oldest redo entries when they and the undone text exceed the byte limit,
  and only then (`History.UndoThenRedo`, an if-and-only-if); `History.RedoEntryLost` is a run that
  does. Undo takes an entry exactly when the text at hand is at most a mebibyte
  (`History.UndoTakesIff`); `History.OversizedBlocksUndo` is a run that ends in a text it cannot
  undo. Redo never costs anything (`History.RedoLosesNothing`).
- Transactional quit (`README.md`, line 67): an application that has agreed is not asked again
  (`ShutdownLaws.AnsweredAreNotAskedAgain`, with a run in `ShutdownLaws.FirstIsNotAskedAgain`), but
  it still gets keys: the application waited for does not keep the focus (`docs/APP_RUNTIME.md`,
  line 145), for a mouse press moves it (`WindowLaws.PressTakesFocus`). What is typed into a Notepad
  after it agreed is not asked about and not written to its path; it is handed to emergency recovery
  when the Notepad is destroyed (`SafeQuit.LateEditIsNotAsked`, a run). `SafeQuit.CommitTakesIff`
  says of every quit and every Notepad exactly when this happens: when asking again would have been
  refused.
- A Discard stays in force after the shutdown it answered is called off;
  `NotepadLaws.DiscardOutlivesCancel` says exactly until when: until the next key that counts as an
  edit.
- Dragging (`tests/wm_event_replay_test.c`, lines 273 to 283): the window does not follow a motion that
  reports the button as held down while the mouse is on a title row, such as one sideways along it
  in a terminal that sends such reports. `DragLaws.FollowsIff` says exactly when it follows,
  `DragLaws.HeldMotionStays` gives the motion, `InputLaws.ReportMeans` the reports.
- Escape: a delivery that ends in a lone ESC is decoded without waiting, so cutting input there does
  make a difference. `TtyLaws.CutIffNoLoneEsc` is an if-and-only-if.

## Model

| member | source | states |
|---|---|---|
| `Utf8.EncodeInto` | src/core/utf8.c:7-32 | encoding writes the one to four bytes of a scalar value and nothing past them, and leaves the buffer alone for any other number |
| `Utf8.DecodeAt` | src/core/utf8.c:34-76 | the loop decodes exactly the well-formed sequences of section 4 of RFC 3629 |
| `Utf8.RangeTestIsGrammar` | src/core/utf8.c:65-71 | the shortest-form and surrogate test after the loop accepts a lead byte with its continuation bytes exactly when the RFC 3629 grammar does |
| `Utf8.EncodeIsWellFormed` | src/core/utf8.c:7-32 | what is encoded is a sequence of the grammar, of the length its lead byte announces |
| `Utf8.DecodeOfEncode` | src/core/utf8.c:7-76 | decoding an encoded scalar value gives that value back, with its length |
| `Utf8.EncodeOfWellFormed` | src/core/utf8.c:7-76 | encoding what a well-formed sequence decodes to gives that sequence back |
| `Utf8.DecodeIffEncoding` | src/core/utf8.c:34-76 | decoding at any offset of any bytes yields (cp, n) if and only if the n bytes there are the encoding of cp, so overlong forms and surrogates never decode |
| `Utf8Text.Validate` | src/core/utf8.c:78-89 | the scan accepts exactly the texts that are sequences of characters |
| `Utf8Text.BoundaryIffCut` | src/core/utf8.c:78-89 | a boundary of a valid text is exactly a place where both halves are valid |
| `Utf8Text.ValidPrefix` | src/core/utf8.c:91-107 | the result is the longest prefix, within the limit and before the NUL, that is valid |
| `Utf8Text.LongestValidPrefix` | src/core/utf8.c:91-107 | a valid prefix that no character can extend is the longest one |
| `Utf8Text.PrevAt` | src/core/utf8.c:109-114 | the backward loop computes Prev for every offset |
| `Utf8Text.PrevIsBoundary` | src/core/utf8.c:109-114 | on valid text Prev lands on the nearest boundary to the left |
| `Utf8Text.NextPrevInverse` | src/core/utf8.c:109-123 | on the boundaries of a valid text Next and Prev undo each other |
| `Utf8Text.ColumnsBetween` | src/core/utf8.c:137-156 | the loop counts the columns of the clamped range, malformed bytes included |
| `Utf8Text.PrefixBytesOf` | src/core/utf8.c:158-176 | the loop computes PrefixBytes for every text and width |
| `Utf8Text.ColumnsJoin` | src/core/utf8.c:137-156 | columns of a valid text add up over concatenation |
| `Utf8Text.PrefixBytesIsBoundary` | src/core/utf8.c:158-176 | the prefix found ends on a boundary |
| `Utf8Text.PrefixBytesAdjoint` | src/core/utf8.c:137-176 | a boundary b has at most m columns before it if and only if b is at most PrefixBytes(m) |
| `Utf8Text.PrefixBytesFills` | src/core/utf8.c:158-176 | the prefix has exactly min(m, columns of the text) columns |
| `FlatText.JoinOfSplit` | src/ui/text_buffer.c:258-357 | splitting a document into lines and joining them gives the document back |
| `FlatText.SplitOfJoin` | src/ui/text_buffer.c:258-357 | joining lines without LF and splitting gives the lines back |
| `FlatText.SplitIsOk` | src/ui/text_buffer.c:258-315 | splitting valid text without NUL gives lines that are valid and free of LF and NUL |
| `FlatText.JoinIsOk` | src/ui/text_buffer.c:331-357 | joining such lines gives valid text without NUL |
| `LineEdits.BoundaryInDoc` | src/ui/text_buffer.c:176-189 | a place in a line is a character boundary exactly when its document offset is |
| `LineEdits.OffsetOrder` | src/ui/text_buffer.c:131-161 | document offsets order places as rows and then columns do |
| `LineEdits.SpliceInLine` | src/ui/text_buffer.c:651-677 | shifting bytes inside one line is one splice of the document |
| `LineEdits.BreakLine` | src/ui/text_buffer.c:685-724 | breaking a line in two is the splice of one LF |
| `LineEdits.MergeLines` | src/ui/text_buffer.c:731-779 | merging a line into the one above is the splice that removes one LF |
| `LineEdits.NextInDoc` | src/ui/text_buffer.c:860-871 | stepping right in the line array is one character right in the document |
| `LineEdits.PrevInDoc` | src/ui/text_buffer.c:848-858 | stepping left in the line array is one character left in the document |
| `LineEdits.UpInDoc` | src/ui/text_buffer.c:873-882 | moving up by row and column is the document's Up |
| `LineEdits.DownInDoc` | src/ui/text_buffer.c:884-893 | moving down by row and column is the document's Down |
| `LineEdits.BoundaryAtOrBefore` | src/ui/text_buffer.c:107-120 | the backward scan finds the last boundary not past the offset, whatever the bytes |
| `LineEdits.AtOrBeforeIsBoundary` | src/ui/text_buffer.c:107-120 | in a valid line AtOrBefore is a boundary not past the offset, and the offset itself when that is one |
| `TextBuffers.TextBuffer.ClampCursor` | src/ui/text_buffer.c:122-129 | the cursor ends on an existing row and a boundary, unmoved if it was on one |
| `TextBuffers.TextBuffer.SelectionRange` | src/ui/text_buffer.c:139-161 | reports the ordered ends of the flat selection, if it is not empty |
| `TextBuffers.TextBuffer.ToText` | src/ui/text_buffer.c:331-357 | writes the flat document, LF between lines |
| `TextBuffers.TextBuffer.SplitLines` | src/ui/text_buffer.c:258-315 | the line loop computes Split |
| `TextBuffers.TextBuffer.SetText` | src/ui/text_buffer.c:258-315 | takes exactly the valid texts and refuses others without any change |
| `TextBuffers.TextBuffer.DocumentOffset` | src/ui/text_buffer.c:176-189 | computes the document offset of a clamped place |
| `TextBuffers.TextBuffer.SetCursorFromOffset` | src/ui/text_buffer.c:191-207 | finds the row and column whose document offset is given |
| `TextBuffers.TextBuffer.SetCursor` | src/ui/text_buffer.c:367-374 | clamps row and column to a boundary and drops the selection |
| `TextBuffers.TextBuffer.SelectAll` | src/ui/text_buffer.c:387-395 | selects the whole document, or nothing of an empty one |
| `TextBuffers.TextBuffer.SelectedText` | src/ui/text_buffer.c:397-426 | returns the selected slice of the flat document |
| `TextBuffers.TextBuffer.ReplaceRange` | src/ui/text_buffer.c:587-635 | any two offsets are clamped to boundaries; a range then reversed, or text that cannot be inserted, changes nothing, any other is one splice of the flat document |
| `TextBuffers.TextBuffer.InsertText` | src/ui/text_buffer.c:637-649 | refines insertion at the selection or cursor of the flat editor |
| `TextBuffers.TextBuffer.InsertCodepoint` | src/ui/text_buffer.c:651-677 | refines the splice of one encoded character, in place in its line |
| `TextBuffers.TextBuffer.InsertNewline` | src/ui/text_buffer.c:685-724 | refines the splice of LF |
| `TextBuffers.TextBuffer.DeleteSelection` | src/ui/text_buffer.c:726-729 | refines removal of the selection, and reports whether there was one |
| `TextBuffers.TextBuffer.DeleteBackward` | src/ui/text_buffer.c:731-779 | refines removal of the character before the cursor, across a line break too |
| `TextBuffers.TextBuffer.DeleteForward` | src/ui/text_buffer.c:781-824 | refines removal of the character after the cursor, across a line break too |
| `TextBuffers.TextBuffer.KillToEnd` | src/ui/text_buffer.c:836-846 | refines removal to the end of the line, reporting false when there is nothing there |
| `TextBuffers.TextBuffer.MoveUp` | src/ui/text_buffer.c:873-882 | moves to the column of the document's Up |
| `TextBuffers.TextBuffer.MoveDown` | src/ui/text_buffer.c:884-893 | moves to the column of the document's Down |
| `TextBuffers.TextBuffer.PrepareMovement` | src/ui/text_buffer.c:921-933 | shift starts or keeps the anchor, plain motion drops it |
| `TextBuffers.TextBuffer.HandleKey` | src/ui/text_buffer.c:895-957 | every key does to the line array what KeyStep does to the flat editor, and is consumed alike |
| `TextBuffers.TextBuffer.WrapEnd` | src/ui/text_buffer.c:965-1000 | finds the end of the wrap chunk that starts at a boundary |
| `TextBuffers.TextBuffer.WrapChunkCount` | src/ui/text_buffer.c:1002-1014 | counts the chunks of a line |
| `TextBuffers.TextBuffer.VisualRowCount` | src/ui/text_buffer.c:1016-1027 | counts the visual rows of the text |
| `TextBuffers.TextBuffer.ChunkAtVisual` | src/ui/text_buffer.c:1029-1062 | succeeds exactly below the visual row count, with the chunk of that row |
| `TextBuffers.TextBuffer.ChunkForCursor` | src/ui/text_buffer.c:1064-1100 | finds the chunk and visual row that show the cursor, the same chunk the row index gives |
| `TextBuffers.TextBuffer.CursorVisualRow` | src/ui/text_buffer.c:1102-1110 | is the visual row that shows the cursor |
| `TextBuffers.TextBuffer.MoveWrappedVertical` | src/ui/text_buffer.c:1112-1156 | refuses a width of 0; otherwise moves the cursor's visual row by exactly one, or leaves the cursor alone on the first or last, landing on the last place no further in than it was |
| `TextBuffers.TextBuffer.HandleKeyWrapped` | src/ui/text_buffer.c:1158-1172 | wrapped Up and Down stay on the first or last visual row and else land, in the next one, on the last place no further in than the cursor was; every other key works as unwrapped |
| `TextBuffers.TextBuffer.FindNext` | src/ui/text_buffer.c:524-577 | returns the first match in cyclic order from the start among those not straddling it, of the query's length, and fails exactly when there is none |
| `TextBuffers.TextBuffer.SelectMatch` | src/ui/text_buffer.c:509-522 | selects the match with the cursor at its end, or changes nothing |
| `EditorLaws.KeyStepOk` | src/ui/text_buffer.c:935-957 | a key keeps the text valid and cursor and anchor on boundaries |
| `EditorLaws.RunOk` | src/ui/text_buffer.c:935-957 | every sequence of keys keeps the text valid and cursor and anchor on boundaries |
| `EditorLaws.KeyIsOneSplice` | src/ui/text_buffer.c:587-846 | a key changes the document by at most one splice, with the cursor at its end: of the selection, or else text at the cursor, or the removal of the character before, the character after or the rest of the line |
| `EditorLaws.CutThenInsert` | src/ui/text_buffer.c:397-426 | cutting a selection and inserting the cut text restores the document |
| `EditorLaws.BackspaceUndoesTyping` | src/ui/text_buffer.c:651-779 | backspace removes exactly the character typed and restores the cursor |
| `EditorLaws.LeftRightInverse` | src/ui/text_buffer.c:848-871 | Left and Right undo each other between boundaries |
| `EditorLaws.UpKeepsColumn` | src/ui/text_buffer.c:873-882 | Up lands on column min(old column, columns of the line above) |
| `EditorLaws.DownKeepsColumn` | src/ui/text_buffer.c:884-893 | Down lands on column min(old column, columns of the line below) |
| `KeyLaws.LineOfPlace` | src/ui/text_buffer.c:873-893 | every place of a text is in exactly one line |
| `KeyLaws.BackspaceKey` | src/ui/text_buffer.c:901-917 | Backspace, by either of its codes and nothing selected, removes exactly the character that ends at the cursor, and at the start of the text reports that there is none |
| `KeyLaws.DeleteKey` | src/ui/text_buffer.c:901-917 | Ctrl+D and Delete, nothing selected, remove exactly the character that starts at the cursor |
| `KeyLaws.KillKey` | src/ui/text_buffer.c:901-917 | Ctrl+K, nothing selected, removes from the cursor to the end of its line, and reports false there |
| `KeyLaws.EnterKey` | src/ui/text_buffer.c:901-917 | Enter and line feed put one LF in place of the selection, or at the cursor |
| `KeyLaws.RemovingKeys` | src/ui/text_buffer.c:901-917 | with a selection each of these keys removes just that |
| `KeyLaws.TypingKey` | src/ui/text_buffer.c:948-957 | any other printable key puts its character in place of the selection, or at the cursor, from its code point or else its ASCII byte; a control code, a number that is no character or an unbound key does nothing |
| `KeyLaws.MotionKey` | src/ui/text_buffer.c:921-957 | the eight motion keys leave the text; Shift keeps the anchor or sets it at the old cursor, without Shift it is dropped |
| `KeyLaws.LeftKey` | src/ui/text_buffer.c:848-858 | Left goes to the nearest character boundary before the cursor |
| `KeyLaws.RightKey` | src/ui/text_buffer.c:860-871 | Right goes to the nearest character boundary after the cursor |
| `KeyLaws.HomeEndKeys` | src/ui/text_buffer.c:901-917 | Ctrl+A and Home go to the start of the line, Ctrl+E and End to its end |
| `KeyLaws.UpKey` | src/ui/text_buffer.c:873-882 | Up goes to the line above, at the smaller of the old column and that line's columns, the last such place; in the first line it stays |
| `KeyLaws.DownKey` | src/ui/text_buffer.c:884-893 | Down goes to the line below in the same way; in the last line it stays |
| `TextWrap.ChunkShape` | src/ui/text_buffer.c:965-1000 | a chunk ends on a boundary, is not empty, and has exactly W columns unless the line ends in it |
| `TextWrap.LineChunksTile` | src/ui/text_buffer.c:965-1014 | chunks follow each other without gaps, and every chunk before the last has exactly W columns |
| `TextWrap.LineChunksConcat` | src/ui/text_buffer.c:965-1014 | the chunks of a line concatenate to the line |
| `TextWrap.LineChunksCount` | src/ui/text_buffer.c:1002-1014 | a line has max(1, ceil(columns / W)) chunks |
| `TextWrap.VisualRowTotal` | src/ui/text_buffer.c:1016-1027 | the visual row count is the sum of those over the lines |
| `TextWrap.ShowsUnique` | src/ui/text_buffer.c:1064-1110 | a cursor is shown by one visual row only |
| `TextWrap.ShownSomewhere` | src/ui/text_buffer.c:1064-1110 | every place of every line is shown by exactly one visual row |
| `TextWrap.VisualRowsCut` | src/ui/text_buffer.c:1029-1062 | every visual row is cut at boundaries of its line |
| `TextSearch.FoldKeepsLength` | src/ui/text_buffer.c:439-447 | characters equal up to case have encodings of one length |
| `TextSearch.FoldedLength` | src/ui/text_buffer.c:439-480 | texts equal up to case have one length in bytes, so a match is as long as its query |
| `TextSearch.OccursStep` | src/ui/text_buffer.c:449-480 | a query occurs exactly when its first character matches and the rest occurs after it |
| `TextSearch.QueryMatches` | src/ui/text_buffer.c:449-480 | the comparison loop decides whether the query occurs at a place |
| `TextSearch.BoundaryAtOrAfter` | src/ui/text_buffer.c:428-437 | the forward scan finds the first boundary not before an offset |
| `TextSearch.FindRange` | src/ui/text_buffer.c:482-507 | finds the first occurrence that lies wholly in a range, or there is none |
| `CharacterLaws.DecodedValue` | src/core/utf8.c:34-76 | the number a decoded character has, from its bytes in base 64 |
| `CharacterLaws.CodePointsDetermine` | src/core/utf8.c:34-76 | a text is determined by its characters |
| `CharacterLaws.FoldIsCase` | src/ui/text_buffer.c:439-447 | two characters compare equal up to case if and only if they are the same or one of the pairs of a capital and its small letter in ASCII or Latin-1, or Y with diaeresis |
| `CharacterLaws.OccursMeans` | src/ui/text_buffer.c:449-480 | a query occurs at a place if and only if it stands between character boundaries and has as many characters, alike one by one up to case, or where case counts the very bytes |
| `CharacterLaws.ColumnsAreCells` | src/core/utf8.c:125-156 | a text takes one cell for each of its characters but control characters and combining marks |
| `AnsiTerminal.PrintRun` | src/render/ansi_renderer.c:59-81 | printing inside a row writes exactly the cells under it in the current rendition, with the wrap deferred at the margin |
| `FrameDiff.SgrSetsStyle` | src/render/ansi_renderer.c:36-42 | whatever the rendition was, the parameters sent for a style set exactly that style |
| `FrameDiff.DrawRun` | src/render/ansi_renderer.c:310-374 | the tokens of a run turn exactly its cells into the new frame's |
| `FrameDiff.FlushShowsFrame` | src/render/ansi_renderer.c:295-380 | the output of a flush turns any terminal that showed the last frame, or any at all when there was none, into one that shows the new frame |
| `FrameDiff.RunsApart` | src/render/ansi_renderer.c:310-379 | two runs of a row that only cells of one style separate are at least five unchanged cells apart |
| `FrameDiff.RunSpans` | src/render/ansi_renderer.c:310-361 | no five cells in a row of a run are all unchanged |
| `FrameDiff.UnchangedFrame` | src/render/ansi_renderer.c:295-380 | an unchanged frame is flushed by the final reset alone |
| `PictureLaws.FillLooks` | src/render/ansi_renderer.c:159-176 | a fill covers just the part of its region that is on the screen |
| `PictureLaws.TextLooks` | src/render/ansi_renderer.c:228-240 | a text starts at its place in the region and is cut at the region's right edge; outside it nothing shows |
| `PictureLaws.LineLooks` | src/render/ansi_renderer.c:242-260 | a line covers just the part of it that is in the region |
| `PictureLaws.TopEdgeLooks` | src/render/ansi_renderer.c:178-226 | the top row of a box as a string: corners, dashes and, two columns in, the title between blanks |
| `PictureLaws.BoxLooks` | src/render/ansi_renderer.c:178-226 | a box row by row: top edge with title, sides, lower edge, the inside left as it was |
| `PictureLaws.LastPainterShows` | src/render/ansi_renderer.c:268-293 | a cell shows what the last command of the list that paints it paints, and without one what it showed before |
| `AnsiBytes.FeedSequence` | src/render/ansi_renderer.c:31-42 | a control sequence printed with decimal parameters is read, byte by byte, with these very parameters |
| `AnsiBytes.MoveLooks` | src/render/ansi_renderer.c:31-34 | the very bytes of a cursor move and of erasing the display |
| `AnsiBytes.StyleLooks` | src/render/ansi_renderer.c:36-42 | the very bytes of a style: reset, the two colours, bold and reverse by their numbers |
| `AnsiBytes.FeedPrintedAll` | src/render/ansi_renderer.c:31-81 | the bytes printed for a list of tokens drive the terminal as these tokens do, and leave it outside any control sequence |
| `AnsiBytes.FeedFlush` | src/render/ansi_renderer.c:295-386 | reading the bytes of a flush, opening and final reset included, is interpreting its tokens |
| `AnsiRenderers.AnsiRenderer.ResizeIfNeeded` | src/render/ansi_renderer.c:110-134 | a new size gives new grids and forgets the last frame; the same size changes nothing; a size that is not positive is refused |
| `AnsiRenderers.AnsiRenderer.BeginFrame` | src/render/ansi_renderer.c:262-266 | resizes if needed and blanks the current grid only |
| `AnsiRenderers.AnsiRenderer.SetCell` | src/render/ansi_renderer.c:148-157 | writes one sanitized cell, or nothing outside the grid |
| `AnsiRenderers.AnsiRenderer.ComposeFill` | src/render/ansi_renderer.c:159-176 | paints the clipped region and nothing else |
| `AnsiRenderers.AnsiRenderer.ComposeBox` | src/render/ansi_renderer.c:178-226 | paints the frame and title clipped to the region and nothing else |
| `AnsiRenderers.AnsiRenderer.ComposeText` | src/render/ansi_renderer.c:228-240 | paints the clipped text and nothing else |
| `AnsiRenderers.AnsiRenderer.ComposeHline` | src/render/ansi_renderer.c:242-260 | paints the clipped line and nothing else |
| `AnsiRenderers.AnsiRenderer.Compose` | src/render/ansi_renderer.c:268-293 | paints the commands one over the other |
| `AnsiRenderers.AnsiRenderer.Bridge` | src/render/ansi_renderer.c:335-359 | looks over at most four clean cells of one style for a changed one; with none the run is maximal |
| `AnsiRenderers.AnsiRenderer.RunEndFrom` | src/render/ansi_renderer.c:326-361 | extends a run from a changed cell as far as it may go: one row, one style, changed at both ends, gaps of at most four |
| `AnsiRenderers.AnsiRenderer.EmitRun` | src/render/ansi_renderer.c:59-81 | writes the run's sanitized characters in order, repeats included |
| `AnsiRenderers.AnsiRenderer.Move` | src/render/ansi_renderer.c:31-34 | writes the cursor position of a cell, counted from one, in decimal |
| `AnsiRenderers.AnsiRenderer.SetStyle` | src/render/ansi_renderer.c:36-42 | writes the reset, the colours and the attributes of a style as one rendition sequence |
| `AnsiRenderers.AnsiRenderer.DrawRun` | src/render/ansi_renderer.c:363-370 | writes the bytes of the run's tokens: move, style only where it changes, characters |
| `AnsiRenderers.AnsiRenderer.Flush` | src/render/ansi_renderer.c:295-380 | writes the bytes of good runs for the whole frame, and leaves the remembered grid equal to the current one |
| `AnsiRenderers.StepStaysInStep` | src/render/ansi_renderer.c:262-380 | each frame start, composition, flush and resize keeps the terminal equal to the remembered frame while that is valid, reading the output byte by byte |
| `AnsiRenderers.EveryFlushShowsItsFrame` | src/render/ansi_renderer.c:262-380 | over every run of frames, resizes and flushes, after each flush the terminal that reads the bytes written shows exactly the composed frame, in character and style, and the renderer remembers it |
| `TtyDecoders.TtyDecoder.Consume` | src/platform/tty_decoder.c:13-22 | drops the bytes used, all of them if too many are named |
| `TtyDecoders.TtyDecoder.Append` | src/platform/tty_decoder.c:24-32 | appends what there is room for |
| `TtyDecoders.TtyDecoder.ParseUint` | src/platform/tty_decoder.c:34-56 | reads the maximal digit run, capped at INT32_MAX and never above it on the way |
| `TtyDecoders.TtyDecoder.DecodeMouse` | src/platform/tty_decoder.c:63-165 | decodes, skips or waits for one mouse report as the grammar says |
| `TtyDecoders.TtyDecoder.DecodeCsiKey` | src/platform/tty_decoder.c:214-275 | decodes, skips or waits for one cursor key sequence as the grammar says |
| `TtyDecoders.TtyDecoder.Decode` | src/platform/tty_decoder.c:277-313 | one call emits and consumes what CallOn says of the buffer's bytes |
| `TtyLaws.NoProgressIff` | src/platform/tty_decoder.c:277-313 | a call on a non-empty buffer neither emits nor consumes exactly when the buffer is an unfinished CSI sequence that is not full |
| `TtyLaws.FullNeverWaits` | src/platform/tty_decoder.c:277-313 | a full buffer always makes progress |
| `TtyLaws.CallsDrain` | src/platform/tty_decoder.c:277-313 | calling until nothing moves decodes every item in order |
| `TtyLaws.ItemStable` | src/platform/tty_decoder.c:63-313 | an item that is complete stays the same whatever arrives after it |
| `TtyLaws.CutIffNoLoneEsc` | src/platform/tty_decoder.c:277-313 | cutting a delivery after p makes no difference, whatever follows, if and only if draining p never comes to a lone ESC |
| `TtyLaws.LoneEscSplits` | src/platform/tty_decoder.c:277-313 | after a lone ESC the cut shows: the next byte is read differently |
| `TtyLaws.ChunksDoNotMatter` | src/platform/tty_decoder.c:13-32 | at most 64 bytes cut anywhere drain to the same events and the same rest when no earlier drain sees a lone ESC |
| `TtyLaws.AnyOrderDecodesAll` | src/platform/platform_tty_raw.c:133-187 | whatever the order of deliveries and single calls, at most 64 bytes give the events of all of them at once, if no call takes a lone ESC that more bytes would have followed |
| `TtyLaws.StreamDecodesAll` | src/platform/platform_tty_raw.c:133-187 | sessions of any length, deliveries and single calls in any order: the events are those of all the bytes ever delivered, as long as each delivery fits what is free, no call finds the buffer full of an unfinished sequence and none takes a lone ESC too early |
| `TtyLaws.NumberOfDecimal` | src/platform/tty_decoder.c:34-56 | a printed number is read back, capped, up to the first byte that is no digit |
| `TtyLaws.PrintedReportDecodes` | src/platform/tty_decoder.c:63-165 | a printed mouse report followed by any bytes that fit is consumed exactly and yields the zero-based place and its button's meaning |
| `InputLaws.ReportMeans` | src/platform/tty_decoder.c:63-165 | the event of a printed mouse report, flag by flag: wheel and direction, press, release and click of either button, motion, and the place counted from zero |
| `InputLaws.ArrowMeans` | src/platform/tty_decoder.c:178-275 | ESC [ and a letter is an arrow key without modifiers, or nothing at all |
| `InputLaws.CountedArrowMeans` | src/platform/tty_decoder.c:178-275 | with one number between, only the number one makes an arrow |
| `InputLaws.ModifiedArrowMeans` | src/platform/tty_decoder.c:165-275 | with two numbers the second, from 2 to 8, gives shift, alt and control; any other makes the sequence nothing |
| `InputLaws.PlainMeans` | src/platform/tty_decoder.c:277-313 | any other byte is a key of its own code, carriage return being Enter, and only ASCII text is printable |
| `History.EvictKeepsLongest` | src/apps/notepad_app.c:94-108 | making room drops the oldest entries and keeps the longest rest that leaves room; the loop ends |
| `History.StaysBounded` | src/apps/notepad_app.c:79-244 | undo and redo together hold at most a hundred entries, each stack at most a mebibyte, after every step |
| `History.UndoThenRedo` | src/apps/notepad_app.c:208-244 | undo then redo restores text, cursor and undo stack; the redo stack loses just what must go to hold the undone text, which is nothing if and only if both are within the byte limit together |
| `History.RedoThenUndo` | src/apps/notepad_app.c:208-244 | redo then undo restores text, cursor and redo stack, and everything if and only if undo stack and text are within the byte limit together |
| `History.UndoTakesIff` | src/apps/notepad_app.c:208-225 | with something to undo, undo takes the newest entry if and only if the text at hand is small enough to capture, and otherwise does nothing |
| `History.RedoTakesIff` | src/apps/notepad_app.c:227-244 | with something to redo, redo takes the newest entry if and only if the text at hand is small enough to capture |
| `History.RedoEntryLost` | src/apps/notepad_app.c:94-108 | a run after which undo and redo lose an entry of the redo stack |
| `History.OversizedBlocksUndo` | src/apps/notepad_app.c:128-143 | a run after which a recorded change cannot be undone, the text being over the limit |
| `History.RedoLosesNothing` | src/apps/notepad_app.c:208-244 | after any run, what can be redone is redone and a following undo restores the whole state |
| `History.UndosReach` | src/apps/notepad_app.c:208-225 | k undos give the k-th entry from the top of the undo stack |
| `History.RunRemembers` | src/apps/notepad_app.c:79-313 | over every run the stacks are the latest part of a history that forgets nothing |
| `History.UndosGoBack` | src/apps/notepad_app.c:208-313 | after any run, k undos give exactly the text and cursor before the k-th latest change that still stands |
| `HistoryStacks.HistoryStack.DropOldest` | src/apps/notepad_app.c:79-92 | drops exactly the oldest entry and keeps the byte total the sum of the rest |
| `HistoryStacks.HistoryStack.Push` | src/apps/notepad_app.c:94-108 | pushes an entry after evicting the oldest until it fits; an oversized one is not kept |
| `HistoryStacks.HistoryStack.Pop` | src/apps/notepad_app.c:110-120 | takes the newest entry off, or reports an empty stack |
| `Notepads.Notepad.HistoryCapture` | src/apps/notepad_app.c:128-143 | captures text and cursor place of a text of at most a mebibyte |
| `Notepads.Notepad.RestoreHistoryEntry` | src/apps/notepad_app.c:196-206 | restores text and cursor exactly and works out the dirty flag anew |
| `Notepads.Notepad.Undo` | src/apps/notepad_app.c:208-225 | the document and its history become the undo of what they were, dirty flag and waiver worked out anew |
| `Notepads.Notepad.Redo` | src/apps/notepad_app.c:227-244 | the document and its history become the redo of what they were, dirty flag and waiver worked out anew |
| `Notepads.Notepad.HandleEditorKey` | src/apps/notepad_app.c:262-297 | records a changed text once, loses the history of a text too large to capture, and moves a wrapped cursor one visual row, landing as HandleKeyWrapped says |
| `Notepads.Notepad.FinishChange` | src/apps/notepad_app.c:299-313 | records the text before a cut or paste and works out the dirty flag anew |
| `Notepads.Notepad.CopySelection` | src/apps/notepad_app.c:315-329 | puts the selected text on the clipboard, never failing on a selection |
| `Notepads.Notepad.CutSelection` | src/apps/notepad_app.c:331-338 | copies and removes the selection as one recorded change |
| `Notepads.Notepad.PasteClipboard` | src/apps/notepad_app.c:340-350 | inserts the clipboard as one recorded change |
| `Notepads.Notepad.Save` | src/apps/notepad_app.c:352-379 | on success the snapshot is the text written and the document is clean; on failure nothing changes |
| `Notepads.Notepad.FinishClose` | src/apps/notepad_app.c:435-442 | leaves the prompt, waives the dirty flag and resolves the pending close |
| `Notepads.Notepad.HandleClosePrompt` | src/apps/notepad_app.c:444-478 | Esc cancels, d discards, s saves or asks for a path, anything else is ignored |
| `Notepads.Notepad.FindNext` | src/apps/notepad_app.c:480-504 | selects the first occurrence of the query going round from the cursor among those not straddling it, or reports that every one does |
| `Notepads.Notepad.HandleSearch` | src/apps/notepad_app.c:506-524 | keys in the search field leave the text alone |
| `Notepads.Notepad.HandleSaveAs` | src/apps/notepad_app.c:526-577 | writes to a new path; a failure calls off the close that was to follow |
| `Notepads.Notepad.HandleEvent` | src/apps/notepad_app.c:579-677 | a key goes to the prompt, the path field, the search field or the editor, in this order, and does there what the source does |
| `Notepads.Notepad.RequestClose` | src/apps/notepad_app.c:861-869 | grants a close of a clean or waived document and otherwise opens the prompt and defers |
| `Notepads.Notepad.Open` | src/apps/notepad_app.c:381-433 | an untitled document is clean; a path that is no good, cannot be read or holds malformed text opens none; a loaded document is clean, its snapshot the text read |
| `Notepads.Notepad.WriteRecovery` | src/apps/notepad_app.c:802-845 | a dirty text, and no other, goes whole to the first of at most 32 recovery files that takes it, unless no path can be made; success is reported exactly when there was nothing to recover or it was written |
| `Notepads.Clipboard.SetText` | src/core/clipboard.c:26-43 | takes exactly valid text without NUL |
| `NotepadLaws.FieldsShieldText` | src/apps/notepad_app.c:579-600 | with a prompt, path or search field open no key reaches the text, its history or the clipboard |
| `NotepadLaws.EventIsStep` | src/apps/notepad_app.c:208-350 | every event is one step of the bounded history: undo, redo, a recorded change, loss of the history, or a motion |
| `NotepadLaws.EventKeepsSound` | src/apps/notepad_app.c:152-677 | valid text and places, bounded stacks and an honest dirty flag survive every event; honest is: dirty exactly when the text is not the saved one and no waiver stands |
| `NotepadLaws.RunKeepsSound` | src/apps/notepad_app.c:152-677 | the invariant survives every run of events |
| `NotepadLaws.RunIsHistory` | src/apps/notepad_app.c:208-350 | a run of events is a run of the bounded history |
| `NotepadLaws.OpenedIsFresh` | src/apps/notepad_app.c:381-433 | a document just opened meets the invariant, with nothing to undo or redo |
| `NotepadLaws.UndoKeysGoBack` | src/apps/notepad_app.c:208-313 | after any run of events, k presses of the undo key give exactly the text and cursor before the k-th latest change that still stands |
| `NotepadLaws.WaiverIsEarned` | src/apps/notepad_app.c:435-478 | the waiver of the dirty flag comes only from Discard or a save, and ends with the next change of the text |
| `NotepadLaws.NothingLostUnasked` | src/apps/notepad_app.c:861-869 | at every point of every run a close is granted without asking if and only if the text is the saved one or a Discard of it stands, no key since having counted as an edit; otherwise the user is asked; the dirty flag says which |
| `NotepadLaws.WaiverIff` | src/apps/notepad_app.c:262-350 | the waiver of the dirty flag survives every event but an edit, Discard gives it, and every edit takes it back |
| `NotepadLaws.DeferredCloseIsEarned` | src/apps/notepad_app.c:435-577 | a deferred close goes ahead only by Discard or after the text was written, and is called off by Esc or a failed write |
| `NotepadLaws.DiscardOutlivesCancel` | src/apps/notepad_app.c:435-463 | after a Discard, with no other and the text not saved, any later request to close, a shutdown called off in between or not, is let go without a prompt if and only if no key since counted as an edit |
| `NotepadLaws.FindsIff` | src/ui/text_buffer.c:524-577 | a search reports a match if and only if some occurrence of the query does not straddle the cursor |
| `NotepadLaws.StraddlingMatchIsMissed` | src/ui/text_buffer.c:524-577 | the text ab holds the query ab, but with the cursor between the letters the search finds nothing |
| `NotepadLaws.CutPasteRestores` | src/apps/notepad_app.c:331-350 | cutting and pasting back restores the text, cursor after it |
| `AppRuntime.AppInstance.RequestClose` | src/app/app_runtime.c:114-130 | a request is granted, or deferred when the application may refuse and does |
| `AppRuntime.AppInstance.ResolveClose` | src/app/app_runtime.c:132-137 | a resolution counts only while one is pending and must be a decision |
| `AppRuntime.AppInstance.ResetCloseRequest` | src/app/app_runtime.c:139-144 | clears every close flag |
| `ShutdownLaws.CleanupKeeps` | src/core/desktop.c:578-603 | cleaning up leaves only applications with a window and, during a shutdown, removes nothing |
| `ShutdownLaws.CommitEndsAll` | src/core/desktop.c:630-642 | a commit leaves no application, each destroyed once and in order, its window closed |
| `ShutdownLaws.AskOutcome` | src/core/desktop.c:665-685 | asking in turn commits exactly when nobody left refuses, and otherwise parks at the first who does, with those before it agreed and nothing removed |
| `ShutdownLaws.ContinueOutcome` | src/core/desktop.c:644-686 | what a pending shutdown does next, for every answer: wait, call off, commit or park at the next who refuses |
| `ShutdownLaws.BeginOutcome` | src/core/desktop.c:688-697 | a shutdown begun commits at once exactly when nobody refuses, and otherwise parks at the first who does |
| `ShutdownLaws.StepWhilePending` | src/core/desktop.c:947-964 | what one event makes of a pending shutdown, whatever applications do: nothing is removed before the commit, and that comes exactly when all agree, those launched meanwhile included |
| `ShutdownLaws.StepKeepsSettled` | src/core/desktop.c:947-1027 | distinct open windows, a waiting window that is that of the application at the index, and those before it agreed, after every event |
| `ShutdownLaws.NoneLostNoneTwice` | src/core/desktop.c:129-151 | over every run each window number given out is that of one application in the table, or stands once in the list of the destroyed |
| `ShutdownLaws.AllOrNothing` | src/core/desktop.c:578-697 | however long a shutdown waits and whatever happens, it waits on with nothing removed, or is called off with everything kept and no flag set, or is carried out on every application |
| `ShutdownLaws.AnsweredAreNotAskedAgain` | src/core/desktop.c:644-686 | an application that has agreed is not asked again, whatever it would answer by now |
| `ShutdownLaws.FirstIsNotAskedAgain` | src/core/desktop.c:644-686 | a quit parks at the second application; when that agrees both are destroyed, though the first would by then refuse |
| `NotepadKeys.SelectAllKey` | src/apps/notepad_app.c:579-677 | Ctrl+A selects the whole text and changes nothing else |
| `NotepadKeys.CopyKey` | src/apps/notepad_app.c:315-329 | Ctrl+C puts the selected text on the clipboard, and without a selection does nothing |
| `NotepadKeys.CutKey` | src/apps/notepad_app.c:331-338 | Ctrl+X moves the selected text to the clipboard; the text before can be undone to |
| `NotepadKeys.PasteKey` | src/apps/notepad_app.c:340-350 | Ctrl+V puts the clipboard in place of the selection, or at the cursor; the text before can be undone to |
| `NotepadKeys.UndoRedoKeys` | src/apps/notepad_app.c:208-244 | Ctrl+Z and Ctrl+Y bring back the newest entry of their stack and keep the text at hand on the other, unless it is over a mebibyte |
| `NotepadKeys.SaveKeyMeans` | src/apps/notepad_app.c:352-379 | Ctrl+S writes the text to its path, a failure changing nothing; without a path it asks for one |
| `NotepadKeys.ModeKeys` | src/apps/notepad_app.c:579-677 | Save As and Find open an empty field, wrapping is switched, Escape drops a selection |
| `NotepadKeys.PromptKeys` | src/apps/notepad_app.c:444-478 | in the close prompt Escape cancels, d discards, s saves or asks for a path, and any other key is ignored |
| `NotepadKeys.PathKeys` | src/apps/notepad_app.c:526-577 | in the path field Enter writes to a good path where there is no file, and never to one where there is; what that means for a close to follow |
| `NotepadKeys.QueryKeys` | src/apps/notepad_app.c:506-524 | in the search field Escape leaves, and any key but Enter edits the query only |
| `NotepadKeys.FoundMeans` | src/ui/text_buffer.c:449-480 | a match is as many characters of one line as the query has, the same one by one up to case |
| `NotepadKeys.EnterFinds` | src/apps/notepad_app.c:480-524 | Enter selects the first match at or after the cursor, or else the first in the text, none having the cursor inside it |
| `NotepadKeys.WrappedKeys` | src/apps/notepad_app.c:262-297 | with wrapping on, Up and Down go exactly one visual row of 64 columns up or down, and stay in the first and last |
| `CloseLaws.StepQuiet` | src/core/desktop.c:578-603 | after every event either a shutdown is pending or no application is about to go |
| `CloseLaws.CloseActiveOutcome` | src/core/desktop.c:170-181 | the command to close the active window destroys its application if and only if that does not refuse; one that refuses keeps its place and its window and is waited for, and nothing else changes |
| `CloseLaws.LeavesIff` | src/core/desktop.c:159-181 | outside a shutdown an application leaves the table by an event if and only if it is let go: it does not refuse the command to close, its first decision on the question waited for is yes, or it never refuses and asks to go |
| `CloseLaws.LeavesOnlyWhenLetGo` | src/core/desktop.c:159-181 | over every run outside a shutdown an application is destroyed if and only if it was let go at some point, and otherwise still stands |
| `CloseLaws.PendingIgnores` | src/core/desktop.c:833-869 | while a shutdown is pending the command to quit and the taskbar are ignored |
| `CloseLaws.AnswerSettles` | src/core/desktop.c:644-686 | the first decision of the application waited for settles the shutdown: none and it waits on, no and all is kept, yes and it is carried out or parked at the next that refuses |
| `CloseLaws.TaskbarLaunches` | src/core/desktop.c:442-528 | outside a shutdown the taskbar adds one application with a window number never used before |
| `SafeQuit.AgreeingSpares` | src/apps/notepad_app.c:435-577 | whenever Notepad agrees to close, at once or by the answer to its prompt, its text is the saved one or was discarded as it stands |
| `SafeQuit.PastInStep` | src/core/desktop.c:644-686 | a pending shutdown gets past an application only if it had agreed before, its deferred answer is yes, or it is asked now and does not refuse |
| `SafeQuit.CommitSparesText` | src/core/desktop.c:578-697 | a quit that is carried out, after any wait: every Notepad agreed at some moment since the quit with its text saved or discarded, and if not edited after that its text is so at the end; CommitTakesIff is the exact condition |
| `SafeQuit.CommitTakesIff` | src/apps/notepad_app.c:802-869 | for every Notepad a quit destroys: its text goes to recovery, neither saved nor asked about, if and only if it would have refused had it been asked once more, that is, the text is not the saved one and no Discard stands; any other text was saved or discarded as it is |
| `SafeQuit.LateEditIsNotAsked` | src/apps/notepad_app.c:802-859 | a Notepad that has agreed still takes keys while another application is waited for: what is typed then is not asked about and not written to its path, and is handed to recovery when the Notepad is destroyed |
| `Desktops.Desktop.LaunchApp` | src/core/desktop.c:442-528 | adds an application with a window number never used before |
| `Desktops.Desktop.RemoveAppAt` | src/core/desktop.c:144-151 | destroys one application and closes the gap |
| `Desktops.Desktop.CleanupApps` | src/core/desktop.c:578-603 | the loop removes exactly the applications that go |
| `Desktops.Desktop.FindRunningApp` | src/core/desktop.c:605-612 | finds the first application with a window |
| `Desktops.Desktop.ResetShutdownRequests` | src/core/desktop.c:614-619 | clears the close flags of all applications and nothing else |
| `Desktops.Desktop.CancelShutdown` | src/core/desktop.c:621-628 | keeps every application and clears all close flags and the state of the protocol |
| `Desktops.Desktop.CommitShutdown` | src/core/desktop.c:630-642 | closes every application window, destroys the applications and stops the loop |
| `Desktops.Desktop.AskApps` | src/core/desktop.c:668-685 | asks from the index on, and parks at the first who refuses or commits |
| `Desktops.Desktop.ContinueShutdown` | src/core/desktop.c:644-686 | waits while the answer is open, calls off on a no or a lost window, goes on asking on a yes |
| `Desktops.Desktop.BeginShutdown` | src/core/desktop.c:688-697 | starts the protocol, unless it is under way, and asks from the first application on |
| `Desktops.Desktop.RequestAppClose` | src/core/desktop.c:170-181 | closes the window of an application that agrees, and only then |
| `Desktops.Desktop.DeliverEvent` | src/core/desktop.c:159-168 | the application acts, and outside a shutdown loses its window if it agreed to close |
| `Desktops.Desktop.DispatchEvent` | src/core/desktop.c:947-964 | a quit, a close, a launch or an event for the active window, then cleanup and the next step of the protocol |
| `Desktops.Desktop.RunServices` | src/core/desktop.c:108-117 | every application is serviced in turn, then cleanup and the next step of the protocol |
| `WindowLaws.SoundMeans` | src/wm/window_manager.c:71-96 | between events the focus is on nothing or a visible window, exactly its flag is set, and a drag holds a visible movable window |
| `WindowLaws.OpSound` | src/wm/window_manager.c:203-421 | every public operation keeps the invariant |
| `WindowLaws.EventSound` | src/wm/window_manager.c:446-559 | every input event, callbacks included, keeps the invariant and leaves no closing window behind |
| `WindowLaws.RunSound` | src/wm/window_manager.c:180-559 | the invariant holds after every run from a new window manager |
| `WindowLaws.CleanupSound` | src/wm/window_manager.c:113-139 | cleaning up leaves no closing window, a sound focus and a sound drag |
| `WindowLaws.ModalShields` | src/wm/window_manager.c:446-472 | with a visible modal window a mouse event changes no focus, order or geometry except through its callback, and where the mouse is makes no difference |
| `WindowLaws.PressTakesFocus` | src/wm/window_manager.c:446-475 | with no modal window open a press on a window makes it the active one, and the one that gets the next key |
| `WindowLaws.FrontKeepsOrder` | src/wm/window_manager.c:300-313 | raising a window keeps every window and the order of the others |
| `WindowActs.ClampMeans` | src/wm/window_manager.c:98-111 | a rectangle moved into the screen goes no further than it must |
| `WindowActs.MoveMeans` | src/wm/window_manager.c:387-396 | the active window moves by so much and then into the screen, unless it is fixed or hidden; all else stays |
| `WindowActs.ResizeMeans` | src/wm/window_manager.c:398-421 | the active window grows by so much, at least to 4 by 12 and at most to the edges, unless that leaves it as it is |
| `WindowActs.CreateMeans` | src/wm/window_manager.c:226-279 | the new window's size, place, cascade and number; it is on top with the focus, and the others stay |
| `WindowActs.FocusMeans` | src/wm/window_manager.c:289-298 | focusing shows the window and makes it the active one; the others and the order stay |
| `WindowActs.RestoreMeans` | src/wm/window_manager.c:373-380 | restoring shows the window and leaves the focus where it is |
| `WindowActs.MinimizeMeans` | src/wm/window_manager.c:351-371 | minimizing hides just that window, if it is neither fixed nor modal; the focus it had goes to the topmost visible one |
| `WindowActs.CloseMeans` | src/wm/window_manager.c:281-287 | closing takes just that window out; the others keep their order, and the focus it had goes to the topmost visible one |
| `WindowActs.KeyCloses` | src/wm/window_manager.c:530-559 | the window that handles a key is the topmost modal one, or else the active one |
| `WindowActs.CycleMeans` | src/wm/window_manager.c:315-335 | going round gives the focus to the next visible window that is not fixed, round the end of the list, and raises it; not while a modal window is open |
| `WindowActs.ResizeEventMeans` | src/wm/window_manager.c:530-559 | a new screen size moves every window into the screen and resizes none |
| `WindowActs.DragSettingsMean` | src/wm/window_manager.c:203-224 | switching dragging, and the watch over it, on and off |
| `WindowActs.ReleaseCounts` | src/wm/window_manager.c:500-515 | where it is asked for, the third drag in a row without motion switches dragging off |
| `DragLaws.PressTakesHold` | src/wm/window_manager.c:446-485 | a press on its title row takes hold of the topmost window under the mouse, where it stands |
| `DragLaws.MotionMoves` | src/wm/window_manager.c:446-498 | a motion takes the window held where the mouse takes it, into the screen, unless the button is down on a title row: that window is then taken hold of anew where it stands |
| `DragLaws.DragMoves` | src/wm/window_manager.c:446-498 | after a press and any run of motions the window stands where the press found it, shifted as far as the mouse went and moved into the screen; while it fits, the point taken hold of is under the mouse; no other window moves |
| `DragLaws.FollowsIff` | src/wm/window_manager.c:446-498 | where there is room, the window follows a motion if and only if no title row takes hold of the mouse anew |
| `DragLaws.HeldMotionStays` | src/wm/window_manager.c:477-498 | a motion along the title row moves the window if it does not report the button, and does not if it does |
| `DragLaws.AfterRelease` | src/wm/window_manager.c:500-515 | a release ends the drag, and motions after it change nothing at all |
| `WindowBounds.OpFits` | src/wm/window_manager.c:226-421 | every operation leaves every window inside the screen, and at least four rows by eight columns on any screen |
| `WindowBounds.EventFits` | src/wm/window_manager.c:446-559 | every input event with its callback leaves all windows inside the screen, and at least four by eight on any |
| `WindowBounds.RunFits` | src/wm/window_manager.c:98-111 | over every run every window is at least four by eight, whatever becomes of the screen, and inside the screen while that keeps its size |
| `WindowManagers.WindowManager.UpdateActiveFlags` | src/wm/window_manager.c:71-78 | sets each window's flag by visibility and focus |
| `WindowManagers.WindowManager.SelectTopmostVisible` | src/wm/window_manager.c:80-96 | keeps a visible focus, or moves it to the topmost visible window |
| `WindowManagers.WindowManager.CleanupClosed` | src/wm/window_manager.c:113-139 | the loop removes exactly the closing windows |
| `WindowManagers.WindowManager.CreateWindow` | src/wm/window_manager.c:226-279 | sizes and places a new window and focuses it; a small screen opens none |
| `WindowManagers.WindowManager.CloseWindow` | src/wm/window_manager.c:281-287 | marks the window as closing and cleans up, focus and drag included |
| `WindowManagers.WindowManager.FocusWindow` | src/wm/window_manager.c:289-298 | shows and focuses a window that is not closing |
| `WindowManagers.WindowManager.BringToFront` | src/wm/window_manager.c:300-313 | moves a visible window to the end of the list, the order of the others unchanged; does nothing else |
| `WindowManagers.WindowManager.CycleFocus` | src/wm/window_manager.c:315-335 | focuses and raises the next movable visible window, unless a modal one is open |
| `WindowManagers.WindowManager.MinimizeWindow` | src/wm/window_manager.c:351-371 | hides a window that may be, ends its drag and moves the focus |
| `WindowManagers.WindowManager.RestoreWindow` | src/wm/window_manager.c:373-380 | shows a window again without focusing it |
| `WindowManagers.WindowManager.MoveActiveWindow` | src/wm/window_manager.c:387-396 | moves the active window, clamped |
| `WindowManagers.WindowManager.ResizeActiveWindow` | src/wm/window_manager.c:398-421 | resizes the active window within the screen, at least 4 by 12 |
| `WindowManagers.WindowManager.SetDragEnabled` | src/wm/window_manager.c:203-214 | switching dragging off ends a drag |
| `WindowManagers.WindowManager.HandleMouse` | src/wm/window_manager.c:446-528 | modal routing, press, grab, pull, drop and callback in order |
| `WindowManagers.WindowManager.HandleEvent` | src/wm/window_manager.c:530-559 | routes mouse, key and resize events and then cleans up |
| `WindowManagers.RetroWindow.ClampTo` | src/wm/window_manager.c:98-111 | moves a window into the screen above the bottom row |
| `MaximizeLaws.FullRectFills` | src/wm/window_maximize.h:51-82 | for a window inside the screen: the exact rectangle; on a screen under twelve columns only the corner is taken, otherwise one step of growth, less a row unless four rows are left |
| `MaximizeLaws.BackIff` | src/wm/window_maximize.h:125-149 | on every screen and for every window, inside it or not: putting back gives the former rectangle if and only if a move would leave it where it was and, where windows can be resized at all, it is at least twelve wide and no larger than the screen |
| `MaximizeLaws.RestorableInside` | src/wm/window_maximize.h:125-149 | for a window inside the screen that is: at least twelve wide (or the screen is narrower) and clear of the bottom row (or at the top) |
| `MaximizeLaws.SlotFinds` | src/wm/window_maximize.h:26-49 | a window's slot is found if it has one, otherwise it gets one exactly when a slot is free or stale |
| `MaximizeLaws.MaximizeOutcome` | src/wm/window_maximize.h:84-123 | maximizing succeeds exactly when there is a slot to be had, and otherwise rolls back |
| `MaximizeLaws.RoundTrip` | src/wm/window_maximize.h:84-149 | maximizing and unmaximizing gives back the very same window manager if and only if the window is restorable, windows larger than the screen included |
| `MaximizeLaws.Rollback` | src/wm/window_maximize.h:100-114 | with no slot to be had the rollback gives back the very same window manager under the same condition |
| `MaximizeLaws.NarrowIsNotRestored` | src/wm/window_maximize.h:125-149 | two runs from a new window manager: a window opened eleven wide comes back twelve wide, and one grown onto the bottom row comes back a row higher |
| `MaximizeLaws.StuckIff` | src/wm/window_maximize.h:51-82 | no move displaces a rectangle at the corner if and only if it fills the screen but for the bottom row |
| `MaximizeLaws.ToggleSound` | src/wm/window_maximize.h:162-167 | toggling keeps the window manager's invariant and one slot a window |
| `MaximizeRuns.FillsIff` | src/wm/window_maximize.h:51-82 | a maximized window spans all columns and all rows but the last if and only if one step of growth reaches both edges, or on a screen under twelve columns it did so before |
| `MaximizeRuns.RunStays` | src/wm/window_manager.c:300-421 | a window that fills the screen keeps its rectangle over every run of calls and events that resize nothing, do not close it and keep the screen size |
| `MaximizeRuns.MaximizedStays` | src/wm/window_maximize.h:84-149 | a maximized window that fills the screen keeps its rectangle over every such run, moves and drags included, and unmaximizing then gives back the former rectangle if and only if that was restorable |
| `MaximizeRuns.StaysIffFills` | src/wm/window_manager.c:387-396 | every such run leaves a maximized window where it is if and only if it fills the screen: any other can be moved away |
| `MaximizeLaws.ToggleTwice` | src/wm/window_maximize.h:162-167 | toggling twice maximizes a window and gives it back as it was if and only if it is restorable |
| `MaximizeLaws.RefreshMeans` | src/wm/window_maximize.h:156-160 | refreshing gives a maximized window the full size of the screen as it is now, and leaves any other alone |
| `WindowMaximizers.WindowMaximizer.MaximizeSlot` | src/wm/window_maximize.h:26-49 | the loop over the slot array frees stale slots on the way and finds or takes a slot |
| `WindowMaximizers.WindowMaximizer.ApplyMaximizedGeometry` | src/wm/window_maximize.h:51-82 | moves to the corner and grows, or refuses |
| `WindowMaximizers.WindowMaximizer.MaximizeActive` | src/wm/window_maximize.h:84-123 | applies the geometry, takes a slot or rolls back; reports whether the window is maximized |
| `WindowMaximizers.WindowMaximizer.UnmaximizeActive` | src/wm/window_maximize.h:125-149 | puts the stored size and place back and clears the mark, or refuses a window not maximized |
| `WindowMaximizers.WindowMaximizer.WindowIsMaximized` | src/wm/window_maximize.h:151-154 | reports the mark of the window's slot; stale slots are freed on the way |
| `WindowMaximizers.WindowMaximizer.RefreshMaximized` | src/wm/window_maximize.h:156-160 | reapplies the geometry to a window that is marked maximized, and leaves any other alone |
| `WindowMaximizers.WindowMaximizer.ToggleMaximize` | src/wm/window_maximize.h:162-167 | unmaximizes a marked window and maximizes any other |

## Left out

- Allocation failure, array growth, null arguments and string ownership: allocation succeeds and
  arguments are there.
- Overflow of `size_t` and `int`: lengths, ids and coordinates are unbounded, except in the number
  parser, where the cap at INT32_MAX is modelled.
- Bytes are integers below 256; masks and shifts of the codec are written as division and remainder.
- Lines of a text buffer, windows and running applications are sequences that methods reassign, and
  removal and insertion are slices, where the source shifts elements of a growing array.
- Printing a number with `%d` is a function (`Decimals.Decimal`), and the stream written to is the
  byte string a call returns.
- Scrolling, drawing of text, prompts, launcher, taskbar, themes and heads-up displays: layout only.
- The launcher's own window, the keyboard window mode and the status bar: during a shutdown they
  take no part, outside it a launch from them is `Shutdown.Input.Taskbar`.
- The bridges in `src/ui` that redirect `wm_*` calls of the desktop are taken as the plain calls.
- An application is launched or focused by its descriptor in the source; here a launch that only
  focuses is no step of the protocol.
- `app_request_close` never answers Cancelled for an application that exists, so the branch for that
  answer in `desktop_continue_shutdown` is not written out.
- Loss of the terminal ends the loop at once without asking anyone; `desktop_shutdown` then destroys
  what is left. Both are outside the quit protocol.
- Storage, clocks, signals and the backends: a save is a success or a failure, and so is each
  attempt at a recovery file; the names of those files are not modelled.
- Error texts, and the fields that only feed them.
- The path and query field is a byte string whose new value each key event brings along; its editing
  is not modelled.
- Branches for malformed text inside a line (`text_line_wrap_end`, `text_line_cursor_width`): a line
  of a buffer is always valid, which is proved, so they are never taken.
- One window manager shares the slot table with others through slots marked as foreign; what those
  do with their own slots is not modelled.
- Small widgets, command line, application registry and scripts: easy members.
- Desktops.Desktop.LaunchApp: adds an application only; focusing a single-instance application,
  refusal for missing capabilities and a failed creation change no table and are not modelled.
- Desktops.Desktop.DispatchEvent: the launcher's keys and the window mode keys are not modelled;
  they act on windows that take no part in the protocol.
- The run of a Notepad is joined to that of the desktop at its close flags and answers; which window
  a key reaches is the choice of the run.
