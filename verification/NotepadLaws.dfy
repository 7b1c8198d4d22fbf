/**
  Laws of Notepad over every run of its events: the history is the bounded history of the
  document, the dirty flag is honest, and work is never thrown away unasked.
 */
module NotepadLaws {
  import opened Basics
  import opened Utf8
  import T = Utf8Text
  import opened FlatText
  import opened LineEdits
  import opened TextSearch
  import opened NotepadModel
  import B = TextBuffers
  import L = EditorLaws
  import H = History
  import A = AppRuntime

  // ----- The invariant -----

  function HistOf(v: View): H.Hist {
    H.Hist(SnapOf(v.ed), v.undo, v.redo)
  }

  predicate SnapOk(s: H.Snap) {
    EditorOk(Editor(s.text, s.cursor, None))
  }

  predicate SnapsOk(s: seq<H.Snap>) {
    forall i :: 0 <= i < |s| ==> SnapOk(s[i])
  }

  /** The dirty flag tells whether the text differs from what was saved and the user has not waved that through. */
  predicate Honest(f: File, doc: Bytes) {
    f.dirty <==> doc != f.saved && !f.force
  }

  predicate Sound(v: View) {
    && EditorOk(v.ed) && Insertable(v.clip)
    && SnapsOk(v.undo) && SnapsOk(v.redo) && H.Bounded(HistOf(v))
    && Honest(v.file, v.ed.doc)
  }

  lemma PushOk(s: seq<H.Snap>, e: Editor)
    requires SnapsOk(s) && EditorOk(e)
    ensures SnapsOk(H.Push(s, SnapOf(e)))
  {
    hide SnapOk;
    assert SnapOk(SnapOf(e)) by { SnapIsOk(e); }
    if |e.doc| <= H.MAX_BYTES {
      H.EvictKeepsLongest(s, |e.doc|, |s|);
    }
  }

  lemma SnapIsOk(e: Editor)
    requires EditorOk(e)
    ensures SnapOk(SnapOf(e))
  {
  }

  // ----- Each event is one step of the history -----

  lemma UnconsumedKeepsText(e: Editor, key: Key)
    requires EditorOk(e) && !KeyStep(e, key).1
    ensures SnapOf(KeyStep(e, key).0) == SnapOf(e)
  {
    hide T.Valid, Decode, T.Boundary, Replace, Target, T.Prev, T.Next, LineEnd;
  }

  lemma ReadingKeepsText(e: Editor, key: Key)
    requires EditorOk(e) && !MayEdit(key)
    ensures KeyStep(e, key).0.doc == e.doc
  {
    hide T.Valid, Decode, T.Boundary, Replace, Target, T.Prev, T.Next, LineEnd;
  }

  lemma BufferStepOk(v: View, key: Key, next: Editor, consumed: bool)
    requires EditorOk(v.ed) && BufferStep(v, key, next, consumed)
    ensures EditorOk(next)
    ensures !consumed ==> SnapOf(next) == SnapOf(v.ed)
    ensures !MayEdit(key) ==> next.doc == v.ed.doc
  {
    hide EditorOk, KeyStep, MayEdit;
    if !WrappedVertical(v, key) {
      L.KeyStepOk(v.ed, key);
      if !consumed {
        UnconsumedKeepsText(v.ed, key);
      }
      if !MayEdit(key) {
        ReadingKeepsText(v.ed, key);
      }
    }
  }

  /**
    Which step of the history an event is: undo and redo keys; a change for every edit of the text
    and every paste; loss of both stacks when a text too large to capture might have been edited.
   */
  function StepOf(v: View, e: Event, next: View): H.Step {
    if !e.Press? || !Editing(v) then H.Move(next.ed.cursor)
    else if e.key.code == 0x1A then H.UndoStep
    else if e.key.code == 0x19 then H.RedoStep
    else if next.ed.doc != v.ed.doc || (e.key.code == 0x16 && v.clip != []) then H.Change(SnapOf(next.ed))
    else if !Captured(v) && next.undo == [] && next.redo == [] then H.Forget(next.ed.cursor)
    else H.Move(next.ed.cursor)
  }

  lemma ChangedIsRecord(v: View, ed: Editor)
    ensures HistOf(Changed(v, ed)) == H.Record(HistOf(v), SnapOf(ed))
  {
    hide H.Push;
  }

  lemma EditorKeyIsStep(v: View, key: Key, next: Editor, consumed: bool)
    requires EditorOk(v.ed) && BufferStep(v, key, next, consumed)
    ensures var w := EditorKey(v, key, next, consumed);
            HistOf(w) == H.Apply(HistOf(v),
              if next.doc != v.ed.doc then H.Change(SnapOf(next))
              else if !Captured(v) && w.undo == [] && w.redo == [] then H.Forget(next.cursor)
              else H.Move(next.cursor))
  {
    hide H.Push, EditorOk, BufferStep, MayEdit;
    BufferStepOk(v, key, next, consumed);
    ChangedIsRecord(v, next);
  }

  lemma PasteChanges(v: View)
    requires EditorOk(v.ed) && Insertable(v.clip) && v.clip != []
    ensures var next := Replace(v.ed, v.clip);
            Paste(v) == Changed(v, next) && EditorOk(next)
  {
    hide EditorOk, Replace;
    L.ReplaceOk(v.ed, v.clip);
  }

  lemma CutChanges(v: View)
    requires EditorOk(v.ed) && Selection(v.ed).Some?
    ensures var next := Replace(v.ed, []);
            && Cut(v) == Changed(Copy(v), next) && EditorOk(next) && next.doc != v.ed.doc
    ensures Insertable(Copy(v).clip)
  {
    L.EmptyInsertable();
    L.ReplaceOk(v.ed, []);
    var (a, b) := Selection(v.ed).value;
    CopiedIsOk(v.ed);
    assert |Replace(v.ed, []).doc| < |v.ed.doc|;
  }

  lemma NothingToMove(v: View)
    requires EditorOk(v.ed)
    ensures Selection(v.ed).None? ==> Cut(v) == v
    ensures v.clip == [] ==> Paste(v) == v
  {
  }

  lemma CopiedIsOk(e: Editor)
    requires EditorOk(e) && Selection(e).Some?
    ensures var (a, b) := Selection(e).value; a < b <= |e.doc| && Insertable(e.doc[a..b])
  {
    var (a, b) := Selection(e).value;
    T.SliceIsValid(e.doc, a, b);
  }

  /** Same text, same history, same clipboard. */
  predicate KeepsText(v: View, next: View) {
    next.ed.doc == v.ed.doc && next.undo == v.undo && next.redo == v.redo && next.clip == v.clip
  }

  lemma PromptKeepsText(v: View, key: Key, io: Io)
    ensures KeepsText(v, ClosePrompt(v, key, io))
  {
    hide A.Resolved;
  }

  lemma SaveAsKeepsText(v: View, key: Key, io: Io)
    ensures KeepsText(v, SaveAs(v, key, io))
  {
    hide A.Resolved;
  }

  lemma SearchKeepsText(v: View, key: Key, io: Io, next: View)
    requires Insertable(v.ed.doc) && SearchStep(v, key, io, next)
    ensures KeepsText(v, next)
  {
    hide Insertable, FoundAt, At, T.Valid, B.Searchable;
  }

  /** With a prompt, path or search field open, no key reaches the text or its history. */
  lemma FieldsShieldText(v: View, key: Key, io: Io, next: View)
    requires EditorOk(v.ed) && KeyEvent(v, key, io, next) && !Editing(v)
    ensures KeepsText(v, next)
  {
    hide EditorOk, ClosePrompt, SaveAs, SearchStep, KeepsText;
    if v.ui.prompt {
      PromptKeepsText(v, key, io);
    } else if v.ui.saveAs {
      SaveAsKeepsText(v, key, io);
    } else {
      assert Insertable(v.ed.doc) by { EditorText(v.ed); }
      SearchKeepsText(v, key, io, next);
    }
  }

  lemma EditorText(e: Editor)
    requires EditorOk(e)
    ensures Insertable(e.doc)
  {
  }

  /** Every event is one step of the bounded history. */
  lemma EventIsStep(v: View, e: Event, next: View)
    requires EditorOk(v.ed) && Insertable(v.clip) && EventStep(v, e, next)
    ensures HistOf(next) == H.Apply(HistOf(v), StepOf(v, e, next))
  {
    hide EditorOk, Insertable, BufferStep, EditorKey, Paste, Cut, H.Push, FoundAt;
    if e.Press? {
      if !Editing(v) {
        FieldsShieldText(v, e.key, e.io, next);
      } else {
        var code := e.key.code;
        if code == 0x18 && Selection(v.ed).Some? {
          CutChanges(v);
          ChangedIsRecord(Copy(v), next.ed);
        } else if code == 0x18 {
          NothingToMove(v);
        } else if code == 0x16 && v.clip != [] {
          PasteChanges(v);
          ChangedIsRecord(v, next.ed);
        } else if code == 0x16 {
          NothingToMove(v);
        } else if code !in {0x06, 0x01, 0x03, 0x1A, 0x19, 0x13, 0x1102, 0x1103, 0x1B} {
          var consumed :| BufferStep(v, e.key, next.ed, consumed) && next == EditorKey(v, e.key, next.ed, consumed);
          EditorKeyIsStep(v, e.key, next.ed, consumed);
        }
      }
    }
  }

  // ----- Every event keeps the invariant -----

  lemma HistoryStaysOk(v: View, e: Event, next: View)
    requires EditorOk(v.ed) && Insertable(v.clip) && EventStep(v, e, next)
    requires SnapsOk(v.undo) && SnapsOk(v.redo) && H.Bounded(HistOf(v))
    ensures SnapsOk(next.undo) && SnapsOk(next.redo) && H.Bounded(HistOf(next))
  {
    hide EditorOk, Insertable, EventStep, SnapOk, H.Push, H.Bounded, StepOf;
    EventIsStep(v, e, next);
    H.StaysBounded(HistOf(v), StepOf(v, e, next));
    PushOk(v.undo, v.ed);
    PushOk(v.redo, v.ed);
  }

  lemma FieldsKeepHonest(v: View, key: Key, io: Io, next: View)
    requires EditorOk(v.ed) && KeyEvent(v, key, io, next) && !Editing(v)
    requires Honest(v.file, v.ed.doc)
    ensures Honest(next.file, next.ed.doc) && EditorOk(next.ed)
  {
    hide EditorOk, FoundAt, At, A.Resolved, SearchStep;
    FieldsShieldText(v, key, io, next);
    if v.ui.prompt || v.ui.saveAs {
    } else {
      assert Insertable(v.ed.doc) by { EditorText(v.ed); }
      SearchKeepsEditor(v, key, io, next);
    }
  }

  lemma SearchKeepsEditor(v: View, key: Key, io: Io, next: View)
    requires EditorOk(v.ed) && Insertable(v.ed.doc) && SearchStep(v, key, io, next)
    ensures EditorOk(next.ed) && next.file == v.file
  {
    hide EditorOk, Insertable, FoundAt, At, T.Valid;
    assert EditorOk(v.ed.(anchor := None)) by { DropAnchor(v.ed); }
    if (key.code == 0x0D || key.code == 0x0A) && B.Searchable(v.ui.input) && next.ui.hasMatch {
      if row: nat, p: nat :| Selected(v, next, row, p) {
        MatchInDoc(v.ed, v.ui.input, row, p);
      }
    }
  }

  lemma DropAnchor(e: Editor)
    requires EditorOk(e)
    ensures EditorOk(e.(anchor := None)) && EditorOk(SelectAll(e.doc))
  {
    T.ValidStartsBoundary(e.doc);
  }

  /** An occurrence stands between boundaries of its line. */
  lemma FoundBetween(d: Bytes, query: Bytes, row: nat, p: nat)
    requires Insertable(d) && T.Valid(query) && FoundAt(d, query, row, p)
    ensures row < |Split(d)| && p + |query| <= |Split(d)[row]|
    ensures T.Boundary(Split(d)[row], p) && T.Boundary(Split(d)[row], p + |query|)
  {
    hide T.Valid, Split;
  }

  lemma MatchInDoc(e: Editor, query: Bytes, row: nat, p: nat)
    requires EditorOk(e) && T.Valid(query) && FoundAt(e.doc, query, row, p)
    ensures var at := At(e.doc, row, p); EditorOk(Editor(e.doc, at + |query|, Some(at)))
  {
    hide T.Valid, Offset, FoundAt, Split, Join;
    var ls := Split(e.doc);
    JoinOfSplit(e.doc);
    FoundBetween(e.doc, query, row, p);
    BoundaryInDoc(ls, row, p);
    BoundaryInDoc(ls, row, p + |query|);
    OffsetIsLinear(ls, row, p, |query|);
  }

  lemma EditingKeepsHonest(v: View, key: Key, io: Io, next: View)
    requires EditorOk(v.ed) && Insertable(v.clip) && KeyEvent(v, key, io, next) && Editing(v)
    requires SnapsOk(v.undo) && SnapsOk(v.redo) && Honest(v.file, v.ed.doc)
    ensures Honest(next.file, next.ed.doc) && EditorOk(next.ed) && Insertable(next.clip)
  {
    hide EditorOk, Insertable, BufferStep, MayEdit, Paste, Cut, H.Push, KeyStep;
    DropAnchor(v.ed);
    NothingToMove(v);
    var code := key.code;
    if code == 0x18 && Selection(v.ed).Some? {
      CutChanges(v);
    } else if code == 0x16 && v.clip != [] {
      PasteChanges(v);
    } else if code == 0x03 && Selection(v.ed).Some? {
      CopiedIsOk(v.ed);
    } else if code !in {0x06, 0x01, 0x03, 0x18, 0x16, 0x1A, 0x19, 0x13, 0x1102, 0x1103, 0x1B} {
      var consumed :| BufferStep(v, key, next.ed, consumed) && next == EditorKey(v, key, next.ed, consumed);
      BufferStepOk(v, key, next.ed, consumed);
    }
  }

  /** Well-formed text and cursor, bounded history and an honest dirty flag survive every event. */
  lemma EventKeepsSound(v: View, e: Event, next: View)
    requires Sound(v) && EventStep(v, e, next)
    ensures Sound(next)
  {
    hide EditorOk, Insertable, KeyEvent, SnapsOk, H.Bounded;
    HistoryStaysOk(v, e, next);
    if e.Press? {
      if Editing(v) {
        EditingKeepsHonest(v, e.key, e.io, next);
      } else {
        FieldsKeepHonest(v, e.key, e.io, next);
        FieldsShieldText(v, e.key, e.io, next);
      }
    }
  }

  // ----- Whole runs -----

  /** Consecutive views joined by events. */
  ghost predicate IsRun(vs: seq<View>, es: seq<Event>) {
    && |vs| == |es| + 1
    && forall i :: 0 <= i < |es| ==> EditorOk(vs[i].ed) && EventStep(vs[i], es[i], vs[i + 1])
  }

  lemma {:induction false} RunKeepsSound(vs: seq<View>, es: seq<Event>, n: nat)
    requires IsRun(vs, es) && Sound(vs[0]) && n <= |es|
    ensures Sound(vs[n])
  {
    hide Sound, EditorOk, EventStep;
    if n > 0 {
      RunKeepsSound(vs, es, n - 1);
      EventKeepsSound(vs[n - 1], es[n - 1], vs[n]);
    }
  }

  function StepsOf(vs: seq<View>, es: seq<Event>): seq<H.Step>
    requires |vs| == |es| + 1
  {
    seq(|es|, i requires 0 <= i < |es| => StepOf(vs[i], es[i], vs[i + 1]))
  }

  /** A run of Notepad is a run of the bounded history. */
  lemma {:induction false} RunIsHistory(vs: seq<View>, es: seq<Event>, n: nat)
    requires IsRun(vs, es) && Sound(vs[0]) && n <= |es|
    ensures HistOf(vs[n]) == H.Run(HistOf(vs[0]), StepsOf(vs, es)[..n])
  {
    hide Sound, EditorOk, EventStep, Insertable, StepOf, H.Apply;
    if n > 0 {
      RunIsHistory(vs, es, n - 1);
      RunKeepsSound(vs, es, n - 1);
      SoundText(vs[n - 1]);
      EventIsStep(vs[n - 1], es[n - 1], vs[n]);
      assert StepsOf(vs, es)[..n][..n - 1] == StepsOf(vs, es)[..n - 1];
    }
  }

  lemma SoundText(v: View)
    requires Sound(v)
    ensures EditorOk(v.ed) && Insertable(v.clip) && H.Bounded(HistOf(v))
  {
  }

  predicate Fresh(v: View) {
    Sound(v) && v.undo == [] && v.redo == []
  }

  /** A Notepad just opened on a text is fresh, whatever is on the clipboard. */
  lemma OpenedIsFresh(v: View)
    requires Insertable(v.ed.doc) && Insertable(v.clip) && v.ed == Editor(v.ed.doc, |v.ed.doc|, None)
    requires v.undo == [] && v.redo == [] && v.file.saved == v.ed.doc && !v.file.dirty
    ensures Fresh(v)
  {
    hide T.Valid;
    assert H.TotalBytes([]) == 0;
  }

  predicate IsUndo(e: Event) {
    e.Press? && e.key.code == 0x1A
  }

  /** Pressing the undo key n times undoes n times. */
  lemma {:induction false} UndoKeys(vs: seq<View>, es: seq<Event>, n: nat)
    requires IsRun(vs, es) && Editing(vs[0]) && n <= |es|
    requires forall i :: 0 <= i < |es| ==> IsUndo(es[i])
    ensures Editing(vs[n]) && HistOf(vs[n]) == H.Undos(HistOf(vs[0]), n)
  {
    hide EditorOk, H.Push;
    if n > 0 {
      UndoKeys(vs, es, n - 1);
      assert IsUndo(es[n - 1]);
    }
  }

  /**
    From a fresh document, after any run of events, pressing the undo key k times, no more than
    the undo stack holds and with a text small enough to capture, gives exactly the text and cursor
    before the k-th latest change that still stands.
   */
  lemma UndoKeysGoBack(vs: seq<View>, es: seq<Event>, us: seq<View>, presses: seq<Event>)
    requires IsRun(vs, es) && Fresh(vs[0])
    requires IsRun(us, presses) && us[0] == vs[|es|] && Editing(us[0])
    requires forall i :: 0 <= i < |presses| ==> IsUndo(presses[i])
    requires 0 < |presses| <= |us[0].undo| && Captured(us[0])
    ensures var start := SnapOf(vs[0].ed);
            var past := H.RunIdeal(H.Hist(start, [], []), H.Ideal(start, [], []), StepsOf(vs, es)).past;
            var k := |presses|;
            k <= |past| && SnapOf(us[k].ed) == past[|past| - k]
  {
    hide IsRun, Sound, H.Run, H.RunIdeal, H.Undos, Editing, IsUndo;
    RunLength(vs, es);
    RunLength(us, presses);
    RunIsHistory(vs, es, |es|);
    assert StepsOf(vs, es)[..|es|] == StepsOf(vs, es);
    UndoKeys(us, presses, |presses|);
    H.UndosGoBack(SnapOf(vs[0].ed), StepsOf(vs, es), |presses|);
  }

  lemma RunLength(vs: seq<View>, es: seq<Event>)
    requires IsRun(vs, es)
    ensures |vs| == |es| + 1
  {
  }

  // ----- Closing -----

  /** The user presses Discard in the close prompt. */
  predicate Discards(v: View, e: Event) {
    e.Press? && v.ui.prompt && e.key.code != ESC && e.key.ascii in {0x64, 0x44}
  }

  predicate Clean(v: View) {
    v.ed.doc == v.file.saved
  }

  /** The waiver comes only from Discard or from a save, and ends with the next change of the text. */
  lemma WaiverIsEarned(v: View, e: Event, next: View)
    requires EditorOk(v.ed) && Insertable(v.clip) && EventStep(v, e, next)
    requires next.file.force
    ensures next.ed.doc == v.ed.doc
    ensures Clean(next) || Discards(v, e) || (v.file.force && next.file.saved == v.file.saved)
  {
    hide EditorOk, Insertable, KeyEvent;
    if e.Press? {
      if Editing(v) {
        WaiverWhileEditing(v, e.key, e.io, next);
      } else {
        WaiverInFields(v, e.key, e.io, next);
      }
    }
  }

  lemma WaiverInFields(v: View, key: Key, io: Io, next: View)
    requires EditorOk(v.ed) && KeyEvent(v, key, io, next) && !Editing(v) && next.file.force
    ensures next.ed.doc == v.ed.doc
    ensures Clean(next) || Discards(v, Press(key, io)) || (v.file.force && next.file.saved == v.file.saved)
  {
    hide EditorOk, A.Resolved, SearchStep;
    FieldsShieldText(v, key, io, next);
    if !v.ui.prompt && !v.ui.saveAs {
      assert Insertable(v.ed.doc) by { EditorText(v.ed); }
      SearchKeepsEditor(v, key, io, next);
    }
  }

  lemma WaiverWhileEditing(v: View, key: Key, io: Io, next: View)
    requires EditorOk(v.ed) && Insertable(v.clip) && KeyEvent(v, key, io, next) && Editing(v) && next.file.force
    ensures next.ed.doc == v.ed.doc && v.file.force
    ensures Clean(next) || next.file.saved == v.file.saved
  {
    hide EditorOk, Insertable, BufferStep, MayEdit, Paste, Cut, H.Push, KeyStep;
    NothingToMove(v);
    var code := key.code;
    if code == 0x18 && Selection(v.ed).Some? {
      CutChanges(v);
    } else if code == 0x16 && v.clip != [] {
      PasteChanges(v);
    } else if code !in {0x06, 0x01, 0x03, 0x18, 0x16, 0x1A, 0x19, 0x13, 0x1102, 0x1103, 0x1B} {
      var consumed :| BufferStep(v, key, next.ed, consumed) && next == EditorKey(v, key, next.ed, consumed);
      BufferStepOk(v, key, next.ed, consumed);
    }
  }

  /** At some point of a run the user discarded the very text that is there now. */
  ghost predicate Discarded(vs: seq<View>, es: seq<Event>, n: nat)
    requires |vs| == |es| + 1 && n <= |es|
  {
    exists j :: 0 <= j < n && Discards(vs[j], es[j]) && forall k :: j <= k <= n ==> vs[k].ed.doc == vs[n].ed.doc
  }

  lemma {:induction false} WaiverInRun(vs: seq<View>, es: seq<Event>, n: nat)
    requires IsRun(vs, es) && Sound(vs[0]) && !vs[0].file.force && n <= |es|
    requires vs[n].file.force
    ensures Clean(vs[n]) || Discarded(vs, es, n)
  {
    hide EditorOk, EventStep, Sound, Discards;
    var m := n - 1;
    RunKeepsSound(vs, es, m);
    SoundText(vs[m]);
    WaiverIsEarned(vs[m], es[m], vs[n]);
    if !Clean(vs[n]) && !Discards(vs[m], es[m]) {
      WaiverInRun(vs, es, m);
      var j :| 0 <= j < m && Discards(vs[j], es[j]) && forall k :: j <= k <= m ==> vs[k].ed.doc == vs[m].ed.doc;
      assert forall k :: j <= k <= n ==> vs[k].ed.doc == vs[n].ed.doc;
    }
  }

  // ----- Exactly when a close is granted -----

  /** A key that counts as an edit of the text, even where it leaves the same text. */
  predicate Edits(v: View, key: Key)
    requires EditorOk(v.ed)
  {
    match key.code
    case 0x18 => Selection(v.ed).Some?
    case 0x16 => v.clip != []
    case 0x1A => v.undo != [] && Captured(v)
    case 0x19 => v.redo != [] && Captured(v)
    case _ =>
      && key.code !in {0x06, 0x01, 0x03, 0x13, 0x1102, 0x1103, 0x1B} && MayEdit(key)
      && (if WrappedVertical(v, key) then !Captured(v)
          else KeyStep(v.ed, key).1 && (!Captured(v) || KeyStep(v.ed, key).0.doc != v.ed.doc))
  }

  predicate IsEdit(v: View, e: Event)
    requires EditorOk(v.ed)
  {
    e.Press? && Editing(v) && Edits(v, e.key)
  }

  /** While the text is edited, the waiver stands exactly until a key that counts as an edit. */
  lemma WaiverEnds(v: View, key: Key, io: Io, next: View)
    requires EditorOk(v.ed) && Insertable(v.clip) && KeyEvent(v, key, io, next) && Editing(v)
    ensures next.file.force == (v.file.force && !Edits(v, key))
  {
    hide EditorOk, Insertable, MayEdit, Paste, Cut, H.Push, KeyStep;
    NothingToMove(v);
    var code := key.code;
    if code == 0x18 && Selection(v.ed).Some? {
      CutChanges(v);
    } else if code == 0x16 && v.clip != [] {
      PasteChanges(v);
    }
  }

  lemma WaiverStays(v: View, key: Key, io: Io, next: View)
    requires EditorOk(v.ed) && KeyEvent(v, key, io, next) && !Editing(v)
    ensures v.file.force || Discards(v, Press(key, io)) ==> next.file.force
  {
    hide EditorOk, A.Resolved, SearchStep;
    if !v.ui.prompt && !v.ui.saveAs {
      assert Insertable(v.ed.doc) by { EditorText(v.ed); }
      SearchKeepsEditor(v, key, io, next);
    }
  }

  /** Discard gives the waiver, an edit takes it back, and nothing else does. */
  lemma WaiverIff(v: View, e: Event, next: View)
    requires EditorOk(v.ed) && Insertable(v.clip) && EventStep(v, e, next)
    ensures (v.file.force && !IsEdit(v, e)) || Discards(v, e) ==> next.file.force
    ensures IsEdit(v, e) ==> !next.file.force
  {
    hide EditorOk, Insertable, KeyEvent, Edits;
    if e.Press? {
      if Editing(v) {
        WaiverEnds(v, e.key, e.io, next);
      } else {
        WaiverStays(v, e.key, e.io, next);
      }
    }
  }

  /** Same close flags, and what counts as saved is the same or the text there now. */
  predicate KeepsAnswer(v: View, next: View) {
    next.close == v.close && (next.file.saved == v.file.saved || Clean(next))
  }

  lemma ChangesKeepAnswer(v: View)
    requires EditorOk(v.ed)
    ensures KeepsAnswer(v, UndoKey(v)) && KeepsAnswer(v, RedoKey(v))
    ensures KeepsAnswer(v, Cut(v)) && KeepsAnswer(v, Paste(v))
    ensures forall key, ed, consumed :: KeepsAnswer(v, EditorKey(v, key, ed, consumed))
  {
    hide EditorOk, H.Push, DeleteSelection, InsertText, MayEdit;
  }

  lemma EditingKeepsAnswer(v: View, key: Key, io: Io, next: View)
    requires EditorOk(v.ed) && KeyEvent(v, key, io, next) && Editing(v)
    ensures KeepsAnswer(v, next)
  {
    hide EditorOk, BufferStep, EditorKey, Cut, Paste, UndoKey, RedoKey;
    ChangesKeepAnswer(v);
  }

  /** Only a save changes what counts as saved. */
  lemma SavedIsWritten(v: View, e: Event, next: View)
    requires EditorOk(v.ed) && EventStep(v, e, next)
    ensures next.file.saved == v.file.saved || Clean(next)
  {
    hide EditorOk, KeyEvent, Clean;
    if e.Press? {
      if Editing(v) {
        EditingKeepsAnswer(v, e.key, e.io, next);
      } else {
        SavedInFields(v, e.key, e.io, next);
      }
    }
  }

  lemma SavedInFields(v: View, key: Key, io: Io, next: View)
    requires EditorOk(v.ed) && KeyEvent(v, key, io, next) && !Editing(v)
    ensures next.file.saved == v.file.saved || Clean(next)
  {
    hide EditorOk, A.Resolved, FindStep;
    if !v.ui.prompt && !v.ui.saveAs {
      assert Insertable(v.ed.doc) by { EditorText(v.ed); }
      SearchKeepsEditor(v, key, io, next);
    }
  }

  /** The user pressed Discard at some point of a run, and no key since then counted as an edit. */
  ghost predicate DiscardStands(vs: seq<View>, es: seq<Event>, n: nat)
    requires IsRun(vs, es) && n <= |es|
  {
    exists j :: 0 <= j < n && Discards(vs[j], es[j]) && forall k :: j < k < n ==> !IsEdit(vs[k], es[k])
  }

  lemma {:induction false} WaiverStanding(vs: seq<View>, es: seq<Event>, n: nat)
    requires IsRun(vs, es) && Sound(vs[0]) && !vs[0].file.force && n <= |es|
    ensures vs[n].file.force ==> Clean(vs[n]) || DiscardStands(vs, es, n)
    ensures DiscardStands(vs, es, n) ==> vs[n].file.force
  {
    hide EditorOk, EventStep, Sound, Discards, IsEdit;
    if n > 0 {
      var m := n - 1;
      var v, e, next := vs[m], es[m], vs[n];
      RunKeepsSound(vs, es, m);
      SoundText(v);
      WaiverStanding(vs, es, m);
      WaiverIff(v, e, next);
      SavedIsWritten(v, e, next);
      if next.file.force {
        WaiverIsEarned(v, e, next);
        if !Clean(next) && !Discards(v, e) {
          var j :| 0 <= j < m && Discards(vs[j], es[j]) && forall k :: j < k < m ==> !IsEdit(vs[k], es[k]);
          assert forall k :: j < k < n ==> !IsEdit(vs[k], es[k]);
        }
      }
      if DiscardStands(vs, es, n) {
        var j :| 0 <= j < n && Discards(vs[j], es[j]) && forall k :: j < k < n ==> !IsEdit(vs[k], es[k]);
        assert j < m ==> DiscardStands(vs, es, m) && !IsEdit(vs[m], es[m]);
      }
    }
  }

  /**
    At every point of every run: a request to close is granted without asking if and only if the
    text is the saved one, or the user discarded it and pressed no key since that counts as an edit;
    otherwise the user is asked. Without an edit since, it is the very text that was discarded.
   */
  lemma NothingLostUnasked(vs: seq<View>, es: seq<Event>, n: nat)
    requires IsRun(vs, es) && Sound(vs[0]) && !vs[0].file.force && n <= |es|
    ensures var v, asked := vs[n], RequestClose(vs[n]);
            && asked.close == (if Clean(v) || DiscardStands(vs, es, n) then A.AUTHORISED else A.WAITING)
            && (asked.close == A.WAITING <==> v.file.dirty)
            && (asked.close == A.WAITING ==> asked.ui.prompt)
            && (DiscardStands(vs, es, n) && !Clean(v) ==> Discarded(vs, es, n))
  {
    hide EditorOk, EventStep, Discarded, DiscardStands, IsRun;
    RunLength(vs, es);
    RunKeepsSound(vs, es, n);
    WaiverStanding(vs, es, n);
    if vs[n].file.force {
      WaiverInRun(vs, es, n);
    }
  }

  /** A deferred close goes ahead on a key only by Discard or after the text was written. */
  lemma DeferredCloseIsEarned(v: View, key: Key, io: Io, next: View)
    requires EditorOk(v.ed) && KeyEvent(v, key, io, next)
    requires v.close == A.WAITING && next.close != A.WAITING
    ensures next.close == A.AUTHORISED ==> Discards(v, Press(key, io)) || (Clean(next) && io.writeOk)
    ensures next.close != A.AUTHORISED ==>
              && next.close == A.CloseState(false, false, A.Cancelled)
              && !next.ui.closeAfterSave && (v.ui.prompt ==> key.code == ESC)
  {
    hide EditorOk, BufferStep, MayEdit, KeyStep, H.Push, FoundAt, At;
  }

  /**
    Discard outlives the shutdown it answered. Unless there is another Discard or the text is the
    saved one, a later request to close, after any run of events, is granted without a prompt if and
    only if no key since the Discard counted as an edit.
   */
  lemma DiscardOutlivesCancel(vs: seq<View>, es: seq<Event>, j: nat, n: nat)
    requires IsRun(vs, es) && Sound(vs[0]) && !vs[0].file.force && j < n <= |es|
    requires Discards(vs[j], es[j]) && !Clean(vs[n])
    requires forall k :: j < k < n ==> !Discards(vs[k], es[k])
    ensures RequestClose(vs[n]).close == A.AUTHORISED <==> forall k :: j < k < n ==> !IsEdit(vs[k], es[k])
  {
    hide EditorOk, EventStep, Sound, Discards, IsEdit;
    NothingLostUnasked(vs, es, n);
  }

  // ----- Finding -----

  /** A search reports a match exactly when some occurrence of the query does not straddle the cursor. */
  lemma FindsIff(v: View, next: View)
    requires Insertable(v.ed.doc) && B.Searchable(v.ui.input) && FindStep(v, next)
    ensures next.ui.hasMatch <==>
            exists row: nat, p: nat :: FoundAt(v.ed.doc, v.ui.input, row, p)
              && !Straddles(v.ed.cursor, At(v.ed.doc, row, p), |v.ui.input|)
  {
    hide T.Valid, FoundAt, At, Insertable, MetFirst;
    if row: nat, p: nat :| Selected(v, next, row, p) {
      FoundBetween(v.ed.doc, v.ui.input, row, p);
      assert !Straddles(v.ed.cursor, At(v.ed.doc, row, p), |v.ui.input|);
    }
  }

  /** The text and query "ab", with the cursor between the letters. */
  lemma StraddlingMatchIsMissed(v: View, next: View)
    requires v.ed.doc == [97, 98] && v.ed.cursor == 1 && v.ui.input == [97, 98]
    requires Insertable(v.ed.doc) && FindStep(v, next)
    ensures B.Searchable(v.ui.input) && FoundAt(v.ed.doc, v.ui.input, 0, 0)
    ensures !next.ui.hasMatch && next.ed == v.ed
  {
    hide Occurs, T.Valid;
    var d := v.ed.doc;
    assert Split(d) == [d] by { OneLine(d); }
    WholeLineOccurs(d);
    forall row: nat, p: nat | FoundAt(d, d, row, p)
      ensures Straddles(1, At(d, row, p), 2)
    {
      FoundBetween(d, d, row, p);
      assert d[..0] == [] && Split(d)[..0] == [];
    }
    FindsIff(v, next);
  }

  lemma OneLine(d: Bytes)
    requires LF !in d
    ensures Split(d) == [d]
  {
    FirstLFUnique(d, |d|);
  }

  /** A line occurs in itself. */
  lemma WholeLineOccurs(line: Bytes)
    requires T.Valid(line)
    ensures Occurs(line, 0, line, true)
  {
    hide Decode;
    T.ValidStartsBoundary(line);
    assert line[0..|line|] == line;
  }

  // ----- Cut and paste -----

  /** Cutting the selection and pasting it back restores the text, with the cursor after what was cut. */
  lemma CutPasteRestores(v: View)
    requires Sound(v) && Selection(v.ed).Some?
    ensures EditorOk(Cut(v).ed) && Paste(Cut(v)).ed == Editor(v.ed.doc, Selection(v.ed).value.1, None)
  {
    hide T.Valid, Decode, Splice;
    CutChanges(v);
    L.CutThenInsert(v.ed);
  }
}
