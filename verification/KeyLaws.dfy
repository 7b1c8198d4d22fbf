/**
  What each key does to the text, key code by key code, said of bytes, characters and lines of the
  document and of nothing else.
 */
module KeyLaws {
  import opened Basics
  import opened Utf8
  import opened Utf8Text
  import opened FlatText
  import opened LineEdits
  import opened EditorLaws

  // ----- Characters and lines -----

  /** The bytes from..to are one character. */
  predicate OneCharacter(d: Bytes, from: nat, to: nat) {
    from < to <= |d| && Decode(d, from).Scalar? && Decode(d, from).length == to - from
  }

  /** The bytes start..end are one line, without its LF. */
  ghost predicate OneLine(d: Bytes, start: nat, end: nat) {
    && start <= end <= |d|
    && (start == 0 || d[start - 1] == LF) && (end == |d| || d[end] == LF)
    && forall j :: start <= j < end ==> d[j] != LF
  }

  /** The cursor is in the line. */
  ghost predicate InLine(e: Editor, start: nat, end: nat) {
    OneLine(e.doc, start, end) && start <= e.cursor <= end
  }

  /** Nothing is selected. */
  predicate Unselected(e: Editor) {
    e.anchor.None? || e.anchor.value == e.cursor
  }

  lemma LineIs(e: Editor, start: nat, end: nat)
    requires InLine(e, start, end)
    ensures LineStart(e.doc, e.cursor) == start && LineEnd(e.doc, e.cursor) == end
  {
    LineStartOf(e.doc, start, e.cursor);
    LineEndOf(e.doc, e.cursor, end);
  }

  /** Every place is in exactly one line. */
  lemma LineOfPlace(d: Bytes, k: nat)
    requires k <= |d|
    ensures exists s: nat, t: nat :: OneLine(d, s, t) && s <= k <= t
    ensures forall s: nat, t: nat, s': nat, t': nat ::
              OneLine(d, s, t) && OneLine(d, s', t') && s <= k <= t && s' <= k <= t' ==> s == s' && t == t'
  {
    hide LineStart, LineEnd;
    LineStartIsStart(d, k);
    LineEndIsEnd(d, k);
    assert OneLine(d, LineStart(d, k), LineEnd(d, k));
    forall s: nat, t: nat, s': nat, t': nat |
      OneLine(d, s, t) && OneLine(d, s', t') && s <= k <= t && s' <= k <= t'
      ensures s == s' && t == t'
    {
      LineIs(Editor(d, k, None), s, t);
      LineIs(Editor(d, k, None), s', t');
    }
  }

  // ----- Keys that edit -----

  /** Backspace removes exactly the character that ends at the cursor. */
  lemma BackspaceKey(e: Editor, key: Key)
    requires EditorOk(e) && Unselected(e) && key.code in {0x08, 0x7F}
    ensures var (r, used) := KeyStep(e, key);
            if e.cursor == 0 then (r, used) == (Editor(e.doc, 0, None), false)
            else
              && used && OneCharacter(e.doc, r.cursor, e.cursor)
              && r == Editor(e.doc[..r.cursor] + e.doc[e.cursor..], r.cursor, None)
  {
    hide Decode, Valid;
    if e.cursor > 0 {
      NextPrevInverse(e.doc, e.cursor);
      DecodeAtBoundary(e.doc, Prev(e.doc, e.cursor));
      assert e.doc[..Prev(e.doc, e.cursor)] + [] == e.doc[..Prev(e.doc, e.cursor)];
    }
  }

  /** Delete removes exactly the character that starts at the cursor. */
  lemma DeleteKey(e: Editor, key: Key)
    requires EditorOk(e) && Unselected(e) && key.code in {0x04, 0x1008}
    ensures var (r, used) := KeyStep(e, key);
            if e.cursor == |e.doc| then (r, used) == (Editor(e.doc, e.cursor, None), false)
            else
              && used
              && exists n: nat ::
                   && OneCharacter(e.doc, e.cursor, n)
                   && r == Editor(e.doc[..e.cursor] + e.doc[n..], e.cursor, None)
  {
    hide Decode, Valid;
    if e.cursor < |e.doc| {
      DecodeAtBoundary(e.doc, e.cursor);
      var n := Next(e.doc, e.cursor);
      assert OneCharacter(e.doc, e.cursor, n);
      assert e.doc[..e.cursor] + [] == e.doc[..e.cursor];
    }
  }

  /** Ctrl+K removes the rest of the line, and does nothing at its end. */
  lemma KillKey(e: Editor, key: Key, start: nat, end: nat)
    requires EditorOk(e) && Unselected(e) && key.code == 0x0B && InLine(e, start, end)
    ensures KeyStep(e, key) ==
            (Editor(e.doc[..e.cursor] + e.doc[end..], e.cursor, e.anchor), e.cursor < end)
  {
    hide Valid;
    LineIs(e, start, end);
    assert e.doc[..e.cursor] + [] == e.doc[..e.cursor];
    assert e.doc[..e.cursor] + e.doc[e.cursor..] == e.doc;
  }

  /** Enter puts one LF in place of the selection, or at the cursor. */
  lemma EnterKey(e: Editor, key: Key)
    requires EditorOk(e) && key.code in {0x0A, 0x0D}
    ensures var a := if e.anchor.Some? then Min(e.anchor.value, e.cursor) else e.cursor;
            var b := if e.anchor.Some? then Max(e.anchor.value, e.cursor) else e.cursor;
            KeyStep(e, key) == (Editor(e.doc[..a] + [10] + e.doc[b..], a + 1, None), true)
  {
  }

  /** With a selection every removing key removes just that. */
  lemma RemovingKeys(e: Editor, key: Key)
    requires EditorOk(e) && !Unselected(e) && key.code in {0x08, 0x7F, 0x04, 0x1008, 0x0B}
    ensures var a, b := Min(e.anchor.value, e.cursor), Max(e.anchor.value, e.cursor);
            KeyStep(e, key) == (Editor(e.doc[..a] + e.doc[b..], a, None), true)
  {
    var a := Min(e.anchor.value, e.cursor);
    assert e.doc[..a] + [] == e.doc[..a];
  }

  const BOUND_KEYS :=
    {0x0A, 0x0D, 0x08, 0x7F, 0x01, 0x05, 0x0B, 0x04, 0x1000, 0x1001, 0x1002, 0x1003, 0x1004, 0x1005, 0x1008}

  /** Any other key types its character, from the code point it carries or else its ASCII byte, or does nothing. */
  lemma TypingKey(e: Editor, key: Key)
    requires EditorOk(e) && key.code !in BOUND_KEYS
    ensures var cp := if key.codepoint != 0 then key.codepoint else key.ascii;
            var a := if e.anchor.Some? then Min(e.anchor.value, e.cursor) else e.cursor;
            var b := if e.anchor.Some? then Max(e.anchor.value, e.cursor) else e.cursor;
            if key.printable && cp >= 0x20 && cp != 0x7F && IsScalarValue(cp) then
              && Encode(cp).Some?
              && KeyStep(e, key) ==
                 (Editor(e.doc[..a] + Encode(cp).value + e.doc[b..], a + |Encode(cp).value|, None), true)
            else KeyStep(e, key) == (e, false)
  {
    EncodeSucceeds(if key.codepoint != 0 then key.codepoint else key.ascii);
    hide Encode, IsScalarValue;
  }

  // ----- Keys that move -----

  const MOTION_KEYS := {0x01, 0x05, 0x1000, 0x1001, 0x1002, 0x1003, 0x1004, 0x1005}

  /** A motion leaves the text alone; with Shift the selection starts at the old cursor or goes on, without it ends. */
  lemma MotionKey(e: Editor, key: Key)
    requires EditorOk(e) && key.code in MOTION_KEYS
    ensures var (r, used) := KeyStep(e, key);
            && used && r.doc == e.doc && EditorOk(r)
            && r.anchor == if key.modifiers % 2 == 0 then None
                           else if e.anchor.Some? then e.anchor else Some(e.cursor)
  {
    hide EditorOk, KeyStep;
    KeyStepOk(e, key);
    MotionIs(e, key);
  }

  lemma MotionIs(e: Editor, key: Key)
    requires EditorOk(e) && key.code in MOTION_KEYS
    ensures var (r, used) := KeyStep(e, key); used && r == Prepare(e, key.Shift()).(cursor := r.cursor)
  {
    hide EditorOk, Target, Prepare;
  }

  lemma MovesTo(e: Editor, key: Key)
    requires EditorOk(e)
    ensures var k := KeyStep(e, key).0.cursor;
            && (key.code == 0x1002 ==> k == Prev(e.doc, e.cursor))
            && (key.code == 0x1003 ==> k == Next(e.doc, e.cursor))
            && (key.code in {0x01, 0x1004} ==> k == LineStart(e.doc, e.cursor))
            && (key.code in {0x05, 0x1005} ==> k == LineEnd(e.doc, e.cursor))
            && (key.code == 0x1000 ==> k == Up(e.doc, e.cursor))
            && (key.code == 0x1001 ==> k == Down(e.doc, e.cursor))
  {
    hide EditorOk, Prev, Next, LineStart, LineEnd, Up, Down;
  }

  /** Left goes to the nearest character boundary before the cursor. */
  lemma LeftKey(e: Editor, key: Key)
    requires EditorOk(e) && key.code == 0x1002
    ensures var k := KeyStep(e, key).0.cursor;
            && (e.cursor == 0 ==> k == 0)
            && (e.cursor > 0 ==>
                  k < e.cursor && Boundary(e.doc, k) && forall j :: k < j < e.cursor ==> !Boundary(e.doc, j))
  {
    hide Valid, Decode, KeyStep;
    MovesTo(e, key);
    if e.cursor > 0 {
      PrevIsBoundary(e.doc, e.cursor);
    }
  }

  /** Right goes to the nearest character boundary after the cursor. */
  lemma RightKey(e: Editor, key: Key)
    requires EditorOk(e) && key.code == 0x1003
    ensures var k := KeyStep(e, key).0.cursor;
            && (e.cursor == |e.doc| ==> k == |e.doc|)
            && (e.cursor < |e.doc| ==>
                  e.cursor < k && Boundary(e.doc, k) && forall j :: e.cursor < j < k ==> !Boundary(e.doc, j))
  {
    hide Valid, Decode, KeyStep;
    MovesTo(e, key);
    if e.cursor < |e.doc| {
      NextStep(e.doc, e.cursor);
    }
  }

  /** Home and End go to the two ends of the line. */
  lemma HomeEndKeys(e: Editor, key: Key, start: nat, end: nat)
    requires EditorOk(e) && InLine(e, start, end)
    ensures key.code in {0x01, 0x1004} ==> KeyStep(e, key).0.cursor == start
    ensures key.code in {0x05, 0x1005} ==> KeyStep(e, key).0.cursor == end
  {
    hide Valid, KeyStep;
    MovesTo(e, key);
    LineIs(e, start, end);
  }

  /**
    The place of a line at a column, or at its end if it is shorter: the last place at most so many
    columns in.
   */
  ghost predicate AtColumn(d: Bytes, start: nat, end: nat, column: nat, k: nat)
    requires end <= |d|
  {
    && start <= k <= end && Boundary(d, k) && Columns(d[start..k]) == Min(column, Columns(d[start..end]))
    && forall j :: k < j <= end && Boundary(d, j) ==> Columns(d[start..j]) > column
  }

  lemma PrefixAtColumn(d: Bytes, a: nat, b: nat, m: nat)
    requires Valid(d) && Boundary(d, a) && Boundary(d, b) && a <= b
    ensures AtColumn(d, a, b, m, a + PrefixBytes(d[a..b], m))
  {
    hide Valid, Decode, Columns, PrefixBytes;
    PrefixInDoc(d, a, b, m);
    SliceIsValid(d, a, b);
    PrefixBytesFills(d[a..b], m);
    assert d[a..b][..PrefixBytes(d[a..b], m)] == d[a..a + PrefixBytes(d[a..b], m)];
    forall k | a <= k <= b && Boundary(d, k)
      ensures Columns(d[a..k]) <= m <==> k <= a + PrefixBytes(d[a..b], m)
    {
      assert k < b ==> d[a..b][k - a] == d[k];
      assert d[a..b][..k - a] == d[a..k];
      PrefixBytesAdjoint(d[a..b], m, k - a);
    }
  }

  /** Up goes to the line above, at the column it was in or the end of a shorter line; in the first line it stays. */
  lemma UpKey(e: Editor, key: Key, start: nat, end: nat, above: nat)
    requires EditorOk(e) && key.code == 0x1000 && InLine(e, start, end)
    requires start > 0 ==> OneLine(e.doc, above, start - 1)
    ensures var k := KeyStep(e, key).0.cursor;
            if start == 0 then k == e.cursor
            else AtColumn(e.doc, above, start - 1, Columns(e.doc[start..e.cursor]), k)
  {
    hide Valid, Decode, Columns, PrefixBytes, LineStart, LineEnd, KeyStep, AtColumn;
    MovesTo(e, key);
    LineIs(e, start, end);
    if start > 0 {
      LineIs(Editor(e.doc, start - 1, None), above, start - 1);
      LineBoundsOk(e.doc, start - 1);
      AroundLF(e.doc, start - 1);
      PrefixAtColumn(e.doc, above, start - 1, Columns(e.doc[start..e.cursor]));
    }
  }

  /** Down goes to the line below in the same way; in the last line it stays. */
  lemma DownKey(e: Editor, key: Key, start: nat, end: nat, below: nat)
    requires EditorOk(e) && key.code == 0x1001 && InLine(e, start, end)
    requires end < |e.doc| ==> OneLine(e.doc, end + 1, below)
    ensures var k := KeyStep(e, key).0.cursor;
            if end == |e.doc| then k == e.cursor
            else AtColumn(e.doc, end + 1, below, Columns(e.doc[start..e.cursor]), k)
  {
    hide Valid, Decode, Columns, PrefixBytes, LineStart, LineEnd, KeyStep, AtColumn;
    MovesTo(e, key);
    LineIs(e, start, end);
    if end < |e.doc| {
      LineIs(Editor(e.doc, end + 1, None), end + 1, below);
      LineBoundsOk(e.doc, end + 1);
      AroundLF(e.doc, end);
      PrefixAtColumn(e.doc, end + 1, below, Columns(e.doc[start..e.cursor]));
    }
  }
}
