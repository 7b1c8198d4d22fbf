/**
  Bounded undo and redo: two stacks of snapshots that forget their oldest entries, against an
  unbounded history that forgets nothing.
 */
module History {
  import opened Basics

  const MAX_STATES := 100
  const MAX_BYTES := 1024 * 1024

  /** A text and the offset of the cursor in it. */
  datatype Snap = Snap(text: Bytes, cursor: nat)

  function TotalBytes(s: seq<Snap>): nat {
    if s == [] then 0 else TotalBytes(s[..|s| - 1]) + |s[|s| - 1].text|
  }

  /** There is room for an entry of `n` bytes. */
  predicate Room(s: seq<Snap>, n: nat) {
    |s| < MAX_STATES && TotalBytes(s) + n <= MAX_BYTES
  }

  /** What is left of a stack after its oldest entries made room. */
  function Evict(s: seq<Snap>, n: nat): seq<Snap>
    decreases |s|
  {
    if s == [] || Room(s, n) then s else Evict(s[1..], n)
  }

  /** Pushes an entry, forgetting the oldest as needed; an oversized entry is not kept at all. */
  function Push(s: seq<Snap>, e: Snap): seq<Snap> {
    if |e.text| > MAX_BYTES then s else Evict(s, |e.text|) + [e]
  }

  predicate IsSuffix<A(==)>(s: seq<A>, t: seq<A>) {
    |s| <= |t| && s == t[|t| - |s|..]
  }

  lemma {:induction false} TotalBytesFront(e: Snap, s: seq<Snap>)
    ensures TotalBytes([e] + s) == |e.text| + TotalBytes(s)
  {
    var t := [e] + s;
    if s == [] {
      assert t[..0] == [];
    } else {
      TotalBytesFront(e, s[..|s| - 1]);
      assert t[..|t| - 1] == [e] + s[..|s| - 1];
    }
  }

  lemma TotalBytesDrop(s: seq<Snap>)
    requires s != []
    ensures TotalBytes(s) == |s[0].text| + TotalBytes(s[1..])
  {
    assert s == [s[0]] + s[1..];
    TotalBytesFront(s[0], s[1..]);
  }

  lemma {:induction false} TotalBytesSuffix(s: seq<Snap>, k: nat)
    requires k <= |s|
    ensures TotalBytes(s[k..]) <= TotalBytes(s)
  {
    if k > 0 {
      TotalBytesSuffix(s, k - 1);
      TotalBytesDrop(s[k - 1..]);
      assert s[k - 1..][1..] == s[k..];
    } else {
      assert s[0..] == s;
    }
  }

  /** Eviction keeps exactly the longest suffix that leaves room. */
  lemma {:induction false} EvictKeepsLongest(s: seq<Snap>, n: nat, k: nat)
    requires n <= MAX_BYTES && k <= |s|
    ensures IsSuffix(Evict(s, n), s) && Room(Evict(s, n), n)
    ensures Room(s[k..], n) ==> |s| - k <= |Evict(s, n)|
    decreases |s|
  {
    if s != [] && !Room(s, n) {
      if k > 0 {
        EvictKeepsLongest(s[1..], n, k - 1);
        assert s[1..][k - 1..] == s[k..];
      } else {
        EvictKeepsLongest(s[1..], n, 0);
        assert s[0..] == s;
      }
    }
  }

  // ----- The bounded history -----

  datatype Hist = Hist(now: Snap, undo: seq<Snap>, redo: seq<Snap>)

  predicate Bounded(h: Hist) {
    && |h.undo| + |h.redo| <= MAX_STATES
    && TotalBytes(h.undo) <= MAX_BYTES && TotalBytes(h.redo) <= MAX_BYTES
  }

  predicate Captured(s: Snap) {
    |s.text| <= MAX_BYTES
  }

  function Undo(h: Hist): Hist {
    if h.undo == [] || !Captured(h.now) then h
    else Hist(h.undo[|h.undo| - 1], h.undo[..|h.undo| - 1], Push(h.redo, h.now))
  }

  function Redo(h: Hist): Hist {
    if h.redo == [] || !Captured(h.now) then h
    else Hist(h.redo[|h.redo| - 1], Push(h.undo, h.now), h.redo[..|h.redo| - 1])
  }

  /** A change of the text; one too large to capture clears both stacks. */
  function Record(h: Hist, next: Snap): Hist {
    if Captured(h.now) then Hist(next, Push(h.undo, h.now), []) else Hist(next, [], [])
  }

  /** An entry of a bounded stack is never oversized. */
  lemma EntriesCaptured(s: seq<Snap>, i: nat)
    requires i < |s| && TotalBytes(s) <= MAX_BYTES
    ensures Captured(s[i])
  {
    TotalBytesSuffix(s, i);
    TotalBytesDrop(s[i..]);
  }

  lemma PushBounded(s: seq<Snap>, e: Snap)
    requires Captured(e)
    ensures TotalBytes(Push(s, e)) <= MAX_BYTES
    ensures 0 < |Push(s, e)| <= |s| + 1 && |Push(s, e)| <= MAX_STATES
    ensures Push(s, e)[|Push(s, e)| - 1] == e && Push(s, e)[..|Push(s, e)| - 1] == Evict(s, |e.text|)
  {
    EvictKeepsLongest(s, |e.text|, |s|);
  }

  lemma UndoBounded(h: Hist)
    requires Bounded(h)
    ensures Bounded(Undo(h))
  {
    hide Push, TotalBytes;
    if Captured(h.now) {
      PushBounded(h.redo, h.now);
      PopBytes(h.undo);
    }
  }

  lemma RedoBounded(h: Hist)
    requires Bounded(h)
    ensures Bounded(Redo(h))
  {
    hide Push, TotalBytes;
    if Captured(h.now) {
      PushBounded(h.undo, h.now);
      PopBytes(h.redo);
    }
  }

  lemma RecordBounded(h: Hist, next: Snap)
    ensures Bounded(Record(h, next))
  {
    hide Push;
    if Captured(h.now) {
      PushBounded(h.undo, h.now);
    }
  }

  /** Every operation keeps both stacks within a hundred entries together and a mebibyte each. */
  lemma StaysBounded(h: Hist, s: Step)
    requires Bounded(h)
    ensures Bounded(Apply(h, s))
    ensures var r := Apply(h, s);
            |r.undo| + |r.redo| <= 100 && TotalBytes(r.undo) <= 1048576 && TotalBytes(r.redo) <= 1048576
  {
    hide Push, TotalBytes;
    match s
    case Move(_) =>
    case Change(next) => RecordBounded(h, next);
    case Forget(_) => assert TotalBytes([]) == 0 by { EmptyBytes(); }
    case UndoStep => UndoBounded(h);
    case RedoStep => RedoBounded(h);
  }

  lemma EmptyBytes()
    ensures TotalBytes([]) == 0
  {
  }

  lemma PopBytes(s: seq<Snap>)
    ensures s != [] ==> TotalBytes(s[..|s| - 1]) <= TotalBytes(s)
  {
  }

  // ----- Undo against redo -----

  lemma LastBytes(s: seq<Snap>, e: Snap)
    ensures TotalBytes(s + [e]) == TotalBytes(s) + |e.text|
  {
    assert (s + [e])[..|s|] == s;
  }

  /** With room, pushing is appending. */
  lemma PushFits(s: seq<Snap>, e: Snap)
    requires Room(s, |e.text|)
    ensures Push(s, e) == s + [e]
  {
    if s != [] {
      TotalBytesSuffix(s, |s|);
      assert s[|s|..] == [];
    }
  }

  /** Pushing back what was popped evicts nothing. */
  lemma PushBack(s: seq<Snap>)
    requires s != [] && |s| <= MAX_STATES && TotalBytes(s) <= MAX_BYTES
    ensures Push(s[..|s| - 1], s[|s| - 1]) == s
  {
    hide TotalBytes, Evict, Push;
    var front, last := s[..|s| - 1], s[|s| - 1];
    assert front + [last] == s;
    LastBytes(front, last);
    PushFits(front, last);
  }

  lemma NoBytes()
    ensures TotalBytes([]) == 0
  {
  }

  /** Eviction keeps a whole stack exactly when that leaves room. */
  lemma EvictsNothingIff(s: seq<Snap>, n: nat)
    requires n <= MAX_BYTES
    ensures Evict(s, n) == s <==> s == [] || (|s| < 100 && TotalBytes(s) + n <= 1048576)
  {
    EvictKeepsLongest(s, n, 0);
    assert s[0..] == s;
  }

  /**
    Undo and then Redo restore the text, the cursor and the undo stack; the redo stack is as
    before, short of what had to be forgotten to hold the undone text. Nothing is forgotten exactly
    when the redo stack and the undone text are within the byte limit together.
   */
  lemma UndoThenRedo(h: Hist)
    requires Bounded(h) && h.undo != [] && Captured(h.now)
    ensures Redo(Undo(h)) == h.(redo := Evict(h.redo, |h.now.text|))
    ensures Redo(Undo(h)) == h <==> TotalBytes(h.redo) + |h.now.text| <= 1048576
  {
    hide Push, TotalBytes, Evict;
    var n := |h.undo|;
    EntriesCaptured(h.undo, n - 1);
    PushBounded(h.redo, h.now);
    PushBack(h.undo);
    NoBytes();
    EvictsNothingIff(h.redo, |h.now.text|);
  }

  lemma RedoThenUndo(h: Hist)
    requires Bounded(h) && h.redo != [] && Captured(h.now)
    ensures Undo(Redo(h)) == h.(undo := Evict(h.undo, |h.now.text|))
    ensures Undo(Redo(h)) == h <==> TotalBytes(h.undo) + |h.now.text| <= 1048576
  {
    hide Push, TotalBytes, Evict;
    EntriesCaptured(h.redo, |h.redo| - 1);
    PushBounded(h.undo, h.now);
    PushBack(h.redo);
    NoBytes();
    EvictsNothingIff(h.undo, |h.now.text|);
  }

  /** Undo takes the newest entry exactly when the text at hand is small enough to be captured. */
  lemma UndoTakesIff(h: Hist)
    requires h.undo != []
    ensures Undo(h).undo == h.undo[..|h.undo| - 1] <==> Captured(h.now)
    ensures !Captured(h.now) ==> Undo(h) == h
    ensures Captured(h.now) ==> Undo(h).now == h.undo[|h.undo| - 1]
  {
  }

  lemma RedoTakesIff(h: Hist)
    requires h.redo != []
    ensures Redo(h).redo == h.redo[..|h.redo| - 1] <==> Captured(h.now)
    ensures !Captured(h.now) ==> Redo(h) == h
    ensures Captured(h.now) ==> Redo(h).now == h.redo[|h.redo| - 1]
  {
  }

  function Undos(h: Hist, k: nat): Hist {
    if k == 0 then h else Undo(Undos(h, k - 1))
  }

  /** k undos give the k-th entry from the top, text and cursor. */
  lemma {:induction false} UndosReach(h: Hist, k: nat)
    requires Bounded(h) && Captured(h.now) && k <= |h.undo|
    ensures Undos(h, k).undo == h.undo[..|h.undo| - k]
    ensures k > 0 ==> Undos(h, k).now == h.undo[|h.undo| - k]
    ensures Captured(Undos(h, k).now)
  {
    if k > 0 {
      UndosReach(h, k - 1);
      EntriesCaptured(h.undo, |h.undo| - k);
    }
  }

  // ----- Whole runs, against a history that forgets nothing -----

  /** What happens to a document: a cursor motion, a change, loss of both stacks, an undo or a redo. */
  datatype Step =
    | Move(cursor: nat)
    | Change(next: Snap)
    | Forget(cursor: nat)
    | UndoStep
    | RedoStep

  function Apply(h: Hist, s: Step): Hist {
    match s
    case Move(c) => h.(now := h.now.(cursor := c))
    case Change(next) => Record(h, next)
    case Forget(c) => Hist(h.now.(cursor := c), [], [])
    case UndoStep => Undo(h)
    case RedoStep => Redo(h)
  }

  /** The unbounded history: every state before a change that has not been undone, and every undone state. */
  datatype Ideal = Ideal(now: Snap, past: seq<Snap>, future: seq<Snap>)

  /** The unbounded history takes every change, and each undo and redo that the bounded one carries out. */
  function ApplyIdeal(i: Ideal, h: Hist, s: Step): Ideal {
    match s
    case Move(c) => i.(now := i.now.(cursor := c))
    case Change(next) => Ideal(next, i.past + [i.now], [])
    case Forget(c) => i.(now := i.now.(cursor := c))
    case UndoStep =>
      if i.past == [] || h.undo == [] || !Captured(h.now) then i
      else Ideal(i.past[|i.past| - 1], i.past[..|i.past| - 1], i.future + [i.now])
    case RedoStep =>
      if i.future == [] || h.redo == [] || !Captured(h.now) then i
      else Ideal(i.future[|i.future| - 1], i.past + [i.now], i.future[..|i.future| - 1])
  }

  /** The bounded history remembers the latest part of the unbounded one. */
  predicate Remembers(h: Hist, i: Ideal) {
    h.now == i.now && IsSuffix(h.undo, i.past) && IsSuffix(h.redo, i.future)
  }

  lemma SuffixPush(s: seq<Snap>, t: seq<Snap>, e: Snap)
    requires IsSuffix(s, t) && Captured(e)
    ensures IsSuffix(Push(s, e), t + [e])
  {
    hide Evict, Room;
    EvictKeepsLongest(s, |e.text|, 0);
    var kept := Evict(s, |e.text|);
    assert kept == t[|t| - |kept|..];
    assert (t + [e])[|t| - |kept|..] == kept + [e];
  }

  lemma SuffixPop(s: seq<Snap>, t: seq<Snap>)
    requires IsSuffix(s, t) && s != []
    ensures t != [] && s[|s| - 1] == t[|t| - 1] && IsSuffix(s[..|s| - 1], t[..|t| - 1])
  {
  }

  lemma StepRemembers(h: Hist, i: Ideal, s: Step)
    requires Remembers(h, i)
    ensures Remembers(Apply(h, s), ApplyIdeal(i, h, s))
  {
    hide Evict, Room;
    match s
    case Move(_) =>
    case Change(_) =>
      if Captured(h.now) {
        SuffixPush(h.undo, i.past, h.now);
      }
    case Forget(_) =>
    case UndoStep =>
      if h.undo != [] && Captured(h.now) {
        SuffixPop(h.undo, i.past);
        SuffixPush(h.redo, i.future, h.now);
      }
    case RedoStep =>
      if h.redo != [] && Captured(h.now) {
        SuffixPop(h.redo, i.future);
        SuffixPush(h.undo, i.past, h.now);
      }
  }

  function Run(h: Hist, steps: seq<Step>): Hist
    decreases |steps|
  {
    if steps == [] then h else Apply(Run(h, steps[..|steps| - 1]), steps[|steps| - 1])
  }

  function RunIdeal(h: Hist, i: Ideal, steps: seq<Step>): Ideal
    decreases |steps|
  {
    if steps == [] then i
    else
      var before := steps[..|steps| - 1];
      ApplyIdeal(RunIdeal(h, i, before), Run(h, before), steps[|steps| - 1])
  }

  // ----- What is lost, and what never is -----

  /** A text of n bytes, all alike. */
  function Text(b: Byte, n: nat): Snap {
    Snap(seq(n, _ => b), 0)
  }

  lemma OneEntry(e: Snap)
    ensures TotalBytes([e]) == |e.text| && TotalBytes([]) == 0
    ensures |e.text| <= MAX_BYTES ==> Push([], e) == [e]
  {
    assert [e][..0] == [];
  }

  /** The state after two changes and an undo, from an empty text. */
  lemma {:induction false} ChangeChangeUndo(start: Snap, a: Snap, b: Snap)
    requires start.text == [] && Captured(a) && Captured(b)
    ensures Run(Hist(start, [], []), [Change(a), Change(b), UndoStep]) == Hist(a, [start], [b])
  {
    hide Push, TotalBytes, Evict, Run;
    var h := Hist(start, [], []);
    RunThree(h, Change(a), Change(b), UndoStep);
    OneEntry(start);
    OneEntry(b);
    PushFits([start], a);
  }

  lemma {:induction false} RunThree(h: Hist, a: Step, b: Step, c: Step)
    ensures Run(h, [a, b, c]) == Apply(Apply(Apply(h, a), b), c)
  {
    hide Apply;
    var s := [a, b, c];
    assert s[..2] == [a, b] && [a, b][..1] == [a] && [a][..0] == [];
    assert Run(h, [a]) == Apply(h, a);
    assert Run(h, [a, b]) == Apply(Run(h, [a]), b);
  }

  /**
    The byte limit does cost redo entries: two changes, an undo, and then one more undo and a redo
    lose the second change.
   */
  lemma RedoEntryLost()
    ensures var start, a, b := Text(0, 0), Text(1, 600000), Text(2, 600000);
            var h := Run(Hist(start, [], []), [Change(a), Change(b), UndoStep]);
            h == Hist(a, [start], [b]) && Redo(Undo(h)) == h.(redo := []) != h
  {
    hide Push, TotalBytes, Evict, Run, Undo, Redo;
    var start, a, b := Text(0, 0), Text(1, 600000), Text(2, 600000);
    ChangeChangeUndo(start, a, b);
    OneEntry(start);
    OneEntry(b);
    UndoThenRedo(Hist(a, [start], [b]));
    EvictOne(b, |a.text|);
  }

  lemma EvictOne(e: Snap, n: nat)
    requires |e.text| + n > MAX_BYTES
    ensures Evict([e], n) == []
  {
    OneEntry(e);
    assert [e][1..] == [];
  }

  /** A text over the limit, once typed, cannot be undone: the change before it was recorded, but undo does nothing. */
  lemma {:induction false} OversizedBlocksUndo(start: Snap, small: Snap, n: nat)
    requires start.text == [] && Captured(small) && n > MAX_BYTES
    ensures var h := Run(Hist(start, [], []), [Change(small), Change(Text(1, n)), UndoStep]);
            h == Hist(Text(1, n), [start, small], [])
  {
    hide Push, TotalBytes, Evict, Run;
    RunThree(Hist(start, [], []), Change(small), Change(Text(1, n)), UndoStep);
    OneEntry(start);
    PushFits([start], small);
  }

  /** While something can be redone, the undo stack, the text and all but the oldest redo entry were one undo stack. */
  ghost predicate RedoFits(h: Hist) {
    h.redo != [] ==> Captured(h.now) && TotalBytes(h.undo) + |h.now.text| + TotalBytes(h.redo[1..]) <= MAX_BYTES
  }

  lemma UndoKeepsFit(h: Hist)
    requires Bounded(h) && RedoFits(h) && h.undo != [] && Captured(h.now)
    ensures RedoFits(Undo(h))
  {
    hide TotalBytes, Evict;
    var kept, n := Evict(h.redo, |h.now.text|), |h.undo| - 1;
    EvictKeepsLongest(h.redo, |h.now.text|, 0);
    EntriesCaptured(h.undo, n);
    assert h.undo[..n] + [h.undo[n]] == h.undo;
    LastBytes(h.undo[..n], h.undo[n]);
    var redo := kept + [h.now];
    if kept == [] {
      assert redo[1..] == [];
      OneEntry(h.now);
    } else {
      assert redo[1..] == kept[1..] + [h.now];
      LastBytes(kept[1..], h.now);
      var k := |h.redo| - |kept|;
      assert kept[1..] == h.redo[1..][k..];
      TotalBytesSuffix(h.redo[1..], k);
    }
  }

  lemma RedoKeepsFit(h: Hist)
    requires Bounded(h) && RedoFits(h) && h.redo != []
    ensures RedoFits(Redo(h))
  {
    hide TotalBytes, Evict, Push;
    var n := |h.redo| - 1;
    EntriesCaptured(h.redo, n);
    TotalBytesSuffix(h.redo[1..], |h.redo| - 1);
    PushFits(h.undo, h.now);
    LastBytes(h.undo, h.now);
    if n > 0 {
      assert h.redo[1..] == h.redo[..n][1..] + [h.redo[n]];
      LastBytes(h.redo[..n][1..], h.redo[n]);
    }
  }

  lemma {:induction false} RunFits(start: Snap, steps: seq<Step>)
    ensures var h := Run(Hist(start, [], []), steps); Bounded(h) && RedoFits(h)
    decreases |steps|
  {
    hide Bounded, RedoFits, Undo, Redo, Record;
    if steps == [] {
      assert Bounded(Hist(start, [], [])) && RedoFits(Hist(start, [], [])) by {
        FreshFits(start);
      }
    } else {
      var h := Run(Hist(start, [], []), steps[..|steps| - 1]);
      RunFits(start, steps[..|steps| - 1]);
      StaysBounded(h, steps[|steps| - 1]);
      StepFits(h, steps[|steps| - 1]);
    }
  }

  lemma FreshFits(start: Snap)
    ensures Bounded(Hist(start, [], [])) && RedoFits(Hist(start, [], []))
  {
  }

  lemma StepFits(h: Hist, s: Step)
    requires Bounded(h) && RedoFits(h)
    ensures RedoFits(Apply(h, s))
  {
    hide Bounded, TotalBytes, Push;
    match s
    case Move(_) =>
    case Change(_) =>
    case Forget(_) =>
    case UndoStep =>
      if h.undo != [] && Captured(h.now) {
        UndoKeepsFit(h);
      }
    case RedoStep =>
      if h.redo != [] {
        RedoKeepsFit(h);
      }
  }

  /** In no run does redo ever cost anything: what can be redone is redone, and undo then restores the whole state. */
  lemma RedoLosesNothing(start: Snap, steps: seq<Step>)
    requires Run(Hist(start, [], []), steps).redo != []
    ensures var h := Run(Hist(start, [], []), steps); Redo(h) != h && Undo(Redo(h)) == h
  {
    hide Run, TotalBytes, Push, Evict, Undo;
    var h := Run(Hist(start, [], []), steps);
    RunFits(start, steps);
    RedoThenUndo(h);
    RedoTakesIff(h);
  }

  lemma {:induction false} RunRemembers(h: Hist, i: Ideal, steps: seq<Step>)
    requires Remembers(h, i) && Bounded(h)
    ensures Remembers(Run(h, steps), RunIdeal(h, i, steps)) && Bounded(Run(h, steps))
    decreases |steps|
  {
    hide Evict, Room, Bounded, Remembers;
    if steps != [] {
      var before, last := steps[..|steps| - 1], steps[|steps| - 1];
      RunRemembers(h, i, before);
      StepRemembers(Run(h, before), RunIdeal(h, i, before), last);
      StaysBounded(Run(h, before), last);
    }
  }

  /**
    After any run of changes, motions, undos and redos on a fresh document, k undos (no more than
    the undo stack holds) give exactly the text and cursor before the k-th latest change that
    still stands.
   */
  lemma UndosGoBack(start: Snap, steps: seq<Step>, k: nat)
    requires var h := Run(Hist(start, [], []), steps); 0 < k <= |h.undo| && Captured(h.now)
    ensures var h0 := Hist(start, [], []);
            var past := RunIdeal(h0, Ideal(start, [], []), steps).past;
            k <= |past| && Undos(Run(h0, steps), k).now == past[|past| - k]
  {
    hide Run, RunIdeal, Undos, Room, Evict;
    var h0 := Hist(start, [], []);
    RunRemembers(h0, Ideal(start, [], []), steps);
    UndosReach(Run(h0, steps), k);
  }
}
