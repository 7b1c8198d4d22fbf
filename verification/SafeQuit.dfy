/**
  Notepad under the quit protocol: a shutdown that is carried out takes no text that was neither
  saved nor discarded when its Notepad agreed, whatever else runs.
 */
module SafeQuit {
  import opened Basics
  import opened AppRuntime
  import opened Shutdown
  import opened ShutdownLaws
  import N = NotepadModel
  import L = NotepadLaws
  import H = History
  import F = FlatText
  import opened Utf8

  // ----- One Notepad -----

  /** The text is the saved one, or the user discarded this very text. */
  ghost predicate Spared(vs: seq<N.View>, ns: seq<N.Event>, n: nat)
    requires |vs| == |ns| + 1 && n <= |ns|
  {
    L.Clean(vs[n]) || L.Discarded(vs, ns, n)
  }

  /** A key has just answered yes to the question whether Notepad may close. */
  predicate Answers(vs: seq<N.View>, ns: seq<N.Event>, n: nat)
    requires |vs| == |ns| + 1 && n <= |ns|
  {
    n > 0 && ns[n - 1].Press? && vs[n - 1].close == WAITING && vs[n].close == AUTHORISED
  }

  /** A Notepad agrees to close: it lets go when asked, or its deferred answer is now yes. */
  predicate Agrees(vs: seq<N.View>, ns: seq<N.Event>, n: nat)
    requires |vs| == |ns| + 1 && n <= |ns|
  {
    N.RequestClose(vs[n]).close == AUTHORISED || Answers(vs, ns, n)
  }

  /** Notepad acts by itself: a key is pressed, or something happens that is not about closing. */
  predicate Minds(v: N.View, e: N.Event, next: N.View) {
    e.Press? || (e.Outside? && next.close == v.close)
  }

  lemma AgreeingSpares(vs: seq<N.View>, ns: seq<N.Event>, n: nat)
    requires L.IsRun(vs, ns) && L.Sound(vs[0]) && !vs[0].file.force && n <= |ns| && Agrees(vs, ns, n)
    ensures Spared(vs, ns, n)
  {
    hide F.EditorOk, L.Discarded, N.KeyEvent;
    L.RunKeepsSound(vs, ns, n);
    if N.RequestClose(vs[n]).close == AUTHORISED {
      if vs[n].file.force {
        L.WaiverInRun(vs, ns, n);
      }
    } else {
      var m := n - 1;
      AnswerSpares(vs[m], ns[m].key, ns[m].io, vs[n]);
      if L.Discards(vs[m], ns[m]) {
        assert L.Discarded(vs, ns, n) by { DiscardedNow(vs, ns, n); }
      }
    }
  }

  lemma AnswerSpares(v: N.View, key: F.Key, io: N.Io, next: N.View)
    requires F.EditorOk(v.ed) && N.KeyEvent(v, key, io, next)
    requires v.close == WAITING && next.close == AUTHORISED
    ensures L.Clean(next) || (L.Discards(v, N.Press(key, io)) && next.ed.doc == v.ed.doc)
  {
    hide F.EditorOk, N.KeyEvent;
    L.DeferredCloseIsEarned(v, key, io, next);
    if v.ui.prompt {
      L.FieldsShieldText(v, key, io, next);
    }
  }

  lemma DiscardedNow(vs: seq<N.View>, ns: seq<N.Event>, n: nat)
    requires |vs| == |ns| + 1 && 0 < n <= |ns|
    requires L.Discards(vs[n - 1], ns[n - 1]) && vs[n].ed.doc == vs[n - 1].ed.doc
    ensures L.Discarded(vs, ns, n)
  {
    hide L.Discards;
  }

  /** A question deferred is answered by a key, if it comes to be answered yes. */
  lemma {:induction false} AnsweredByKey(vs: seq<N.View>, ns: seq<N.Event>, from: nat, at: nat) returns (q: nat)
    requires L.IsRun(vs, ns) && from <= at <= |ns|
    requires forall j :: from <= j < at ==> Minds(vs[j], ns[j], vs[j + 1])
    requires vs[from].close == WAITING && vs[at].close == AUTHORISED
    ensures from < q <= at && Answers(vs, ns, q)
    decreases at - from
  {
    hide F.EditorOk, N.KeyEvent;
    if vs[from + 1].close == WAITING {
      q := AnsweredByKey(vs, ns, from + 1, at);
    } else if vs[from + 1].close == AUTHORISED {
      q := from + 1;
    } else {
      var v := vs[from];
      L.DeferredCloseIsEarned(v, ns[from].key, ns[from].io, vs[from + 1]);
      AnswerStands(vs, ns, from + 1, at);
      assert false;
    }
  }

  /** With no question open, keys do not touch the close flags. */
  lemma {:induction false} AnswerStands(vs: seq<N.View>, ns: seq<N.Event>, from: nat, at: nat)
    requires L.IsRun(vs, ns) && from <= at <= |ns|
    requires forall j :: from <= j < at ==> Minds(vs[j], ns[j], vs[j + 1])
    requires !vs[from].close.pending
    ensures vs[at].close == vs[from].close
    decreases at - from
  {
    hide F.EditorOk, N.KeyEvent;
    if from < at {
      if ns[from].Press? {
        KeyKeepsAnswer(vs[from], ns[from].key, ns[from].io, vs[from + 1]);
      }
      AnswerStands(vs, ns, from + 1, at);
    }
  }

  lemma KeyKeepsAnswer(v: N.View, key: F.Key, io: N.Io, next: N.View)
    requires F.EditorOk(v.ed) && N.KeyEvent(v, key, io, next) && !v.close.pending
    ensures next.close == v.close
  {
    hide F.EditorOk, N.BufferStep, N.EditorKey, N.Cut, N.Paste, N.UndoKey, N.RedoKey, N.FoundAt, N.At;
    if N.Editing(v) {
      L.EditingKeepsAnswer(v, key, io, next);
    }
  }

  // ----- Keeping what was spared -----

  /** The text does not change from one moment to another. */
  predicate Unedited(vs: seq<N.View>, from: nat, at: nat)
    requires at < |vs|
  {
    forall j :: from <= j <= at ==> vs[j].ed.doc == vs[at].ed.doc
  }

  lemma {:induction false} SparedStays(vs: seq<N.View>, ns: seq<N.Event>, from: nat, at: nat)
    requires L.IsRun(vs, ns) && from <= at <= |ns| && Spared(vs, ns, from) && Unedited(vs, from, at)
    ensures Spared(vs, ns, at)
    decreases at - from
  {
    hide F.EditorOk, N.EventStep, L.Discards;
    if from < at {
      var v, next := vs[from], vs[from + 1];
      L.SavedIsWritten(v, ns[from], next);
      assert next.ed.doc == vs[at].ed.doc && v.ed.doc == vs[at].ed.doc;
      if !L.Clean(v) {
        var j :| 0 <= j < from && L.Discards(vs[j], ns[j]) && forall k :: j <= k <= from ==> vs[k].ed.doc == v.ed.doc;
        assert forall k :: j <= k <= from + 1 ==> vs[k].ed.doc == next.ed.doc;
        assert L.Discarded(vs, ns, from + 1);
      }
      SparedStays(vs, ns, from + 1, at);
    }
  }

  // ----- One application in the protocol -----

  /** The table as it is when the desktop comes to ask: a quit asks at once, a pending shutdown after its event. */
  function Table(d: Desk, e: Event): Desk {
    if d.requested then Taken(d, e) else d
  }

  predicate IsQuit(e: Event) {
    e.Dispatch? && e.input.Quit?
  }

  /** The shutdown has got past the application: it has agreed, or all is committed. */
  predicate Past(r: Desk, i: nat) {
    if r.requested then i < r.index else !r.running
  }

  /** A pending shutdown gets past an application that may refuse: it was past, the answer is yes, or it asks. */
  lemma PastInStep(d: Desk, e: Event, i: nat)
    requires Settled(d) && d.requested && d.running
    requires i < |Taken(d, e).apps| && Taken(d, e).apps[i].canRefuse && Past(Step(d, e), i)
    ensures var m := Taken(d, e);
            || i < d.index
            || (i == d.index && i < |d.apps| && d.apps[i].close == WAITING && m.apps[i].close == AUTHORISED)
            || m.apps[i].win !in e.refusing
  {
    hide Taken, Step, Ids, Flags, AllOpen, Committed;
    StepWhilePending(d, e);
  }

  /** A quit gets past exactly those it need not wait for. */
  lemma PastInQuit(d: Desk, e: Event, i: nat)
    requires Settled(d) && !d.requested && d.running && IsQuit(e)
    requires i < |d.apps| && d.apps[i].canRefuse && Past(Step(d, e), i)
    ensures d.apps[i].win !in e.refusing
  {
    hide Ids, Flags, AllOpen, Committed, Begin, Cleanup, Continue;
    BeginOutcome(d, e.refusing);
    var m := Begin(d, e.refusing);
    TakenWhileIdle(d, e);
    CleanupKeeps(m, 0);
    ContinueIdle(Cleanup(m, 0), e.refusing);
  }

  // ----- Both together -----

  /**
    One event of the desktop beside the run of the Notepad at place i of the table. The Notepad goes
    from moment `from` to moment `at`, when the desktop comes to ask, and would then refuse exactly as
    its model says. During a shutdown its close flags at both moments are those in the table, and in
    between it acts by itself.
   */
  ghost predicate Beside(d: Desk, e: Event, i: nat, vs: seq<N.View>, ns: seq<N.Event>, from: nat, at: nat)
    requires |vs| == |ns| + 1
  {
    && from <= at <= |ns|
    && var m := Table(d, e);
       i < |m.apps| ==>
         && (m.apps[i].win in e.refusing <==> N.RequestClose(vs[at]).close == WAITING)
         && (d.requested && i < |d.apps| ==>
               && vs[from].close == d.apps[i].close && vs[at].close == m.apps[i].close
               && forall j :: from <= j < at ==> Minds(vs[j], ns[j], vs[j + 1]))
  }

  /** Where the Notepad stands when step k of the desktop starts: one event after it was last asked, or passed over. */
  function Start(asked: seq<nat>, k: nat): nat
    requires k <= |asked|
  {
    if k == 0 then 0 else asked[k - 1] + 1
  }

  ghost predicate Hosts(d: Desk, es: seq<Event>, i: nat, vs: seq<N.View>, ns: seq<N.Event>, asked: seq<nat>) {
    && L.IsRun(vs, ns) && L.Sound(vs[0]) && !vs[0].file.force
    && |asked| == |es|
    && forall k :: 0 <= k < |es| ==> Beside(Run(d, es[..k]), es[k], i, vs, ns, Start(asked, k), asked[k])
  }

  /** A quit and what happens while it is pending; the last event may end it. */
  ghost predicate Quitting(d: Desk, es: seq<Event>) {
    && Settled(d) && !d.requested && d.running
    && es != [] && IsQuit(es[0])
    && forall k :: 0 < k < |es| ==> Run(d, es[..k]).requested
  }

  lemma QuittingBefore(d: Desk, es: seq<Event>)
    requires Quitting(d, es) && |es| > 1
    ensures Quitting(d, es[..|es| - 1])
  {
    hide Settled, Run;
    var n := |es| - 1;
    forall k | 0 < k < n
      ensures Run(d, es[..n][..k]).requested
    {
      assert es[..n][..k] == es[..k];
    }
  }

  lemma HostsBefore(d: Desk, es: seq<Event>, i: nat, vs: seq<N.View>, ns: seq<N.Event>, asked: seq<nat>)
    requires Hosts(d, es, i, vs, ns, asked) && es != []
    ensures Hosts(d, es[..|es| - 1], i, vs, ns, asked[..|es| - 1])
  {
    hide Run, L.IsRun, L.Sound, Beside;
    var n := |es| - 1;
    assert L.IsRun(vs, ns) && |vs| == |ns| + 1 by { L.RunLength(vs, ns); }
    forall k | 0 <= k < n
      ensures Beside(Run(d, es[..n][..k]), es[..n][k], i, vs, ns, Start(asked[..n], k), asked[..n][k])
    {
      assert es[..n][..k] == es[..k];
      assert Beside(Run(d, es[..k]), es[k], i, vs, ns, Start(asked, k), asked[k]);
    }
  }

  /** Before the last event the desktop is settled and runs, and its table is the one asked in the event before. */
  lemma {:induction false} QuitGoesOn(d: Desk, es: seq<Event>)
    requires Quitting(d, es)
    ensures var before := Run(d, es[..|es| - 1]); Settled(before) && before.running
    ensures Run(d, es).requested ==>
              var m := Table(Run(d, es[..|es| - 1]), es[|es| - 1]);
              Run(d, es).running && Pending(Run(d, es)) && Untouched(m, Run(d, es))
    decreases |es|
  {
    hide Ids, Flags, AllOpen, Step, Taken, Begin, Cleanup, Continue, AllAgree;
    var n := |es| - 1;
    var q, e := Run(d, es[..n]), es[n];
    if n == 0 {
      QuitParksOrEnds(d, e);
    } else {
      QuittingBefore(d, es);
      QuitGoesOn(d, es[..n]);
      assert es[..n][..n - 1] == es[..n - 1] && es[..n][n - 1] == es[n - 1];
      StepKeepsSettled(Run(d, es[..n - 1]), es[n - 1], 0);
      StepWhilePending(q, e);
    }
  }

  lemma QuitParksOrEnds(d: Desk, e: Event)
    requires Settled(d) && !d.requested && d.running && IsQuit(e)
    ensures Step(d, e).requested ==> Step(d, e).running && Pending(Step(d, e)) && Untouched(d, Step(d, e))
  {
    hide Ids, Flags, AllOpen, Begin, Cleanup, Continue;
    BeginOutcome(d, e.refusing);
    var m := Begin(d, e.refusing);
    TakenWhileIdle(d, e);
    CleanupKeeps(m, 0);
    assert Cleanup(m, 0).requested ==> Cleanup(m, 0) == m;
    ContinueIdle(Cleanup(m, 0), e.refusing);
    assert Step(d, e) == Cleanup(m, 0);
  }

  /** A moment of this shutdown at which the Notepad agreed, its text saved or discarded. */
  ghost predicate AgreedSpared(vs: seq<N.View>, ns: seq<N.Event>, first: nat, q: nat, last: nat)
    requires |vs| == |ns| + 1
  {
    first <= q <= last <= |ns| && Agrees(vs, ns, q) && Spared(vs, ns, q)
  }

  lemma RunLast(d: Desk, es: seq<Event>)
    requires es != []
    ensures Run(d, es) == Step(Run(d, es[..|es| - 1]), es[|es| - 1])
    ensures es[..0] == [] && Run(d, es[..0]) == d
  {
  }

  lemma HostsNow(d: Desk, es: seq<Event>, i: nat, vs: seq<N.View>, ns: seq<N.Event>, asked: seq<nat>, k: nat)
    requires Hosts(d, es, i, vs, ns, asked) && k < |es|
    ensures |asked| == |es| && |vs| == |ns| + 1
    ensures L.IsRun(vs, ns) && L.Sound(vs[0]) && !vs[0].file.force
    ensures Beside(Run(d, es[..k]), es[k], i, vs, ns, Start(asked, k), asked[k])
    ensures asked[0] <= asked[k]
    decreases k
  {
    hide Run, L.Sound, Beside;
    L.RunLength(vs, ns);
    assert Beside(Run(d, es[..k]), es[k], i, vs, ns, Start(asked, k), asked[k]);
    if k > 0 {
      HostsNow(d, es, i, vs, ns, asked, k - 1);
      BesideOrder(Run(d, es[..k]), es[k], i, vs, ns, Start(asked, k), asked[k]);
    }
  }

  lemma BesideOrder(d: Desk, e: Event, i: nat, vs: seq<N.View>, ns: seq<N.Event>, from: nat, at: nat)
    requires |vs| == |ns| + 1 && Beside(d, e, i, vs, ns, from, at)
    ensures from <= at <= |ns|
  {
  }

  /** A place the pending shutdown has is that of the same application in the table asked before and after. */
  lemma SamePlace(d: Desk, es: seq<Event>, i: nat)
    requires Quitting(d, es) && |es| > 1
    ensures var n := |es| - 1;
            var before := Run(d, es[..n]);
            && before.requested && Settled(before) && es[..n][..n - 1] == es[..n - 1]
            && (i < before.index || i < |before.apps| ==>
                  var was, now := Table(Run(d, es[..n - 1]), es[n - 1]), Table(before, es[n]);
                  i < |was.apps| && i < |now.apps| && was.apps[i].canRefuse == now.apps[i].canRefuse)
  {
    hide Ids, Flags, AllOpen, Step, Taken, Run;
    var n := |es| - 1;
    assert es[..n][..n - 1] == es[..n - 1] && es[..n][n - 1] == es[n - 1];
    QuittingBefore(d, es);
    QuitGoesOn(d, es[..n]);
    QuitGoesOn(d, es);
    TakenWhilePending(Run(d, es[..n]), es[n]);
  }

  /** A shutdown that got past a Notepad did so at a moment when that Notepad agreed, its text saved or discarded. */
  lemma {:induction false} PastHasAgreed(
      d: Desk, es: seq<Event>, i: nat, vs: seq<N.View>, ns: seq<N.Event>, asked: seq<nat>) returns (q: nat)
    requires Quitting(d, es) && Hosts(d, es, i, vs, ns, asked)
    requires var m := Table(Run(d, es[..|es| - 1]), es[|es| - 1]);
             i < |m.apps| && m.apps[i].canRefuse && Past(Run(d, es), i)
    ensures AgreedSpared(vs, ns, asked[0], q, asked[|es| - 1])
    decreases |es|
  {
    hide Settled, Step, Taken, L.IsRun, L.Sound, Spared, Run, Grows, Untouched, Hosts;
    var n := |es| - 1;
    var before, e := Run(d, es[..n]), es[n];
    QuitGoesOn(d, es);
    RunLast(d, es);
    HostsNow(d, es, i, vs, ns, asked, n);
    q := asked[n];
    if n == 0 {
      PastInQuit(d, e, i);
    } else {
      PastInStep(before, e, i);
      SamePlace(d, es, i);
      HostsNow(d, es, i, vs, ns, asked, n - 1);
      if i < before.index {
        QuittingBefore(d, es);
        HostsBefore(d, es, i, vs, ns, asked);
        q := PastHasAgreed(d, es[..n], i, vs, ns, asked[..n]);
      } else if Table(before, e).apps[i].win in e.refusing {
        q := AnsweredByKey(vs, ns, Start(asked, n), asked[n]);
      }
    }
    AgreeingSpares(vs, ns, q);
  }

  /**
    A quit that ends in the desktop's stop, after whatever wait: every Notepad in the table agreed at
    some moment since the quit, and at that moment its text was the saved one, or the user had
    discarded this very text. If the text was not edited after that, it is so at the end too.
   */
  lemma CommitSparesText(
      d: Desk, es: seq<Event>, i: nat, vs: seq<N.View>, ns: seq<N.Event>, asked: seq<nat>)
    requires Quitting(d, es) && !Run(d, es).running && Hosts(d, es, i, vs, ns, asked)
    requires var m := Table(Run(d, es[..|es| - 1]), es[|es| - 1]); i < |m.apps| && m.apps[i].canRefuse
    ensures var last := asked[|es| - 1];
            exists q :: AgreedSpared(vs, ns, asked[0], q, last) && (Unedited(vs, q, last) ==> Spared(vs, ns, last))
  {
    assert es != [];
    hide Quitting, Hosts, Spared, Unedited, Agrees, Run, L.IsRun;
    HostsNow(d, es, i, vs, ns, asked, |es| - 1);
    assert !Run(d, es).requested by { QuitGoesOn(d, es); }
    var q := PastHasAgreed(d, es, i, vs, ns, asked);
    var last := asked[|es| - 1];
    if Unedited(vs, q, last) {
      SparedStays(vs, ns, q, last);
    }
  }

  /** A quit that ends in the desktop's stop destroys exactly the applications of the table asked last. */
  lemma StopIsCommit(d: Desk, es: seq<Event>)
    requires Quitting(d, es) && !Run(d, es).running
    ensures Run(d, es) == Committed(Table(Run(d, es[..|es| - 1]), es[|es| - 1]))
  {
    hide Ids, Flags, AllOpen, Taken, Begin, Cleanup, Continue, AllAgree, Committed;
    var n := |es| - 1;
    var before, e := Run(d, es[..n]), es[n];
    QuitGoesOn(d, es);
    if n == 0 {
      BeginOutcome(d, e.refusing);
      QuitStops(d, e);
    } else {
      StepWhilePending(before, e);
    }
  }

  lemma QuitStops(d: Desk, e: Event)
    requires Settled(d) && !d.requested && d.running && IsQuit(e) && !Step(d, e).running
    ensures Step(d, e) == Committed(d)
  {
    hide Ids, Flags, AllOpen, AllAgree, Begin, Continue;
    BeginOutcome(d, e.refusing);
    var m := Begin(d, e.refusing);
    TakenWhileIdle(d, e);
    CleanupKeeps(m, 0);
    ContinueIdle(Cleanup(m, 0), e.refusing);
    assert Step(d, e) == Cleanup(m, 0);
  }

  lemma BesideAsks(d: Desk, e: Event, i: nat, vs: seq<N.View>, ns: seq<N.Event>, from: nat, at: nat)
    requires |vs| == |ns| + 1 && Beside(d, e, i, vs, ns, from, at) && i < |Table(d, e).apps|
    ensures at <= |ns|
    ensures Table(d, e).apps[i].win in e.refusing <==> N.RequestClose(vs[at]).close == WAITING
  {
    hide Table, N.RequestClose;
  }

  lemma CommitBuries(m: Desk, i: nat)
    requires i < |m.apps|
    ensures m.apps[i].win in Committed(m).buried
  {
    assert Committed(m).buried[|m.buried| + i] == m.apps[i].win;
  }

  /** A Notepad that would refuse hands its text to recovery; any other was saved or discarded as it is. */
  lemma RecoveryMeans(vs: seq<N.View>, ns: seq<N.Event>, n: nat)
    requires L.IsRun(vs, ns) && L.Sound(vs[0]) && !vs[0].file.force && n <= |ns|
    ensures var v := vs[n];
            && (N.RequestClose(v).close == WAITING <==> !L.Clean(v) && !L.DiscardStands(vs, ns, n))
            && N.Recovery(v) == (if N.RequestClose(v).close == WAITING then Some(v.ed.doc) else None)
            && (N.Recovery(v).None? ==> Spared(vs, ns, n))
  {
    L.RunLength(vs, ns);
    hide L.IsRun, L.Sound, L.Discarded, L.DiscardStands;
    L.NothingLostUnasked(vs, ns, n);
  }

  /**
    What a quit that is carried out does to each Notepad it destroys. Its text is handed to recovery,
    having been neither saved nor asked about, if and only if the Notepad would have refused to close
    had it been asked once more: the text is not the saved one and no Discard stands. Any other text
    was saved, or discarded as it is.
   */
  lemma CommitTakesIff(
      d: Desk, es: seq<Event>, i: nat, vs: seq<N.View>, ns: seq<N.Event>, asked: seq<nat>)
    requires Quitting(d, es) && !Run(d, es).running && Hosts(d, es, i, vs, ns, asked)
    requires i < |Table(Run(d, es[..|es| - 1]), es[|es| - 1]).apps|
    ensures var last := asked[|es| - 1];
            var v, win := vs[last], Table(Run(d, es[..|es| - 1]), es[|es| - 1]).apps[i].win;
            && win in Run(d, es).buried
            && (win in es[|es| - 1].refusing <==> !L.Clean(v) && !L.DiscardStands(vs, ns, last))
            && N.Recovery(v) == (if win in es[|es| - 1].refusing then Some(v.ed.doc) else None)
            && (N.Recovery(v).None? ==> Spared(vs, ns, last))
  {
    assert es != [];
    hide Quitting, Hosts, Run, L.IsRun, Table, L.Sound, L.DiscardStands, Spared, N.Recovery, N.RequestClose,
      Beside, Committed;
    HostsNow(d, es, i, vs, ns, asked, |es| - 1);
    StopIsCommit(d, es);
    var m := Table(Run(d, es[..|es| - 1]), es[|es| - 1]);
    BesideAsks(Run(d, es[..|es| - 1]), es[|es| - 1], i, vs, ns, Start(asked, |es| - 1), asked[|es| - 1]);
    CommitBuries(m, i);
    RecoveryMeans(vs, ns, asked[|es| - 1]);
  }

  // ----- Editing after agreeing -----

  const NO_UI := N.Ui([], false, false, false, false, false, false)
  const NO_IO := N.Io(false, false, false, false, [])

  /** An empty document, saved. */
  const BLANK := N.View(F.Editor([], 0, None), [], [], N.File([], false, false, true), NO_UI, [], IDLE)

  /** It has agreed to close, and then an "a" is typed. */
  const TYPED :=
    N.View(F.Editor([97], 1, None), [H.Snap([], 0)], [], N.File([], true, false, true), NO_UI, [], AUTHORISED)

  const LATE_VIEWS := [BLANK, BLANK.(close := AUTHORISED), TYPED, TYPED, TYPED]
  const LATE_KEYS := [N.CloseRequest, N.Press(F.Key(97, true, 97, 97, 0), NO_IO), N.Outside, N.Outside]

  /** The moments at which the desktop asks. */
  const LATE_ASKED := [0, 2, 3]

  /** Quit; a key for the first application while the second is waited for; the second agrees. */
  const LATE_EVENTS :=
    [Dispatch(Quit, 1, [], {1}), Dispatch(Plain, 0, [], {0}), Dispatch(Plain, 1, [Answer(Allowed)], {0})]

  lemma TypedIsOk()
    ensures F.EditorOk(BLANK.ed) && F.EditorOk(TYPED.ed)
  {
    assert Decode([97], 0) == Scalar(97, 1);
    assert [97][1..] == [];
  }

  lemma TypingA()
    ensures F.EditorOk(BLANK.ed) && N.KeyEvent(BLANK.(close := AUTHORISED), F.Key(97, true, 97, 97, 0), NO_IO, TYPED)
  {
    TypedIsOk();
    var key := F.Key(97, true, 97, 97, 0);
    assert F.Splice([], 0, 0, [97]) == [97];
    assert F.KeyStep(BLANK.ed, key) == (TYPED.ed, true);
    assert H.Push([], H.Snap([], 0)) == [H.Snap([], 0)];
    assert N.BufferStep(BLANK.(close := AUTHORISED), key, TYPED.ed, true);
    assert TYPED == N.EditorKey(BLANK.(close := AUTHORISED), key, TYPED.ed, true);
  }

  lemma LateRun()
    ensures L.IsRun(LATE_VIEWS, LATE_KEYS)
    ensures !Spared(LATE_VIEWS, LATE_KEYS, 3)
  {
    hide F.EditorOk, N.KeyEvent;
    assert F.EditorOk(BLANK.ed) && F.EditorOk(TYPED.ed) by { TypedIsOk(); }
    TypingA();
    LateIsInsertable();
    forall i | 0 <= i < 4
      ensures F.EditorOk(LATE_VIEWS[i].ed) && N.EventStep(LATE_VIEWS[i], LATE_KEYS[i], LATE_VIEWS[i + 1])
    {
    }
  }

  lemma LateIsInsertable()
    ensures F.Insertable([])
  {
  }

  lemma BlankIsSound()
    ensures L.Sound(BLANK)
  {
    TypedIsOk();
  }

  lemma LateSteps()
    ensures Run(TWO_APPS, LATE_EVENTS[..0]) == TWO_APPS
    ensures Run(TWO_APPS, LATE_EVENTS[..1]) == TWO_PARKED == Run(TWO_APPS, LATE_EVENTS[..2])
    ensures Taken(TWO_PARKED, LATE_EVENTS[1]) == TWO_PARKED && Taken(TWO_PARKED, LATE_EVENTS[2]) == TWO_AGREED
    ensures Run(TWO_APPS, LATE_EVENTS) == Desk([], {}, 2, [0, 1], false, 0, None, false)
  {
    hide Step;
    var es := LATE_EVENTS;
    assert es[..1][..0] == [] && es[..2][..1] == es[..1] && es[..3][..2] == es[..2] && es[..3] == es;
    QuitParks();
    AnswerTaken();
    FirstIsNotAskedAgain();
    assert Taken(TWO_PARKED, es[1]) == TWO_PARKED;
    ParkedStays();
  }

  lemma ParkedStays()
    ensures Step(TWO_PARKED, Dispatch(Plain, 0, [], {0})) == TWO_PARKED
  {
    hide Cleanup, Continue;
    ParkedIsPending();
    StepIsSettle(TWO_PARKED, Dispatch(Plain, 0, [], {0}));
    CleanupKeeps(TWO_PARKED, 0);
    ContinueIdle(TWO_PARKED, {0});
  }

  /**
    Notepad agrees, is typed into while another application is waited for, and is destroyed: the text
    is not saved and the user is not asked about it. It goes to recovery.
   */
  lemma LateEditIsNotAsked()
    ensures Quitting(TWO_APPS, LATE_EVENTS) && !Run(TWO_APPS, LATE_EVENTS).running
    ensures Hosts(TWO_APPS, LATE_EVENTS, 0, LATE_VIEWS, LATE_KEYS, LATE_ASKED)
    ensures Table(Run(TWO_APPS, LATE_EVENTS[..2]), LATE_EVENTS[2]) == TWO_AGREED
    ensures LATE_VIEWS[3].ed.doc == [97] && !Spared(LATE_VIEWS, LATE_KEYS, 3)
    ensures N.Recovery(LATE_VIEWS[3]) == Some([97])
  {
    hide Run, Spared, L.IsRun, L.Sound, Step, Taken;
    LateRun();
    BlankIsSound();
    LateSteps();
    ParkedIsPending();
  }
}
