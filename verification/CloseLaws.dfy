/**
  Closing one application, outside a shutdown: who loses its window and is destroyed, and who stays.
 */
module CloseLaws {
  import opened Basics
  import opened AppRuntime
  import opened Shutdown
  import opened ShutdownLaws

  /** No shutdown is pending and no application is about to go. */
  ghost predicate Idle(d: Desk) {
    Settled(d) && !d.requested && Quiet(d)
  }

  predicate Quiet(d: Desk) {
    forall i :: 0 <= i < |d.apps| ==> !d.apps[i].close.requested
  }

  lemma {:induction false} CleanupQuiet(d: Desk, i: nat)
    requires !d.requested && i <= |d.apps| && forall k :: 0 <= k < i ==> !d.apps[k].close.requested
    ensures Quiet(Cleanup(d, i)) && !Cleanup(d, i).requested
    decreases |d.apps| - i
  {
    if i < |d.apps| {
      if Goes(d, d.apps[i]) {
        CleanupQuiet(Bury(d, i), i);
      } else {
        CleanupQuiet(d, i + 1);
      }
    }
  }

  /** After every event either a shutdown is pending or no application is about to go. */
  lemma StepQuiet(d: Desk, e: Event)
    requires Settled(d)
    ensures !Step(d, e).requested ==> Idle(Step(d, e))
  {
    hide Ids, Flags, AllOpen, Taken, Step, Continue, AllAgree, Cleanup;
    var m := Taken(d, e);
    StepKeepsSettled(d, e, 0);
    StepIsSettle(d, e);
    if d.requested {
      StepWhilePending(d, e);
    } else {
      TakenWhileIdle(d, e);
      CleanupKeeps(m, 0);
      ContinueIdle(Cleanup(m, 0), e.refusing);
      if !m.requested {
        CleanupQuiet(m, 0);
      }
    }
  }

  // ----- Tidying up -----

  /** When at most the application at one place goes, tidying up takes out just that. */
  lemma {:induction false} CleanupNone(d: Desk, i: nat)
    requires i <= |d.apps| && forall k :: i <= k < |d.apps| ==> !Goes(d, d.apps[k])
    ensures Cleanup(d, i) == d
    decreases |d.apps| - i
  {
    if i < |d.apps| {
      CleanupNone(d, i + 1);
    }
  }

  lemma {:induction false} CleanupOne(d: Desk, i: nat, at: nat)
    requires i <= at < |d.apps| && Ids(d) && Goes(d, d.apps[at])
    requires forall k :: 0 <= k < |d.apps| && k != at ==> !Goes(d, d.apps[k])
    ensures Cleanup(d, i) == Bury(d, at)
    decreases at - i
  {
    if i < at {
      CleanupOne(d, i + 1, at);
    } else {
      var r := Bury(d, at);
      assert forall k :: at <= k < |r.apps| ==> r.apps[k] == d.apps[k + 1];
      CleanupNone(r, at);
    }
  }

  // ----- The command to close the active window -----

  /**
    An application that refuses stays in the table with its window open, waited for; any other is
    destroyed and its window closed. Nothing else changes, and without such an application nothing.
   */
  lemma CloseActiveOutcome(d: Desk, active: nat, acts: seq<Act>, refusing: set<nat>)
    requires Idle(d)
    ensures var r := Step(d, Dispatch(CloseActive, active, acts, refusing));
            && (active !in Wins(d.apps) ==> r == d)
            && forall i :: 0 <= i < |d.apps| && d.apps[i].win == active ==>
                 if d.apps[i].canRefuse && active in refusing then
                   r == d.(apps := d.apps[i := d.apps[i].(close := CloseState(false, true, Deferred))])
                 else
                   r == d.(apps := d.apps[..i] + d.apps[i + 1..],
                           windows := d.windows - {active}, buried := d.buried + [active])
  {
    hide Cleanup, Position, Ids, Wins;
    var e := Dispatch(CloseActive, active, acts, refusing);
    if active in Wins(d.apps) {
      var i := WinAt(d, active);
      CloseOneOutcome(d, i, acts, refusing);
      assert forall k :: 0 <= k < |d.apps| && d.apps[k].win == active ==> k == i by { OneOfWin(d, i); }
    } else {
      assert Position(d.apps, active) == |d.apps| by { NoWin(d, active); }
      CleanupNone(d, 0);
      ContinueIdle(d, refusing);
    }
  }

  lemma WinAt(d: Desk, win: nat) returns (i: nat)
    requires win in Wins(d.apps)
    ensures i < |d.apps| && d.apps[i].win == win
  {
    i :| 0 <= i < |d.apps| && Wins(d.apps)[i] == win;
  }

  lemma OneOfWin(d: Desk, i: nat)
    requires Ids(d) && i < |d.apps|
    ensures forall k :: 0 <= k < |d.apps| && d.apps[k].win == d.apps[i].win ==> k == i
    ensures Position(d.apps, d.apps[i].win) == i
  {
    PositionOf(d.apps, i);
  }

  lemma NoWin(d: Desk, win: nat)
    requires win !in Wins(d.apps)
    ensures Position(d.apps, win) == |d.apps|
  {
    assert forall i :: 0 <= i < |d.apps| ==> Wins(d.apps)[i] == d.apps[i].win;
  }

  lemma CloseOneOutcome(d: Desk, i: nat, acts: seq<Act>, refusing: set<nat>)
    requires Idle(d) && i < |d.apps|
    ensures var win := d.apps[i].win;
            var r := Step(d, Dispatch(CloseActive, win, acts, refusing));
            if d.apps[i].canRefuse && win in refusing then
              r == d.(apps := d.apps[i := d.apps[i].(close := CloseState(false, true, Deferred))])
            else
              r == d.(apps := d.apps[..i] + d.apps[i + 1..], windows := d.windows - {win}, buried := d.buried + [win])
  {
    hide Cleanup, Position, Ids;
    var win := d.apps[i].win;
    OneOfWin(d, i);
    var m := RequestAppClose(d, win, refusing);
    if d.apps[i].canRefuse && win in refusing {
      CleanupNone(m, 0);
    } else {
      assert Ids(m) by { RequestKeeps(d, win, refusing); }
      assert m.apps[i].win !in m.windows;
      CleanupOne(m, 0, i);
      assert m.apps[..i] + m.apps[i + 1..] == d.apps[..i] + d.apps[i + 1..];
      assert d.windows - {win} - {win} == d.windows - {win};
    }
    assert !m.requested;
  }

  // ----- What applications decide themselves -----

  /** The first answer among the acts that is a decision. */
  function Verdict(acts: seq<Act>): Option<CloseResult> {
    if acts == [] then None
    else if acts[0].Answer? && acts[0].result != Deferred then Some(acts[0].result)
    else Verdict(acts[1..])
  }

  /** Of several answers to the question whether it may close, an application's first decision counts. */
  function After(a: App, acts: seq<Act>): CloseState {
    if a.canRefuse then
      if a.close.pending && Verdict(acts).Some? then
        CloseState(Verdict(acts) == Some(Allowed), false, Verdict(acts).value)
      else a.close
    else if Leave in acts then CloseState(true, false, Allowed)
    else a.close
  }

  lemma {:induction false} VerdictSnoc(acts: seq<Act>, act: Act)
    ensures Verdict(acts + [act]) == if Verdict(acts).Some? then Verdict(acts) else Verdict([act])
  {
    if acts == [] {
      assert acts + [act] == [act];
    } else {
      VerdictSnoc(acts[1..], act);
      assert (acts + [act])[1..] == acts[1..] + [act];
    }
  }

  lemma VerdictOne(act: Act)
    ensures Verdict([act]) == if act.Answer? && act.result != Deferred then Some(act.result) else None
  {
    assert [act][1..] == [] && Verdict([]) == None;
  }

  lemma AfterSnoc(a: App, acts: seq<Act>, act: Act)
    requires Flag(a)
    ensures After(a, acts + [act]) == After(a.(close := After(a, acts)), [act])
  {
    VerdictSnoc(acts, act);
    VerdictOne(act);
  }

  /** The table where the application at one place has other close flags, and others may have joined. */
  predicate Reclosed(d: Desk, r: Desk, i: nat, c: CloseState)
    requires i < |d.apps|
  {
    && |d.apps| <= |r.apps| && r.apps[..|d.apps|] == d.apps[i := d.apps[i].(close := c)]
    && (forall k :: |d.apps| <= k < |r.apps| ==> !r.apps[k].close.requested)
    && r.requested == d.requested && r.waiting == d.waiting && r.index == d.index && r.buried == d.buried
  }

  lemma PerformOne(d: Desk, i: nat, act: Act)
    requires i < |d.apps| && Flag(d.apps[i])
    ensures Reclosed(d, Perform(d, i, act), i, After(d.apps[i], [act]))
  {
    VerdictOne(act);
    var r, n, c := Perform(d, i, act), |d.apps|, After(d.apps[i], [act]);
    assert d.apps[i := d.apps[i].(close := d.apps[i].close)] == d.apps;
    match act {
      case Answer(result) =>
        assert c == Resolved(d.apps[i].close, result);
        assert r.apps[..n] == r.apps;
      case Leave =>
        assert r.apps[..n] == r.apps;
      case Start(_) =>
        assert c == d.apps[i].close;
        assert r.apps[..n] == d.apps;
    }
  }

  lemma ReclosedOn(d: Desk, q: Desk, r: Desk, i: nat, c: CloseState, c': CloseState)
    requires i < |d.apps| && Reclosed(d, q, i, c) && i < |q.apps| && Reclosed(q, r, i, c')
    ensures Reclosed(d, r, i, c')
  {
    var n := |d.apps|;
    assert forall k :: 0 <= k < n ==> q.apps[k] == q.apps[..n][k];
    assert forall k :: 0 <= k < |q.apps| && k != i ==> r.apps[k] == r.apps[..|q.apps|][k] == q.apps[k];
    assert r.apps[i] == r.apps[..|q.apps|][i];
  }

  lemma {:induction false} ActsOn(d: Desk, i: nat, acts: seq<Act>)
    requires i < |d.apps| && Ids(d) && Flags(d)
    ensures Reclosed(d, PerformAll(d, i, acts), i, After(d.apps[i], acts))
    decreases |acts|
  {
    hide Ids, Flags, Perform, After, Reclosed;
    if acts == [] {
      NoActs(d, i);
    } else {
      var n := |acts| - 1;
      var q := PerformAll(d, i, acts[..n]);
      ActsOn(d, i, acts[..n]);
      ActsKeep(d, i, acts[..n]);
      assert acts == acts[..n] + [acts[n]];
      FlagAt(d, i);
      FlagAt(q, i);
      AfterSnoc(d.apps[i], acts[..n], acts[n]);
      PerformOne(q, i, acts[n]);
      ReclosedAt(d, q, i, After(d.apps[i], acts[..n]));
      ReclosedOn(d, q, PerformAll(d, i, acts), i, After(d.apps[i], acts[..n]), After(q.apps[i], [acts[n]]));
    }
  }

  lemma NoActs(d: Desk, i: nat)
    requires i < |d.apps|
    ensures Reclosed(d, d, i, After(d.apps[i], []))
  {
    assert d.apps[..|d.apps|] == d.apps;
  }

  lemma FlagAt(d: Desk, i: nat)
    requires Flags(d) && i < |d.apps|
    ensures Flag(d.apps[i])
  {
  }

  lemma ReclosedAt(d: Desk, r: Desk, i: nat, c: CloseState)
    requires i < |d.apps| && Reclosed(d, r, i, c)
    ensures i < |r.apps| && r.apps[i] == d.apps[i].(close := c)
    ensures forall k :: 0 <= k < |d.apps| && k != i ==> r.apps[k] == d.apps[k]
    ensures forall k :: |d.apps| <= k < |r.apps| ==> !r.apps[k].close.requested
  {
    assert forall k :: 0 <= k < |d.apps| ==> r.apps[k] == r.apps[..|d.apps|][k];
  }

  // ----- Who leaves the table -----

  /** The applications that do not go are just those left. */
  lemma {:induction false} CleanupLeaves(d: Desk, i: nat)
    requires Ids(d) && i <= |d.apps| && forall k :: 0 <= k < i ==> !Goes(d, d.apps[k])
    ensures forall a :: a in Cleanup(d, i).apps <==> a in d.apps && !Goes(d, a)
    decreases |d.apps| - i
  {
    hide Ids;
    if i < |d.apps| {
      if Goes(d, d.apps[i]) {
        BuryIds(d, i);
        BuryLeaves(d, i);
        CleanupLeaves(Bury(d, i), i);
      } else {
        CleanupLeaves(d, i + 1);
      }
    }
  }

  lemma BuryLeaves(d: Desk, i: nat)
    requires Ids(d) && i < |d.apps| && Goes(d, d.apps[i])
    ensures var r := Bury(d, i);
            && (forall a :: a in r.apps <==> a in d.apps && a != d.apps[i])
            && (forall a :: a in r.apps ==> (Goes(r, a) <==> Goes(d, a)))
            && (forall k :: 0 <= k < i ==> r.apps[k] == d.apps[k])
  {
    var r := Bury(d, i);
    assert forall k :: 0 <= k < |r.apps| ==> r.apps[k] == d.apps[if k < i then k else k + 1];
    forall a | a in d.apps && a != d.apps[i]
      ensures a in r.apps
    {
      var k :| 0 <= k < |d.apps| && d.apps[k] == a;
      assert r.apps[if k < i then k else k - 1] == a;
    }
  }

  /** Whether the application with a window is let go by an event: it agrees when asked, or its answer is yes. */
  predicate LetsGo(d: Desk, e: Event, i: nat)
    requires i < |d.apps|
  {
    var a := d.apps[i];
    match e
    case Dispatch(CloseActive, active, _, refusing) => active == a.win && !(a.canRefuse && a.win in refusing)
    case Dispatch(Plain, active, acts, _) => active == a.win && After(a, acts).requested
    case Dispatch(_, _, _, _) => false
    case Service(work, _) => i < |work| && After(a, work[i]).requested
  }

  /** An application that may refuse is let go by its answer only if it was asked, and said yes first. */
  lemma AnswerLetsGo(a: App, acts: seq<Act>)
    requires a.canRefuse && !a.close.requested
    ensures After(a, acts).requested <==> a.close.pending && Verdict(acts) == Some(Allowed)
  {
  }

  /** Every application in turn has acted. */
  lemma {:induction false} ServiceOn(d: Desk, i: nat, work: seq<seq<Act>>, j: nat)
    requires Ids(d) && Flags(d) && j < |d.apps|
    ensures var r := ServiceFrom(d, i, work);
            && |d.apps| <= |r.apps| && r.requested == d.requested && r.buried == d.buried
            && r.apps[j] == d.apps[j].(close := if i <= j < |work| then After(d.apps[j], work[j]) else d.apps[j].close)
    decreases |work| - i
  {
    hide Ids, Flags, PerformAll, After;
    if i < |d.apps| && i < |work| {
      var q := PerformAll(d, i, work[i]);
      ActsOn(d, i, work[i]);
      ActsKeep(d, i, work[i]);
      ReclosedAt(d, q, i, After(d.apps[i], work[i]));
      ServiceOn(q, i + 1, work, j);
    }
  }

  /** The application at a place once the event is taken: its flags say whether it goes. */
  lemma TakenAt(d: Desk, e: Event, i: nat)
    requires Idle(d) && i < |d.apps| && !(e.Dispatch? && (e.input.Quit? || e.input.CloseActive?))
    ensures var m := Taken(d, e);
            && !m.requested && |d.apps| <= |m.apps|
            && m.apps[i].win == d.apps[i].win && m.apps[i].canRefuse == d.apps[i].canRefuse
            && (Goes(m, m.apps[i]) <==> LetsGo(d, e, i))
  {
    hide Ids, After;
    var m := Taken(d, e);
    match e
    case Dispatch(input, active, acts, refusing) =>
      if input.Plain? {
        var at := Position(d.apps, active);
        if at < |d.apps| {
          OneOfWin(d, at);
          ActsOn(d, at, acts);
          ActsKeep(d, at, acts);
          ReclosedAt(d, PerformAll(d, at, acts), at, After(d.apps[at], acts));
        } else {
          assert d.apps[i].win != active by { PositionIsFirst(d.apps, i); }
        }
      }
    case Service(work, _) =>
      ServiceOn(d, 0, work, i);
      ServiceKeeps(d, 0, work);
  }

  lemma {:induction false} PositionIsFirst(apps: seq<App>, i: nat)
    requires i < |apps|
    ensures Position(apps, apps[i].win) <= i
  {
    if i > 0 && apps[0].win != apps[i].win {
      PositionIsFirst(apps[1..], i - 1);
    }
  }

  /**
    Outside a shutdown, and but for the command to quit, an application leaves the table by an event
    if and only if it is let go by it. It is then destroyed once; otherwise it stays what it is.
   */
  lemma LeavesIff(d: Desk, e: Event, i: nat)
    requires Idle(d) && i < |d.apps| && !(e.Dispatch? && e.input.Quit?)
    ensures var r, win := Step(d, e), d.apps[i].win;
            && Idle(r)
            && (LetsGo(d, e, i) ==> win in r.buried && win !in Wins(r.apps))
            && (!LetsGo(d, e, i) ==>
                  exists k :: 0 <= k < |r.apps| && r.apps[k].win == win && r.apps[k].canRefuse == d.apps[i].canRefuse)
  {
    hide Cleanup, Taken, Step, LetsGo, Wins;
    StepIdle(d, e);
    if e.Dispatch? && e.input.CloseActive? {
      CloseLeaves(d, e, i);
    } else {
      TakenAt(d, e, i);
      TakenLeaves(d, e, i);
    }
  }

  lemma StepIdle(d: Desk, e: Event)
    requires Idle(d) && !(e.Dispatch? && e.input.Quit?)
    ensures Idle(Step(d, e)) && Step(d, e) == Cleanup(Taken(d, e), 0)
    ensures Ids(Taken(d, e)) && (forall first: nat :: Accounted(d, first) ==> Accounted(Step(d, e), first))
    ensures !Taken(d, e).requested
  {
    hide Ids, Flags, AllOpen, Step, Continue, Cleanup, Accounted, PerformAll, ServiceFrom;
    var m := Taken(d, e);
    TakenWhileIdle(d, e);
    TakenNotRequested(d, e);
    StepIsSettle(d, e);
    CleanupKeeps(m, 0);
    ContinueIdle(Cleanup(m, 0), e.refusing);
    StepQuiet(d, e);
    forall first: nat | Accounted(d, first)
      ensures Accounted(Step(d, e), first)
    {
      StepKeepsSettled(d, e, first);
    }
  }

  lemma TakenNotRequested(d: Desk, e: Event)
    requires Idle(d) && !(e.Dispatch? && e.input.Quit?)
    ensures !Taken(d, e).requested
  {
    hide Ids, PerformAll, ServiceFrom;
    match e
    case Dispatch(input, active, acts, refusing) =>
      var at := Position(d.apps, active);
      if at < |d.apps| {
        ActsKeep(d, at, acts);
      }
    case Service(work, _) => ServiceKeeps(d, 0, work);
  }

  lemma CloseLeaves(d: Desk, e: Event, i: nat)
    requires Idle(d) && i < |d.apps| && e.Dispatch? && e.input.CloseActive?
    ensures var r, win := Step(d, e), d.apps[i].win;
            && (LetsGo(d, e, i) ==> win in r.buried && win !in Wins(r.apps))
            && (!LetsGo(d, e, i) ==>
                  exists k :: 0 <= k < |r.apps| && r.apps[k].win == win && r.apps[k].canRefuse == d.apps[i].canRefuse)
  {
    hide Step, Ids, Wins, Quiet, Flags, AllOpen;
    var r, win := Step(d, e), d.apps[i].win;
    CloseActiveOutcome(d, e.active, e.acts, e.refusing);
    WinOf(d, i);
    if e.active in Wins(d.apps) {
      var at := WinAt(d, e.active);
      OneOfWin(d, i);
      if r.buried == d.buried + [e.active] {
        assert r.buried[|d.buried|] == e.active;
        LeftOut(d, r, at, i);
      } else {
        assert r.apps[i].win == win && r.apps[i].canRefuse == d.apps[i].canRefuse;
      }
    }
  }

  lemma WinOf(d: Desk, i: nat)
    requires i < |d.apps|
    ensures d.apps[i].win in Wins(d.apps)
  {
    assert Wins(d.apps)[i] == d.apps[i].win;
  }

  /** With one application taken out the others are left. */
  lemma LeftOut(d: Desk, r: Desk, at: nat, i: nat)
    requires Ids(d) && i < |d.apps| && at < |d.apps| && r.apps == d.apps[..at] + d.apps[at + 1..]
    ensures i == at ==> d.apps[i].win !in Wins(r.apps)
    ensures i != at ==>
              exists k ::
                0 <= k < |r.apps| && r.apps[k].win == d.apps[i].win && r.apps[k].canRefuse == d.apps[i].canRefuse
  {
    assert forall k :: 0 <= k < |r.apps| ==> r.apps[k] == d.apps[if k < at then k else k + 1];
    if i != at {
      assert r.apps[if i < at then i else i - 1] == d.apps[i];
    }
  }

  lemma TakenLeaves(d: Desk, e: Event, i: nat)
    requires Idle(d) && i < |d.apps| && !(e.Dispatch? && e.input.Quit?)
    requires var m := Taken(d, e);
             Step(d, e) == Cleanup(m, 0) && Ids(m) && i < |m.apps| && m.apps[i].win == d.apps[i].win
             && m.apps[i].canRefuse == d.apps[i].canRefuse
    ensures var m, r, win := Taken(d, e), Step(d, e), d.apps[i].win;
            && (Goes(m, m.apps[i]) ==> win in r.buried && win !in Wins(r.apps))
            && (!Goes(m, m.apps[i]) ==>
                  exists k :: 0 <= k < |r.apps| && r.apps[k].win == win && r.apps[k].canRefuse == d.apps[i].canRefuse)
  {
    hide Cleanup, Taken, Step, Goes;
    var m, r := Taken(d, e), Step(d, e);
    CleanupLeaves(m, 0);
    CleanupBuries(m, 0, i);
    if Goes(m, m.apps[i]) {
      forall k | 0 <= k < |r.apps|
        ensures r.apps[k].win != d.apps[i].win
      {
        assert r.apps[k] in m.apps && !Goes(m, r.apps[k]);
        OneOfWin(m, i);
      }
    } else {
      assert m.apps[i] in r.apps;
    }
  }

  lemma {:induction false} CleanupBuries(d: Desk, from: nat, i: nat)
    requires Ids(d) && i < |d.apps| && from <= |d.apps| && forall k :: 0 <= k < from ==> !Goes(d, d.apps[k])
    ensures Goes(d, d.apps[i]) ==> d.apps[i].win in Cleanup(d, from).buried
    ensures forall w :: w in d.buried ==> w in Cleanup(d, from).buried
    decreases |d.apps| - from
  {
    hide Ids;
    if from < |d.apps| {
      if Goes(d, d.apps[from]) {
        var r := Bury(d, from);
        BuryIds(d, from);
        BuryLeaves(d, from);
        assert r.buried[|d.buried|] == d.apps[from].win;
        if from < i {
          assert r.apps[i - 1] == d.apps[i];
          CleanupBuries(r, from, i - 1);
        } else {
          CleanupGrows(r, from);
        }
      } else {
        CleanupBuries(d, from + 1, i);
      }
    }
  }

  lemma {:induction false} CleanupGrows(d: Desk, from: nat)
    ensures forall w :: w in d.buried ==> w in Cleanup(d, from).buried
    decreases |d.apps| - from
  {
    if from < |d.apps| {
      if Goes(d, d.apps[from]) {
        CleanupGrows(Bury(d, from), from);
      } else {
        CleanupGrows(d, from + 1);
      }
    }
  }

  // ----- Whole runs -----

  lemma BuriedStay(d: Desk, e: Event)
    requires Idle(d) && !(e.Dispatch? && e.input.Quit?)
    ensures forall w :: w in d.buried ==> w in Step(d, e).buried
  {
    hide Ids, Step, Cleanup, PerformAll, ServiceFrom;
    StepIdle(d, e);
    CleanupGrows(Taken(d, e), 0);
    match e
    case Dispatch(input, active, acts, refusing) =>
      var at := Position(d.apps, active);
      if at < |d.apps| {
        ActsKeep(d, at, acts);
      }
    case Service(work, _) => ServiceKeeps(d, 0, work);
  }

  /** Events but for the command to quit. */
  predicate NoQuit(es: seq<Event>) {
    forall e <- es :: !(e.Dispatch? && e.input.Quit?)
  }

  /** The application with the window is let go by the event. */
  predicate LetGoBy(d: Desk, e: Event, win: nat, canRefuse: bool) {
    exists j :: 0 <= j < |d.apps| && d.apps[j].win == win && d.apps[j].canRefuse == canRefuse && LetsGo(d, e, j)
  }

  /** It is at some point of the run. */
  predicate LetGoIn(d: Desk, es: seq<Event>, win: nat, canRefuse: bool) {
    exists k :: 0 <= k < |es| && LetGoBy(Run(d, es[..k]), es[k], win, canRefuse)
  }

  lemma LetGoSooner(d: Desk, es: seq<Event>, win: nat, canRefuse: bool)
    requires es != []
    ensures var n := |es| - 1;
            LetGoIn(d, es, win, canRefuse) <==>
              LetGoIn(d, es[..n], win, canRefuse) || LetGoBy(Run(d, es[..n]), es[n], win, canRefuse)
  {
    hide Run, LetGoBy;
    var n := |es| - 1;
    assert forall k :: 0 <= k < n ==> es[..n][..k] == es[..k] && es[..n][k] == es[k];
  }

  /** The application is still in the table, as it was, or it was destroyed. */
  predicate StillThere(d: Desk, win: nat, canRefuse: bool) {
    exists k :: 0 <= k < |d.apps| && d.apps[k].win == win && d.apps[k].canRefuse == canRefuse
  }

  /**
    Over every run outside a shutdown an application leaves the table, destroyed, if and only if at
    some point it was let go: it did not refuse the command to close it, or it was waited for and its
    first decision was yes, or it never refuses and asked to be closed.
   */
  lemma {:induction false} LeavesOnlyWhenLetGo(d: Desk, es: seq<Event>, i: nat)
    requires Idle(d) && NoQuit(es) && i < |d.apps|
    ensures var r, win, canRefuse := Run(d, es), d.apps[i].win, d.apps[i].canRefuse;
            && Idle(r)
            && (LetGoIn(d, es, win, canRefuse) ==> win in r.buried && win !in Wins(r.apps))
            && (!LetGoIn(d, es, win, canRefuse) ==> StillThere(r, win, canRefuse))
    decreases |es|
  {
    hide Idle, Step, LetsGo, LetGoIn, LetGoBy, Wins;
    var win, canRefuse := d.apps[i].win, d.apps[i].canRefuse;
    if es == [] {
      NotYetLetGo(d, win, canRefuse);
    } else {
      var n := |es| - 1;
      var q, e := Run(d, es[..n]), es[n];
      LeavesOnlyWhenLetGo(d, es[..n], i);
      LetGoSooner(d, es, win, canRefuse);
      assert !(e.Dispatch? && e.input.Quit?);
      StepIdle(q, e);
      if LetGoIn(d, es[..n], win, canRefuse) {
        BuriedStay(q, e);
        GoneForGood(Step(q, e), win);
      } else {
        var k :| 0 <= k < |q.apps| && q.apps[k].win == win && q.apps[k].canRefuse == canRefuse;
        LeavesIff(q, e, k);
        LetGoOnly(q, e, k);
      }
    }
  }

  lemma LetGoOnly(d: Desk, e: Event, k: nat)
    requires Idle(d) && k < |d.apps|
    ensures LetGoBy(d, e, d.apps[k].win, d.apps[k].canRefuse) <==> LetsGo(d, e, k)
  {
    hide LetsGo;
    OneOfWin(d, k);
  }

  lemma NotYetLetGo(d: Desk, win: nat, canRefuse: bool)
    ensures !LetGoIn(d, [], win, canRefuse)
  {
  }

  lemma GoneForGood(d: Desk, win: nat)
    requires Idle(d) && win in d.buried
    ensures win !in Wins(d.apps)
  {
  }

  // ----- While a shutdown is pending -----

  /** The command to quit and the taskbar are ignored. */
  lemma PendingIgnores(d: Desk, active: nat, acts: seq<Act>, refusing: set<nat>, canRefuse: bool)
    requires Settled(d) && d.requested
    ensures Step(d, Dispatch(Quit, active, acts, refusing)) == d
    ensures Step(d, Dispatch(Taskbar(canRefuse), active, acts, refusing)) == d
  {
    hide Ids, Cleanup, Continue;
    CleanupKeeps(d, 0);
    ContinueIdle(d, refusing);
  }

  /** What the application waited for does by an event that reaches it, or when it is serviced. */
  predicate WaitedActs(d: Desk, e: Event, acts: seq<Act>)
    requires Parked(d)
  {
    match e
    case Dispatch(input, active, acts', _) =>
      (input.Plain? || input.CloseActive?) && active == d.apps[d.index].win && acts' == acts
    case Service(work, _) => acts == if d.index < |work| then work[d.index] else []
  }

  lemma AfterNothing(a: App)
    ensures After(a, []) == a.close
  {
  }

  lemma WaitedClose(d: Desk, e: Event, acts: seq<Act>)
    requires Settled(d) && d.requested && WaitedActs(d, e, acts)
    ensures var m := Taken(d, e);
            && d.index < |m.apps| && m.index == d.index
            && m.apps[d.index].close == After(d.apps[d.index], acts)
  {
    hide Ids, After;
    TakenWhilePending(d, e);
    match e
    case Dispatch(_, active, _, _) =>
      OneOfWin(d, d.index);
      ActsOn(d, d.index, acts);
      ReclosedAt(d, PerformAll(d, d.index, acts), d.index, After(d.apps[d.index], acts));
    case Service(work, _) =>
      ServiceOn(d, 0, work, d.index);
      AfterNothing(d.apps[d.index]);
  }

  /**
    The first decision of the application waited for settles what becomes of the shutdown: without one
    it waits on; a no calls it off, with every application kept; a yes carries it out on all, or parks
    it at the next application that refuses.
   */
  lemma AnswerSettles(d: Desk, e: Event, acts: seq<Act>)
    requires Settled(d) && d.requested && WaitedActs(d, e, acts)
    ensures var m, r := Taken(d, e), Step(d, e);
            match Verdict(acts)
            case None => r == m && Pending(r) && r.index == d.index
            case Some(answer) =>
              if answer == Allowed then
                if forall j :: d.index < j < |m.apps| ==> !(m.apps[j].canRefuse && m.apps[j].win in e.refusing) then
                  r.apps == [] && !r.running && r.buried == d.buried + Wins(m.apps)
                else Pending(r) && Grows(d, r) && d.index < r.index && FirstRefusal(m, d.index + 1, r.index, e.refusing)
              else !r.requested && r.running == d.running && Grows(d, r) && AllIdle(r)
  {
    hide Ids, Flags, AllOpen, Step, Taken, Verdict;
    var m := Taken(d, e);
    StepWhilePending(d, e);
    WaitedClose(d, e, acts);
    assert forall j :: 0 <= j < |m.apps| ==>
             (Refuses(m.apps[j], e.refusing) <==> m.apps[j].canRefuse && m.apps[j].win in e.refusing);
  }

  /** Outside a shutdown the taskbar adds one application, with a window number never used before. */
  lemma TaskbarLaunches(d: Desk, active: nat, acts: seq<Act>, refusing: set<nat>, canRefuse: bool)
    requires Idle(d)
    ensures Step(d, Dispatch(Taskbar(canRefuse), active, acts, refusing)) ==
            d.(apps := d.apps + [App(d.next, canRefuse, CloseState(false, false, Allowed))],
               windows := d.windows + {d.next}, next := d.next + 1)
    ensures d.next !in Wins(d.apps) && d.next !in d.buried && d.next !in d.windows
  {
    hide Cleanup;
    var m := Launch(d, canRefuse);
    assert Idle(m) by { LaunchKeeps(d, canRefuse); }
    CleanupNone(m, 0);
    ContinueIdle(m, refusing);
  }
}
