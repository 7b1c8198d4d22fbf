/**
  The quit protocol is all or nothing, over every run of events and whatever the applications do.
 */
module ShutdownLaws {
  import opened Basics
  import opened AppRuntime
  import opened Shutdown

  // ----- Invariants -----

  /** Every application has a window of its own, and none comes back after it was destroyed. */
  ghost predicate Ids(d: Desk) {
    && (forall i, j :: 0 <= i < j < |d.apps| ==> d.apps[i].win != d.apps[j].win)
    && (forall i :: 0 <= i < |d.apps| ==> d.apps[i].win < d.next && d.apps[i].win !in d.buried)
    && (forall w :: w in d.windows ==> w < d.next && w !in d.buried)
    && (forall i :: 0 <= i < |d.buried| ==> d.buried[i] < d.next)
    && (forall i, j :: 0 <= i < j < |d.buried| ==> d.buried[i] != d.buried[j])
  }

  /** Every window number given out from `first` on belongs to an application in the table or was buried. */
  ghost predicate Accounted(d: Desk, first: nat) {
    forall w: nat :: first <= w < d.next ==> w in Wins(d.apps) || w in d.buried
  }

  /** The close flags an application can have. */
  predicate Flag(a: App) {
    a.close in {IDLE, AUTHORISED, WAITING, CloseState(false, false, Cancelled)} && (a.close.pending ==> a.canRefuse)
  }

  predicate Flags(d: Desk) {
    forall i :: 0 <= i < |d.apps| ==> Flag(d.apps[i])
  }

  predicate AllOpen(d: Desk) {
    forall i :: 0 <= i < |d.apps| ==> d.apps[i].win in d.windows
  }

  /** The first n applications have agreed to close. */
  predicate Agreed(d: Desk, n: nat) {
    n <= |d.apps| && forall i :: 0 <= i < n ==> d.apps[i].close == AUTHORISED
  }

  /** The shutdown waits for the application at its index; those before it have agreed. */
  predicate Parked(d: Desk) {
    && d.requested && d.index < |d.apps| && d.waiting == Some(d.apps[d.index].win)
    && Agreed(d, d.index) && d.apps[d.index].canRefuse
  }

  predicate Pending(d: Desk) {
    Parked(d) && d.apps[d.index].close == WAITING
  }

  ghost predicate Settled(d: Desk) {
    && Ids(d) && Flags(d) && AllOpen(d)
    && (if d.requested then Pending(d) else d.waiting.None? && d.index == 0)
  }

  // ----- Destroying applications -----

  lemma BuryIds(d: Desk, i: nat)
    requires Ids(d) && i < |d.apps|
    ensures Ids(Bury(d, i))
    ensures forall first: nat :: Accounted(d, first) ==> Accounted(Bury(d, i), first)
  {
    var r := Bury(d, i);
    forall first: nat | Accounted(d, first)
      ensures Accounted(r, first)
    {
      forall w: nat | first <= w < d.next
        ensures w in Wins(r.apps) || w in r.buried
      {
        if w !in d.buried {
          BuriedOrKept(d, i, w);
        }
      }
    }
  }

  lemma BuriedOrKept(d: Desk, i: nat, w: nat)
    requires i < |d.apps| && w in Wins(d.apps)
    ensures w in Wins(Bury(d, i).apps) || w in Bury(d, i).buried
  {
    var r := Bury(d, i);
    var j :| 0 <= j < |d.apps| && d.apps[j].win == w;
    if j == i {
      assert r.buried[|d.buried|] == w;
    } else if j < i {
      assert Wins(r.apps)[j] == w;
    } else {
      assert Wins(r.apps)[j - 1] == w;
    }
  }

  /** Cleaning up leaves only applications with a window; during a shutdown it removes nothing. */
  lemma {:induction false} CleanupKeeps(d: Desk, i: nat)
    requires Ids(d) && i <= |d.apps|
    requires forall k :: 0 <= k < i ==> !Goes(d, d.apps[k])
    ensures var r := Cleanup(d, i);
            && Ids(r) && AllOpen(r) && (Flags(d) ==> Flags(r))
            && r.requested == d.requested && r.index == d.index && r.waiting == d.waiting && r.running == d.running
    ensures d.requested && AllOpen(d) ==> Cleanup(d, i) == d
    ensures forall first: nat :: Accounted(d, first) ==> Accounted(Cleanup(d, i), first)
    decreases |d.apps| - i
  {
    hide Accounted;
    if i < |d.apps| {
      if Goes(d, d.apps[i]) {
        BuryIds(d, i);
        CleanupKeeps(Bury(d, i), i);
      } else {
        CleanupKeeps(d, i + 1);
      }
    }
  }

  /** With every window gone, cleaning up destroys every application once, in order. */
  lemma {:induction false} CleanupAll(d: Desk)
    requires forall i :: 0 <= i < |d.apps| ==> d.apps[i].win !in d.windows
    ensures Cleanup(d, 0) == d.(apps := [], buried := d.buried + Wins(d.apps))
    decreases |d.apps|
  {
    hide Wins, Bury;
    if d.apps == [] {
      assert Wins(d.apps) == [];
      assert d.buried + Wins(d.apps) == d.buried;
    } else {
      BuryHead(d);
      CleanupAll(Bury(d, 0));
    }
  }

  lemma BuryHead(d: Desk)
    requires d.apps != [] && d.apps[0].win !in d.windows
    ensures Bury(d, 0) == d.(apps := d.apps[1..], buried := d.buried + [d.apps[0].win])
    ensures d.buried + [d.apps[0].win] + Wins(d.apps[1..]) == d.buried + Wins(d.apps)
  {
    WinsHead(d.apps, d.buried);
    hide Wins;
    assert d.apps[..0] + d.apps[1..] == d.apps[1..];
    assert d.windows - {d.apps[0].win} == d.windows;
  }

  lemma WinsHead(apps: seq<App>, before: seq<nat>)
    requires apps != []
    ensures before + [apps[0].win] + Wins(apps[1..]) == before + Wins(apps)
  {
    assert Wins(apps) == [apps[0].win] + Wins(apps[1..]);
  }

  /** What a commit leaves: no applications, each destroyed once and its window closed. */
  function Committed(d: Desk): Desk {
    Desk([], d.windows - (set w <- Wins(d.apps)), d.next, d.buried + Wins(d.apps), false, 0, None, false)
  }

  lemma CommitEndsAll(d: Desk)
    ensures Commit(d) == Committed(d) && Flags(Commit(d))
  {
    var c := CloseAll(d);
    forall i | 0 <= i < |c.apps|
      ensures c.apps[i].win !in c.windows
    {
      assert Wins(d.apps)[i] in (set w <- Wins(d.apps));
    }
    CleanupAll(c);
  }

  lemma CommittedSettled(d: Desk, first: nat)
    requires Ids(d)
    ensures Settled(Committed(d)) && (Accounted(d, first) ==> Accounted(Committed(d), first))
  {
  }

  // ----- Asking -----

  /** No application still to be asked refuses. */
  predicate AllAgree(d: Desk, from: nat, refusing: set<nat>) {
    forall j :: from <= j < |d.apps| ==> !Refuses(d.apps[j], refusing)
  }

  /** From some position on, the shutdown is parked at the first application that refuses. */
  predicate FirstRefusal(d: Desk, from: nat, at: nat, refusing: set<nat>) {
    && from <= at < |d.apps| && Refuses(d.apps[at], refusing)
    && forall j :: from <= j < at ==> !Refuses(d.apps[j], refusing)
  }

  /** Same applications and windows, nothing destroyed. */
  predicate Untouched(d: Desk, r: Desk) {
    && |r.apps| == |d.apps| && r.windows == d.windows && r.next == d.next
    && (forall i :: 0 <= i < |d.apps| ==> r.apps[i].win == d.apps[i].win && r.apps[i].canRefuse == d.apps[i].canRefuse)
    && r.buried == d.buried && r.running == d.running
  }

  lemma {:induction false} AskOutcome(d: Desk, refusing: set<nat>)
    requires d.requested && d.waiting.None? && Agreed(d, d.index)
    ensures AllAgree(d, d.index, refusing) ==> Ask(d, refusing) == Committed(d)
    ensures Flags(d) ==> Flags(Ask(d, refusing))
    ensures !AllAgree(d, d.index, refusing) ==>
              && Pending(Ask(d, refusing)) && Untouched(d, Ask(d, refusing))
              && FirstRefusal(d, d.index, Ask(d, refusing).index, refusing)
    decreases |d.apps| - d.index
  {
    hide Commit, Committed, Flags, AllAgree, Untouched, Agreed, Refuses, Pending, SetClose, FirstRefusal;
    if d.index >= |d.apps| {
      CommitEndsAll(d);
      NobodyLeft(d, refusing);
    } else if !Refuses(d.apps[d.index], refusing) {
      var r := SetClose(d, d.index, AUTHORISED).(index := d.index + 1);
      AgreeOnce(d, refusing);
      AskOutcome(r, refusing);
      SameCommit(d, r);
      if !AllAgree(d, d.index, refusing) {
        UntouchedOn(d, r, Ask(d, refusing));
        RefusalOn(d, Ask(d, refusing).index, refusing);
      }
    } else {
      RefuseOnce(d, refusing);
    }
  }

  lemma NobodyLeft(d: Desk, refusing: set<nat>)
    requires d.index >= |d.apps|
    ensures AllAgree(d, d.index, refusing)
  {
  }

  lemma UntouchedOn(a: Desk, b: Desk, c: Desk)
    requires Untouched(a, b) && Untouched(b, c)
    ensures Untouched(a, c)
  {
  }

  lemma RefusalOn(d: Desk, at: nat, refusing: set<nat>)
    requires d.index < |d.apps| && !Refuses(d.apps[d.index], refusing)
    requires var r := SetClose(d, d.index, AUTHORISED).(index := d.index + 1); FirstRefusal(r, r.index, at, refusing)
    ensures FirstRefusal(d, d.index, at, refusing)
  {
    var r := SetClose(d, d.index, AUTHORISED).(index := d.index + 1);
    assert forall j :: d.index < j < |d.apps| ==> r.apps[j] == d.apps[j];
  }

  /** One application agrees: the rest is to be asked as before. */
  lemma AgreeOnce(d: Desk, refusing: set<nat>)
    requires d.index < |d.apps| && Agreed(d, d.index) && !Refuses(d.apps[d.index], refusing)
    ensures var r := SetClose(d, d.index, AUTHORISED).(index := d.index + 1);
            && Agreed(r, r.index) && Untouched(d, r) && (Flags(d) ==> Flags(r))
            && (AllAgree(r, r.index, refusing) <==> AllAgree(d, d.index, refusing))
            && |r.apps| == |d.apps| && r.requested == d.requested && r.waiting == d.waiting
  {
    var r := SetClose(d, d.index, AUTHORISED).(index := d.index + 1);
    assert forall j :: d.index < j < |d.apps| ==> r.apps[j] == d.apps[j];
  }

  /** One application refuses: the shutdown is parked there. */
  lemma RefuseOnce(d: Desk, refusing: set<nat>)
    requires d.requested && d.index < |d.apps| && Agreed(d, d.index) && Refuses(d.apps[d.index], refusing)
    ensures var r := SetClose(d, d.index, WAITING).(waiting := Some(d.apps[d.index].win));
            Pending(r) && Untouched(d, r) && (Flags(d) ==> Flags(r)) && FirstRefusal(d, d.index, r.index, refusing)
    ensures !AllAgree(d, d.index, refusing)
  {
  }

  /** A commit depends on the applications, not on their flags. */
  lemma SameCommit(d: Desk, r: Desk)
    requires Untouched(d, r)
    ensures Committed(r) == Committed(d) && Wins(r.apps) == Wins(d.apps)
  {
    assert Wins(r.apps) == Wins(d.apps);
  }

  // ----- Going on with a shutdown -----

  /** The answer of the application waited for is in and is yes. */
  predicate SaidYes(d: Desk)
    requires Parked(d)
  {
    d.apps[d.index].close == AUTHORISED
  }

  /** The shutdown can be carried out now: the answer waited for is yes and nobody after it refuses. */
  predicate Unanimous(d: Desk, refusing: set<nat>)
    requires Parked(d)
  {
    SaidYes(d) && AllAgree(d, d.index + 1, refusing)
  }

  lemma {:induction false} PositionOf(apps: seq<App>, i: nat)
    requires i < |apps| && forall j, k :: 0 <= j < k < |apps| ==> apps[j].win != apps[k].win
    ensures Position(apps, apps[i].win) == i
  {
    if i > 0 {
      PositionOf(apps[1..], i - 1);
    }
  }

  lemma SameApps(d: Desk, r: Desk, refusing: set<nat>)
    requires r == d.(waiting := r.waiting, index := r.index)
    ensures Untouched(d, r) && (AllAgree(d, r.index, refusing) <==> AllAgree(r, r.index, refusing))
  {
  }

  lemma CancelFlags(d: Desk)
    ensures Flags(Cancel(d))
  {
  }

  lemma ContinueOutcome(d: Desk, refusing: set<nat>)
    requires Ids(d) && Flags(d) && Parked(d)
    ensures var r := Continue(d, refusing);
            && Flags(r)
            && (d.apps[d.index].close.pending ==> r == d)
            && (!d.apps[d.index].close.pending && !SaidYes(d) ==> r == Cancel(d))
            && (Unanimous(d, refusing) ==> r == Committed(d))
            && (SaidYes(d) && !Unanimous(d, refusing) ==>
                  Pending(r) && Untouched(d, r) && FirstRefusal(d, d.index + 1, r.index, refusing))
  {
    hide Ask, Committed, AllAgree, Untouched, Pending, Cancel, Position;
    PositionOf(d.apps, d.index);
    assert Flag(d.apps[d.index]);
    if SaidYes(d) {
      var next := d.(waiting := None, index := d.index + 1);
      SameApps(d, next, refusing);
      AskOutcome(next, refusing);
      SameCommit(d, next);
      if Untouched(next, Ask(next, refusing)) {
        UntouchedOn(d, next, Ask(next, refusing));
      }
    } else {
      CancelFlags(d);
    }
  }

  lemma BeginOutcome(d: Desk, refusing: set<nat>)
    requires Ids(d) && Flags(d) && !d.requested
    ensures var r := Begin(d, refusing);
            && Flags(r)
            && (AllAgree(d, 0, refusing) ==> r == Committed(d))
            && (!AllAgree(d, 0, refusing) ==> Pending(r) && Untouched(d, r) && FirstRefusal(d, 0, r.index, refusing))
  {
    hide Ask, Committed;
    var asked := d.(requested := true, index := 0, waiting := None);
    AskOutcome(asked, refusing);
    SameCommit(d, asked);
  }

  // ----- What applications do -----

  /** Nothing is removed: applications keep their places and windows, others may join them. */
  predicate Grows(d: Desk, r: Desk) {
    && |d.apps| <= |r.apps|
    && (forall i :: 0 <= i < |d.apps| ==> r.apps[i].win == d.apps[i].win && r.apps[i].canRefuse == d.apps[i].canRefuse)
    && d.windows <= r.windows && r.buried == d.buried && r.running == d.running && d.next <= r.next
  }

  /** Who has agreed stays agreed, and the protocol's own state is left alone. */
  predicate Loyal(d: Desk, r: Desk) {
    && |d.apps| <= |r.apps|
    && (forall i :: 0 <= i < |d.apps| && d.apps[i].close == AUTHORISED ==> r.apps[i].close == AUTHORISED)
    && r.requested == d.requested && r.index == d.index && r.waiting == d.waiting
  }

  lemma LaunchKeeps(d: Desk, canRefuse: bool)
    requires Ids(d) && Flags(d)
    ensures var r := Launch(d, canRefuse);
            Grows(d, r) && Loyal(d, r) && Ids(r) && Flags(r) && (AllOpen(d) ==> AllOpen(r))
    ensures forall first: nat :: Accounted(d, first) ==> Accounted(Launch(d, canRefuse), first)
  {
    hide Accounted;
    var r := Launch(d, canRefuse);
    forall first: nat | Accounted(d, first)
      ensures Accounted(r, first)
    {
      LaunchAccounted(d, canRefuse, first);
    }
  }

  lemma LaunchAccounted(d: Desk, canRefuse: bool, first: nat)
    requires Accounted(d, first)
    ensures Accounted(Launch(d, canRefuse), first)
  {
    var r := Launch(d, canRefuse);
    assert Wins(r.apps) == Wins(d.apps) + [d.next];
  }

  lemma SetCloseKeeps(d: Desk, i: nat, c: CloseState)
    requires i < |d.apps| && Ids(d) && Flags(d)
    requires Flag(d.apps[i].(close := c)) && (d.apps[i].close == AUTHORISED ==> c == AUTHORISED)
    ensures var r := SetClose(d, i, c);
            Grows(d, r) && Loyal(d, r) && Ids(r) && Flags(r) && (AllOpen(d) ==> AllOpen(r))
    ensures Wins(SetClose(d, i, c).apps) == Wins(d.apps)
    ensures forall first: nat :: Accounted(d, first) ==> Accounted(SetClose(d, i, c), first)
  {
    var r := SetClose(d, i, c);
    assert Wins(r.apps) == Wins(d.apps);
  }

  lemma GrowsSelf(d: Desk)
    ensures Grows(d, d) && Loyal(d, d)
  {
  }

  lemma ActKeeps(d: Desk, i: nat, act: Act)
    requires i < |d.apps| && Ids(d) && Flags(d)
    ensures var r := Perform(d, i, act);
            Grows(d, r) && Loyal(d, r) && Ids(r) && Flags(r) && (AllOpen(d) ==> AllOpen(r))
    ensures forall first: nat :: Accounted(d, first) ==> Accounted(Perform(d, i, act), first)
  {
    assert Flag(d.apps[i]);
    hide Ids, Flags, AllOpen, Accounted, Grows, Loyal, SetClose, Launch;
    match act
    case Answer(result) => SetCloseKeeps(d, i, Resolved(d.apps[i].close, result));
    case Leave =>
      GrowsSelf(d);
      if !d.apps[i].canRefuse {
        SetCloseKeeps(d, i, AUTHORISED);
      }
    case Start(canRefuse) => LaunchKeeps(d, canRefuse);
  }

  lemma {:induction false} ActsKeep(d: Desk, i: nat, acts: seq<Act>)
    requires i < |d.apps| && Ids(d) && Flags(d)
    ensures var r := PerformAll(d, i, acts);
            Grows(d, r) && Loyal(d, r) && Ids(r) && Flags(r) && (AllOpen(d) ==> AllOpen(r))
    ensures forall first: nat :: Accounted(d, first) ==> Accounted(PerformAll(d, i, acts), first)
    decreases |acts|
  {
    hide Ids, Flags, AllOpen, Accounted, Perform;
    if acts != [] {
      ActsKeep(d, i, acts[..|acts| - 1]);
      ActKeeps(PerformAll(d, i, acts[..|acts| - 1]), i, acts[|acts| - 1]);
    }
  }

  lemma {:induction false} ServiceKeeps(d: Desk, i: nat, work: seq<seq<Act>>)
    requires Ids(d) && Flags(d)
    ensures var r := ServiceFrom(d, i, work);
            Grows(d, r) && Loyal(d, r) && Ids(r) && Flags(r) && (AllOpen(d) ==> AllOpen(r))
    ensures forall first: nat :: Accounted(d, first) ==> Accounted(ServiceFrom(d, i, work), first)
    decreases |work| - i
  {
    hide Ids, Flags, AllOpen, Accounted, PerformAll;
    if i < |d.apps| && i < |work| {
      ActsKeep(d, i, work[i]);
      ServiceKeeps(PerformAll(d, i, work[i]), i + 1, work);
    }
  }

  // ----- One event -----

  /** The state once the desktop and the applications have taken the event, before the protocol goes on. */
  function Taken(d: Desk, e: Event): Desk {
    match e
    case Dispatch(input, active, acts, refusing) => Handle(d, input, active, acts, refusing)
    case Service(work, _) => ServiceFrom(d, 0, work)
  }

  lemma StepIsSettle(d: Desk, e: Event)
    ensures Step(d, e) == Settle(Taken(d, e), e.refusing)
  {
    hide Settle, Handle, ServiceFrom;
  }

  /** During a shutdown an event removes nothing and moves no one who agreed. */
  lemma TakenWhilePending(d: Desk, e: Event)
    requires Settled(d) && d.requested
    ensures var m := Taken(d, e);
            Grows(d, m) && Loyal(d, m) && Ids(m) && Flags(m) && AllOpen(m) && Parked(m)
    ensures forall first: nat :: Accounted(d, first) ==> Accounted(Taken(d, e), first)
  {
    hide Ids, Flags, AllOpen, Accounted, PerformAll, ServiceFrom;
    GrowsSelf(d);
    match e
    case Dispatch(input, active, acts, refusing) =>
      var i := Position(d.apps, active);
      if i < |d.apps| {
        ActsKeep(d, i, acts);
      }
    case Service(work, _) => ServiceKeeps(d, 0, work);
  }

  /**
    What one event makes of a pending shutdown: it waits on, with nothing removed; or the answer
    was no, and it is called off with every application kept; or the answer was yes and nobody
    left refuses, and exactly then every application, with those launched meanwhile, is destroyed.
   */
  lemma StepWhilePending(d: Desk, e: Event)
    requires Settled(d) && d.requested
    ensures var m, r := Taken(d, e), Step(d, e);
            && Grows(d, m) && Loyal(d, m) && Parked(m) && AllOpen(m)
            && (Unanimous(m, e.refusing) ==> r == Committed(m))
            && (!SaidYes(m) && !m.apps[m.index].close.pending ==> r == Cancel(m))
            && (m.apps[m.index].close.pending ==> r == m && Pending(r))
            && (SaidYes(m) && !Unanimous(m, e.refusing) ==>
                  Pending(r) && Untouched(m, r) && Flags(r) && FirstRefusal(m, m.index + 1, r.index, e.refusing))
  {
    hide Ids, AllOpen, Grows, Continue, Committed, Cancel, AllAgree, Taken, Step;
    TakenWhilePending(d, e);
    StepIsSettle(d, e);
    var m := Taken(d, e);
    CleanupKeeps(m, 0);
    ContinueOutcome(m, e.refusing);
    assert Flag(m.apps[m.index]);
  }

  lemma UntouchedSettled(d: Desk, r: Desk)
    requires Ids(d) && AllOpen(d) && Untouched(d, r)
    ensures Ids(r) && AllOpen(r) && Grows(d, r)
    ensures forall first: nat :: Accounted(d, first) ==> Accounted(r, first)
  {
    SameCommit(d, r);
  }

  lemma CancelSettled(d: Desk)
    requires Ids(d) && AllOpen(d)
    ensures Settled(Cancel(d)) && Grows(d, Cancel(d)) && Untouched(d, Cancel(d))
  {
  }

  // ----- Every event keeps the invariant -----

  /** Taking windows away leaves all else in order. */
  lemma CloseWindowIds(d: Desk, win: nat)
    requires Ids(d) && Flags(d)
    ensures var r := d.(windows := d.windows - {win});
            Ids(r) && Flags(r) && forall first: nat :: Accounted(d, first) ==> Accounted(r, first)
  {
  }

  lemma TakenWhileIdle(d: Desk, e: Event)
    requires Settled(d) && !d.requested
    ensures var m := Taken(d, e);
            && Ids(m) && Flags(m)
            && (if m.requested then Pending(m) && AllOpen(m) else m.waiting.None? && m.index == 0)
    ensures forall first: nat :: Accounted(d, first) ==> Accounted(Taken(d, e), first)
  {
    hide Ids, Flags, AllOpen, Accounted, PerformAll, ServiceFrom, Begin, Grows, Committed, AllAgree, Refuses;
    match e
    case Dispatch(input, active, acts, refusing) => {
      match input {
        case Quit =>
          BeginOutcome(d, refusing);
          CommittedKeeps(d);
          if !AllAgree(d, 0, refusing) {
            UntouchedSettled(d, Begin(d, refusing));
          }
        case CloseActive => RequestKeeps(d, active, refusing);
        case Taskbar(canRefuse) => LaunchKeeps(d, canRefuse);
        case Plain =>
          var i := Position(d.apps, active);
          if i < |d.apps| {
            ActsKeep(d, i, acts);
            var r := PerformAll(d, i, acts);
            CloseWindowIds(r, r.apps[i].win);
          }
      }
    }
    case Service(work, _) => ServiceKeeps(d, 0, work);
  }

  lemma CommittedKeeps(d: Desk)
    requires Ids(d)
    ensures Settled(Committed(d)) && !Committed(d).requested
    ensures forall first: nat :: Accounted(d, first) ==> Accounted(Committed(d), first)
  {
    hide Accounted;
    forall first: nat | Accounted(d, first)
      ensures Accounted(Committed(d), first)
    {
      CommittedSettled(d, first);
    }
    CommittedSettled(d, 0);
  }

  lemma RequestKeeps(d: Desk, win: nat, refusing: set<nat>)
    requires Ids(d) && Flags(d) && !d.requested
    ensures var r := RequestAppClose(d, win, refusing);
            Ids(r) && Flags(r) && !r.requested && r.waiting == d.waiting && r.index == d.index
    ensures forall first: nat :: Accounted(d, first) ==> Accounted(RequestAppClose(d, win, refusing), first)
  {
    hide Accounted;
    var i := Position(d.apps, win);
    if i < |d.apps| {
      var c := if Refuses(d.apps[i], refusing) then WAITING else AUTHORISED;
      SetCloseIds(d, i, c);
      CloseWindowIds(SetClose(d, i, c), d.apps[i].win);
    }
  }

  lemma SetCloseIds(d: Desk, i: nat, c: CloseState)
    requires i < |d.apps| && Ids(d) && Flags(d) && Flag(d.apps[i].(close := c))
    ensures var r := SetClose(d, i, c);
            Ids(r) && Flags(r) && forall first: nat :: Accounted(d, first) ==> Accounted(r, first)
  {
    assert Wins(SetClose(d, i, c).apps) == Wins(d.apps);
  }

  /** Distinct windows, open windows, a consistent protocol state and a complete account survive every event. */
  lemma StepKeepsSettled(d: Desk, e: Event, first: nat)
    requires Settled(d)
    ensures Settled(Step(d, e)) && (Accounted(d, first) ==> Accounted(Step(d, e), first))
  {
    hide Ids, Flags, AllOpen, Accounted, Taken, Step, Continue, Committed, AllAgree, Cancel;
    var m := Taken(d, e);
    StepIsSettle(d, e);
    if d.requested {
      TakenWhilePending(d, e);
      StepWhilePending(d, e);
      CommittedKeeps(m);
      CancelSettled(m);
      UntouchedSettled(m, Cancel(m));
      if Untouched(m, Step(d, e)) {
        UntouchedSettled(m, Step(d, e));
      }
    } else {
      TakenWhileIdle(d, e);
      CleanupKeeps(m, 0);
      ContinueIdle(Cleanup(m, 0), e.refusing);
    }
  }

  /** With nothing under way or the answer still out there is nothing to go on with. */
  lemma ContinueIdle(d: Desk, refusing: set<nat>)
    requires Ids(d) && Flags(d) && (d.requested ==> Pending(d))
    ensures Continue(d, refusing) == d
  {
    if d.requested {
      ContinueOutcome(d, refusing);
    }
  }

  // ----- Whole runs -----

  function Run(d: Desk, es: seq<Event>): Desk
    decreases |es|
  {
    if es == [] then d else Step(Run(d, es[..|es| - 1]), es[|es| - 1])
  }

  /**
    Over every run no application is lost or destroyed twice: each window number given out is that
    of one application in the table, or stands once in the list of the buried.
   */
  lemma {:induction false} NoneLostNoneTwice(d: Desk, es: seq<Event>, first: nat)
    requires Settled(d) && Accounted(d, first)
    ensures Settled(Run(d, es)) && Accounted(Run(d, es), first)
    decreases |es|
  {
    hide Settled, Accounted, Step;
    if es != [] {
      NoneLostNoneTwice(d, es[..|es| - 1], first);
      StepKeepsSettled(Run(d, es[..|es| - 1]), es[|es| - 1], first);
    }
  }

  lemma GrowsOn(a: Desk, b: Desk, c: Desk)
    requires Grows(a, b) && Grows(b, c)
    ensures Grows(a, c)
  {
  }

  predicate AllIdle(d: Desk) {
    forall i :: 0 <= i < |d.apps| ==> d.apps[i].close == IDLE
  }

  /** Called off: every application is still there with its window, and none is marked for closing. */
  predicate CalledOff(d: Desk, r: Desk) {
    !r.requested && Grows(d, r) && AllIdle(r)
  }

  /** Carried out: every application, and every one launched since, was destroyed in turn and lost its window. */
  ghost predicate CarriedOut(d: Desk, r: Desk) {
    && !r.requested && !r.running && r.apps == []
    && exists last: Desk ::
         Grows(d, last) && r.buried == d.buried + Wins(last.apps) && r.windows == Committed(last).windows
  }

  lemma CommitCarriesOut(d: Desk, m: Desk)
    requires Grows(d, m)
    ensures CarriedOut(d, Committed(m))
  {
  }

  /**
    All or nothing: however long a shutdown waits and whatever happens meanwhile, it either still
    waits with nothing removed, or was called off with everything kept, or was carried out on all.
   */
  lemma {:induction false} AllOrNothing(d: Desk, es: seq<Event>)
    requires Settled(d) && d.requested
    requires forall k :: 0 <= k < |es| ==> Run(d, es[..k]).requested
    ensures var r := Run(d, es);
            && Settled(r)
            && ((Pending(r) && Grows(d, r) && d.index <= r.index) || CalledOff(d, r) || CarriedOut(d, r))
    decreases |es|
  {
    hide Ids, Flags, AllOpen, Step, Committed, Grows, CalledOff, CarriedOut, AllAgree, Taken;
    if es == [] {
      GrowsSelf(d);
    } else {
      var n := |es| - 1;
      forall k | 0 <= k < n
        ensures Run(d, es[..n][..k]).requested
      {
        assert es[..n][..k] == es[..k];
      }
      AllOrNothing(d, es[..n]);
      var q, e := Run(d, es[..n]), es[n];
      StillPending(d, q);
      StepEnds(d, q, e);
      StepKeepsSettled(q, e, 0);
    }
  }

  lemma StillPending(d: Desk, q: Desk)
    ensures q.requested ==> !CalledOff(d, q) && !CarriedOut(d, q)
  {
  }

  lemma StepEnds(d: Desk, q: Desk, e: Event)
    requires Settled(q) && q.requested && Grows(d, q)
    ensures var r := Step(q, e);
            (Pending(r) && Grows(d, r) && q.index <= r.index) || CalledOff(d, r) || CarriedOut(d, r)
  {
    hide Ids, Flags, AllOpen, Step, Committed, Grows, CarriedOut, AllAgree, Taken, Cancel, Untouched;
    var m, r := Taken(q, e), Step(q, e);
    TakenWhilePending(q, e);
    StepWhilePending(q, e);
    GrowsOn(d, q, m);
    CommitCarriesOut(d, m);
    CancelSettled(m);
    CancelIdle(m);
    GrowsOn(d, m, Cancel(m));
    if Untouched(m, r) {
      UntouchedSettled(m, r);
      GrowsOn(d, m, r);
    }
  }

  lemma CancelIdle(d: Desk)
    ensures AllIdle(Cancel(d)) && !Cancel(d).requested
  {
  }

  // ----- A limit of the protocol -----

  lemma {:induction false} AskSame(d: Desk, refusing: set<nat>, refusing': set<nat>)
    requires forall j :: d.index <= j < |d.apps| ==> (d.apps[j].win in refusing <==> d.apps[j].win in refusing')
    ensures Ask(d, refusing) == Ask(d, refusing')
    decreases |d.apps| - d.index
  {
    hide Commit;
    if d.index < |d.apps| && !Refuses(d.apps[d.index], refusing) {
      AskSame(SetClose(d, d.index, AUTHORISED).(index := d.index + 1), refusing, refusing');
    }
  }

  /** An application that has agreed, or is waited for, is not asked again, whatever it would answer by now. */
  lemma AnsweredAreNotAskedAgain(d: Desk, refusing: set<nat>, refusing': set<nat>)
    requires Ids(d) && Parked(d)
    requires forall j :: d.index < j < |d.apps| ==> (d.apps[j].win in refusing <==> d.apps[j].win in refusing')
    ensures Continue(d, refusing) == Continue(d, refusing')
  {
    hide Ask;
    AskSame(d.(waiting := None, index := d.index + 1), refusing, refusing');
  }

  /** Two applications that may refuse to close, nothing under way. */
  const TWO_APPS := Desk([App(0, true, IDLE), App(1, true, IDLE)], {0, 1}, 2, [], false, 0, None, true)

  /** The first has agreed, the second is waited for. */
  const TWO_PARKED :=
    Desk([App(0, true, AUTHORISED), App(1, true, WAITING)], {0, 1}, 2, [], true, 1, Some(1), true)

  const TWO_AGREED :=
    Desk([App(0, true, AUTHORISED), App(1, true, AUTHORISED)], {0, 1}, 2, [], true, 1, Some(1), true)

  lemma ParkedIsPending()
    ensures Settled(TWO_APPS) && Settled(TWO_PARKED) && Pending(TWO_PARKED)
    ensures Ids(TWO_AGREED) && Flags(TWO_AGREED) && AllOpen(TWO_AGREED) && Parked(TWO_AGREED)
  {
  }

  lemma QuitParks()
    ensures Step(TWO_APPS, Dispatch(Quit, 1, [], {1})) == TWO_PARKED
  {
    hide Cleanup, Commit, Position;
    var asked := TWO_APPS.(requested := true);
    var once := SetClose(asked, 0, AUTHORISED).(index := 1);
    assert once.apps == [App(0, true, AUTHORISED), App(1, true, IDLE)];
    assert SetClose(once, 1, WAITING).apps == TWO_PARKED.apps;
    assert Ask(asked, {1}) == Ask(once, {1}) == TWO_PARKED;
    ParkedIsPending();
    CleanupKeeps(TWO_PARKED, 0);
    ContinueIdle(TWO_PARKED, {1});
  }

  lemma AnswerTaken()
    ensures Handle(TWO_PARKED, Plain, 1, [Answer(Allowed)], {0}) == TWO_AGREED
  {
    ParkedIsPending();
    PositionOf(TWO_PARKED.apps, 1);
    var acts := [Answer(Allowed)];
    assert acts[..0] == [];
    assert PerformAll(TWO_PARKED, 1, acts) == Perform(TWO_PARKED, 1, Answer(Allowed));
    assert SetClose(TWO_PARKED, 1, AUTHORISED).apps == TWO_AGREED.apps;
  }

  /**
    Quit while the second of two applications refuses parks there. When that one then agrees, both
    are destroyed, though by then the first would refuse if it were asked.
   */
  lemma FirstIsNotAskedAgain()
    ensures var parked := Step(TWO_APPS, Dispatch(Quit, 1, [], {1}));
            var done := Step(parked, Dispatch(Plain, 1, [Answer(Allowed)], {0}));
            && Settled(TWO_APPS) && Pending(parked) && parked.index == 1
            && parked.apps[0].close == AUTHORISED && Refuses(parked.apps[0], {0})
            && done == Desk([], {}, 2, [0, 1], false, 0, None, false)
  {
    hide Ask, Cleanup, Continue, Begin, Handle;
    QuitParks();
    AnswerTaken();
    ParkedIsPending();
    CleanupKeeps(TWO_AGREED, 0);
    ContinueOutcome(TWO_AGREED, {0});
    assert Wins(TWO_AGREED.apps) == [0, 1];
  }
}
