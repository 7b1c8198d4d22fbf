/**
  The table of running applications and the quit protocol: each application is asked in turn, the
  first to defer is waited for, and in the end all are closed or none.
 */
module Shutdown {
  import opened Basics
  import opened AppRuntime

  /** A running application: its window, whether it may refuse to close, its close flags. */
  datatype App = App(win: nat, canRefuse: bool, close: CloseState)

  /** `buried` lists the windows of the applications destroyed so far. */
  datatype Desk = Desk(
    apps: seq<App>, windows: set<nat>, next: nat, buried: seq<nat>,
    requested: bool, index: nat, waiting: Option<nat>, running: bool)

  function Wins(apps: seq<App>): (w: seq<nat>)
    ensures |w| == |apps| && forall i :: 0 <= i < |apps| ==> w[i] == apps[i].win
  {
    seq(|apps|, i requires 0 <= i < |apps| => apps[i].win)
  }

  // ----- The table -----

  function Launch(d: Desk, canRefuse: bool): Desk {
    d.(apps := d.apps + [App(d.next, canRefuse, IDLE)], windows := d.windows + {d.next}, next := d.next + 1)
  }

  function SetClose(d: Desk, i: nat, c: CloseState): Desk
    requires i < |d.apps|
  {
    d.(apps := d.apps[i := d.apps[i].(close := c)])
  }

  /** Closes the window of an application, destroys it and takes it out of the table. */
  function Bury(d: Desk, i: nat): Desk
    requires i < |d.apps|
  {
    var win := d.apps[i].win;
    d.(apps := d.apps[..i] + d.apps[i + 1..], windows := d.windows - {win}, buried := d.buried + [win])
  }

  /** Without a shutdown under way, an application that agreed to close goes, and so does one without a window. */
  predicate Goes(d: Desk, a: App) {
    a.win !in d.windows || (a.close.requested && !d.requested)
  }

  function Cleanup(d: Desk, i: nat): Desk
    decreases |d.apps| - i
  {
    if i >= |d.apps| then d
    else if Goes(d, d.apps[i]) then Cleanup(Bury(d, i), i)
    else Cleanup(d, i + 1)
  }

  // ----- The protocol -----

  function Reset(apps: seq<App>): seq<App> {
    seq(|apps|, i requires 0 <= i < |apps| => apps[i].(close := IDLE))
  }

  function Cancel(d: Desk): Desk {
    d.(apps := Reset(d.apps), requested := false, index := 0, waiting := None)
  }

  function CloseAll(d: Desk): Desk {
    d.(windows := d.windows - (set w <- Wins(d.apps)), requested := false, waiting := None)
  }

  function Commit(d: Desk): Desk {
    Cleanup(CloseAll(d), 0).(index := 0, running := false)
  }

  /** An application answers no to the question whether it may close. */
  predicate Refuses(a: App, refusing: set<nat>) {
    a.canRefuse && a.win in refusing
  }

  /** Asks one application after the other, until one defers or all have agreed. */
  function Ask(d: Desk, refusing: set<nat>): Desk
    decreases |d.apps| - d.index
  {
    if d.index >= |d.apps| then Commit(d)
    else if Refuses(d.apps[d.index], refusing) then
      SetClose(d, d.index, WAITING).(waiting := Some(d.apps[d.index].win))
    else
      Ask(SetClose(d, d.index, AUTHORISED).(index := d.index + 1), refusing)
  }

  /** The position of the application with a window, or the length of the table. */
  function Position(apps: seq<App>, win: nat): (i: nat)
    ensures i <= |apps| && (i < |apps| ==> apps[i].win == win)
  {
    if apps == [] then 0 else if apps[0].win == win then 0 else 1 + Position(apps[1..], win)
  }

  function Continue(d: Desk, refusing: set<nat>): Desk {
    if !d.requested then d
    else if d.waiting.None? then Ask(d, refusing)
    else
      var i := Position(d.apps, d.waiting.value);
      if i == |d.apps| then Cancel(d)
      else
        var c := d.apps[i].close;
        if c.pending then d
        else if c.result.Cancelled? || !c.requested then Cancel(d)
        else Ask(d.(waiting := None, index := d.index + 1), refusing)
  }

  function Begin(d: Desk, refusing: set<nat>): Desk {
    if d.requested then d
    else Continue(d.(requested := true, index := 0, waiting := None), refusing)
  }

  // ----- Events -----

  /**
    What an application may do when called: answer its own pending request to close, ask to be
    closed if it never refuses, or launch another application.
   */
  datatype Act = Answer(result: CloseResult) | Leave | Start(canRefuse: bool)

  function Perform(d: Desk, i: nat, act: Act): (r: Desk)
    requires i < |d.apps|
    ensures |r.apps| >= |d.apps|
  {
    match act
    case Answer(result) => SetClose(d, i, Resolved(d.apps[i].close, result))
    case Leave => if d.apps[i].canRefuse then d else SetClose(d, i, AUTHORISED)
    case Start(canRefuse) => Launch(d, canRefuse)
  }

  function PerformAll(d: Desk, i: nat, acts: seq<Act>): (r: Desk)
    requires i < |d.apps|
    ensures |r.apps| >= |d.apps|
    decreases |acts|
  {
    if acts == [] then d
    else Perform(PerformAll(d, i, acts[..|acts| - 1]), i, acts[|acts| - 1])
  }

  /** An event for an application's window; outside a shutdown an application that agreed to close loses its window. */
  function Deliver(d: Desk, win: nat, acts: seq<Act>): Desk {
    var i := Position(d.apps, win);
    if i == |d.apps| then d
    else
      var r := PerformAll(d, i, acts);
      if r.apps[i].close.requested && !r.requested then r.(windows := r.windows - {r.apps[i].win}) else r
  }

  /** The command to close the active window. */
  function RequestAppClose(d: Desk, win: nat, refusing: set<nat>): Desk {
    var i := Position(d.apps, win);
    if i == |d.apps| then d
    else if Refuses(d.apps[i], refusing) then SetClose(d, i, WAITING)
    else SetClose(d, i, AUTHORISED).(windows := d.windows - {d.apps[i].win})
  }

  /** What the desktop itself makes of an input; anything else goes to the active window. */
  datatype Input = Quit | CloseActive | Taskbar(canRefuse: bool) | Plain

  function Handle(d: Desk, input: Input, active: nat, acts: seq<Act>, refusing: set<nat>): Desk {
    if d.requested then
      if input.Quit? || input.Taskbar? then d else Deliver(d, active, acts)
    else
      match input
      case Quit => Begin(d, refusing)
      case CloseActive => RequestAppClose(d, active, refusing)
      case Taskbar(canRefuse) => Launch(d, canRefuse)
      case Plain => Deliver(d, active, acts)
  }

  function Settle(d: Desk, refusing: set<nat>): Desk {
    Continue(Cleanup(d, 0), refusing)
  }

  /** Every application in turn may act when it is serviced. */
  function ServiceFrom(d: Desk, i: nat, work: seq<seq<Act>>): Desk
    decreases |work| - i
  {
    if i >= |d.apps| || i >= |work| then d
    else ServiceFrom(PerformAll(d, i, work[i]), i + 1, work)
  }

  /** One event of the desktop loop. */
  datatype Event =
    | Dispatch(input: Input, active: nat, acts: seq<Act>, refusing: set<nat>)
    | Service(work: seq<seq<Act>>, refusing: set<nat>)

  function Step(d: Desk, e: Event): Desk {
    match e
    case Dispatch(input, active, acts, refusing) => Settle(Handle(d, input, active, acts, refusing), refusing)
    case Service(work, refusing) => Settle(ServiceFrom(d, 0, work), refusing)
  }
}
