/**
  The desktop's application table and its quit protocol, changed in place around the callbacks of
  the applications.
 */
module Desktops {
  import opened Basics
  import opened AppRuntime
  import opened Shutdown

  datatype RunningApp = RunningApp(app: AppInstance, windowId: nat)

  ghost function FirstWins(apps: seq<App>, n: nat): set<nat>
    requires n <= |apps|
  {
    set k: nat | k < n :: apps[k].win
  }

  lemma AllWins(apps: seq<App>)
    ensures FirstWins(apps, |apps|) == (set w <- Wins(apps))
  {
    forall w | w in Wins(apps)
      ensures w in FirstWins(apps, |apps|)
    {
      var k: nat :| k < |apps| && Wins(apps)[k] == w;
    }
    forall w | w in FirstWins(apps, |apps|)
      ensures w in Wins(apps)
    {
      var k: nat :| k < |apps| && apps[k].win == w;
      assert Wins(apps)[k] == w;
    }
  }

  /** The outcome of asking the application at the index. */
  predicate AskedNext(d: Desk, refusing: set<nat>, r: Desk, agreed: bool)
    requires d.index < |d.apps|
  {
    && agreed == !Refuses(d.apps[d.index], refusing)
    && r == if agreed then SetClose(d, d.index, AUTHORISED).(index := d.index + 1)
            else SetClose(d, d.index, WAITING).(waiting := Some(d.apps[d.index].win))
  }

  lemma AskOnce(d: Desk, refusing: set<nat>, r: Desk, agreed: bool)
    requires d.index < |d.apps| && AskedNext(d, refusing, r, agreed)
    ensures Ask(d, refusing) == if agreed then Ask(r, refusing) else r
    ensures r.index == if agreed then d.index + 1 else d.index
  {
    hide Commit;
  }

  lemma AskDone(d: Desk, refusing: set<nat>)
    requires d.index >= |d.apps|
    ensures Ask(d, refusing) == Commit(d)
  {
  }

  class Desktop {
    var apps: seq<RunningApp>
    var windows: set<nat>
    var nextId: nat
    ghost var buried: seq<nat>
    var shutdownRequested: bool
    var shutdownIndex: nat
    var shutdownWaiting: Option<nat>
    var running: bool

    ghost function Objs(): set<AppInstance>
      reads this
    {
      set r <- apps :: r.app
    }

    /** Each application in the table is an object of its own that has not been destroyed. */
    ghost predicate Valid()
      reads this, Objs()
    {
      && (forall i, j :: 0 <= i < j < |apps| ==> apps[i].app != apps[j].app)
      && (forall i :: 0 <= i < |apps| ==> apps[i].app.destroyed == 0)
    }

    ghost function AppAt(i: nat): App
      requires i < |apps|
      reads this, Objs()
    {
      assert apps[i] in apps;
      App(apps[i].windowId, apps[i].app.hasCanClose, apps[i].app.Close())
    }

    ghost function D(): Desk
      reads this, Objs()
    {
      Desk(seq(|apps|, i requires 0 <= i < |apps| reads this, Objs() => AppAt(i)),
           windows, nextId, buried, shutdownRequested, shutdownIndex, shutdownWaiting, running)
    }

    constructor ()
      ensures Valid() && D() == Desk([], {}, 0, [], false, 0, None, false)
    {
      apps, windows, nextId, buried := [], {}, 0, [];
      shutdownRequested, shutdownIndex, shutdownWaiting, running := false, 0, None, false;
    }

    // ----- The table -----

    method LaunchApp(hasCanClose: bool)
      requires Valid()
      modifies this`apps, this`windows, this`nextId
      ensures Valid() && D() == Launch(old(D()), hasCanClose)
      ensures old(Objs()) <= Objs() && fresh(Objs() - old(Objs()))
      ensures old(apps) <= apps
    {
      var app := new AppInstance(hasCanClose);
      windows := windows + {nextId};
      apps := apps + [RunningApp(app, nextId)];
      nextId := nextId + 1;
    }

    method CloseWindow(id: nat)
      requires Valid()
      modifies this`windows
      ensures Valid() && D() == old(D()).(windows := old(windows) - {id})
    {
      windows := windows - {id};
    }

    /** Destroys an application and takes it out of the table. */
    method RemoveAppAt(index: nat)
      requires Valid() && index < |apps|
      modifies this`apps, this`buried, Objs()
      ensures Valid() && Objs() <= old(Objs()) && old(apps[index].app).destroyed == 1
      ensures var d := old(D());
              D() == d.(apps := d.apps[..index] + d.apps[index + 1..], buried := d.buried + [d.apps[index].win])
    {
      buried := buried + [apps[index].windowId];
      apps[index].app.Destroy();
      apps := apps[..index] + apps[index + 1..];
    }

    method CleanupApps()
      requires Valid()
      modifies this`apps, this`buried, this`windows, Objs()
      ensures Valid() && D() == Cleanup(old(D()), 0) && Objs() <= old(Objs())
    {
      var i := 0;
      while i < |apps|
        invariant i <= |apps| && Valid() && Objs() <= old(Objs())
        invariant Cleanup(D(), i) == Cleanup(old(D()), 0)
        decreases |apps| - i
      {
        ghost var d := D();
        assert apps[i].app in Objs();
        var slot := apps[i];
        var shouldClose := slot.app.closeRequested;
        var windowExists := slot.windowId in windows;
        if shouldClose && windowExists && !shutdownRequested {
          CloseWindow(slot.windowId);
          windowExists := false;
        }
        if !windowExists || (shouldClose && !shutdownRequested) {
          RemoveAppAt(i);
          assert d.windows - {d.apps[i].win} == D().windows;
          assert D() == Bury(d, i);
        } else {
          i := i + 1;
        }
      }
    }

    // ----- The quit protocol -----

    method ResetShutdownRequests()
      requires Valid()
      modifies Objs()
      ensures Valid() && D() == old(D()).(apps := Reset(old(D()).apps))
    {
      var i := 0;
      while i < |apps|
        invariant i <= |apps| && Valid()
        invariant forall k :: 0 <= k < i ==> AppAt(k) == old(AppAt(k)).(close := IDLE)
        invariant forall k :: i <= k < |apps| ==> AppAt(k) == old(AppAt(k))
      {
        assert apps[i].app in Objs();
        apps[i].app.ResetCloseRequest();
        i := i + 1;
      }
    }

    method CancelShutdown()
      requires Valid()
      modifies this`shutdownRequested, this`shutdownIndex, this`shutdownWaiting, Objs()
      ensures Valid() && D() == Cancel(old(D()))
    {
      ResetShutdownRequests();
      shutdownRequested := false;
      shutdownIndex := 0;
      shutdownWaiting := None;
    }

    method CloseAppWindows()
      requires Valid()
      modifies this`windows
      ensures Valid() && D() == old(D()).(windows := old(windows) - (set w <- Wins(old(D()).apps)))
    {
      ghost var d := D();
      var i := 0;
      while i < |apps|
        invariant i <= |apps| && windows == d.windows - FirstWins(d.apps, i)
      {
        assert FirstWins(d.apps, i + 1) == FirstWins(d.apps, i) + {d.apps[i].win};
        if apps[i].windowId in windows {
          CloseWindow(apps[i].windowId);
        }
        i := i + 1;
      }
      AllWins(d.apps);
    }

    method CommitShutdown()
      requires Valid()
      modifies this, Objs()
      ensures Valid() && D() == Commit(old(D())) && Objs() <= old(Objs())
    {
      hide Cleanup, Wins;
      shutdownRequested := false;
      shutdownWaiting := None;
      assert D() == old(D()).(requested := false, waiting := None);
      CloseAppWindows();
      assert D() == CloseAll(old(D()));
      CleanupApps();
      shutdownIndex := 0;
      running := false;
    }

    method FindRunningApp(windowId: nat) returns (i: nat)
      requires Valid()
      ensures i == Position(D().apps, windowId)
    {
      i := 0;
      ghost var all := D().apps;
      while i < |apps|
        invariant i <= |apps| && Position(all, windowId) == i + Position(all[i..], windowId)
      {
        if apps[i].windowId == windowId {
          return;
        }
        i := i + 1;
      }
    }

    /** Asks one application; `refusing` is who answers no. */
    method RequestCloseAt(i: nat, refusing: set<nat>) returns (result: CloseResult)
      requires Valid() && i < |apps|
      modifies Objs()
      ensures var refuses := Refuses(old(D()).apps[i], refusing);
              && result == (if refuses then Deferred else Allowed)
              && Valid() && D() == SetClose(old(D()), i, if refuses then WAITING else AUTHORISED)
    {
      assert apps[i].app in Objs();
      result := apps[i].app.RequestClose(apps[i].windowId in refusing);
    }

    /** Asks the application at the index: moves on if it agrees, waits for it if it defers. */
    method AskNext(refusing: set<nat>) returns (agreed: bool)
      requires Valid() && shutdownIndex < |apps|
      modifies this`shutdownIndex, this`shutdownWaiting, Objs()
      ensures Valid() && AskedNext(old(D()), refusing, D(), agreed)
    {
      hide SetClose, Refuses;
      var windowId := apps[shutdownIndex].windowId;
      var result := RequestCloseAt(shutdownIndex, refusing);
      agreed := result == Allowed;
      if agreed {
        shutdownIndex := shutdownIndex + 1;
      } else {
        shutdownWaiting := Some(windowId);
      }
    }

    /** Asks one application after the other; `refusing` is who answers no. */
    method AskApps(refusing: set<nat>)
      requires Valid()
      modifies this, Objs()
      ensures Valid() && D() == Ask(old(D()), refusing) && Objs() <= old(Objs())
    {
      hide AskedNext, Ask;
      while shutdownIndex < |apps|
        invariant Valid() && apps == old(apps)
        invariant Ask(D(), refusing) == Ask(old(D()), refusing)
        decreases |apps| - shutdownIndex
      {
        ghost var d := D();
        var agreed := AskNext(refusing);
        AskOnce(d, refusing, D(), agreed);
        if !agreed {
          return;
        }
      }
      AskDone(D(), refusing);
      CommitShutdown();
    }

    method ContinueShutdown(refusing: set<nat>)
      requires Valid()
      modifies this, Objs()
      ensures Valid() && D() == Continue(old(D()), refusing) && Objs() <= old(Objs())
    {
      hide Ask;
      ghost var d := D();
      if !shutdownRequested {
        return;
      }
      if shutdownWaiting.Some? {
        var i := FindRunningApp(shutdownWaiting.value);
        if i == |apps| {
          CancelShutdown();
          return;
        }
        assert apps[i].app in Objs();
        var waiting := apps[i].app;
        if waiting.closePending {
          return;
        }
        if waiting.closeResult == Cancelled {
          CancelShutdown();
          return;
        }
        if !waiting.closeRequested {
          CancelShutdown();
          return;
        }
        shutdownWaiting := None;
        shutdownIndex := shutdownIndex + 1;
        assert D() == d.(waiting := None, index := d.index + 1);
      }
      AskApps(refusing);
    }

    method BeginShutdown(refusing: set<nat>)
      requires Valid()
      modifies this, Objs()
      ensures Valid() && D() == Begin(old(D()), refusing) && Objs() <= old(Objs())
    {
      if shutdownRequested {
        return;
      }
      shutdownRequested := true;
      shutdownIndex := 0;
      shutdownWaiting := None;
      assert D() == old(D()).(requested := true, index := 0, waiting := None);
      ContinueShutdown(refusing);
    }

    // ----- Events -----

    method PerformAct(i: nat, act: Act)
      requires Valid() && i < |apps|
      modifies this`apps, this`windows, this`nextId, Objs()
      ensures Valid() && D() == Perform(old(D()), i, act)
      ensures old(apps) <= apps && old(Objs()) <= Objs() && fresh(Objs() - old(Objs()))
    {
      hide Launch;
      assert apps[i].app in Objs();
      var app := apps[i].app;
      match act {
        case Answer(result) => app.ResolveClose(result);
        case Leave =>
          if !app.hasCanClose {
            var _ := app.RequestClose(false);
          }
        case Start(canRefuse) => LaunchApp(canRefuse);
      }
    }

    /** What an application does when called. */
    method PerformActs(i: nat, acts: seq<Act>)
      requires Valid() && i < |apps|
      modifies this`apps, this`windows, this`nextId, Objs()
      ensures Valid() && D() == PerformAll(old(D()), i, acts)
      ensures old(apps) <= apps && old(Objs()) <= Objs() && fresh(Objs() - old(Objs()))
    {
      hide Perform;
      var n := 0;
      while n < |acts|
        invariant n <= |acts| && Valid() && old(apps) <= apps && old(Objs()) <= Objs() && fresh(Objs() - old(Objs()))
        invariant D() == PerformAll(old(D()), i, acts[..n])
      {
        PerformAct(i, acts[n]);
        assert acts[..n + 1][..n] == acts[..n];
        n := n + 1;
      }
      assert acts[..n] == acts;
    }

    /** The event callback of an application's window. */
    method DeliverEvent(active: nat, acts: seq<Act>)
      requires Valid()
      modifies this`apps, this`windows, this`nextId, Objs()
      ensures Valid() && D() == Deliver(old(D()), active, acts)
      ensures old(Objs()) <= Objs() && fresh(Objs() - old(Objs()))
    {
      hide PerformAll;
      var i := FindRunningApp(active);
      if i == |apps| {
        return;
      }
      PerformActs(i, acts);
      assert apps[i].app in Objs();
      if apps[i].app.closeRequested && !shutdownRequested {
        CloseWindow(apps[i].windowId);
      }
    }

    method RequestAppClose(active: nat, refusing: set<nat>) returns (closed: bool)
      requires Valid()
      modifies this`windows, Objs()
      ensures Valid() && D() == Shutdown.RequestAppClose(old(D()), active, refusing)
      ensures var i := Position(old(D()).apps, active);
              closed == (i < |apps| && !Refuses(old(D()).apps[i], refusing))
    {
      var i := FindRunningApp(active);
      if i == |apps| {
        return false;
      }
      var result := RequestCloseAt(i, refusing);
      if result != Allowed {
        return false;
      }
      CloseWindow(active);
      closed := true;
    }

    method Settle(refusing: set<nat>)
      requires Valid()
      modifies this, Objs()
      ensures Valid() && D() == Shutdown.Settle(old(D()), refusing) && Objs() <= old(Objs())
    {
      hide Cleanup, Continue;
      CleanupApps();
      ContinueShutdown(refusing);
    }

    method HandleInput(input: Input, active: nat, acts: seq<Act>, refusing: set<nat>)
      requires Valid()
      modifies this, Objs()
      ensures Valid() && D() == Handle(old(D()), input, active, acts, refusing) && fresh(Objs() - old(Objs()))
    {
      hide Deliver, Begin, Shutdown.RequestAppClose;
      if shutdownRequested {
        if input.Quit? || input.Taskbar? {
          return;
        }
        DeliverEvent(active, acts);
        return;
      }
      match input
      case Quit => BeginShutdown(refusing);
      case CloseActive => var _ := RequestAppClose(active, refusing);
      case Taskbar(canRefuse) => LaunchApp(canRefuse);
      case Plain => DeliverEvent(active, acts);
    }

    method DispatchEvent(input: Input, active: nat, acts: seq<Act>, refusing: set<nat>)
      requires Valid()
      modifies this, Objs()
      ensures Valid() && D() == Step(old(D()), Dispatch(input, active, acts, refusing)) && fresh(Objs() - old(Objs()))
    {
      hide Handle, Shutdown.Settle;
      HandleInput(input, active, acts, refusing);
      Settle(refusing);
    }

    /** Every application is serviced once, those launched on the way included. */
    method ServiceApps(work: seq<seq<Act>>)
      requires Valid()
      modifies this`apps, this`windows, this`nextId, Objs()
      ensures Valid() && D() == ServiceFrom(old(D()), 0, work)
      ensures old(Objs()) <= Objs() && fresh(Objs() - old(Objs()))
    {
      hide PerformAll;
      var i := 0;
      while i < |apps| && i < |work|
        invariant i <= |apps| && Valid() && old(Objs()) <= Objs() && fresh(Objs() - old(Objs()))
        invariant ServiceFrom(D(), i, work) == ServiceFrom(old(D()), 0, work)
        decreases |work| - i
      {
        PerformActs(i, work[i]);
        i := i + 1;
      }
    }

    /** One turn of the desktop loop before it polls. */
    method RunServices(work: seq<seq<Act>>, refusing: set<nat>)
      requires Valid()
      modifies this, Objs()
      ensures Valid() && D() == Step(old(D()), Service(work, refusing)) && fresh(Objs() - old(Objs()))
    {
      hide ServiceFrom, Shutdown.Settle;
      ServiceApps(work);
      Settle(refusing);
    }
  }
}
