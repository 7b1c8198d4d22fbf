/**
  Close negotiation of an application instance: a request is allowed, or deferred to a decision
  of the user that the application resolves later.
 */
module AppRuntime {

  datatype CloseResult = Allowed | Deferred | Cancelled

  datatype CloseState = CloseState(requested: bool, pending: bool, result: CloseResult)

  const IDLE := CloseState(false, false, Allowed)
  const AUTHORISED := CloseState(true, false, Allowed)
  const WAITING := CloseState(false, true, Deferred)

  /** A resolution counts only while a decision is pending, and must be one. */
  function Resolved(c: CloseState, result: CloseResult): CloseState {
    if !c.pending || result.Deferred? then c
    else CloseState(result.Allowed?, false, result)
  }

  class AppInstance {
    /** The application may refuse to close. */
    const hasCanClose: bool
    var closeRequested: bool
    var closePending: bool
    var closeResult: CloseResult
    /** How often the instance has been destroyed. */
    var destroyed: nat

    constructor (hasCanClose: bool)
      ensures this.hasCanClose == hasCanClose && Close() == IDLE && destroyed == 0
    {
      this.hasCanClose := hasCanClose;
      closeRequested, closePending, closeResult, destroyed := false, false, Allowed, 0;
    }

    ghost function Close(): CloseState
      reads this
    {
      CloseState(closeRequested, closePending, closeResult)
    }

    /** Requests a close; `refuses` is what the application's own check answers, if it has one. */
    method RequestClose(refuses: bool) returns (result: CloseResult)
      modifies this`closeRequested, this`closePending, this`closeResult
      ensures Close() == if hasCanClose && refuses then WAITING else AUTHORISED
      ensures result == if hasCanClose && refuses then Deferred else Allowed
    {
      closeRequested := false;
      closePending := false;
      closeResult := Allowed;
      if hasCanClose && refuses {
        closePending := true;
        closeResult := Deferred;
        return Deferred;
      }
      closeRequested := true;
      return Allowed;
    }

    method ResolveClose(result: CloseResult)
      modifies this`closeRequested, this`closePending, this`closeResult
      ensures Close() == Resolved(old(Close()), result)
    {
      if !closePending || result == Deferred {
        return;
      }
      closePending := false;
      closeResult := result;
      closeRequested := result == Allowed;
    }

    method ResetCloseRequest()
      modifies this`closeRequested, this`closePending, this`closeResult
      ensures Close() == IDLE
    {
      closeRequested := false;
      closePending := false;
      closeResult := Allowed;
    }

    method Destroy()
      modifies this`destroyed
      ensures destroyed == old(destroyed) + 1
    {
      destroyed := destroyed + 1;
    }
  }
}
