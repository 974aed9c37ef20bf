/** `RepeatedTimer`: a one-shot timer that re-arms itself each time it fires. */
module Timer {

  class RepeatedTimer {
    var isRunning: bool
    /** A one-shot timer is scheduled and has neither fired nor been cancelled. */
    var armed: bool
    /** Invocations of the callback that have started and not yet returned. */
    var inFlight: nat

    /** At most one one-shot timer is ever scheduled, exactly while `isRunning` holds. */
    ghost predicate Valid()
      reads this
    {
      armed == isRunning
    }

    /** `__init__` clears the flag and then starts. */
    constructor ()
      ensures Valid() && isRunning && armed && inFlight == 0
    {
      isRunning, armed, inFlight := false, false, 0;
      new;
      Start();
    }

    /** `start`: nothing when already running; otherwise arm a new timer and set the flag. */
    method Start()
      requires Valid()
      modifies this
      ensures Valid() && isRunning && armed
      ensures old(isRunning) ==> unchanged(this)
      ensures inFlight == old(inFlight)
    {
      if !isRunning {
        armed := true;
        isRunning := true;
      }
    }

    /** `_run`, called when the armed timer fires: clear the flag, start again, and only then
        call the callback, so the next timer is armed while the callback runs. */
    method Run()
      requires Valid() && armed
      modifies this
      ensures Valid() && isRunning && armed
      ensures inFlight == old(inFlight) + 1
    {
      armed := false;
      isRunning := false;
      Start();
      inFlight := inFlight + 1;
    }

    /** The callback started by a `Run` returns. */
    method CallbackReturns()
      requires Valid() && inFlight > 0
      modifies this`inFlight
      ensures Valid()
      ensures inFlight == old(inFlight) - 1
    {
      inFlight := inFlight - 1;
    }

    /** `stop`: cancel the scheduled timer and clear the flag; a running callback is not interrupted. */
    method Stop()
      modifies this
      ensures Valid() && !isRunning && !armed
      ensures inFlight == old(inFlight)
    {
      armed := false;
      isRunning := false;
    }
  }
}
