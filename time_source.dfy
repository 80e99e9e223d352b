/**
  The pluggable time source: process-wide flags for pausing, whether the
  installed source can pause, and whether the source is frozen (it has
  been used or replaced, after which it may not be replaced again).

  The flags and hooks are one object whose methods are the library's free
  functions. The hooks themselves are foreign functions: the uptime clock
  and the system-time validity check are read by the caller and passed
  in, and a call of the pause hook is recorded in `pauseCalls`.
*/
module TimeSource {
  import opened Wrappers
  import Instants

  datatype PauseError = PauseNotImplemented | AlreadyPaused | NotPaused

  /** The pause hook in place: the built-in one, the no-op installed for a source without pausing, or a supplied one. */
  datatype PauseHook = DefaultPause | NoOpPause | CustomPause(id: nat)

  /** A replacement time source: its name, its clock, its optional pause hook and its validity check. */
  datatype TimeImplementation = TimeImplementation(
    name: string, uptime: nat, pause: Option<nat>, systemTimeValid: nat)

  /** A source installed after another one, or after the time was read. */
  datatype SetError = AlreadyFrozen(oldName: string, newName: string)

  const DefaultImplName: string := "Default"

  /**
    What `try_pause(p)` reports, given the paused flag it found and
    whether pausing is implemented: asking for the state already in place
    is refused with the error naming that state; otherwise it fails only
    when pausing is not implemented.
  */
  function PauseOutcome(wasPaused: bool, implemented: bool, p: bool): (r: Result<(), PauseError>)
    ensures r.Ok? <==> wasPaused != p && implemented
    ensures r == Err(AlreadyPaused) <==> wasPaused && p
    ensures r == Err(NotPaused) <==> !wasPaused && !p
    ensures r == Err(PauseNotImplemented) <==> wasPaused != p && !implemented
  {
    if wasPaused == p then
      if p then Err(AlreadyPaused) else Err(NotPaused)
    else if !implemented then Err(PauseNotImplemented)
    else Ok(())
  }

  /** Asking twice in a row for the same state: the second request is always refused. */
  lemma SecondRequestRefused(implemented: bool, p: bool)
    ensures PauseOutcome(p, implemented, p).Err?
    ensures PauseOutcome(p, implemented, p) != Err(PauseNotImplemented)
  {
  }

  class TimeState {
    var isPaused: bool
    var pauseImplemented: bool
    var frozen: bool
    var implementationName: string
    var uptimeSource: Option<nat>
    var pauseHook: PauseHook
    var systemTimeValid: Option<nat>
    /** Every call made to the pause hook, with its argument, oldest first. */
    var pauseCalls: seq<bool>

    /** Pausing is implemented exactly when the pause hook in place is not the no-op one. */
    predicate Valid()
      reads this
    {
      pauseImplemented <==> pauseHook != NoOpPause
    }

    /** The statics as the program starts: the built-in source, not paused, pausing available, not frozen. */
    constructor ()
      ensures Valid()
      ensures !isPaused && pauseImplemented && !frozen
      ensures implementationName == DefaultImplName && pauseHook == DefaultPause
      ensures uptimeSource == None && systemTimeValid == None && pauseCalls == []
    {
      isPaused := false;
      pauseImplemented := true;
      frozen := false;
      implementationName := DefaultImplName;
      uptimeSource := None;
      pauseHook := DefaultPause;
      systemTimeValid := None;
      pauseCalls := [];
    }

    /**
      `is_paused`: the last state requested of `TryPause`, whether or not
      the request succeeded (false before any request).
    */
    function IsPaused(): (b: bool)
      reads this
      ensures b == isPaused
    {
      isPaused
    }

    /** `pause_implemented`: false exactly when the source installed has no pause hook of its own. */
    function PauseImplemented(): (b: bool)
      requires Valid()
      reads this
      ensures b <==> pauseHook != NoOpPause
    {
      pauseImplemented
    }

    /**
      `try_pause(p)`: the paused flag is swapped to `p` before anything is
      checked, so it reads `p` afterwards even when the request fails. The
      pause hook is called only on success.
    */
    method TryPause(p: bool) returns (r: Result<(), PauseError>)
      requires Valid()
      modifies this
      ensures Valid()
      ensures IsPaused() == p
      ensures r == PauseOutcome(old(isPaused), pauseImplemented, p)
      ensures pauseCalls == if r.Ok? then old(pauseCalls) + [p] else old(pauseCalls)
      ensures pauseImplemented == old(pauseImplemented) && frozen == old(frozen)
      ensures implementationName == old(implementationName) && pauseHook == old(pauseHook)
      ensures uptimeSource == old(uptimeSource) && systemTimeValid == old(systemTimeValid)
    {
      var previous := isPaused;
      isPaused := p;
      if previous == p {
        if p {
          r := Err(AlreadyPaused);
        } else {
          r := Err(NotPaused);
        }
      } else if !pauseImplemented {
        r := Err(PauseNotImplemented);
      } else {
        pauseCalls := pauseCalls + [p];
        r := Ok(());
      }
    }

    /** `uptime`: freezes the source and converts the clock's microsecond reading. */
    method Uptime(reading: nat) returns (d: Instants.Duration)
      requires reading <= 0xFFFF_FFFF_FFFF_FFFF
      modifies this
      ensures Valid() == old(Valid())
      ensures frozen
      ensures d == Instants.FromMicros(reading)
      ensures isPaused == old(isPaused) && pauseImplemented == old(pauseImplemented)
      ensures implementationName == old(implementationName) && pauseHook == old(pauseHook)
      ensures uptimeSource == old(uptimeSource) && systemTimeValid == old(systemTimeValid)
      ensures pauseCalls == old(pauseCalls)
    {
      frozen := true;
      d := Instants.FromMicros(reading);
    }

    /** `system_time`: freezes the source; the wall-clock reading when the validity check passes, nothing otherwise. */
    method SystemTime<T>(valid: bool, now: T) returns (r: Option<T>)
      modifies this
      ensures Valid() == old(Valid())
      ensures frozen
      ensures r == if valid then Some(now) else None
      ensures isPaused == old(isPaused) && pauseImplemented == old(pauseImplemented)
      ensures implementationName == old(implementationName) && pauseHook == old(pauseHook)
      ensures uptimeSource == old(uptimeSource) && systemTimeValid == old(systemTimeValid)
      ensures pauseCalls == old(pauseCalls)
    {
      frozen := true;
      if valid {
        r := Some(now);
      } else {
        r := None;
      }
    }

    /**
      `set_time_implementation`: installs a source unless the state is
      already frozen, in which case the source panics and nothing else
      changes. Either way the state is frozen afterwards, so a source can
      be installed at most once, and never after the time has been read.
      A source without a pause hook gets a no-op hook and is marked as
      unable to pause.
    */
    method SetTimeImplementation(imp: TimeImplementation) returns (r: Result<(), SetError>)
      requires Valid()
      modifies this
      ensures Valid()
      ensures frozen
      ensures r.Err? <==> old(frozen)
      ensures r.Err? ==> r.error == AlreadyFrozen(old(implementationName), imp.name)
      ensures r.Err? ==> implementationName == old(implementationName) && pauseHook == old(pauseHook)
                         && pauseImplemented == old(pauseImplemented)
                         && uptimeSource == old(uptimeSource) && systemTimeValid == old(systemTimeValid)
      ensures r.Ok? ==> implementationName == imp.name && uptimeSource == Some(imp.uptime)
                        && systemTimeValid == Some(imp.systemTimeValid)
      ensures r.Ok? ==> pauseImplemented == imp.pause.Some?
      ensures r.Ok? ==> pauseHook == if imp.pause.Some? then CustomPause(imp.pause.value) else NoOpPause
      ensures isPaused == old(isPaused) && pauseCalls == old(pauseCalls)
    {
      var wasFrozen := frozen;
      frozen := true;
      if wasFrozen {
        return Err(AlreadyFrozen(implementationName, imp.name));
      }
      uptimeSource := Some(imp.uptime);
      implementationName := imp.name;
      systemTimeValid := Some(imp.systemTimeValid);
      if imp.pause.Some? {
        pauseImplemented := true;
        pauseHook := CustomPause(imp.pause.value);
      } else {
        pauseImplemented := false;
        pauseHook := NoOpPause;
      }
      r := Ok(());
    }
  }
}
