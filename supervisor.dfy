/** The process supervisor of ota-agent/process_manager.go: a manager that
    launches a command line, restarts it when it exits (up to a limit), and
    the registry that keeps at most one managed command current. Concurrency
    is sequentialised: what another goroutine does while the monitor waits
    (a `Stop` call) arrives as a flag of the monitor's `Event`. */
module Supervisor {
  import opened Common
  import opened GoText

  /** Errors the manager and the registry return. */
  datatype ManagerError =
    | AlreadyRunning   // "process already running"
    | EmptyCommand     // "empty command"
    | LaunchRefused    // "failed to start process": exec refused, or the context is cancelled

  /** What happens while one launched process lives: whether exec can start
      it, whether `Stop` is called before it exits, whether `Stop` is called
      during the restart delay. */
  datatype Event = Event(launchOk: bool, stopWhileRunning: bool, stopDuringDelay: bool)

  /** Why `monitor` returned. */
  datatype Ending =
    | StoppedBeforeLaunch  // `stopped` seen at the top of the loop
    | LaunchFailed(reason: ManagerError)
    | UserStop             // the process exited after a stop request
    | LimitReached         // `maxRestarts` restarts were already made
    | StoppedDuringDelay   // the context or the stop channel ended the delay

  /** `startProcess` launches the command: it is not blank, exec can start
      it and the manager's context is live. */
  predicate LaunchSucceeds(argv: seq<string>, cancelled: bool, ev: Event)
  {
    argv != [] && ev.launchOk && !cancelled
  }

  /** The launched process exits without a stop request having reached the
      manager (`Stop` only acts on a running manager). */
  predicate ExitsUnasked(argv: seq<string>, running: bool, cancelled: bool, ev: Event)
  {
    LaunchSucceeds(argv, cancelled, ev) && !(ev.stopWhileRunning && running)
  }

  /** An event that neither refuses the launch nor stops a running manager. */
  predicate Undisturbed(ev: Event, running: bool)
  {
    ev.launchOk && !(running && (ev.stopWhileRunning || ev.stopDuringDelay))
  }

  /** Default delay before a restart: 3 s, in nanoseconds as `time.Duration`. */
  const DefaultRestartDelay: int := 3_000_000_000

  class ProcessManager {
    const cmdline: string
    /** `strings.Fields(cmdline)`, which `startProcess` computes on every
        launch; the command line never changes, so it is split once here. */
    const argv: seq<string>
    /** The argument vector of the last `exec.CommandContext`, if any. */
    var cmd: Option<seq<string>>
    var running: bool
    var stopped: bool
    /** The manager's context has been cancelled (by `Stop`); it is never
        renewed, so every later launch fails. */
    var cancelled: bool
    var restartCount: nat
    /** Negative means unlimited. */
    var maxRestarts: int
    var restartDelay: int
    /** Processes launched so far. */
    ghost var launches: nat

    /** Once stopped, the manager is not running. */
    predicate Valid()
      reads this
    {
      stopped ==> !running
    }

    /** `NewProcessManager`. */
    constructor (cmdline: string)
      ensures Valid()
      ensures this.cmdline == cmdline && argv == Fields(cmdline) && cmd == None
      ensures !running && !stopped && !cancelled
      ensures restartCount == 0 && maxRestarts == -1 && restartDelay == DefaultRestartDelay
      ensures launches == 0
    {
      this.cmdline := cmdline;
      argv := Fields(cmdline);
      cmd := None;
      running := false;
      stopped := false;
      cancelled := false;
      restartCount := 0;
      maxRestarts := -1;
      restartDelay := DefaultRestartDelay;
      launches := 0;
    }

    method SetMaxRestarts(max: int)
      modifies this
      ensures maxRestarts == max
      ensures running == old(running) && stopped == old(stopped) && cancelled == old(cancelled)
      ensures cmd == old(cmd) && restartCount == old(restartCount) && restartDelay == old(restartDelay)
      ensures launches == old(launches)
    {
      maxRestarts := max;
    }

    method SetRestartDelay(delay: int)
      modifies this
      ensures restartDelay == delay
      ensures running == old(running) && stopped == old(stopped) && cancelled == old(cancelled)
      ensures cmd == old(cmd) && restartCount == old(restartCount) && maxRestarts == old(maxRestarts)
      ensures launches == old(launches)
    {
      restartDelay := delay;
    }

    /** `Start`: refused while running; otherwise marks the manager running
        and not stopped (the monitor is then run by the caller, see
        `Monitor`). */
    method Start() returns (err: Option<ManagerError>)
      requires Valid()
      modifies this
      ensures Valid()
      ensures err.Some? <==> old(running)
      ensures err.Some? ==> err == Some(AlreadyRunning) && running && stopped == old(stopped)
      ensures err.None? ==> running && !stopped
      ensures cmd == old(cmd) && cancelled == old(cancelled) && restartCount == old(restartCount)
      ensures maxRestarts == old(maxRestarts) && restartDelay == old(restartDelay) && launches == old(launches)
    {
      if running {
        return Some(AlreadyRunning);
      }
      running := true;
      stopped := false;
      err := None;
    }

    /** `Stop`: nothing to do unless running and not yet stopped; otherwise
        the manager is stopped, its context cancelled, and it ends not
        running. (The signals sent to the process are not modelled.) */
    method Stop()
      requires Valid()
      modifies this
      ensures Valid()
      ensures !old(running) || old(stopped) ==>
        running == old(running) && stopped == old(stopped) && cancelled == old(cancelled)
      ensures old(running) && !old(stopped) ==> stopped && cancelled && !running
      ensures cmd == old(cmd) && restartCount == old(restartCount) && maxRestarts == old(maxRestarts)
      ensures restartDelay == old(restartDelay) && launches == old(launches)
    {
      if !running || stopped {
        return;
      }
      stopped := true;
      cancelled := true;
      running := false;
    }

    /** `IsRunning`. */
    method IsRunning() returns (r: bool)
      requires Valid()
      ensures r <==> running && !stopped
      ensures r <==> running
    {
      r := running && !stopped;
    }

    /** `GetRestartCount`. */
    method GetRestartCount() returns (n: nat)
      ensures n == restartCount
    {
      n := restartCount;
    }

    /** `startProcess`, `launchOk` saying whether exec can start the
        command: an empty or blank command line fails without touching
        `cmd`; a cancelled context makes every launch fail. */
    method StartProcess(launchOk: bool) returns (err: Option<ManagerError>)
      modifies this
      ensures argv == [] ==> err == Some(EmptyCommand) && cmd == old(cmd)
      ensures argv != [] ==> cmd == Some(argv)
      ensures err.None? <==> argv != [] && launchOk && !old(cancelled)
      ensures err.Some? ==> err == Some(EmptyCommand) || err == Some(LaunchRefused)
      ensures err == Some(EmptyCommand) <==> argv == []
      ensures launches == old(launches) + (if err.None? then 1 else 0)
      ensures running == old(running) && stopped == old(stopped) && cancelled == old(cancelled)
      ensures restartCount == old(restartCount) && maxRestarts == old(maxRestarts)
      ensures restartDelay == old(restartDelay)
    {
      if argv == [] {
        return Some(EmptyCommand);
      }
      cmd := Some(argv);
      if !launchOk || cancelled {
        return Some(LaunchRefused);
      }
      launches := launches + 1;
      err := None;
    }

    /** The first half of a turn of `monitor`'s loop: check `stopped`,
        launch, and wait for the process to exit. None means it exited
        without a stop request. Each ending is stated in both directions:
        a failed launch (empty command, refused exec, cancelled context)
        ends in `LaunchFailed`, and a stop that reaches a running manager
        ends in `UserStop`. */
    method LaunchAndWait(ev: Event) returns (ending: Option<Ending>)
      requires Valid()
      modifies this
      ensures Valid()
      ensures ending.None? || ending == Some(StoppedBeforeLaunch) || ending == Some(UserStop)
              || (ending.Some? && ending.value.LaunchFailed?)
      ensures old(stopped) <==> ending == Some(StoppedBeforeLaunch)
      ensures restartCount == old(restartCount)
      ensures launches == old(launches) + (if ending.None? || ending == Some(UserStop) then 1 else 0)
      ensures ending.Some? && ending.value.LaunchFailed? ==>
        !running && (argv == [] || !ev.launchOk || old(cancelled))
      ensures ending == Some(UserStop) ==> ev.stopWhileRunning && stopped && !running
      ensures ending.None? ==> !stopped && !cancelled && running == old(running)
      ensures ending.Some? && ending.value.LaunchFailed? <==>
        !old(stopped) && !LaunchSucceeds(argv, old(cancelled), ev)
      ensures ending == Some(LaunchFailed(EmptyCommand)) <==> !old(stopped) && argv == []
      ensures ending == Some(UserStop) <==>
        !old(stopped) && LaunchSucceeds(argv, old(cancelled), ev) && ev.stopWhileRunning && old(running)
      ensures maxRestarts == old(maxRestarts) && restartDelay == old(restartDelay)
    {
      if stopped {
        return Some(StoppedBeforeLaunch);
      }
      var err := StartProcess(ev.launchOk);
      if err.Some? {
        running := false;
        return Some(LaunchFailed(err.value));
      }
      // the process runs until it exits; a Stop may come in meanwhile
      if ev.stopWhileRunning {
        Stop();
      }
      ending := if stopped then Some(UserStop) else None;
    }

    /** The second half of a turn, after an exit nobody asked for: give up
        at the restart limit, otherwise count the restart and wait the
        delay, which a Stop cuts short. None means launch again. A stop
        during the delay that reaches a running manager always ends it. */
    method RestartOrGiveUp(ev: Event) returns (ending: Option<Ending>)
      requires Valid() && !stopped && !cancelled
      modifies this
      ensures Valid()
      ensures ending.None? || ending == Some(LimitReached) || ending == Some(StoppedDuringDelay)
      ensures ending == Some(LimitReached) <==> 0 <= maxRestarts <= old(restartCount)
      ensures ending == Some(LimitReached) ==> !running && restartCount == old(restartCount)
      ensures ending != Some(LimitReached) ==> restartCount == old(restartCount) + 1
      ensures ending == Some(StoppedDuringDelay) ==> ev.stopDuringDelay && stopped && !running
      ensures ending.None? ==> !stopped && !cancelled && running == old(running)
      ensures ending == Some(StoppedDuringDelay) <==>
        !(0 <= maxRestarts <= old(restartCount)) && ev.stopDuringDelay && old(running)
      ensures launches == old(launches)
      ensures maxRestarts == old(maxRestarts) && restartDelay == old(restartDelay)
    {
      if maxRestarts >= 0 && restartCount >= maxRestarts {
        running := false;
        return Some(LimitReached);
      }
      restartCount := restartCount + 1;
      // the restart delay; a Stop cancels the context and closes the channel
      if ev.stopDuringDelay {
        Stop();
      }
      ending := if cancelled then Some(StoppedDuringDelay) else None;
    }

    /** One turn of `monitor`'s loop; None means it goes round again.
        A turn that relaunches adds exactly one restart; every other turn
        leaves the count alone except one stopped during the delay, which
        had already counted its restart. Every ending holds exactly when
        its cause does. */
    method MonitorIteration(ev: Event) returns (ending: Option<Ending>)
      requires Valid()
      modifies this
      ensures Valid()
      ensures old(stopped) <==> ending == Some(StoppedBeforeLaunch)
      ensures restartCount == old(restartCount) + (if ending.None? || ending == Some(StoppedDuringDelay) then 1 else 0)
      ensures launches == old(launches) +
        (if ending == Some(StoppedBeforeLaunch) || (ending.Some? && ending.value.LaunchFailed?) then 0 else 1)
      ensures ending.Some? && ending.value.LaunchFailed? ==>
        !running && (argv == [] || !ev.launchOk || old(cancelled))
      ensures ending == Some(LimitReached) ==> 0 <= maxRestarts <= old(restartCount) && !running
      ensures ending == Some(UserStop) ==> ev.stopWhileRunning && stopped && !running
      ensures ending.None? || ending == Some(StoppedDuringDelay) ==>
        maxRestarts < 0 || old(restartCount) < maxRestarts
      ensures ending.None? ==> !stopped && !cancelled && running == old(running)
      ensures ending.Some? && ending.value.LaunchFailed? <==>
        !old(stopped) && !LaunchSucceeds(argv, old(cancelled), ev)
      ensures ending == Some(LaunchFailed(EmptyCommand)) <==> !old(stopped) && argv == []
      ensures ending == Some(UserStop) <==>
        !old(stopped) && LaunchSucceeds(argv, old(cancelled), ev) && ev.stopWhileRunning && old(running)
      ensures ending == Some(LimitReached) <==>
        !old(stopped) && ExitsUnasked(argv, old(running), old(cancelled), ev)
        && 0 <= maxRestarts <= old(restartCount)
      ensures ending == Some(StoppedDuringDelay) <==>
        !old(stopped) && ExitsUnasked(argv, old(running), old(cancelled), ev)
        && !(0 <= maxRestarts <= old(restartCount)) && ev.stopDuringDelay && old(running)
      ensures ending.None? <==>
        !old(stopped) && ExitsUnasked(argv, old(running), old(cancelled), ev)
        && !(0 <= maxRestarts <= old(restartCount)) && !(ev.stopDuringDelay && old(running))
      ensures maxRestarts == old(maxRestarts) && restartDelay == old(restartDelay)
    {
      ending := LaunchAndWait(ev);
      if ending.None? {
        ending := RestartOrGiveUp(ev);
      }
    }

    /** `monitor`, driven by one event per launched process; None means the
        events ran out while it was still supervising. With a limit of N
        restarts and a count starting at or below N, the count never
        exceeds N and at most N - count + 1 processes are launched; when the
        limit ends supervision the count is exactly N. When the events run
        out, each of them launched a process and counted a restart, and none
        refused a launch or stopped the manager; conversely, with a live
        non-blank command, undisturbed events and the limit out of reach the
        events do run out. */
    method Monitor(events: seq<Event>) returns (ending: Option<Ending>)
      requires Valid()
      modifies this
      ensures Valid()
      ensures restartCount >= old(restartCount)
      ensures maxRestarts == old(maxRestarts)
      ensures launches - old(launches) == restartCount - old(restartCount)
        + (if ending == Some(UserStop) || ending == Some(LimitReached) then 1 else 0)
      ensures 0 <= maxRestarts && old(restartCount) <= maxRestarts ==>
        restartCount <= maxRestarts && launches - old(launches) <= maxRestarts - old(restartCount) + 1
      ensures ending == Some(LimitReached) && old(restartCount) <= maxRestarts ==> restartCount == maxRestarts
      ensures ending == Some(LimitReached) || (ending.Some? && ending.value.LaunchFailed?) ==> !running
      ensures ending.None? ==>
        restartCount == old(restartCount) + |events| && launches == old(launches) + |events|
      ensures ending.None? && events != [] ==> !stopped && !cancelled
      ensures events != [] ==> (old(stopped) <==> ending == Some(StoppedBeforeLaunch))
      ensures events != [] && !old(stopped) && argv == [] ==> ending == Some(LaunchFailed(EmptyCommand))
      ensures ending == Some(UserStop) || ending == Some(StoppedDuringDelay) ==> old(running)
      ensures ending.None? && events != [] ==> !old(stopped) && !old(cancelled) && argv != []
      ensures ending.None? ==> running == old(running)
      ensures ending.None? ==> forall k :: 0 <= k < |events| ==> Undisturbed(events[k], old(running))
      ensures !old(stopped) && !old(cancelled) && argv != []
        && (forall k :: 0 <= k < |events| ==> Undisturbed(events[k], old(running)))
        && (maxRestarts < 0 || old(restartCount) + |events| <= maxRestarts)
        ==> ending.None?
    {
      var i := 0;
      ending := None;
      while i < |events|
        invariant 0 <= i <= |events|
        invariant Valid()
        invariant maxRestarts == old(maxRestarts)
        invariant ending.None?
        invariant restartCount == old(restartCount) + i
        invariant running == old(running)
        invariant i == 0 ==> stopped == old(stopped) && cancelled == old(cancelled)
        invariant i > 0 ==> !stopped && !cancelled && !old(stopped) && !old(cancelled) && argv != []
        invariant forall k :: 0 <= k < i ==> Undisturbed(events[k], old(running))
        invariant launches - old(launches) == restartCount - old(restartCount)
        invariant 0 <= maxRestarts && old(restartCount) <= maxRestarts ==> restartCount <= maxRestarts
      {
        ending := MonitorIteration(events[i]);
        if ending.Some? {
          return;
        }
        i := i + 1;
      }
    }
  }

  /** `globalProcessManager` and `globalProcessCmdline`. */
  class Registry {
    var current: ProcessManager?
    var cmdline: string

    /** Both globals are set together, and the manager runs that command. */
    predicate Valid()
      reads this, current
    {
      && (current == null <==> cmdline == "")
      && (current != null ==> current.cmdline == cmdline && current.Valid())
    }

    constructor ()
      ensures Valid() && current == null && cmdline == ""
    {
      current := null;
      cmdline := "";
    }

    /** `startManagedProcess`: an empty command is refused; otherwise the
        previous manager is stopped if it runs or runs another command, and
        a fresh running manager for `cmdline` becomes current. */
    method StartManagedProcess(cmdline: string) returns (pm: ProcessManager?, err: Option<ManagerError>)
      requires Valid()
      modifies this, current
      ensures Valid()
      ensures cmdline == "" ==>
        pm == null && err == Some(EmptyCommand) && current == old(current) && this.cmdline == old(this.cmdline)
      ensures cmdline == "" && current != null ==>
        current.running == old(current.running) && current.stopped == old(current.stopped)
      ensures cmdline != "" ==>
        && err.None? && pm != null && fresh(pm) && current == pm && this.cmdline == cmdline
        && pm.running && !pm.stopped && !pm.cancelled && pm.restartCount == 0 && pm.maxRestarts == -1
      ensures cmdline != "" && old(current) != null ==> !old(current).running
      ensures cmdline != "" && old(current) != null && (old(current.running) || old(this.cmdline) != cmdline) ==>
        old(current).stopped || !old(current.running)
      ensures cmdline != "" && old(current) != null && old(current.running) ==>
        old(current).stopped && old(current).cancelled
    {
      if cmdline == "" {
        return null, Some(EmptyCommand);
      }
      if current != null && this.cmdline == cmdline {
        var isRunning := current.IsRunning();
        if isRunning {
          current.Stop();
        }
      } else if current != null {
        current.Stop();
      }
      var created := new ProcessManager(cmdline);
      err := created.Start();
      if err.None? {
        current := created;
        this.cmdline := cmdline;
        pm := created;
      } else {
        pm := null;
      }
    }

    /** `ensureManagedProcess(startCmd, reason)`: `started` reports whether
        a manager for `startCmd` is running afterwards. */
    method EnsureManagedProcess(startCmd: string) returns (started: bool, err: Option<ManagerError>)
      requires Valid()
      modifies this, current
      ensures Valid()
      ensures err.None?
      ensures startCmd == "" ==> !started && current == old(current) && cmdline == old(cmdline)
      ensures startCmd == "" && current != null ==>
        current.running == old(current.running) && current.stopped == old(current.stopped)
      ensures startCmd != "" ==> started && current != null && cmdline == startCmd && current.running
      ensures startCmd != "" && old(current) != null && old(current.running) && old(cmdline) == startCmd ==>
        current == old(current) && current.restartCount == old(current.restartCount)
      ensures startCmd != "" && !(old(current) != null && old(current.running) && old(cmdline) == startCmd) ==>
        fresh(current) && current.restartCount == 0
    {
      if startCmd == "" {
        return false, None;
      }
      var shouldStart := true;
      if current != null && cmdline == startCmd {
        var isRunning := current.IsRunning();
        shouldStart := !isRunning;
      }
      if !shouldStart {
        return true, None;
      }
      var pm;
      pm, err := StartManagedProcess(startCmd);
      started := err.None?;
    }

    /** `stopManagedProcess`: stops the current manager, if any, and clears
        both globals. */
    method StopManagedProcess()
      requires Valid()
      modifies this, current
      ensures Valid()
      ensures current == null && cmdline == ""
      ensures old(current) != null ==> !old(current).running
      ensures old(current) != null && old(current.running) ==> old(current).stopped && old(current).cancelled
    {
      if current != null {
        current.Stop();
        current := null;
        cmdline := "";
      }
    }
  }
}
