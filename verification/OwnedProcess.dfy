/**
  Containment of one child process and its group, against a kernel that takes steps of its own
  between any two system calls: the child may exit, and once it has been reaped its PID may be
  given to a stranger.
*/
module OwnedProcess {
  import opened Basics

  datatype Exit = Exited(code: int) | Killed(signal: int) | Dumped(signal: int)

  function ReturnCode(e: Exit): int {
    match e case Exited(code) => code case Killed(signal) => -signal case Dumped(signal) => -signal
  }

  /** A zombie keeps its PID until it is reaped. */
  datatype Child = Running | Zombie(exit: Exit) | Reaped(exit: Exit)

  /** How much of the identity check comes right before the next call: none, a wait that saw our child, its group. */
  datatype Vetting = Unvetted | Waitable | Leader

  /** A group signal: our child and the check at that moment, whether it hit a stranger, whether it was delivered. */
  datatype Signal = Signal(child: Child, vetting: Vetting, toStranger: bool, delivered: bool)

  /** What waitid reports; Other stands for the codes that are not terminal. */
  datatype Observation = Terminal(pid: int, exit: Exit) | Other(pid: int)

  datatype Error =
    | InvalidBudget | ObservationFailed | IdentityDiffers | NotTerminal | InvalidIdentity | GroupDiffers
    | CleanupFailed | TimeoutExpired | ReapFailed | StatusDiffers

  function Delivered(signals: seq<Signal>): nat {
    if signals == [] then 0
    else Delivered(signals[..|signals| - 1]) + if signals[|signals| - 1].delivered then 1 else 0
  }

  class Kernel {
    const pid: int
    var child: Child
    /** True when the PID and group id name someone else's process. */
    var stranger: bool
    var clock: real
    ghost var signals: seq<Signal>
    ghost var vetting: Vetting
    /** A call has failed, or the group was not the child's own. */
    ghost var troubled: bool
    ghost var longestSleep: real

    ghost predicate Valid()
      reads this
    {
      !child.Reaped? ==> !stranger
    }

    /** A new session leader, running. */
    constructor (pid: int, now: real)
      ensures Valid() && this.pid == pid && child == Running && signals == [] && !troubled
    {
      troubled, longestSleep := false, 0.0;
      this.pid, child, stranger, clock, signals, vetting := pid, Running, false, now, [], Unvetted;
    }

    /** The kernel's own steps. */
    twostate predicate Stepped()
      reads this
    {
      && Valid() && clock >= old(clock) && signals == old(signals) && (old(troubled) ==> troubled)
      && (old(child).Running? ==> !child.Reaped?)
      && (!old(child).Running? ==> child == old(child))
    }

    /** No sleep has been longer than the quantum, unless one was before. */
    twostate predicate SleptBriefly()
      reads this
    {
      longestSleep <= 0.025 || longestSleep == old(longestSleep)
    }

    method Evolve()
      requires Valid()
      modifies this
      ensures Stepped() && vetting == old(vetting) && troubled == old(troubled) && longestSleep == old(longestSleep)
    {
      var exits: bool, exit: Exit, reused: bool, passed: nat := *, *, *, *;
      if child.Running? && exits {
        child := Zombie(exit);
      }
      if child.Reaped? {
        stranger := reused;
      }
      clock := clock + passed as real;
    }

    method Now() returns (now: real)
      requires Valid()
      modifies this
      ensures Stepped() && now == clock && troubled == old(troubled) && longestSleep == old(longestSleep)
    {
      Evolve();
      vetting := Unvetted;
      now := clock;
    }

    method Sleep(d: real)
      requires Valid() && d >= 0.0
      modifies this
      ensures Stepped() && clock >= old(clock) + d && troubled == old(troubled)
      ensures longestSleep == if d > old(longestSleep) then d else old(longestSleep)
    {
      Evolve();
      vetting := Unvetted;
      clock := clock + d;
      longestSleep := if d > longestSleep then d else longestSleep;
    }

    /** waitid without reaping and without blocking; Err is an OSError. */
    method Waitid() returns (r: Result<Option<Observation>, ()>)
      requires Valid()
      modifies this
      ensures Stepped() && longestSleep == old(longestSleep)
      ensures r.Ok? ==> r.value == if child.Zombie? then Some(Terminal(pid, child.exit)) else None
      ensures r.Ok? ==> !child.Reaped?
      ensures vetting == if r.Ok? then Waitable else Unvetted
      ensures !old(child).Reaped? ==> troubled == (old(troubled) || r.Err?)
    {
      Evolve();
      vetting := Unvetted;
      var fails: bool := *;
      if fails || child.Reaped? {
        troubled := true;
        return Err(());
      }
      vetting := Waitable;
      return Ok(if child.Zombie? then Some(Terminal(pid, child.exit)) else None);
    }

    /** Whether the group and session of the PID are the PID itself; Err is an OSError. */
    method LeadsGroup() returns (r: Result<bool, ()>)
      requires Valid()
      modifies this
      ensures Stepped() && longestSleep == old(longestSleep)
      ensures vetting == if r == Ok(true) && old(vetting).Waitable? then Leader else Unvetted
      ensures troubled == (old(troubled) || r != Ok(true))
    {
      Evolve();
      var fails: bool, leads: bool := *, *;
      vetting := if !fails && leads && vetting.Waitable? then Leader else Unvetted;
      troubled := troubled || fails || !leads;
      return if fails then Err(()) else Ok(leads);
    }

    /** Sends SIGKILL to whatever group has this id now. */
    method Killpg() returns (delivered: bool)
      requires Valid()
      modifies this
      ensures Valid() && clock >= old(clock)
      ensures old(child).Running? ==> !child.Reaped?
      ensures !old(child).Running? ==> child == old(child)
      ensures signals == old(signals) + [Signal(child, old(vetting), stranger, delivered)]
      ensures longestSleep == old(longestSleep)
      ensures troubled == (old(troubled) || !delivered)
    {
      Evolve();
      delivered := *;
      troubled := troubled || !delivered;
      signals := signals + [Signal(child, vetting, stranger, delivered)];
      vetting := Unvetted;
    }

    /** Popen.wait: reaps a zombie at once; Err(true) is a timeout, Err(false) an OSError. */
    method Reap() returns (r: Result<int, bool>)
      requires Valid()
      modifies this
      ensures Valid() && clock >= old(clock) && signals == old(signals) && longestSleep == old(longestSleep)
      ensures r.Ok? ==> child.Reaped? && r.value == ReturnCode(child.exit)
      ensures r.Ok? && old(child).Zombie? ==> child == Reaped(old(child).exit)
      ensures r.Err? ==> Stepped()
      ensures r == Err(true) ==> child.Running?
      ensures !old(child).Reaped? ==> troubled == (old(troubled) || r == Err(false))
    {
      Evolve();
      vetting := Unvetted;
      var fails: bool := *;
      if fails || child.Reaped? {
        troubled := true;
        return Err(false);
      }
      if child.Running? {
        return Err(true);
      }
      child := Reaped(child.exit);
      return Ok(ReturnCode(child.exit));
    }
  }

  class Process {
    const kernel: Kernel
    var returncode: Option<int>
    var reaped: bool
    var groupCleaned: bool

    /**
      Signals reached only our own unreaped child's group, each right after a check of its identity; one at most had
      effect, and one came before any reap.
    */
    ghost predicate Valid()
      reads this, kernel
    {
      && kernel.Valid()
      && (reaped <==> kernel.child.Reaped?)
      && (reaped ==> groupCleaned && returncode.Some?)
      && (returncode.Some? ==> !kernel.child.Running? && returncode.value == ReturnCode(kernel.child.exit))
      && Delivered(kernel.signals) == (if groupCleaned then 1 else 0)
      && (kernel.signals != [] ==> kernel.pid > 1)
      && forall i :: 0 <= i < |kernel.signals| ==>
           !kernel.signals[i].child.Reaped? && !kernel.signals[i].toStranger && kernel.signals[i].vetting.Leader?
    }

    constructor (pid: int, now: real)
      ensures Valid() && fresh(kernel) && returncode.None? && !reaped && !groupCleaned
    {
      kernel := new Kernel(pid, now);
      returncode, reaped, groupCleaned := None, false, false;
    }

    /** What every call keeps: the return code once set, a reap, and the signals already sent. */
    twostate predicate Kept()
      reads this, kernel
    {
      && Valid()
      && (old(returncode).Some? ==> returncode == old(returncode))
      && (old(reaped) ==> reaped)
      && (old(groupCleaned) ==> groupCleaned)
      && old(kernel.signals) <= kernel.signals
      && old(kernel.clock) <= kernel.clock && (old(kernel.troubled) ==> kernel.troubled)
      && kernel.SleptBriefly()
      && (!old(kernel.child).Running? ==>
          kernel.child == old(kernel.child) || (reaped && kernel.child.exit == old(kernel.child.exit)))
    }

    method Poll() returns (r: Result<Option<int>, Error>)
      requires Valid()
      modifies this, kernel
      ensures Kept() && kernel.signals == old(kernel.signals) && reaped == old(reaped)
      ensures groupCleaned == old(groupCleaned)
      ensures r.Ok? ==> r.value == returncode || r.value.None?
      ensures r.Ok? ==> (r.value.None? <==> kernel.child.Running?)
      ensures r.Err? ==> r.error == ObservationFailed && kernel.troubled
      ensures r.Ok? ==> kernel.troubled == old(kernel.troubled)
      ensures r.Ok? && !reaped ==> kernel.vetting.Waitable?
      ensures r.Ok? && r.value.Some? ==>
                match kernel.child.exit
                case Exited(code) => r.value == Some(code)
                case Killed(signal) => r.value == Some(-signal)
                case Dumped(signal) => r.value == Some(-signal)
    {
      if reaped {
        return Ok(returncode);
      }
      var observed := kernel.Waitid();
      if observed.Err? {
        return Err(ObservationFailed);
      }
      if observed.value.None? {
        return Ok(None);
      }
      if observed.value.value.pid != kernel.pid {
        return Err(IdentityDiffers);
      }
      match observed.value.value {
        case Terminal(_, exit) => returncode := Some(ReturnCode(exit));
        case Other(_) => return Err(NotTerminal);
      }
      return Ok(returncode);
    }

    /** Kills the group only while its leader is still our unreaped child, and never twice. */
    method KillGroup() returns (r: Result<(), Error>)
      requires Valid()
      modifies this, kernel
      ensures Kept() && reaped == old(reaped)
      ensures r.Ok? ==> reaped || groupCleaned
      ensures r.Err? ==> r.error in {InvalidIdentity, ObservationFailed, CleanupFailed, GroupDiffers}
      ensures r.Err? ==> if r.error.InvalidIdentity? then kernel.pid <= 1 else kernel.troubled
      ensures r.Ok? ==> kernel.troubled == old(kernel.troubled)
      ensures old(reaped) || old(groupCleaned) ==> r.Ok? && kernel.signals == old(kernel.signals)
    {
      if reaped || groupCleaned {
        return Ok(());
      }
      if kernel.pid <= 1 {
        return Err(InvalidIdentity);
      }
      var polled := Poll();
      if polled.Err? {
        return Err(polled.error);
      }
      var leads := kernel.LeadsGroup();
      if leads.Err? {
        return Err(CleanupFailed);
      }
      if !leads.value {
        return Err(GroupDiffers);
      }
      r := Deliver();
    }

    /** The signal itself, right after the checks. */
    method Deliver() returns (r: Result<(), Error>)
      requires Valid() && !reaped && !groupCleaned && kernel.pid > 1 && kernel.vetting.Leader?
      modifies this`groupCleaned, kernel
      ensures Kept() && returncode == old(returncode) && reaped == old(reaped)
      ensures r.Ok? ==> groupCleaned && kernel.troubled == old(kernel.troubled)
      ensures r.Err? ==> r.error == CleanupFailed && kernel.troubled
    {
      var delivered := kernel.Killpg();
      if !delivered {
        return Err(CleanupFailed);
      }
      groupCleaned := true;
      return Ok(());
    }

    static const QUANTUM := 0.025

    static lemma SleepsFit(sleeps: nat, timeout: real, budget: int)
      requires timeout >= 0.0 && budget == (timeout / QUANTUM).Floor + 2
      requires sleeps == 0 || (sleeps - 1) as real * QUANTUM < timeout
      ensures sleeps < budget
    {
    }

    /** Polls until the child has exited or the budget is spent; counts the rounds that slept. */
    method AwaitExit(deadline: real, ghost timeout: real) returns (r: Result<(), Error>, ghost sleeps: nat)
      requires Valid() && !reaped && deadline == kernel.clock + timeout && timeout >= 0.0
      modifies this, kernel
      ensures Kept() && !reaped && groupCleaned == old(groupCleaned) && kernel.signals == old(kernel.signals)
      ensures r.Ok? ==> returncode.Some?
      ensures r.Err? ==>
                || (r.error == ObservationFailed && kernel.troubled)
                || (r.error == TimeoutExpired && kernel.clock >= deadline)
      ensures r.Ok? ==> kernel.troubled == old(kernel.troubled)
      ensures sleeps == 0 || (sleeps - 1) as real * QUANTUM < timeout
    {
      sleeps := 0;
      ghost var start, budget := kernel.clock, (timeout / QUANTUM).Floor + 2;
      var polled := Poll();
      while polled.Ok? && polled.value.None?
        invariant Kept() && !reaped && groupCleaned == old(groupCleaned) && kernel.signals == old(kernel.signals)
        invariant polled.Ok? && polled.value.Some? ==> returncode.Some?
        invariant polled.Err? ==> polled.error == ObservationFailed && kernel.troubled
        invariant polled.Ok? ==> kernel.troubled == old(kernel.troubled)
        invariant start <= kernel.clock
        invariant sleeps == 0 || (sleeps - 1) as real * QUANTUM < timeout
        invariant deadline <= kernel.clock || sleeps as real * QUANTUM <= kernel.clock - start
        decreases budget - sleeps
      {
        SleepsFit(sleeps, timeout, budget);
        var now := kernel.Now();
        if now >= deadline {
          return Err(TimeoutExpired), sleeps;
        }
        now := kernel.Now();
        kernel.Sleep(if deadline - now < 0.0 then 0.0
                     else if deadline - now < QUANTUM then deadline - now
                     else QUANTUM);
        sleeps := sleeps + 1;
        polled := Poll();
      }
      if polled.Err? {
        return Err(polled.error), sleeps;
      }
      return Ok(()), sleeps;
    }

    /**
      Waits within a finite budget, kills the group, then reaps.  The rounds of the polling loop, the last of which
      may give up without sleeping, number less than timeout / 0.025 + 2.
    */
    method Wait(timeout: Option<real>) returns (r: Result<int, Error>, ghost rounds: nat)
      requires Valid()
      modifies this, kernel
      ensures Kept()
      ensures r.Ok? ==> reaped && groupCleaned && returncode == Some(r.value)
      ensures r == Err(InvalidBudget) <==> timeout.None? || timeout.value < 0.0
      ensures r == Err(InvalidIdentity) ==> kernel.pid <= 1
      ensures r == Err(TimeoutExpired) ==> kernel.clock >= old(kernel.clock) + timeout.value && !reaped
      ensures r.Err? && r.error !in {InvalidBudget, InvalidIdentity, TimeoutExpired} ==> kernel.troubled
      ensures r.Err? ==> r.error != StatusDiffers && r.error != IdentityDiffers && r.error != NotTerminal
      ensures old(reaped) ==> kernel.signals == old(kernel.signals)
      ensures timeout.Some? && timeout.value >= 0.0 && rounds > 0 ==> rounds as real < timeout.value / 0.025 + 2.0
    {
      rounds := 0;
      if timeout.None? || timeout.value < 0.0 {
        return Err(InvalidBudget), rounds;
      }
      if reaped {
        return Ok(returncode.value), rounds;
      }
      var now := kernel.Now();
      var deadline := now + timeout.value;
      var exited;
      exited, rounds := AwaitExit(deadline, timeout.value);
      rounds := rounds + 1;
      if exited.Err? {
        return Err(exited.error), rounds;
      }
      var cleaned := KillGroup();
      if cleaned.Err? {
        return Err(cleaned.error), rounds;
      }
      var status := kernel.Reap();
      if status.Err? {
        return Err(if status.error then TimeoutExpired else ReapFailed), rounds;
      }
      reaped := true;
      if Some(status.value) != returncode {
        return Err(StatusDiffers), rounds;
      }
      return Ok(status.value), rounds;
    }

    method Cleanup(timeout: Option<real>) returns (r: Result<int, Error>)
      requires Valid()
      modifies this, kernel
      ensures Kept()
      ensures r.Ok? ==> reaped && groupCleaned && returncode == Some(r.value)
      ensures r == Err(InvalidBudget) <==> timeout.None? || timeout.value < 0.0
      ensures r == Err(InvalidIdentity) ==> kernel.pid <= 1
      ensures r == Err(TimeoutExpired) ==> kernel.clock >= old(kernel.clock) + timeout.value && groupCleaned && !reaped
      ensures r.Err? && r.error !in {InvalidBudget, InvalidIdentity, TimeoutExpired} ==> kernel.troubled
    {
      if timeout.None? || timeout.value < 0.0 {
        return Err(InvalidBudget);
      }
      if !reaped {
        var cleaned := KillGroup();
        if cleaned.Err? {
          return Err(cleaned.error);
        }
      }
      ghost var rounds;
      r, rounds := Wait(timeout);
    }
  }

  /** Any sequence of calls: `Valid` and the history of signals are kept throughout. */
  method Sequences(p: Process, calls: nat)
    requires p.Valid()
    modifies p, p.kernel
    ensures p.Kept()
  {
    for i := 0 to calls
      invariant p.Kept()
    {
      var action: nat, timeout: Option<real> := *, *;
      if action == 0 {
        var polled := p.Poll();
      } else if action == 1 {
        var killed := p.KillGroup();
      } else if action == 2 {
        ghost var rounds;
        var waited;
        waited, rounds := p.Wait(timeout);
      } else {
        var cleaned := p.Cleanup(timeout);
      }
    }
  }
}
