/**
 * `main()`: parse the delay and the optional timeout, run `wait_uptime`,
 * and turn what happened into the process exit status.
 */
module Cli {
  import opened Results
  import opened TimeParse
  import opened Uptime
  import opened Waiter

  /** The command line as argparse delivers it. */
  datatype Args = Args(delay: string, interval: real, timeout: Option<string>, verbose: bool)

  const ExitSuccess: int := 0
  const ExitError: int := 1
  const ExitTimeout: int := 2
  const ExitInterrupted: int := 130

  /** The exit status for each way `wait_uptime` can end. */
  function ExitCode(outcome: Outcome): (code: int)
    ensures code in {ExitSuccess, ExitError, ExitTimeout, ExitInterrupted}
    ensures code == ExitSuccess <==> outcome == Reached
    ensures code == ExitTimeout <==> outcome == TimedOut
    ensures code == ExitInterrupted <==> outcome == Interrupted
    ensures code == ExitError <==> outcome.UptimeFailed? || outcome.InvalidConfig?
  {
    match outcome
    case Reached => ExitSuccess
    case TimedOut => ExitTimeout
    case UptimeFailed(_) => ExitError
    case InvalidConfig(_) => ExitError
    case Interrupted => ExitInterrupted
  }

  /** The timeout argument counts only when it is given and not empty (`if args.timeout:`). */
  predicate HasTimeout(args: Args) {
    args.timeout.Some? && args.timeout.value != []
  }

  /** The arguments for `wait_uptime`, or the `ValueError` of the delay or the timeout. */
  function Configure(args: Args): (r: Result<Config, TimeError>)
    ensures r.Ok? ==> r.value.pollInterval == args.interval && r.value.verbose == args.verbose
    ensures r.Ok? ==> ParseTimeString(args.delay) == Ok(r.value.minSeconds)
    ensures r.Ok? ==> (r.value.timeout.Some? <==> HasTimeout(args))
    ensures r.Ok? && HasTimeout(args) ==> ParseTimeString(args.timeout.value) == Ok(r.value.timeout.value)
    ensures r.Err? <==> ParseTimeString(args.delay).Err? || (HasTimeout(args) && ParseTimeString(args.timeout.value).Err?)
  {
    match ParseTimeString(args.delay)
    case Err(e) => Err(e)
    case Ok(minSeconds) =>
      if !HasTimeout(args) then Ok(Config(minSeconds, args.interval, args.verbose, None))
      else
        match ParseTimeString(args.timeout.value)
        case Err(e) => Err(e)
        case Ok(t) => Ok(Config(minSeconds, args.interval, args.verbose, Some(t)))
  }

  /** Each call of `get_uptime()` reads `/proc/uptime` once more. */
  function Readings(procs: seq<ProcRead>): (rs: seq<Result<real, UptimeError>>)
    ensures |rs| == |procs|
    ensures forall n :: 0 <= n < |procs| ==> rs[n] == GetUptime(procs[n])
  {
    seq(|procs|, n requires 0 <= n < |procs| => GetUptime(procs[n]))
  }

  /** The exit status of the program, given what each read of `/proc/uptime` and of the clock returns. */
  function ExitStatus(args: Args, procs: seq<ProcRead>, clock: seq<real>): (code: int)
    ensures code in {ExitSuccess, ExitError, ExitTimeout, ExitInterrupted}
  {
    match Configure(args)
    case Err(_) => ExitError
    case Ok(cfg) => ExitCode(Wait(cfg, Readings(procs), clock).outcome)
  }

  /** An unreadable delay or timeout ends the program with status 1 before anything is read. */
  lemma BadArgumentsFail(args: Args, procs: seq<ProcRead>, clock: seq<real>)
    requires ParseTimeString(args.delay).Err? || (HasTimeout(args) && ParseTimeString(args.timeout.value).Err?)
    ensures ExitStatus(args, procs, clock) == ExitError
    ensures ExitStatus(args, procs, clock) == ExitStatus(args, [], [])
  {
  }

  /** An empty `--timeout` is the same as none. */
  lemma EmptyTimeoutIsNone(args: Args, procs: seq<ProcRead>, clock: seq<real>)
    requires args.timeout == Some([])
    ensures ExitStatus(args, procs, clock) == ExitStatus(args.(timeout := None), procs, clock)
  {
    assert Configure(args) == Configure(args.(timeout := None));
  }

  /**
   * Arguments `wait_uptime` rejects (a negative delay, an interval that is
   * not positive, a negative timeout) give status 1, whatever the system.
   */
  lemma InvalidArgumentsFail(args: Args, procs: seq<ProcRead>, clock: seq<real>)
    requires Configure(args).Ok? && !Valid(Configure(args).value)
    ensures ExitStatus(args, procs, clock) == ExitError
  {
    InvalidReadsNothing(Configure(args).value, Readings(procs), clock);
  }

  /**
   * Status 0 means some call of `get_uptime()` met the target, every call
   * before it succeeded short of the target, and the run got through to it.
   */
  lemma SuccessMeansReached(args: Args, procs: seq<ProcRead>, clock: seq<real>)
    requires ExitStatus(args, procs, clock) == ExitSuccess
    ensures Configure(args).Ok?
    ensures exists k: nat :: FirstFrom(Configure(args).value, Readings(procs), 0, k) && TestsTargetAt(Configure(args).value, clock, k)
  {
    var cfg := Configure(args).value;
    WaitReached(cfg, Readings(procs), clock);
  }

  /**
   * Status 2 only comes from a non-empty `--timeout` whose time has run
   * out: some timeout test of the loop found the elapsed time at the
   * timeout while every call of `get_uptime()` so far, the first one
   * included, was short of the target.
   */
  lemma TimeoutNeedsTimeout(args: Args, procs: seq<ProcRead>, clock: seq<real>)
    requires ExitStatus(args, procs, clock) == ExitTimeout
    ensures HasTimeout(args) && Configure(args).Ok? && clock != []
    ensures Below(Configure(args).value, Readings(procs), 0, 1)
    ensures exists m: nat :: TimesOutAt(Configure(args).value, Readings(procs), clock, clock[0], 1, 1, m)
  {
    var cfg := Configure(args).value;
    WaitTimedOut(cfg, Readings(procs), clock);
    var m: nat :| EndsTimedOutAt(cfg, Readings(procs), clock, clock[0], 1, 1, m, Wait(cfg, Readings(procs), clock).events);
  }

  /**
   * With valid arguments, timeout or not, the program exits with 0 at the
   * first call of `get_uptime()` that meets the target, provided the run
   * gets through to it.
   */
  lemma ReachingTargetSucceeds(args: Args, procs: seq<ProcRead>, clock: seq<real>, k: nat)
    requires Configure(args).Ok? && Valid(Configure(args).value)
    requires FirstFrom(Configure(args).value, Readings(procs), 0, k) && TestsTargetAt(Configure(args).value, clock, k)
    ensures ExitStatus(args, procs, clock) == ExitSuccess
  {
    WaitReachesTarget(Configure(args).value, Readings(procs), clock, k);
  }

  /**
   * With valid arguments, the program exits with 2 when the first call of
   * `get_uptime()` is short of the target and some later timeout test
   * finds the elapsed time at the timeout, every call before it having
   * succeeded short of the target.
   */
  lemma TimingOutExits(args: Args, procs: seq<ProcRead>, clock: seq<real>, m: nat)
    requires Configure(args).Ok? && Valid(Configure(args).value)
    requires clock != [] && Below(Configure(args).value, Readings(procs), 0, 1)
    requires TimesOutAt(Configure(args).value, Readings(procs), clock, clock[0], 1, 1, m)
    ensures ExitStatus(args, procs, clock) == ExitTimeout
  {
    WaitTimesOut(Configure(args).value, Readings(procs), clock, m);
  }

  /**
   * With valid arguments, a failed read of `/proc/uptime` (missing,
   * unreadable, or without a non-negative number as first field) ends the
   * program with status 1 as soon as the run gets through to it, when every
   * earlier read was short of the target.
   */
  lemma FailedReadFails(args: Args, procs: seq<ProcRead>, clock: seq<real>, k: nat)
    requires Configure(args).Ok? && Valid(Configure(args).value)
    requires k < |procs| && Below(Configure(args).value, Readings(procs), 0, k) && GetUptime(procs[k]).Err?
    requires RunsTo(Configure(args).value, clock, k)
    ensures ExitStatus(args, procs, clock) == ExitError
  {
    WaitFails(Configure(args).value, Readings(procs), clock, k);
  }

  /** With valid arguments, a missing or unreadable `/proc/uptime` at the first read gives status 1. */
  lemma NoUptimeFails(args: Args, procs: seq<ProcRead>, clock: seq<real>)
    requires Configure(args).Ok? && Valid(Configure(args).value)
    requires procs != [] && (procs[0].Missing? || procs[0].Unreadable?) && clock != []
    ensures ExitStatus(args, procs, clock) == ExitError
  {
    FailedReadFails(args, procs, clock, 0);
  }
}
