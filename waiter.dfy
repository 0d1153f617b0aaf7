/**
 * `wait_uptime`: validate the arguments, then poll the uptime until it
 * reaches the target, the optional timeout expires, or reading it fails.
 *
 * The environment is given as two finite traces: the successive results of
 * `get_uptime()` and the successive values of `time.time()`. Needing a value
 * beyond the end of either trace is read as the operator pressing Ctrl-C at
 * that point (`KeyboardInterrupt`). Sleeping and logging are recorded as
 * events rather than performed.
 */
module Waiter {
  import opened Results
  import opened Uptime

  datatype Config = Config(minSeconds: real, pollInterval: real, verbose: bool, timeout: Option<real>)

  /** The three `ValueError`s raised before anything is read. */
  datatype ConfigError = NegativeTarget | NonPositiveInterval | NegativeTimeout

  /** What the function logs or does, in order. */
  datatype Event =
    | AlreadyMet(current: real, target: real)
    | Waiting(target: real, current: real, remaining: real)
    | Progress(at: real, current: real, remaining: real)
    | TargetReached(current: real, waited: real)
    | TimeoutReached(elapsed: real, current: real, target: real)
    | InterruptedByUser
    | Slept(seconds: real)

  /** `True`, `False`, or the exception that leaves the function. */
  datatype Outcome =
    | Reached
    | TimedOut
    | UptimeFailed(error: UptimeError)
    | InvalidConfig(reason: ConfigError)
    | Interrupted

  datatype Run = Run(outcome: Outcome, events: seq<Event>)

  /** One pass of the polling loop either ends the run or goes round again. */
  datatype Step =
    | Stop(outcome: Outcome, events: seq<Event>)
    | Next(clockIndex: nat, lastLog: real, events: seq<Event>)

  /** Seconds between two progress messages. */
  const LogInterval: real := 10.0

  /** The number of sleeps among the events. */
  function Sleeps(events: seq<Event>): nat {
    if events == [] then 0
    else (if events[0].Slept? then 1 else 0) + Sleeps(events[1..])
  }

  /** Every sleep lasts `d` seconds. */
  predicate SleepsLast(events: seq<Event>, d: real) {
    forall n :: 0 <= n < |events| && events[n].Slept? ==> events[n].seconds == d
  }

  /** The times at which progress messages were logged, in order. */
  function ProgressTimes(events: seq<Event>): seq<real> {
    if events == [] then []
    else (if events[0].Progress? then [events[0].at] else []) + ProgressTimes(events[1..])
  }

  /** Each time comes at least `LogInterval` after the one before, the first after `from`. */
  predicate Spaced(times: seq<real>, from: real) {
    times == [] || (times[0] - from >= LogInterval && Spaced(times[1..], times[0]))
  }

  predicate AtTarget(cfg: Config, reading: Result<real, UptimeError>) {
    reading.Ok? && reading.value >= cfg.minSeconds
  }

  /** Readings `a` up to `b` all succeeded and were short of the target. */
  predicate Below(cfg: Config, readings: seq<Result<real, UptimeError>>, a: nat, b: nat) {
    a <= b <= |readings| &&
    forall n :: a <= n < b ==> readings[n].Ok? && readings[n].value < cfg.minSeconds
  }

  /** Reading `k` is the first one from `i` on to reach the target. */
  predicate FirstFrom(cfg: Config, readings: seq<Result<real, UptimeError>>, i: nat, k: nat) {
    k < |readings| && Below(cfg, readings, i, k) && AtTarget(cfg, readings[k])
  }

  predicate Valid(cfg: Config) {
    && 0.0 <= cfg.minSeconds
    && 0.0 < cfg.pollInterval
    && (cfg.timeout.Some? ==> 0.0 <= cfg.timeout.value)
  }

  /** The argument checks, in the order the function makes them. */
  function Validate(cfg: Config): (r: Option<ConfigError>)
    ensures r.None? <==> Valid(cfg)
    ensures r == Some(NegativeTarget) <==> cfg.minSeconds < 0.0
    ensures r == Some(NonPositiveInterval) <==> 0.0 <= cfg.minSeconds && cfg.pollInterval <= 0.0
    ensures r == Some(NegativeTimeout) <==>
      0.0 <= cfg.minSeconds && 0.0 < cfg.pollInterval && cfg.timeout.Some? && cfg.timeout.value < 0.0
  {
    if cfg.minSeconds < 0.0 then Some(NegativeTarget)
    else if cfg.pollInterval <= 0.0 then Some(NonPositiveInterval)
    else if cfg.timeout.Some? && cfg.timeout.value < 0.0 then Some(NegativeTimeout)
    else None
  }

  function Prepend(events: seq<Event>, run: Run): Run {
    Run(run.outcome, events + run.events)
  }

  /** The whole call, from the argument checks to the value returned or raised. */
  function Wait(cfg: Config, readings: seq<Result<real, UptimeError>>, clock: seq<real>): (run: Run)
    ensures run.outcome.InvalidConfig? <==> !Valid(cfg)
    ensures run.outcome.InvalidConfig? ==> run.events == []
  {
    match Validate(cfg)
    case Some(e) => Run(InvalidConfig(e), [])
    case None =>
      if clock == [] || readings == [] then Run(Interrupted, [])
      else
        match readings[0]
        case Err(e) => Run(UptimeFailed(e), [])
        case Ok(u) =>
          if u >= cfg.minSeconds then Run(Reached, [AlreadyMet(u, cfg.minSeconds)])
          else
            Prepend([Waiting(cfg.minSeconds, u, cfg.minSeconds - u)],
                    Poll(cfg, readings, clock, clock[0], clock[0], 1, 1))
  }

  /**
   * The `while True` loop, entered with reading `i` and clock value `j` next.
   * It never raises `ValueError`, and when it is interrupted its last event
   * is the `interrupted by user` message.
   */
  function Poll(cfg: Config, readings: seq<Result<real, UptimeError>>, clock: seq<real>,
                start: real, lastLog: real, i: nat, j: nat): (run: Run)
    ensures !run.outcome.InvalidConfig?
    ensures run.outcome == Interrupted ==> run.events != [] && run.events[|run.events| - 1] == InterruptedByUser
    decreases |readings| - i
  {
    if i >= |readings| then Run(Interrupted, [InterruptedByUser])
    else
      match Iterate(cfg, readings[i], clock, start, lastLog, j)
      case Stop(outcome, events) => Run(outcome, events)
      case Next(j', lastLog', events) =>
        Prepend(events, Poll(cfg, readings, clock, start, lastLog', i + 1, j'))
  }

  /** One pass of the loop body, given the uptime read at its top. */
  function Iterate(cfg: Config, reading: Result<real, UptimeError>, clock: seq<real>,
                   start: real, lastLog: real, j: nat): (r: Step)
    ensures r.Next? ==> reading.Ok? && reading.value < cfg.minSeconds
    ensures r.Stop? && r.outcome == Interrupted ==> r.events == [InterruptedByUser]
  {
    match reading
    case Err(e) => Stop(UptimeFailed(e), [])
    case Ok(u) =>
      if u >= cfg.minSeconds then
        if j < |clock| then Stop(Reached, [TargetReached(u, clock[j] - start)])
        else Stop(Interrupted, [InterruptedByUser])
      else CheckTimeout(cfg, u, clock, start, lastLog, j)
  }

  /**
   * The timeout test of the loop body, made only when a timeout was given:
   * it returns `False` exactly when the clock value it reads is at least
   * the timeout after the start, and the message it logs carries that
   * elapsed time and the reading.
   */
  function CheckTimeout(cfg: Config, u: real, clock: seq<real>, start: real, lastLog: real, j: nat): (r: Step)
    ensures r.Stop? && r.outcome == TimedOut <==>
      cfg.timeout.Some? && j < |clock| && clock[j] - start >= cfg.timeout.value
    ensures r.Stop? && r.outcome == TimedOut ==> r.events == [TimeoutReached(clock[j] - start, u, cfg.minSeconds)]
    ensures r.Stop? ==> r.outcome == TimedOut || r == Stop(Interrupted, [InterruptedByUser])
    ensures r.Next? && cfg.timeout.Some? ==> j < |clock| && clock[j] - start < cfg.timeout.value
  {
    if cfg.timeout.None? then CheckProgress(cfg, u, clock, lastLog, j)
    else if j >= |clock| then Stop(Interrupted, [InterruptedByUser])
    else if clock[j] - start >= cfg.timeout.value then
      Stop(TimedOut, [TimeoutReached(clock[j] - start, u, cfg.minSeconds)])
    else CheckProgress(cfg, u, clock, lastLog, j + 1)
  }

  /**
   * The verbose progress message, then the sleep. A pass that goes on ends
   * with one sleep of the poll interval; when verbose it reads one clock
   * value and logs progress exactly when that value is at least
   * `LogInterval` after the last progress time, which it then becomes.
   */
  function CheckProgress(cfg: Config, u: real, clock: seq<real>, lastLog: real, j: nat): (r: Step)
    ensures r.Stop? <==> cfg.verbose && j >= |clock|
    ensures r.Stop? ==> r == Stop(Interrupted, [InterruptedByUser])
    ensures r.Next? ==> r.clockIndex == (if cfg.verbose then j + 1 else j)
    ensures r.Next? ==> r.events != [] && r.events[|r.events| - 1] == Slept(cfg.pollInterval)
    ensures r.Next? ==>
      (r.events[0].Progress? <==> cfg.verbose && j < |clock| && clock[j] - lastLog >= LogInterval)
    ensures r.Next? && r.events[0].Progress? ==>
      j < |clock| && r.lastLog == r.events[0].at == clock[j] && r.events[0].current == u
    ensures r.Next? && !r.events[0].Progress? ==> r.lastLog == lastLog && r.events == [Slept(cfg.pollInterval)]
  {
    if !cfg.verbose then Next(j, lastLog, [Slept(cfg.pollInterval)])
    else if j >= |clock| then Stop(Interrupted, [InterruptedByUser])
    else if clock[j] - lastLog >= LogInterval then
      Next(j + 1, clock[j], [Progress(clock[j], u, cfg.minSeconds - u), Slept(cfg.pollInterval)])
    else Next(j + 1, lastLog, [Slept(cfg.pollInterval)])
  }

  lemma PrependAppend(a: seq<Event>, b: seq<Event>, run: Run)
    ensures Prepend(a, Prepend(b, run)) == Prepend(a + b, run)
  {
    assert a + (b + run.events) == a + b + run.events;
  }

  /**
   * `wait_uptime` itself: each `get_uptime()` takes the next reading, each
   * `time.time()` the next clock value. It returns exactly what `Wait`
   * describes.
   */
  method WaitUptime(cfg: Config, readings: seq<Result<real, UptimeError>>, clock: seq<real>)
    returns (outcome: Outcome, events: seq<Event>)
    ensures Run(outcome, events) == Wait(cfg, readings, clock)
  {
    if cfg.minSeconds < 0.0 {
      return InvalidConfig(NegativeTarget), [];
    }
    if cfg.pollInterval <= 0.0 {
      return InvalidConfig(NonPositiveInterval), [];
    }
    if cfg.timeout.Some? && cfg.timeout.value < 0.0 {
      return InvalidConfig(NegativeTimeout), [];
    }
    if clock == [] || readings == [] {
      return Interrupted, [];
    }
    var start := clock[0];
    var initial := readings[0];
    if initial.Err? {
      return UptimeFailed(initial.error), [];
    }
    if initial.value >= cfg.minSeconds {
      return Reached, [AlreadyMet(initial.value, cfg.minSeconds)];
    }
    var waiting := [Waiting(cfg.minSeconds, initial.value, cfg.minSeconds - initial.value)];
    outcome, events := PollLoop(cfg, readings, clock, start, waiting);
  }

  /**
   * The `while True` loop of `wait_uptime`, entered after the first reading
   * with `prefix` already logged.
   */
  method PollLoop(cfg: Config, readings: seq<Result<real, UptimeError>>, clock: seq<real>,
                  start: real, prefix: seq<Event>)
    returns (outcome: Outcome, events: seq<Event>)
    requires readings != [] && clock != []
    ensures Run(outcome, events) == Prepend(prefix, Poll(cfg, readings, clock, start, start, 1, 1))
  {
    events := prefix;
    var lastLog := start;
    var i, j := 1, 1;
    while true
      invariant 1 <= i <= |readings|
      invariant Prepend(prefix, Poll(cfg, readings, clock, start, start, 1, 1))
             == Prepend(events, Poll(cfg, readings, clock, start, lastLog, i, j))
      decreases |readings| - i
    {
      if i == |readings| {
        return Interrupted, events + [InterruptedByUser];
      }
      PollUnfold(cfg, readings, clock, start, lastLog, i, j);
      var step := Pass(cfg, readings[i], clock, start, lastLog, j);
      if step.Stop? {
        return step.outcome, events + step.events;
      }
      PrependAppend(events, step.events, Poll(cfg, readings, clock, start, step.lastLog, i + 1, step.clockIndex));
      events := events + step.events;
      lastLog, j, i := step.lastLog, step.clockIndex, i + 1;
    }
  }

  /**
   * The body of the `while True` loop after `get_uptime()`: the target
   * test, the timeout test and the progress message, each `time.time()`
   * taking the next clock value from index `j` on, then the sleep.  It
   * does exactly what `Iterate` describes.
   */
  method Pass(cfg: Config, reading: Result<real, UptimeError>, clock: seq<real>,
              start: real, lastLog: real, j: nat)
    returns (step: Step)
    ensures step == Iterate(cfg, reading, clock, start, lastLog, j)
  {
    if reading.Err? {
      return Stop(UptimeFailed(reading.error), []);
    }
    var current := reading.value;
    if current >= cfg.minSeconds {
      if j >= |clock| {
        return Stop(Interrupted, [InterruptedByUser]);
      }
      return Stop(Reached, [TargetReached(current, clock[j] - start)]);
    }
    var k := j;
    if cfg.timeout.Some? {
      if k >= |clock| {
        return Stop(Interrupted, [InterruptedByUser]);
      }
      var elapsed := clock[k] - start;
      if elapsed >= cfg.timeout.value {
        return Stop(TimedOut, [TimeoutReached(elapsed, current, cfg.minSeconds)]);
      }
      k := k + 1;
    }
    var logged: seq<Event> := [];
    var last := lastLog;
    if cfg.verbose {
      if k >= |clock| {
        return Stop(Interrupted, [InterruptedByUser]);
      }
      var now := clock[k];
      k := k + 1;
      if now - last >= LogInterval {
        logged := [Progress(now, current, cfg.minSeconds - current)];
        last := now;
      }
    }
    return Next(k, last, logged + [Slept(cfg.pollInterval)]);
  }

  lemma {:induction false} SleepsAppend(a: seq<Event>, b: seq<Event>)
    ensures Sleeps(a + b) == Sleeps(a) + Sleeps(b)
    decreases |a|
  {
    if a != [] {
      assert (a + b)[1..] == a[1..] + b;
      SleepsAppend(a[1..], b);
    } else {
      assert a + b == b;
    }
  }

  lemma {:induction false} ProgressTimesAppend(a: seq<Event>, b: seq<Event>)
    ensures ProgressTimes(a + b) == ProgressTimes(a) + ProgressTimes(b)
    decreases |a|
  {
    if a != [] {
      assert (a + b)[1..] == a[1..] + b;
      ProgressTimesAppend(a[1..], b);
    } else {
      assert a + b == b;
    }
  }

  /**
   * The clock index reached after `n` passes from `j` that go on: each
   * reads one clock value for the timeout test when there is a timeout and
   * one for the progress test when verbose.
   */
  function ClockAfter(cfg: Config, j: nat, n: nat): nat {
    j + (if cfg.timeout.Some? then n else 0) + (if cfg.verbose then n else 0)
  }

  /**
   * The `n` passes from clock index `j` get every clock value they read
   * (they read none when there is neither a timeout nor `verbose`), and
   * each of their timeout tests finds time left.
   */
  predicate GoesOn(cfg: Config, clock: seq<real>, start: real, j: nat, n: nat) {
    && (ClockAfter(cfg, j, n) == j || ClockAfter(cfg, j, n) <= |clock|)
    && (cfg.timeout.Some? ==> forall p :: 0 <= p < n ==> clock[TimeCheck(cfg, j, p)] - start < cfg.timeout.value)
  }

  /**
   * A pass goes round again exactly when its reading succeeded short of
   * the target, the clock has the values it reads, and its timeout test
   * finds time left.
   */
  lemma StepGoesOn(cfg: Config, reading: Result<real, UptimeError>, clock: seq<real>,
                   start: real, lastLog: real, j: nat)
    ensures Iterate(cfg, reading, clock, start, lastLog, j).Next? <==>
      reading.Ok? && reading.value < cfg.minSeconds && GoesOn(cfg, clock, start, j, 1)
  {
    assert TimeCheck(cfg, j, 0) == j;
  }

  /** `n + 1` passes go on exactly when the first does and the `n` after it do. */
  lemma GoesOnShift(cfg: Config, clock: seq<real>, start: real, j: nat, j': nat, n: nat)
    requires j' == ClockAfter(cfg, j, 1)
    ensures GoesOn(cfg, clock, start, j, n + 1) <==>
      GoesOn(cfg, clock, start, j, 1) && GoesOn(cfg, clock, start, j', n)
    ensures ClockAfter(cfg, j', n) == ClockAfter(cfg, j, n + 1)
  {
    if cfg.timeout.Some? {
      forall p | 0 <= p
        ensures TimeCheck(cfg, j', p) == TimeCheck(cfg, j, p + 1)
      {
      }
      if GoesOn(cfg, clock, start, j, 1) && GoesOn(cfg, clock, start, j', n) {
        forall p | 0 <= p < n + 1
          ensures clock[TimeCheck(cfg, j, p)] - start < cfg.timeout.value
        {
          if p > 0 {
            assert TimeCheck(cfg, j, p) == TimeCheck(cfg, j', p - 1);
          } else {
            assert TimeCheck(cfg, j, 0) == TimeCheck(cfg, j, p);
          }
        }
      }
      if GoesOn(cfg, clock, start, j, n + 1) {
        assert TimeCheck(cfg, j, 0) == j;
        forall p | 0 <= p < n
          ensures clock[TimeCheck(cfg, j', p)] - start < cfg.timeout.value
        {
          assert TimeCheck(cfg, j', p) == TimeCheck(cfg, j, p + 1);
        }
      }
    }
  }

  /** A pass whose reading is short of the target, followed by `n` more, goes on: one sleep, and the `n` passes after it go on. */
  lemma PassGoesOn(cfg: Config, reading: Result<real, UptimeError>, clock: seq<real>,
                   start: real, lastLog: real, j: nat, n: nat)
    requires reading.Ok? && reading.value < cfg.minSeconds && GoesOn(cfg, clock, start, j, n + 1)
    ensures var step := Iterate(cfg, reading, clock, start, lastLog, j);
      && step.Next? && Sleeps(step.events) == 1
      && GoesOn(cfg, clock, start, step.clockIndex, n) && ClockAfter(cfg, step.clockIndex, n) == ClockAfter(cfg, j, n + 1)
  {
    GoesOnShift(cfg, clock, start, j, ClockAfter(cfg, j, 1), n);
    StepGoesOn(cfg, reading, clock, start, lastLog, j);
    StepNext(cfg, reading, clock, start, lastLog, j);
  }

  /** A pass that went on, followed by `n` passes that go on, makes `n + 1` passes that go on. */
  lemma PassWentOn(cfg: Config, reading: Result<real, UptimeError>, clock: seq<real>,
                   start: real, lastLog: real, j: nat, n: nat)
    requires var step := Iterate(cfg, reading, clock, start, lastLog, j);
      step.Next? && GoesOn(cfg, clock, start, step.clockIndex, n)
    ensures var step := Iterate(cfg, reading, clock, start, lastLog, j);
      && reading.Ok? && reading.value < cfg.minSeconds && Sleeps(step.events) == 1
      && GoesOn(cfg, clock, start, j, n + 1) && ClockAfter(cfg, step.clockIndex, n) == ClockAfter(cfg, j, n + 1)
  {
    StepNext(cfg, reading, clock, start, lastLog, j);
    StepGoesOn(cfg, reading, clock, start, lastLog, j);
    GoesOnShift(cfg, clock, start, j, ClockAfter(cfg, j, 1), n);
  }

  /**
   * What one pass of the loop consumes, logs and sleeps: one clock value
   * for the timeout test when there is a timeout and one for the progress
   * test when verbose; progress logged exactly when the clock value read
   * for it is at least `LogInterval` after the last progress time; `False`
   * exactly when the clock value read for the timeout test is at least the
   * timeout after the start, with that elapsed time and the reading in the
   * message.
   */
  lemma StepFacts(cfg: Config, reading: Result<real, UptimeError>, clock: seq<real>,
                  start: real, lastLog: real, j: nat)
    ensures var step := Iterate(cfg, reading, clock, start, lastLog, j);
      && (step.Next? ==>
           && step.clockIndex == ClockAfter(cfg, j, 1)
           && Sleeps(step.events) == 1)
      && (step.Next? && cfg.timeout.Some? ==> j < |clock| && clock[j] - start < cfg.timeout.value)
      && (step.Next? && cfg.verbose ==>
           && 0 < step.clockIndex <= |clock|
           && (ProgressTimes(step.events) != [] <==> clock[step.clockIndex - 1] - lastLog >= LogInterval))
      && (step.Next? ==>
           || (ProgressTimes(step.events) == [] && step.lastLog == lastLog)
           || (&& cfg.verbose && 0 < step.clockIndex <= |clock|
               && ProgressTimes(step.events) == [step.lastLog] && step.lastLog == clock[step.clockIndex - 1]
               && step.lastLog - lastLog >= LogInterval))
      && (step.Stop? ==> Sleeps(step.events) == 0 && ProgressTimes(step.events) == [])
      && SleepsLast(step.events, cfg.pollInterval)
      && (step.Stop? && step.outcome.Reached? ==> AtTarget(cfg, reading))
      && (AtTarget(cfg, reading) ==> step.Stop? && (step.outcome.Reached? <==> j < |clock|))
      && (step.Stop? && step.outcome.Reached? ==>
           j < |clock| && step.events == [TargetReached(reading.value, clock[j] - start)])
      && (step.Stop? && step.outcome.UptimeFailed? ==> reading == Err(step.outcome.error))
      && (reading.Err? ==> step == Stop(UptimeFailed(reading.error), []))
      && (step.Stop? && step.outcome.TimedOut? <==>
           && reading.Ok? && reading.value < cfg.minSeconds
           && cfg.timeout.Some? && j < |clock| && clock[j] - start >= cfg.timeout.value)
      && (step.Stop? && step.outcome.TimedOut? ==>
           step.events == [TimeoutReached(clock[j] - start, reading.value, cfg.minSeconds)])
  {
    StepNext(cfg, reading, clock, start, lastLog, j);
    StepStop(cfg, reading, clock, start, lastLog, j);
  }

  /** The half of `StepFacts` about a pass that goes on. */
  lemma StepNext(cfg: Config, reading: Result<real, UptimeError>, clock: seq<real>,
                 start: real, lastLog: real, j: nat)
    ensures var step := Iterate(cfg, reading, clock, start, lastLog, j);
      && (step.Next? ==>
           && step.clockIndex == ClockAfter(cfg, j, 1)
           && Sleeps(step.events) == 1
           && SleepsLast(step.events, cfg.pollInterval))
      && (step.Next? && cfg.timeout.Some? ==> j < |clock| && clock[j] - start < cfg.timeout.value)
      && (step.Next? && cfg.verbose ==>
           && 0 < step.clockIndex <= |clock|
           && (ProgressTimes(step.events) != [] <==> clock[step.clockIndex - 1] - lastLog >= LogInterval))
      && (step.Next? ==>
           || (ProgressTimes(step.events) == [] && step.lastLog == lastLog)
           || (&& cfg.verbose && 0 < step.clockIndex <= |clock|
               && ProgressTimes(step.events) == [step.lastLog] && step.lastLog == clock[step.clockIndex - 1]
               && step.lastLog - lastLog >= LogInterval))
  {
    var step := Iterate(cfg, reading, clock, start, lastLog, j);
    if step.Next? {
      var d := cfg.pollInterval;
      assert Sleeps([Slept(d)]) == 1 && ProgressTimes([Slept(d)]) == [] by {
        assert [Slept(d)][1..] == [];
      }
      if |step.events| == 2 {
        assert step.events[1..] == [Slept(d)];
        assert ProgressTimes(step.events) == [step.events[0].at] + ProgressTimes([Slept(d)]);
        assert Sleeps(step.events) == Sleeps([Slept(d)]);
      }
    }
  }

  /** The half of `StepFacts` about a pass that stops. */
  lemma StepStop(cfg: Config, reading: Result<real, UptimeError>, clock: seq<real>,
                 start: real, lastLog: real, j: nat)
    ensures var step := Iterate(cfg, reading, clock, start, lastLog, j);
      && (step.Stop? ==>
           && Sleeps(step.events) == 0 && ProgressTimes(step.events) == []
           && SleepsLast(step.events, cfg.pollInterval))
      && (step.Stop? && step.outcome.Reached? ==> AtTarget(cfg, reading))
      && (AtTarget(cfg, reading) ==> step.Stop? && (step.outcome.Reached? <==> j < |clock|))
      && (step.Stop? && step.outcome.Reached? ==>
           j < |clock| && step.events == [TargetReached(reading.value, clock[j] - start)])
      && (step.Stop? && step.outcome.UptimeFailed? ==> reading == Err(step.outcome.error))
      && (reading.Err? ==> step == Stop(UptimeFailed(reading.error), []))
      && (step.Stop? && step.outcome.TimedOut? <==>
           && reading.Ok? && reading.value < cfg.minSeconds
           && cfg.timeout.Some? && j < |clock| && clock[j] - start >= cfg.timeout.value)
      && (step.Stop? && step.outcome.TimedOut? ==>
           step.events == [TimeoutReached(clock[j] - start, reading.value, cfg.minSeconds)])
  {
  }


  /** A reading short of the target in front of readings short of it. */
  lemma BelowCons(cfg: Config, readings: seq<Result<real, UptimeError>>, i: nat, k: nat)
    requires i < |readings| && readings[i].Ok? && readings[i].value < cfg.minSeconds
    requires Below(cfg, readings, i + 1, k)
    ensures Below(cfg, readings, i, k)
  {
  }

  /** Past the argument checks, one pass of the loop and the rest of the loop. */
  lemma PollUnfold(cfg: Config, readings: seq<Result<real, UptimeError>>, clock: seq<real>,
                   start: real, lastLog: real, i: nat, j: nat)
    requires i < |readings|
    ensures var step := Iterate(cfg, readings[i], clock, start, lastLog, j);
      Poll(cfg, readings, clock, start, lastLog, i, j) ==
        if step.Stop? then Run(step.outcome, step.events)
        else Prepend(step.events, Poll(cfg, readings, clock, start, step.lastLog, i + 1, step.clockIndex))
  {
  }

  /**
   * The loop returns `True` at the first reading from `i` on that reaches
   * the target, after one sleep per earlier reading, when the passes before
   * it went on and its target test got a clock value.
   */
  lemma {:induction false} PollReached(cfg: Config, readings: seq<Result<real, UptimeError>>, clock: seq<real>,
                                       start: real, lastLog: real, i: nat, j: nat)
    ensures var run := Poll(cfg, readings, clock, start, lastLog, i, j);
      run.outcome == Reached ==>
        exists k :: && i <= k && FirstFrom(cfg, readings, i, k) && Sleeps(run.events) == k - i
                    && GoesOn(cfg, clock, start, j, k - i) && ClockAfter(cfg, j, k - i) < |clock|
    decreases |readings| - i
  {
    if i < |readings| {
      var step := Iterate(cfg, readings[i], clock, start, lastLog, j);
      PollUnfold(cfg, readings, clock, start, lastLog, i, j);
      if step.Next? {
        var rest := Poll(cfg, readings, clock, start, step.lastLog, i + 1, step.clockIndex);
        PollReached(cfg, readings, clock, start, step.lastLog, i + 1, step.clockIndex);
        if rest.outcome == Reached {
          var k :| && i + 1 <= k && FirstFrom(cfg, readings, i + 1, k) && Sleeps(rest.events) == k - i - 1
                   && GoesOn(cfg, clock, start, step.clockIndex, k - i - 1)
                   && ClockAfter(cfg, step.clockIndex, k - i - 1) < |clock|;
          SleepsAppend(step.events, rest.events);
          PassWentOn(cfg, readings[i], clock, start, lastLog, j, k - i - 1);
          BelowCons(cfg, readings, i, k);
          assert FirstFrom(cfg, readings, i, k);
        }
      } else if step.outcome == Reached {
        StepStop(cfg, readings[i], clock, start, lastLog, j);
        assert FirstFrom(cfg, readings, i, i);
        assert GoesOn(cfg, clock, start, j, 0);
      }
    }
  }

  /**
   * Conversely, the loop returns `True` at the first reading from `i` on
   * that reaches the target, timeout or not, when the passes before it go
   * on and its target test gets a clock value; the last message carries
   * that reading and the elapsed time read by the test.
   */
  lemma {:induction false} PollReachesTarget(cfg: Config, readings: seq<Result<real, UptimeError>>, clock: seq<real>,
                                             start: real, lastLog: real, i: nat, j: nat, k: nat)
    requires i <= k && FirstFrom(cfg, readings, i, k)
    requires GoesOn(cfg, clock, start, j, k - i) && ClockAfter(cfg, j, k - i) < |clock|
    ensures var run := Poll(cfg, readings, clock, start, lastLog, i, j);
      && run.outcome == Reached && Sleeps(run.events) == k - i && run.events != []
      && run.events[|run.events| - 1] == TargetReached(readings[k].value, clock[ClockAfter(cfg, j, k - i)] - start)
    decreases k - i
  {
    if i < k {
      var step := Iterate(cfg, readings[i], clock, start, lastLog, j);
      PassGoesOn(cfg, readings[i], clock, start, lastLog, j, k - i - 1);
      PollReachesTarget(cfg, readings, clock, start, step.lastLog, i + 1, step.clockIndex, k);
      var t := ClockAfter(cfg, j, k - i);
      assert ClockAfter(cfg, step.clockIndex, k - (i + 1)) == t;
      ReachedLater(cfg, readings, clock, start, lastLog, i, j, k - (i + 1), TargetReached(readings[k].value, clock[t] - start));
    } else {
      ReachedNow(cfg, readings, clock, start, lastLog, i, j);
    }
  }

  /** A reading at the target with a clock value for its test: the loop returns `True` at once. */
  lemma ReachedNow(cfg: Config, readings: seq<Result<real, UptimeError>>, clock: seq<real>,
                   start: real, lastLog: real, i: nat, j: nat)
    requires i < |readings| && AtTarget(cfg, readings[i]) && j < |clock|
    ensures Poll(cfg, readings, clock, start, lastLog, i, j) ==
      Run(Reached, [TargetReached(readings[i].value, clock[j] - start)])
  {
    PollUnfold(cfg, readings, clock, start, lastLog, i, j);
    StepStop(cfg, readings[i], clock, start, lastLog, j);
  }


  /** A pass that went on, then a loop that returns `True` after `n` sleeps with last message `e`: the whole does so one sleep later. */
  lemma ReachedLater(cfg: Config, readings: seq<Result<real, UptimeError>>, clock: seq<real>,
                     start: real, lastLog: real, i: nat, j: nat, n: nat, e: Event)
    requires i < |readings|
    requires var step := Iterate(cfg, readings[i], clock, start, lastLog, j);
      && step.Next? && Sleeps(step.events) == 1
      && var rest := Poll(cfg, readings, clock, start, step.lastLog, i + 1, step.clockIndex);
      && rest.outcome == Reached && Sleeps(rest.events) == n && rest.events != [] && rest.events[|rest.events| - 1] == e
    ensures var run := Poll(cfg, readings, clock, start, lastLog, i, j);
      run.outcome == Reached && Sleeps(run.events) == n + 1 && run.events != [] && run.events[|run.events| - 1] == e
  {
    var step := Iterate(cfg, readings[i], clock, start, lastLog, j);
    var rest := Poll(cfg, readings, clock, start, step.lastLog, i + 1, step.clockIndex);
    PollUnfold(cfg, readings, clock, start, lastLog, i, j);
    SleepsAppend(step.events, rest.events);
    var all := step.events + rest.events;
    assert all[|all| - 1] == rest.events[|rest.events| - 1];
  }


  /**
   * The loop raises `UptimeError` at the first failed read, having retried
   * nothing, after one sleep per earlier reading and when the passes before
   * it went on.
   */
  lemma {:induction false} PollFailed(cfg: Config, readings: seq<Result<real, UptimeError>>, clock: seq<real>,
                                      start: real, lastLog: real, i: nat, j: nat)
    ensures var run := Poll(cfg, readings, clock, start, lastLog, i, j);
      run.outcome.UptimeFailed? ==>
        exists k :: && i <= k < |readings| && Below(cfg, readings, i, k) && readings[k] == Err(run.outcome.error)
                    && GoesOn(cfg, clock, start, j, k - i) && Sleeps(run.events) == k - i
    decreases |readings| - i
  {
    if i < |readings| {
      var step := Iterate(cfg, readings[i], clock, start, lastLog, j);
      PollUnfold(cfg, readings, clock, start, lastLog, i, j);
      if step.Next? {
        var rest := Poll(cfg, readings, clock, start, step.lastLog, i + 1, step.clockIndex);
        PollFailed(cfg, readings, clock, start, step.lastLog, i + 1, step.clockIndex);
        if rest.outcome.UptimeFailed? {
          var k :| && i + 1 <= k < |readings| && Below(cfg, readings, i + 1, k) && readings[k] == Err(rest.outcome.error)
                   && GoesOn(cfg, clock, start, step.clockIndex, k - i - 1) && Sleeps(rest.events) == k - i - 1;
          SleepsAppend(step.events, rest.events);
          PassWentOn(cfg, readings[i], clock, start, lastLog, j, k - i - 1);
          BelowCons(cfg, readings, i, k);
        }
      } else if step.outcome.UptimeFailed? {
        StepStop(cfg, readings[i], clock, start, lastLog, j);
        assert Below(cfg, readings, i, i);
        assert GoesOn(cfg, clock, start, j, 0);
      }
    }
  }

  /**
   * Conversely, the loop raises the error of the first failed read from `i`
   * on, at once, when the passes before it go on: a failed read is never
   * retried, even with time left before the timeout.
   */
  lemma {:induction false} PollFails(cfg: Config, readings: seq<Result<real, UptimeError>>, clock: seq<real>,
                                     start: real, lastLog: real, i: nat, j: nat, k: nat)
    requires i <= k < |readings| && Below(cfg, readings, i, k) && readings[k].Err?
    requires GoesOn(cfg, clock, start, j, k - i)
    ensures var run := Poll(cfg, readings, clock, start, lastLog, i, j);
      run.outcome == UptimeFailed(readings[k].error) && Sleeps(run.events) == k - i
    decreases k - i
  {
    var step := Iterate(cfg, readings[i], clock, start, lastLog, j);
    PollUnfold(cfg, readings, clock, start, lastLog, i, j);
    if i < k {
      PassGoesOn(cfg, readings[i], clock, start, lastLog, j, k - i - 1);
      var rest := Poll(cfg, readings, clock, start, step.lastLog, i + 1, step.clockIndex);
      PollFails(cfg, readings, clock, start, step.lastLog, i + 1, step.clockIndex, k);
      SleepsAppend(step.events, rest.events);
    } else {
      StepStop(cfg, readings[i], clock, start, lastLog, j);
    }
  }

  /**
   * The clock index the timeout test of the `n`-th pass from `j` reads,
   * when a timeout was given: each pass reads one clock value for that test
   * and, when verbose, one more for the progress test.
   */
  function TimeCheck(cfg: Config, j: nat, n: nat): nat {
    if cfg.verbose then j + 2 * n else j + n
  }

  /**
   * With a timeout, the loop entered at reading `i` and clock value `j`
   * times out at its pass `m`: the readings up to and including that pass
   * are short of the target, the earlier timeout tests found time left,
   * and the test of pass `m` finds the elapsed time at the timeout.
   */
  predicate TimesOutAt(cfg: Config, readings: seq<Result<real, UptimeError>>, clock: seq<real>,
                       start: real, i: nat, j: nat, m: nat) {
    && cfg.timeout.Some?
    && Below(cfg, readings, i, i + m + 1)
    && TimeCheck(cfg, j, m) < |clock|
    && (forall n :: 0 <= n < m ==> clock[TimeCheck(cfg, j, n)] - start < cfg.timeout.value)
    && clock[TimeCheck(cfg, j, m)] - start >= cfg.timeout.value
  }

  /** The loop times out at its pass `m` and `events` end with the message of that pass. */
  predicate EndsTimedOutAt(cfg: Config, readings: seq<Result<real, UptimeError>>, clock: seq<real>,
                           start: real, i: nat, j: nat, m: nat, events: seq<Event>) {
    && TimesOutAt(cfg, readings, clock, start, i, j, m)
    && events != []
    && events[|events| - 1] ==
         TimeoutReached(clock[TimeCheck(cfg, j, m)] - start, readings[i + m].value, cfg.minSeconds)
  }

  /**
   * The loop returns `False` only at a pass whose timeout test, the first
   * to find the time up, came while every reading so far was short of the
   * target; the last message carries that elapsed time and that reading.
   */
  lemma {:induction false} PollTimedOut(cfg: Config, readings: seq<Result<real, UptimeError>>, clock: seq<real>,
                                        start: real, lastLog: real, i: nat, j: nat)
    ensures var run := Poll(cfg, readings, clock, start, lastLog, i, j);
      run.outcome == TimedOut ==> exists m: nat :: EndsTimedOutAt(cfg, readings, clock, start, i, j, m, run.events)
    decreases |readings| - i
  {
    if i < |readings| {
      var step := Iterate(cfg, readings[i], clock, start, lastLog, j);
      PollUnfold(cfg, readings, clock, start, lastLog, i, j);
      if step.Next? {
        var rest := Poll(cfg, readings, clock, start, step.lastLog, i + 1, step.clockIndex);
        PollTimedOut(cfg, readings, clock, start, step.lastLog, i + 1, step.clockIndex);
        if rest.outcome == TimedOut {
          var m: nat :| EndsTimedOutAt(cfg, readings, clock, start, i + 1, step.clockIndex, m, rest.events);
          TimedOutLater(cfg, readings, clock, start, lastLog, i, j, m);
        }
      } else if step.outcome == TimedOut {
        StepFacts(cfg, readings[i], clock, start, lastLog, j);
        assert EndsTimedOutAt(cfg, readings, clock, start, i, j, 0, step.events);
      }
    }
  }

  /** A pass that found time left, then a loop that times out at its pass `m`: the whole times out at pass `m + 1`. */
  lemma TimedOutLater(cfg: Config, readings: seq<Result<real, UptimeError>>, clock: seq<real>,
                      start: real, lastLog: real, i: nat, j: nat, m: nat)
    requires i < |readings|
    requires var step := Iterate(cfg, readings[i], clock, start, lastLog, j);
      && step.Next?
      && EndsTimedOutAt(cfg, readings, clock, start, i + 1, step.clockIndex, m,
                        Poll(cfg, readings, clock, start, step.lastLog, i + 1, step.clockIndex).events)
    ensures EndsTimedOutAt(cfg, readings, clock, start, i, j, m + 1, Poll(cfg, readings, clock, start, lastLog, i, j).events)
  {
    var step := Iterate(cfg, readings[i], clock, start, lastLog, j);
    var rest := Poll(cfg, readings, clock, start, step.lastLog, i + 1, step.clockIndex);
    PollUnfold(cfg, readings, clock, start, lastLog, i, j);
    StepFacts(cfg, readings[i], clock, start, lastLog, j);
    TimesOutAtShift(cfg, readings, clock, start, i, j, step.clockIndex, m);
    var all := step.events + rest.events;
    assert all[|all| - 1] == rest.events[|rest.events| - 1];
  }

  /** A pass that found time left and went on moves the timeout tests one pass along. */
  lemma TimesOutAtShift(cfg: Config, readings: seq<Result<real, UptimeError>>, clock: seq<real>,
                        start: real, i: nat, j: nat, j': nat, m: nat)
    requires cfg.timeout.Some? && j' == TimeCheck(cfg, j, 1)
    requires i < |readings| && readings[i].Ok? && readings[i].value < cfg.minSeconds
    requires j < |clock| && clock[j] - start < cfg.timeout.value
    ensures TimesOutAt(cfg, readings, clock, start, i + 1, j', m) <==> TimesOutAt(cfg, readings, clock, start, i, j, m + 1)
    ensures TimeCheck(cfg, j', m) == TimeCheck(cfg, j, m + 1)
  {
    forall n | 0 <= n
      ensures TimeCheck(cfg, j', n) == TimeCheck(cfg, j, n + 1)
    {
    }
    if TimesOutAt(cfg, readings, clock, start, i + 1, j', m) {
      forall n | 0 <= n < m + 1
        ensures clock[TimeCheck(cfg, j, n)] - start < cfg.timeout.value
      {
        if n > 0 {
          assert TimeCheck(cfg, j, n) == TimeCheck(cfg, j', n - 1);
        }
      }
    }
    if TimesOutAt(cfg, readings, clock, start, i, j, m + 1) {
      forall n | 0 <= n < m
        ensures clock[TimeCheck(cfg, j', n)] - start < cfg.timeout.value
      {
        assert TimeCheck(cfg, j', n) == TimeCheck(cfg, j, n + 1);
      }
    }
  }

  /**
   * Conversely, the loop returns `False` at the first pass whose timeout
   * test finds the time up, provided every reading until then is short of
   * the target.
   */
  lemma {:induction false} PollTimesOut(cfg: Config, readings: seq<Result<real, UptimeError>>, clock: seq<real>,
                                        start: real, lastLog: real, i: nat, j: nat, m: nat)
    requires TimesOutAt(cfg, readings, clock, start, i, j, m)
    ensures Poll(cfg, readings, clock, start, lastLog, i, j).outcome == TimedOut
    decreases m
  {
    var step := Iterate(cfg, readings[i], clock, start, lastLog, j);
    PollUnfold(cfg, readings, clock, start, lastLog, i, j);
    StepFacts(cfg, readings[i], clock, start, lastLog, j);
    if m > 0 {
      assert clock[TimeCheck(cfg, j, 0)] - start < cfg.timeout.value;
      assert cfg.verbose ==> TimeCheck(cfg, j, 0) + 1 < |clock|;
      assert step.Next?;
      TimesOutAtShift(cfg, readings, clock, start, i, j, step.clockIndex, m - 1);
      PollTimesOut(cfg, readings, clock, start, step.lastLog, i + 1, step.clockIndex, m - 1);
    }
  }

  lemma SleepsLastAppend(a: seq<Event>, b: seq<Event>, d: real)
    requires SleepsLast(a, d) && SleepsLast(b, d)
    ensures SleepsLast(a + b, d)
  {
    var ab := a + b;
    forall n | 0 <= n < |ab| && ab[n].Slept?
      ensures ab[n].seconds == d
    {
      if n < |a| {
        assert ab[n] == a[n];
      } else {
        assert ab[n] == b[n - |a|];
      }
    }
  }

  /** Every sleep of the loop lasts the poll interval. */
  lemma {:induction false} PollSleeps(cfg: Config, readings: seq<Result<real, UptimeError>>, clock: seq<real>,
                                      start: real, lastLog: real, i: nat, j: nat)
    ensures SleepsLast(Poll(cfg, readings, clock, start, lastLog, i, j).events, cfg.pollInterval)
    decreases |readings| - i
  {
    if i < |readings| {
      var step := Iterate(cfg, readings[i], clock, start, lastLog, j);
      PollUnfold(cfg, readings, clock, start, lastLog, i, j);
      StepFacts(cfg, readings[i], clock, start, lastLog, j);
      if step.Next? {
        var rest := Poll(cfg, readings, clock, start, step.lastLog, i + 1, step.clockIndex);
        PollSleeps(cfg, readings, clock, start, step.lastLog, i + 1, step.clockIndex);
        SleepsLastAppend(step.events, rest.events, cfg.pollInterval);
      }
    } else {
      assert Poll(cfg, readings, clock, start, lastLog, i, j).events == [InterruptedByUser];
    }
  }

  /** The clock values read at index `j` or later. */
  function ReadFrom(clock: seq<real>, j: nat): seq<real> {
    if j <= |clock| then clock[j..] else []
  }

  /** Every time is a clock value read at index `j` or later. */
  predicate FromClock(times: seq<real>, clock: seq<real>, j: nat) {
    forall p :: 0 <= p < |times| ==> times[p] in ReadFrom(clock, j)
  }

  lemma ReadFromLater(clock: seq<real>, j: nat, j': nat, t: real)
    requires j <= j' && t in ReadFrom(clock, j')
    ensures t in ReadFrom(clock, j)
  {
    var n :| 0 <= n < |ReadFrom(clock, j')| && ReadFrom(clock, j')[n] == t;
    assert ReadFrom(clock, j)[n + j' - j] == t;
  }

  lemma FromClockJoin(a: seq<real>, b: seq<real>, clock: seq<real>, j: nat, j': nat)
    requires j <= j' && FromClock(a, clock, j) && FromClock(b, clock, j')
    ensures FromClock(a + b, clock, j)
  {
    var ab := a + b;
    forall p | 0 <= p < |ab|
      ensures ab[p] in ReadFrom(clock, j)
    {
      if p < |a| {
        assert ab[p] == a[p];
      } else {
        assert ab[p] == b[p - |a|];
        ReadFromLater(clock, j, j', ab[p]);
      }
    }
  }

  /**
   * Progress messages come at least `LogInterval` apart, the first at least
   * that long after `lastLog`, and only when verbose; each carries a clock
   * value read at index `j` or later, the one its progress test read.
   */
  lemma {:induction false} PollProgress(cfg: Config, readings: seq<Result<real, UptimeError>>, clock: seq<real>,
                                        start: real, lastLog: real, i: nat, j: nat)
    ensures var times := ProgressTimes(Poll(cfg, readings, clock, start, lastLog, i, j).events);
      Spaced(times, lastLog) && FromClock(times, clock, j) && (!cfg.verbose ==> times == [])
    decreases |readings| - i
  {
    if i < |readings| {
      var step := Iterate(cfg, readings[i], clock, start, lastLog, j);
      PollUnfold(cfg, readings, clock, start, lastLog, i, j);
      StepFacts(cfg, readings[i], clock, start, lastLog, j);
      if step.Next? {
        var rest := Poll(cfg, readings, clock, start, step.lastLog, i + 1, step.clockIndex);
        PollProgress(cfg, readings, clock, start, step.lastLog, i + 1, step.clockIndex);
        ProgressTimesAppend(step.events, rest.events);
        var ts := ProgressTimes(rest.events);
        if ProgressTimes(step.events) != [] {
          assert ([step.lastLog] + ts)[1..] == ts;
          assert FromClock([step.lastLog], clock, j) by {
            assert ReadFrom(clock, j)[step.clockIndex - 1 - j] == step.lastLog;
          }
        } else {
          assert [] + ts == ts;
        }
        FromClockJoin(ProgressTimes(step.events), ts, clock, j, step.clockIndex);
      }
    } else {
      assert Poll(cfg, readings, clock, start, lastLog, i, j).events == [InterruptedByUser];
    }
  }

  /**
   * Bad arguments are refused with the first failing check's `ValueError`
   * before uptime or clock is consulted: the run is the same whatever the
   * traces hold.
   */
  lemma InvalidReadsNothing(cfg: Config, readings: seq<Result<real, UptimeError>>, clock: seq<real>)
    requires !Valid(cfg)
    ensures Wait(cfg, readings, clock).outcome == InvalidConfig(Validate(cfg).value)
    ensures Wait(cfg, readings, clock) == Wait(cfg, [], [])
  {
  }

  /**
   * When the first reading already meets the target the function returns
   * `True` at once: no sleep, and nothing after the first reading and the
   * start time is consulted.
   */
  lemma FastPath(cfg: Config, readings: seq<Result<real, UptimeError>>, clock: seq<real>)
    requires Valid(cfg) && readings != [] && clock != [] && AtTarget(cfg, readings[0])
    ensures Wait(cfg, readings, clock).outcome == Reached
    ensures Sleeps(Wait(cfg, readings, clock).events) == 0
    ensures Wait(cfg, readings, clock) == Wait(cfg, readings[..1], clock[..1])
  {
    assert Sleeps([AlreadyMet(readings[0].value, cfg.minSeconds)]) == 0;
  }

  /**
   * The run gets through to reading `k`: the start time is read, and the
   * loop passes for readings 1 to `k - 1` (reading 0 is taken before the
   * loop) go on.
   */
  predicate RunsTo(cfg: Config, clock: seq<real>, k: nat) {
    clock != [] && (k > 0 ==> GoesOn(cfg, clock, clock[0], 1, k - 1))
  }

  /** The run gets through to reading `k`, and the target test of a loop pass for it gets its clock value. */
  predicate TestsTargetAt(cfg: Config, clock: seq<real>, k: nat) {
    RunsTo(cfg, clock, k) && (k > 0 ==> ClockAfter(cfg, 1, k - 1) < |clock|)
  }

  /**
   * `True` is returned only at the first reading that meets the target,
   * once the run got through to it; the loop slept once before each
   * reading after its first.
   */
  lemma WaitReached(cfg: Config, readings: seq<Result<real, UptimeError>>, clock: seq<real>)
    ensures var run := Wait(cfg, readings, clock);
      run.outcome == Reached ==>
        exists k: nat :: && FirstFrom(cfg, readings, 0, k) && TestsTargetAt(cfg, clock, k)
                         && Sleeps(run.events) == if k == 0 then 0 else k - 1
  {
    var run := Wait(cfg, readings, clock);
    if run.outcome == Reached {
      if AtTarget(cfg, readings[0]) {
        assert Sleeps(run.events) == 0 by {
          assert run.events == [AlreadyMet(readings[0].value, cfg.minSeconds)];
        }
        assert FirstFrom(cfg, readings, 0, 0) && TestsTargetAt(cfg, clock, 0);
      } else {
        var head := [Waiting(cfg.minSeconds, readings[0].value, cfg.minSeconds - readings[0].value)];
        var rest := Poll(cfg, readings, clock, clock[0], clock[0], 1, 1);
        PollReached(cfg, readings, clock, clock[0], clock[0], 1, 1);
        var k :| && 1 <= k && FirstFrom(cfg, readings, 1, k) && Sleeps(rest.events) == k - 1
                 && GoesOn(cfg, clock, clock[0], 1, k - 1) && ClockAfter(cfg, 1, k - 1) < |clock|;
        SleepsAppend(head, rest.events);
        assert Sleeps(head) == 0;
        BelowCons(cfg, readings, 0, k);
        assert FirstFrom(cfg, readings, 0, k) && TestsTargetAt(cfg, clock, k);
      }
    }
  }

  /**
   * Conversely, with valid arguments the function returns `True` at the
   * first reading that meets the target, timeout or not, once the run gets
   * through to it: the target test comes before the timeout test.
   */
  lemma WaitReachesTarget(cfg: Config, readings: seq<Result<real, UptimeError>>, clock: seq<real>, k: nat)
    requires Valid(cfg) && FirstFrom(cfg, readings, 0, k) && TestsTargetAt(cfg, clock, k)
    ensures var run := Wait(cfg, readings, clock);
      run.outcome == Reached && Sleeps(run.events) == if k == 0 then 0 else k - 1
  {
    var run := Wait(cfg, readings, clock);
    if k > 0 {
      assert !AtTarget(cfg, readings[0]);
      assert FirstFrom(cfg, readings, 1, k);
      var head := [Waiting(cfg.minSeconds, readings[0].value, cfg.minSeconds - readings[0].value)];
      var rest := Poll(cfg, readings, clock, clock[0], clock[0], 1, 1);
      PollReachesTarget(cfg, readings, clock, clock[0], clock[0], 1, 1, k);
      SleepsAppend(head, rest.events);
      assert Sleeps(head) == 0;
    } else {
      assert run.events == [AlreadyMet(readings[0].value, cfg.minSeconds)];
    }
  }

  /**
   * `UptimeError` comes from the first failed read, with no retry, and only
   * if no earlier reading met the target and the run got through to it.
   */
  lemma WaitFailed(cfg: Config, readings: seq<Result<real, UptimeError>>, clock: seq<real>)
    ensures var run := Wait(cfg, readings, clock);
      run.outcome.UptimeFailed? ==>
        exists k: nat :: && k < |readings| && Below(cfg, readings, 0, k) && readings[k] == Err(run.outcome.error)
                         && RunsTo(cfg, clock, k) && Sleeps(run.events) == if k == 0 then 0 else k - 1
  {
    var run := Wait(cfg, readings, clock);
    if run.outcome.UptimeFailed? {
      if readings[0].Err? {
        assert Below(cfg, readings, 0, 0) && RunsTo(cfg, clock, 0);
      } else {
        var head := [Waiting(cfg.minSeconds, readings[0].value, cfg.minSeconds - readings[0].value)];
        var rest := Poll(cfg, readings, clock, clock[0], clock[0], 1, 1);
        PollFailed(cfg, readings, clock, clock[0], clock[0], 1, 1);
        var k :| && 1 <= k < |readings| && Below(cfg, readings, 1, k) && readings[k] == Err(run.outcome.error)
                 && GoesOn(cfg, clock, clock[0], 1, k - 1) && Sleeps(rest.events) == k - 1;
        SleepsAppend(head, rest.events);
        assert Sleeps(head) == 0;
        BelowCons(cfg, readings, 0, k);
        assert RunsTo(cfg, clock, k);
      }
    }
  }

  /**
   * Conversely, with valid arguments the function raises the error of the
   * first failed read once the run gets through to it, with no retry and
   * whatever time is left before the timeout.
   */
  lemma WaitFails(cfg: Config, readings: seq<Result<real, UptimeError>>, clock: seq<real>, k: nat)
    requires Valid(cfg) && k < |readings| && Below(cfg, readings, 0, k) && readings[k].Err?
    requires RunsTo(cfg, clock, k)
    ensures var run := Wait(cfg, readings, clock);
      run.outcome == UptimeFailed(readings[k].error) && Sleeps(run.events) == if k == 0 then 0 else k - 1
  {
    if k > 0 {
      var head := [Waiting(cfg.minSeconds, readings[0].value, cfg.minSeconds - readings[0].value)];
      var rest := Poll(cfg, readings, clock, clock[0], clock[0], 1, 1);
      PollFails(cfg, readings, clock, clock[0], clock[0], 1, 1, k);
      SleepsAppend(head, rest.events);
      assert Sleeps(head) == 0;
    }
  }

  /**
   * `False` is returned only when a timeout was given and the first timeout
   * test to find the time up came while every reading so far was short of
   * the target; the last message carries that elapsed time and reading.
   * The loop starts with reading 1 and clock value 1, clock value 0 being
   * the start time.
   */
  lemma WaitTimedOut(cfg: Config, readings: seq<Result<real, UptimeError>>, clock: seq<real>)
    ensures var run := Wait(cfg, readings, clock);
      run.outcome == TimedOut ==>
        && clock != [] && Below(cfg, readings, 0, 1)
        && exists m: nat :: EndsTimedOutAt(cfg, readings, clock, clock[0], 1, 1, m, run.events)
  {
    var run := Wait(cfg, readings, clock);
    if run.outcome == TimedOut {
      var rest := Poll(cfg, readings, clock, clock[0], clock[0], 1, 1);
      PollTimedOut(cfg, readings, clock, clock[0], clock[0], 1, 1);
      var m: nat :| EndsTimedOutAt(cfg, readings, clock, clock[0], 1, 1, m, rest.events);
      assert run.events[|run.events| - 1] == rest.events[|rest.events| - 1];
      assert EndsTimedOutAt(cfg, readings, clock, clock[0], 1, 1, m, run.events);
    }
  }

  /**
   * Conversely, with valid arguments and a timeout, the function returns
   * `False` at the first timeout test that finds the time up, provided every
   * reading until then is short of the target.
   */
  lemma WaitTimesOut(cfg: Config, readings: seq<Result<real, UptimeError>>, clock: seq<real>, m: nat)
    requires Valid(cfg) && clock != [] && Below(cfg, readings, 0, 1)
    requires TimesOutAt(cfg, readings, clock, clock[0], 1, 1, m)
    ensures Wait(cfg, readings, clock).outcome == TimedOut
  {
    PollTimesOut(cfg, readings, clock, clock[0], clock[0], 1, 1, m);
  }

  /** Every sleep lasts the poll interval. */
  lemma WaitSleeps(cfg: Config, readings: seq<Result<real, UptimeError>>, clock: seq<real>)
    ensures SleepsLast(Wait(cfg, readings, clock).events, cfg.pollInterval)
  {
    var run := Wait(cfg, readings, clock);
    if Valid(cfg) && readings != [] && clock != [] && readings[0].Ok? && readings[0].value < cfg.minSeconds {
      var head := [Waiting(cfg.minSeconds, readings[0].value, cfg.minSeconds - readings[0].value)];
      PollSleeps(cfg, readings, clock, clock[0], clock[0], 1, 1);
      SleepsLastAppend(head, Poll(cfg, readings, clock, clock[0], clock[0], 1, 1).events, cfg.pollInterval);
    }
  }

  /**
   * Progress messages appear only when verbose, the first at least
   * `LogInterval` after the start and each later one at least that long
   * after the previous; each carries a clock value read after the start.
   */
  lemma WaitProgress(cfg: Config, readings: seq<Result<real, UptimeError>>, clock: seq<real>)
    requires clock != []
    ensures var times := ProgressTimes(Wait(cfg, readings, clock).events);
      Spaced(times, clock[0]) && FromClock(times, clock, 1) && (!cfg.verbose ==> times == [])
  {
    var run := Wait(cfg, readings, clock);
    if Valid(cfg) && readings != [] && readings[0].Ok? && readings[0].value < cfg.minSeconds {
      var head := [Waiting(cfg.minSeconds, readings[0].value, cfg.minSeconds - readings[0].value)];
      var rest := Poll(cfg, readings, clock, clock[0], clock[0], 1, 1);
      PollProgress(cfg, readings, clock, clock[0], clock[0], 1, 1);
      ProgressTimesAppend(head, rest.events);
      assert ProgressTimes(head) == [];
      assert [] + ProgressTimes(rest.events) == ProgressTimes(rest.events);
    } else if run.events != [] {
      assert run.events[1..] == [];
    }
  }
}
