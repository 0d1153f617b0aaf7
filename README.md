# wait_uptime in Dafny

A verified model of `wait_uptime`, a command-line tool that delays
service start-up until the machine has been up for a given time. The
tool:

- reads the first field of `/proc/uptime`;
- parses duration arguments such as `30`, `90s`, `5m`, `1.5h` or `2d`;
- polls until the uptime reaches the target, an optional timeout expires,
  or reading the uptime fails;
- logs progress in a human-readable duration format (`"45.0s"`,
  `"2h 30m 15s"`);
- exits with 0 (target reached), 2 (timeout), 1 (error) or 130
  (interrupted).

The modules follow the program's own structure:

| file | module | models |
|---|---|---|
| `results.dfy` | `Results` | `Option` and `Result` |
| `text.dfy` | `Text` | the Python string operations the program uses: `strip()`, `lower()`, `split()`, `' '.join()`, `readline()` |
| `numerals.dfy` | `Numerals` | `float()` on decimal numerals, `str()` of an `int`, and the `:.1f` format |
| `timeparse.dfy` | `TimeParse` | `parse_time_string` |
| `duration.dfy` | `Duration` | `format_duration` |
| `uptime.dfy` | `Uptime` | `get_uptime` |
| `waiter.dfy` | `Waiter` | `wait_uptime`: the functions `Wait`/`Poll` describe a whole run, and the method `WaitUptime`, with its polling loop `PollLoop`, is proved to do exactly that |
| `cli.dfy` | `Cli` | `main`: argument handling and the exit status |

The environment is given as finite traces:

- the successive results of `get_uptime()`;
- the successive values of `time.time()`;
- what each read of `/proc/uptime` finds: missing, unreadable, or some text.

Needing a value past the end of a trace stands for the operator pressing
Ctrl-C at that point. Sleeps and log messages are recorded as events.

A run *gets through* to the k-th `get_uptime()` call when two things hold.
The clock trace has every value that the loop passes before that call
read. Each timeout test among those passes found time left. This is
`Waiter.RunsTo`. `Waiter.TestsTargetAt` adds that the clock also has the
value the target test of that pass reads.

Source paths below are relative to the original repository.

## Model

| member | source | states |
|---|---|---|
| Text.Strip | wait_uptime/__init__.py:44 | `strip()` leaves no whitespace at either end and never lengthens the text |
| Text.StripIsSlice | wait_uptime/__init__.py:44 | `strip()` removes only whitespace, and only from the two ends: the result is a slice whose cut-off prefix and suffix are all whitespace |
| Text.StripPadded | wait_uptime/__init__.py:74 | whitespace added around a text does not change its `strip()` |
| Text.Lower | wait_uptime/__init__.py:74 | `lower()` keeps the length and maps every character through the ASCII lower-casing |
| Text.TrimLeft | wait_uptime/__init__.py:44 | the leading half of `strip()`: the result is a suffix of the text, what it drops is all whitespace, and it does not start with whitespace |
| Text.TrimRight | wait_uptime/__init__.py:44 | the trailing half of `strip()`: the result is a prefix of the text, what it drops is all whitespace, and it does not end with whitespace |
| Text.StripLower | wait_uptime/__init__.py:74 | `s.strip().lower() == s.lower().strip()`: lower-casing never creates or removes whitespace |
| Text.Words | wait_uptime/__init__.py:45 | every field of `split()` is non-empty and holds no whitespace |
| Text.WordsEmpty | wait_uptime/__init__.py:45 | `split()` finds no field exactly when the text is all whitespace, which is when `split()[0]` raises `IndexError` |
| Text.WordsStrip | wait_uptime/__init__.py:44-45 | `s.strip().split() == s.split()` |
| Text.JoinAppend | wait_uptime/__init__.py:125 | `sep.join(a + b)` of two non-empty lists is `sep.join(a) + sep + sep.join(b)`: exactly one separator between consecutive parts |
| Text.WordsJoin | wait_uptime/__init__.py:125 | joining whitespace-free words with single spaces and splitting again gives back the same words |
| Text.ReadLine | wait_uptime/__init__.py:44 | `readline()` returns a prefix of the text that ends at its first line feed, or the whole text when there is none |
| Text.ReadLineFirst | wait_uptime/__init__.py:44 | nothing after the first line feed influences `readline()` |
| Text.ReadLineThrough | wait_uptime/__init__.py:44 | `readline()` reads through text that holds no line feed and goes on past it |
| Numerals.ParseFloat | wait_uptime/__init__.py:46 | `float()` refuses empty and all-blank text and any text holding one of the separators `\x1c`-`\x1f`, and a negative value it returns was written with a minus sign |
| Numerals.NatString | wait_uptime/__init__.py:119-123 | `str(n)` is a non-empty string of decimal digits denoting `n`, with no leading zero unless `n` is 0 |
| Numerals.Fixed1 | wait_uptime/__init__.py:111 | `f'{x:.1f}'` ends in a point and exactly one digit, and starts with a minus sign exactly when `x` is negative |
| Numerals.ParseNatString | wait_uptime/__init__.py:46 | `float(str(n)) == n` |
| Numerals.CentsRoundTrip | wait_uptime/__init__.py:46 | `float()` reads a two-decimal numeral, as `/proc/uptime` writes them, back exactly |
| Numerals.Fixed1RoundTrip | wait_uptime/__init__.py:111 | `f'{x:.1f}'` read back with `float()` is `x` rounded half-to-even to a tenth, which lies within 0.05 of `x` |
| Numerals.RoundHalfEven | wait_uptime/__init__.py:111 | rounding to the nearest integer goes at most half a unit away, and a tie goes to the even neighbour |
| TimeParse.Normalize | wait_uptime/__init__.py:74 | the normalised text has no whitespace at either end, no capital letter, and is never longer than the argument |
| TimeParse.MatchUnits | wait_uptime/__init__.py:77-86 | the loop over the unit table yields the multiplier of the first unit whose suffix ends the text, and runs to completion exactly when no suffix ends it |
| TimeParse.Scaled | wait_uptime/__init__.py:86-91 | after a unit suffix, the result is an error exactly when the text before the suffix is not a number, and that error is "invalid time value" quoting the whole normalised text |
| TimeParse.ParseNormalized | wait_uptime/__init__.py:84-97 | an error quotes the normalised text, and is "invalid time value" exactly when the text ends in a unit letter, "invalid time format" otherwise |
| TimeParse.ParseTimeString | wait_uptime/__init__.py:59-97 | the message of a `ValueError` quotes the stripped, lower-cased argument |
| TimeParse.MatchUnitsIsLookup | wait_uptime/__init__.py:77-91 | the first-match loop over the unit table is the same as looking up the last character in it: the four suffixes are distinct single letters |
| TimeParse.ParseNormalizedSpec | wait_uptime/__init__.py:84-97 | after normalisation, a trailing unit letter scales the number before it by 1, 60, 3600 or 86400. A bad number there is "invalid time value". Without a unit letter the whole text must be a number of seconds, otherwise "invalid time format" |
| TimeParse.ParseIgnoresCase | wait_uptime/__init__.py:74 | letter case is ignored: `parse_time_string(s.lower()) == parse_time_string(s)`, so `"1.5H"` reads as `"1.5h"` |
| TimeParse.ParseIgnoresPadding | wait_uptime/__init__.py:74 | whitespace around the argument never changes the result |
| TimeParse.ParseNatWithUnit | wait_uptime/__init__.py:77-89 | `parse_time_string(str(n) + u)` is `n` times the multiplier of unit `u` |
| TimeParse.ParseWithUnit | wait_uptime/__init__.py:84-89 | any numeral followed by a unit letter is scaled by the multiplier; negative values are accepted |
| TimeParse.ParseBareNat | wait_uptime/__init__.py:93-95 | a bare integer is that many seconds |
| TimeParse.ParseUnitAlone | wait_uptime/__init__.py:86-91 | a unit letter with no number before it is "invalid time value" |
| TimeParse.ParseBlank | wait_uptime/__init__.py:93-97 | an empty or all-blank argument is "invalid time format" |
| Duration.PyMod | wait_uptime/__init__.py:114-115 | Python's `x % m` with a positive modulus lies in `[0, m)`, and `x` minus it is a whole multiple of `m` |
| Duration.Split | wait_uptime/__init__.py:113-115 | minutes and seconds always lie in `[0, 60)`, and hours are not negative for a value that is not |
| Duration.Parts | wait_uptime/__init__.py:117-123 | the list holds one to three components, and when hours and minutes are both zero it is the seconds alone, even when they are zero (`"0s"`) |
| Duration.FormatDuration | wait_uptime/__init__.py:100-125 | from a minute on, the text joins exactly the non-zero components with single spaces: the `not parts` fallback never fires |
| Duration.SplitDecomposes | wait_uptime/__init__.py:113-115 | from a minute on, hours, minutes and seconds recombine to the whole seconds, minutes and seconds lie in `[0, 60)`, and hours or minutes is non-zero |
| Duration.PartsAreNonZero | wait_uptime/__init__.py:117-123 | from a minute on, the `not parts` fallback never fires: the parts are exactly the non-zero components, one to three of them |
| Duration.LongFields | wait_uptime/__init__.py:113-125 | from a minute on, the text splits into the non-zero components, hours before minutes before seconds |
| Duration.ShortFields | wait_uptime/__init__.py:110-111 | below a minute the text is the single field `f'{x:.1f}s'` |
| Duration.FormatNeverEmpty | wait_uptime/__init__.py:100-125 | the formatted text is never empty |
| Duration.FormatRoundTrip | wait_uptime/__init__.py:59-125 | reading each field of `format_duration(x)` with `parse_time_string` and adding them up gives `x` rounded to a tenth below a minute (within 0.05), and its whole seconds from a minute on (the fraction dropped, never rounded up) |
| Uptime.FirstLineFields | wait_uptime/__init__.py:44-45 | the fields of the stripped first line are the fields of the raw first line: the `strip()` changes nothing |
| Uptime.ParseField | wait_uptime/__init__.py:46-51 | a first field is accepted only when `float()` reads it as a non-negative number; otherwise it is "not a number" or "negative" |
| Uptime.ParseUptime | wait_uptime/__init__.py:44-54 | an uptime that is returned is never negative |
| Uptime.GetUptime | wait_uptime/__init__.py:37-56 | a missing file and an unreadable file are errors before any parsing; an uptime that is returned came from the file's text and is non-negative |
| Uptime.UptimeValue | wait_uptime/__init__.py:44-51 | the uptime is `v` exactly when the raw first line has a first field that `float()` reads as `v`, and `v` is not negative |
| Uptime.BlankFirstLine | wait_uptime/__init__.py:44-45 | the "no field" error (`IndexError`) happens exactly when the first line is blank |
| Uptime.FirstFieldDecides | wait_uptime/__init__.py:44-46 | for any file text that starts with a field followed by whitespace, the result is decided by that field alone: the rest of the first line and all later lines are ignored |
| Uptime.ProcUptimeRoundTrip | wait_uptime/__init__.py:44-51 | the kernel's format `"<uptime> <idle>\n"`, with two decimals each, is read back as the uptime exactly |
| Uptime.NegativeRefused | wait_uptime/__init__.py:48-49 | a negative first field is refused as negative, whatever follows it |
| Waiter.Validate | wait_uptime/__init__.py:146-153 | the argument checks run in the source's order: a negative target first, then a non-positive interval, then a negative timeout. Each error holds exactly when the earlier checks pass and its own fails |
| Waiter.Wait | wait_uptime/__init__.py:128-211 | the run ends in a `ValueError` exactly when the arguments are invalid, and then nothing is logged |
| Waiter.Poll | wait_uptime/__init__.py:172-211 | the loop never raises `ValueError`, and when it is interrupted its last message is `interrupted by user` |
| Waiter.Iterate | wait_uptime/__init__.py:174-207 | a pass of the loop goes round again only after a successful reading short of the target; an interrupted pass logs `interrupted by user` |
| Waiter.CheckTimeout | wait_uptime/__init__.py:185-194 | the pass returns `False` exactly when a timeout was given and the clock value it reads is at least the timeout after the start; the message carries that elapsed time and the reading. A pass that goes on past a timeout test found time left |
| Waiter.CheckProgress | wait_uptime/__init__.py:196-207 | a pass that goes on ends with one sleep of the poll interval. When verbose it reads one clock value and logs progress exactly when that value is at least 10 s after the last progress time; the message carries that clock value and the reading, and the value becomes the last progress time. Otherwise the last progress time is unchanged |
| Waiter.StepFacts | wait_uptime/__init__.py:174-207 | one pass of the loop reads one clock value for the timeout test when there is a timeout and one for the progress test when verbose. A pass that goes on found time left at its timeout test, sleeps once for the poll interval, and logs progress exactly when the clock value read for it is at least 10 s after the last progress time, which becomes that clock value. A pass that stops does not sleep. A failed read raises its error at once, logging nothing. It returns `True` only at the target, and a reading at the target always stops the pass: with `True` and a message carrying the reading and the elapsed time when the clock gives a value, before any timeout test. It returns `False` exactly when the reading is short of the target and the clock value read for the timeout test is at least the timeout after the start; the message carries that elapsed time and the reading |
| Waiter.StepGoesOn | wait_uptime/__init__.py:174-207 | a pass goes round again exactly when its reading succeeded short of the target, the clock has every value the pass reads, and its timeout test (if any) finds time left |
| Waiter.WaitUptime | wait_uptime/__init__.py:128-211 | the method returns exactly the outcome and event log that `Wait` describes |
| Waiter.PollLoop | wait_uptime/__init__.py:168-211 | the `while True` loop returns exactly the outcome and events that `Poll` describes, prefixed by what was logged before it |
| Waiter.Pass | wait_uptime/__init__.py:176-206 | one pass of the loop body after `get_uptime()` (target test, timeout test, progress message, sleep) computes exactly the step `Iterate` describes: where it stops and what it logs, or which clock value comes next, the new last progress time and what it logged |
| Waiter.InvalidReadsNothing | wait_uptime/__init__.py:146-156 | invalid arguments give the `ValueError` of the first check that fails, and the run is the same whatever the traces hold: neither uptime nor clock is read |
| Waiter.FastPath | wait_uptime/__init__.py:155-160 | when the first reading already meets the target, the function returns `True` without sleeping, and only the first reading and the start time are consulted |
| Waiter.WaitReached | wait_uptime/__init__.py:156-183 | `True` is returned only at the first reading that meets the target. Every earlier reading succeeded short of it, the passes before it found time left at their timeout tests, its target test got a clock value, and the loop slept once before each reading after its first |
| Waiter.PollReached | wait_uptime/__init__.py:173-207 | inside the loop, `True` comes at the first reading at the target, after one sleep per earlier pass; the earlier passes went on and the target test got a clock value |
| Waiter.WaitReachesTarget | wait_uptime/__init__.py:156-207 | conversely, with valid arguments and with or without a timeout, the function returns `True` at the first reading that meets the target once the run gets through to it. Because the target test comes before the timeout test, this holds even when that pass's elapsed time is past the timeout. The loop sleeps once before each reading after its first |
| Waiter.PollReachesTarget | wait_uptime/__init__.py:173-207 | the loop half of the previous property; the last message carries that reading and the elapsed time read by its target test |
| Waiter.WaitFailed | wait_uptime/__init__.py:156-177 | an `UptimeError` is the error of the first failed read; every reading before it succeeded short of the target, the passes before it went on, and nothing is retried |
| Waiter.PollFailed | wait_uptime/__init__.py:173-177 | inside the loop, an `UptimeError` comes from the first failed read, after one sleep per earlier pass, all of which went on |
| Waiter.WaitFails | wait_uptime/__init__.py:155-177 | conversely, with valid arguments the function raises the error of the first failed read as soon as the run gets through to it, whatever time is left before the timeout; the loop sleeps once before each reading after its first |
| Waiter.PollFails | wait_uptime/__init__.py:173-176 | the loop half of the previous property |
| Waiter.WaitTimedOut | wait_uptime/__init__.py:155-194 | `False` means a timeout was given and some pass `m` of the loop timed out: the first reading and every reading up to that pass were short of the target, the timeout tests of the earlier passes found time left, and the clock value read by the test of pass `m` is at least the timeout after the start time. The last message carries that elapsed time and that pass's reading. With no timeout the function never returns `False` |
| Waiter.PollTimedOut | wait_uptime/__init__.py:172-194 | the loop half of the previous property |
| Waiter.WaitTimesOut | wait_uptime/__init__.py:155-194 | conversely, with valid arguments and a timeout, the function returns `False` at the first pass whose timeout test finds the time up, provided every reading until then is short of the target |
| Waiter.PollTimesOut | wait_uptime/__init__.py:172-194 | the loop half of the previous property |
| Waiter.WaitSleeps | wait_uptime/__init__.py:207 | every sleep lasts the poll interval |
| Waiter.PollSleeps | wait_uptime/__init__.py:207 | the loop half of the previous property |
| Waiter.WaitProgress | wait_uptime/__init__.py:168-205 | progress messages appear only when verbose. Each carries a clock value read after the start time. The first comes at least 10 s after the start, each later one at least 10 s after the previous |
| Waiter.PollProgress | wait_uptime/__init__.py:196-205 | the loop half of the previous property, measured from the last progress time; each time is a clock value read in the loop |
| Cli.ExitCode | wait_uptime/__init__.py:284-295 | status 0 exactly for `True`, 2 exactly for `False`, 130 exactly for an interrupt, 1 exactly for an `UptimeError` or a `ValueError` from `wait_uptime` |
| Cli.Configure | wait_uptime/__init__.py:263-282 | the delay and a non-empty timeout are parsed with `parse_time_string`, and it fails exactly when one of them does. An absent or empty timeout means none. The interval and the verbose flag pass through unchanged |
| Cli.ExitStatus | wait_uptime/__init__.py:263-295 | the program's exit status is always one of 0, 1, 2, 130 |
| Cli.BadArgumentsFail | wait_uptime/__init__.py:265-278 | a delay or timeout that does not parse gives status 1 before anything is read |
| Cli.EmptyTimeoutIsNone | wait_uptime/__init__.py:272-273 | `--timeout ''` behaves exactly like no timeout |
| Cli.InvalidArgumentsFail | wait_uptime/__init__.py:146-153 | a negative delay, a non-positive interval or a negative timeout gives status 1, whatever the system |
| Cli.SuccessMeansReached | wait_uptime/__init__.py:281-284 | status 0 means some call of `get_uptime()` met the target, every earlier call succeeded short of it, and the run got through to that call |
| Cli.TimeoutNeedsTimeout | wait_uptime/__init__.py:272-284 | status 2 only happens when a non-empty `--timeout` was given and its time ran out: some pass of the loop found the elapsed time at the timeout while every call of `get_uptime()` so far, the first one included, was short of the target |
| Cli.TimingOutExits | wait_uptime/__init__.py:186-194 | with valid arguments, the program exits with 2 when the first call of `get_uptime()` is short of the target and a later timeout test finds the elapsed time at the timeout, every earlier call having succeeded short of the target; with `Cli.TimeoutNeedsTimeout` this characterises status 2 |
| Cli.ReachingTargetSucceeds | wait_uptime/__init__.py:280-284 | with valid arguments, with or without a timeout, the program exits with 0 at the first call of `get_uptime()` that meets the target, once the run gets through to it |
| Cli.FailedReadFails | wait_uptime/__init__.py:280-288 | with valid arguments, a failed read of `/proc/uptime` gives status 1 as soon as the run gets through to it, when every earlier read was short of the target |
| Cli.NoUptimeFails | wait_uptime/__init__.py:38-56 | with valid arguments, a missing or unreadable `/proc/uptime` at the first read gives status 1 |

## Left out

- File I/O: `Path.exists()`, `open()` and `readline()` are replaced by the outcome of one read of `/proc/uptime`. Text-mode newline translation (`\r\n` and `\r` to `\n`) is not modelled.
- Real time: `time.time()` and `time.sleep()` become a trace of clock values and `Slept` events. The clock is not assumed to be monotonic.
- `KeyboardInterrupt`: an interrupt is modelled as the run needing a value past the end of a trace. Interrupts between two reads (for instance during `time.sleep`) are not distinguished from interrupts at the next read.
- Logging: `setup_logging`, the logging levels, `--quiet`, and the wording and timestamps of messages are left out. Messages are events carrying the values they show.
- argparse: `--version`, help text, and argparse's own exit status 2 for a malformed `--interval` are left out. The model starts from the parsed arguments.
- The generic `except Exception` in `main` is modelled only for the `ValueError`s raised by `wait_uptime`. No other exception can arise in the model.
- Floating point: numbers are exact reals, so IEEE-754 rounding, infinities, NaN and overflow are not modelled.
- `float()`: exponents, `inf`/`nan`, underscores and non-ASCII digits are not accepted by `Numerals.ParseFloat`. It reads an optional sign, then digits with an optional decimal point, between whitespace. That whitespace is what `str.strip()` removes, except the separators `\x1c`-`\x1f`: `float()` does not skip them, so text holding one is refused (`"5\x1cm"` is an invalid time value).
- `lower()` is modelled for ASCII letters only.
- `f'{x:.1f}'` is modelled as rounding the exact value half-to-even to a tenth. CPython rounds the binary double instead.
