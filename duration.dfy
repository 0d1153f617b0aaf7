/**
 * `format_duration`: a number of seconds as a short human-readable text,
 * `"45.0s"` below a minute and `"2h 30m 15s"` from a minute on.
 */
module Duration {
  import opened Results
  import opened Text
  import opened Numerals
  import opened TimeParse

  /**
   * Python's `x % m` for a positive float modulus: the remainder takes the
   * sign of `m`, and `x` is a whole multiple of `m` plus the remainder.
   */
  function PyMod(x: real, m: real): (r: real)
    requires m > 0.0
    ensures 0.0 <= r < m
    ensures IsWhole((x - r) / m)
  {
    var r := x - m * (x / m).Floor as real;
    RemainderBounds(x, m, (x / m).Floor);
    RemainderWhole(x, m, (x / m).Floor, r);
    r
  }

  lemma RemainderBounds(x: real, m: real, k: int)
    requires m > 0.0 && k == (x / m).Floor
    ensures 0.0 <= x - m * k as real < m
  {
    var q := x / m;
    var d := q - k as real;
    assert 0.0 <= d < 1.0;
    ScaleBounds(m, d);
    assert x == m * q;
    assert x - m * k as real == m * d;
  }

  lemma RemainderWhole(x: real, m: real, k: int, r: real)
    requires m > 0.0 && r == x - m * k as real
    ensures IsWhole((x - r) / m)
  {
    assert x - r == m * k as real;
    DivideBack(m, k as real);
    assert (x - r) / m == k as real;
    assert (k as real).Floor == k;
  }

  lemma DivideBack(m: real, f: real)
    requires m > 0.0
    ensures (m * f) / m == f
  {
  }

  /** `v` has no fractional part. */
  predicate IsWhole(v: real) {
    v.Floor as real == v
  }

  lemma ScaleBounds(m: real, d: real)
    requires m > 0.0 && 0.0 <= d < 1.0
    ensures 0.0 <= m * d < m
  {
    assert m * d >= 0.0;
    assert m - m * d == m * (1.0 - d);
  }

  /** Whole hours, minutes and seconds, as the source splits a value of a minute or more. */
  datatype Hms = Hms(hours: int, minutes: int, secs: int)

  /**
   * `int(s // 3600)`, `int((s % 3600) // 60)` and `int(s % 60)`: minutes
   * and seconds always lie in `[0, 60)`, and hours are not negative for a
   * value that is not.
   */
  function Split(seconds: real): (t: Hms)
    ensures 0 <= t.minutes < 60 && 0 <= t.secs < 60
    ensures seconds >= 0.0 ==> t.hours >= 0
  {
    Hms((seconds / 3600.0).Floor, (PyMod(seconds, 3600.0) / 60.0).Floor, PyMod(seconds, 60.0).Floor)
  }

  /** Dividing by a positive integer commutes with taking the floor. */
  lemma FloorOfQuotient(x: real, m: int)
    requires m > 0
    ensures (x / m as real).Floor == x.Floor / m
  {
    var f := x.Floor;
    var q, r := f / m, f % m;
    assert f == q * m + r && 0 <= r < m;
    var mr := m as real;
    assert q as real * mr <= x;
    assert x < (q + 1) as real * mr by {
      assert f + 1 <= q * m + m;
      assert (f + 1) as real <= (q * m + m) as real;
    }
    assert q as real <= x / mr < (q + 1) as real;
  }

  /** Removing a whole number leaves the fractional part alone. */
  lemma FloorMinusInt(x: real, k: int)
    ensures (x - k as real).Floor == x.Floor - k
  {
  }

  /**
   * For a value of a minute or more the three fields are the hours,
   * minutes and seconds of the whole seconds in it: they recombine to
   * `floor(seconds)`, minutes and seconds are below 60, and since at
   * least a minute has passed, hours or minutes is non-zero.
   */
  lemma SplitDecomposes(seconds: real)
    requires seconds >= 60.0
    ensures var t := Split(seconds);
      && t.hours >= 0 && 0 <= t.minutes < 60 && 0 <= t.secs < 60
      && t.hours * 3600 + t.minutes * 60 + t.secs == seconds.Floor
      && (t.hours > 0 || t.minutes > 0)
  {
    var f := seconds.Floor;
    SplitFields(seconds);
    HmsOfInt(f);
  }

  /** The three fields are computed from the whole seconds in the value. */
  lemma SplitFields(seconds: real)
    ensures var f := seconds.Floor;
      Split(seconds) == Hms(f / 3600, (f % 3600) / 60, f % 60)
  {
    var f := seconds.Floor;
    FloorOfQuotient(seconds, 3600);
    PyModFloor(seconds, 3600);
    FloorOfQuotient(PyMod(seconds, 3600.0), 60);
    PyModFloor(seconds, 60);
  }

  /** `x % m` for a positive integer modulus removes the whole multiples of `m` below `floor(x)`. */
  lemma PyModFloor(x: real, m: int)
    requires m > 0
    ensures PyMod(x, m as real) == x - (m * (x.Floor / m)) as real
    ensures PyMod(x, m as real).Floor == x.Floor % m
  {
    FloorOfQuotient(x, m);
    FloorMinusInt(x, m * (x.Floor / m));
  }

  /** Hours, minutes and seconds of a whole number of seconds. */
  lemma HmsOfInt(f: int)
    requires f >= 60
    ensures var h, m, s := f / 3600, (f % 3600) / 60, f % 60;
      && h >= 0 && 0 <= m < 60 && 0 <= s < 60
      && h * 3600 + m * 60 + s == f
      && (h > 0 || m > 0)
  {
  }

  predicate Whole(t: Hms) {
    t.hours >= 0 && t.minutes >= 0 && t.secs >= 0
  }

  /**
   * The list the source builds: hours, then minutes, then seconds, each
   * only when non-zero, except that seconds are added when nothing else
   * was (`secs > 0 or not parts`).
   */
  function Parts(t: Hms): (ps: seq<string>)
    requires Whole(t)
    ensures 1 <= |ps| <= 3
    ensures t.hours == 0 && t.minutes == 0 ==> ps == [Component(t.secs, 's')]
  {
    var withHours := if t.hours > 0 then [NatString(t.hours) + "h"] else [];
    var withMinutes := withHours + (if t.minutes > 0 then [NatString(t.minutes) + "m"] else []);
    withMinutes + (if t.secs > 0 || withMinutes == [] then [NatString(t.secs) + "s"] else [])
  }

  /**
   * `format_duration(seconds)`. From a minute on, the `not parts` fallback
   * never fires: the text joins exactly the non-zero components.
   */
  function FormatDuration(seconds: real): (r: string)
    ensures seconds >= 60.0 ==> r == Join(NonZeroParts(Split(seconds)), " ")
  {
    if seconds < 60.0 then Fixed1(seconds) + "s"
    else
      PartsAreNonZero(seconds);
      Join(Parts(Split(seconds)), " ")
  }

  /** One component of the output: a count followed by its unit letter. */
  function Component(n: nat, unit: char): string {
    NatString(n) + [unit]
  }

  /** The non-zero components in the order hours, minutes, seconds. */
  function NonZeroParts(t: Hms): seq<string>
    requires Whole(t)
  {
    (if t.hours > 0 then [Component(t.hours, 'h')] else [])
    + (if t.minutes > 0 then [Component(t.minutes, 'm')] else [])
    + (if t.secs > 0 then [Component(t.secs, 's')] else [])
  }

  /**
   * From a minute on, the `not parts` guard never decides anything: the
   * output lists exactly the non-zero components, and there is at least one.
   */
  lemma PartsAreNonZero(seconds: real)
    requires seconds >= 60.0
    ensures Parts(Split(seconds)) == NonZeroParts(Split(seconds))
    ensures 1 <= |Parts(Split(seconds))| <= 3
  {
    SplitDecomposes(seconds);
  }

  /** Each component is a single field of `split()`. */
  lemma ComponentIsWord(n: nat, unit: char)
    requires unit in Multipliers
    ensures IsWord(Component(n, unit))
  {
    var s := Component(n, unit);
    NatStringTrimmed(n);
    assert forall i :: 0 <= i < |s| - 1 ==> s[i] == NatString(n)[i];
  }

  /** The sum of two optional readings, absent when either is. */
  function Plus(a: Option<real>, b: Option<real>): Option<real> {
    if a.Some? && b.Some? then Some(a.value + b.value) else None
  }

  /** Adds up a list of readings; absent when one of them failed. */
  function Total(rs: seq<Result<real, TimeError>>): Option<real>
    decreases |rs|
  {
    if rs == [] then Some(0.0)
    else Plus(if rs[0].Ok? then Some(rs[0].value) else None, Total(rs[1..]))
  }

  lemma {:induction false} TotalAppend(a: seq<Result<real, TimeError>>, b: seq<Result<real, TimeError>>)
    ensures Total(a + b) == Plus(Total(a), Total(b))
    decreases |a|
  {
    if a == [] {
      assert a + b == b;
    } else {
      assert (a + b)[0] == a[0];
      assert (a + b)[1..] == a[1..] + b;
      TotalAppend(a[1..], b);
    }
  }

  /** Each field of a list read with `read`, in order. */
  function ReadEach(ws: seq<string>, read: string -> Result<real, TimeError>): (rs: seq<Result<real, TimeError>>)
    ensures |rs| == |ws|
    ensures forall n :: 0 <= n < |ws| ==> rs[n] == read(ws[n])
    decreases |ws|
  {
    if ws == [] then [] else [read(ws[0])] + ReadEach(ws[1..], read)
  }

  lemma {:induction false} ReadEachAppend(a: seq<string>, b: seq<string>, read: string -> Result<real, TimeError>)
    ensures ReadEach(a + b, read) == ReadEach(a, read) + ReadEach(b, read)
    decreases |a|
  {
    if a == [] {
      assert a + b == b;
    } else {
      assert (a + b)[0] == a[0];
      assert (a + b)[1..] == a[1..] + b;
      ReadEachAppend(a[1..], b, read);
    }
  }

  /** Three runs of fields read with `read` add up run by run. */
  lemma TotalOfThree(h: seq<string>, m: seq<string>, s: seq<string>, read: string -> Result<real, TimeError>,
                     a: real, b: real, c: real)
    requires Total(ReadEach(h, read)) == Some(a)
    requires Total(ReadEach(m, read)) == Some(b)
    requires Total(ReadEach(s, read)) == Some(c)
    ensures Total(ReadEach(h + m + s, read)) == Some(a + b + c)
  {
    ReadEachAppend(h, m, read);
    ReadEachAppend(h + m, s, read);
    TotalAppend(ReadEach(h, read), ReadEach(m, read));
    TotalAppend(ReadEach(h, read) + ReadEach(m, read), ReadEach(s, read));
  }

  /**
   * Reading a list of fields with `parse_time_string` and adding them up,
   * as a person reads `"1h 1m 1s"`; absent when a field is not a duration.
   */
  function ReadTotal(ws: seq<string>): Option<real> {
    Total(ReadEach(ws, ParseTimeString))
  }

  /** One optional component: present exactly when its count is positive. */
  function Optional(n: nat, unit: char): seq<string> {
    if n > 0 then [Component(n, unit)] else []
  }

  /**
   * A reader that, like `parse_time_string`, reads a count followed by a
   * unit letter as the count times the unit's multiplier, and the text
   * `f'{x:.1f}'` followed by a unit letter as `x` rounded to a tenth times
   * the multiplier.
   */
  ghost predicate ReadsUnitNumbers(read: string -> Result<real, TimeError>) {
    && (forall n: nat, unit: char :: unit in Multipliers ==>
          read(Component(n, unit)) == Ok(Times(n as real, Multipliers[unit])))
    && (forall x: real, unit: char :: unit in Multipliers ==>
          read(Fixed1(x) + [unit]) == Ok(Times(Rounded1(x), Multipliers[unit])))
  }

  /** `parse_time_string` is such a reader. */
  lemma ParseTimeStringReadsUnitNumbers()
    ensures ReadsUnitNumbers(ParseTimeString)
  {
    forall n: nat, unit: char | unit in Multipliers
      ensures ParseTimeString(Component(n, unit)) == Ok(Times(n as real, Multipliers[unit]))
    {
      ParseNatWithUnit(n, unit);
    }
    forall x: real, unit: char | unit in Multipliers
      ensures ParseTimeString(Fixed1(x) + [unit]) == Ok(Times(Rounded1(x), Multipliers[unit]))
    {
      Fixed1WithUnit(x, unit);
    }
  }

  lemma Fixed1WithUnit(x: real, unit: char)
    requires unit in Multipliers
    ensures ParseTimeString(Fixed1(x) + [unit]) == Ok(Times(Rounded1(x), Multipliers[unit]))
  {
    Fixed1RoundTrip(x);
    Fixed1Trimmed(x);
    Fixed1Plain(x);
    ParseWithUnit(Fixed1(x), unit, Rounded1(x));
  }

  /** Such a reader reads each component as its count times its unit's multiplier. */
  lemma ComponentRead(n: nat, unit: char, m: nat, read: string -> Result<real, TimeError>)
    requires ReadsUnitNumbers(read) && unit in Multipliers && Multipliers[unit] == m
    ensures read(Component(n, unit)) == Ok(Times(n as real, m))
  {
  }

  /** An optional component contributes its value, or nothing when absent. */
  lemma OptionalRead(n: nat, unit: char, y: real, read: string -> Result<real, TimeError>)
    requires n > 0 ==> read(Component(n, unit)) == Ok(y)
    requires n == 0 ==> y == 0.0
    ensures Total(ReadEach(Optional(n, unit), read)) == Some(y)
  {
    if n > 0 {
      TotalSingle(Component(n, unit), read, y);
    }
  }

  lemma NonZeroPartsAreOptionals(t: Hms)
    requires Whole(t)
    ensures NonZeroParts(t) == Optional(t.hours, 'h') + Optional(t.minutes, 'm') + Optional(t.secs, 's')
  {
  }

  /** The non-zero components add up to the whole number of seconds they stand for. */
  lemma NonZeroPartsTotal(t: Hms, read: string -> Result<real, TimeError>)
    requires Whole(t) && ReadsUnitNumbers(read)
    ensures Total(ReadEach(NonZeroParts(t), read)) == Some((t.hours * 3600 + t.minutes * 60 + t.secs) as real)
  {
    ComponentRead(t.hours, 'h', 3600, read);
    ComponentRead(t.minutes, 'm', 60, read);
    ComponentRead(t.secs, 's', 1, read);
    NonZeroPartsAdd(t, read);
  }

  lemma NonZeroPartsAdd(t: Hms, read: string -> Result<real, TimeError>)
    requires Whole(t)
    requires read(Component(t.hours, 'h')) == Ok(t.hours as real * 3600.0)
    requires read(Component(t.minutes, 'm')) == Ok(t.minutes as real * 60.0)
    requires read(Component(t.secs, 's')) == Ok(t.secs as real * 1.0)
    ensures Total(ReadEach(NonZeroParts(t), read)) == Some((t.hours * 3600 + t.minutes * 60 + t.secs) as real)
  {
    var h, m, s := Optional(t.hours, 'h'), Optional(t.minutes, 'm'), Optional(t.secs, 's');
    NonZeroPartsAreOptionals(t);
    OptionalRead(t.hours, 'h', t.hours as real * 3600.0, read);
    OptionalRead(t.minutes, 'm', t.minutes as real * 60.0, read);
    OptionalRead(t.secs, 's', t.secs as real * 1.0, read);
    TotalOfThree(h, m, s, read, t.hours as real * 3600.0, t.minutes as real * 60.0, t.secs as real * 1.0);
  }

  /**
   * From a minute on, `split()` of the text gives back the non-zero
   * components, hours before minutes before seconds.
   */
  lemma LongFields(seconds: real)
    requires seconds >= 60.0
    ensures Words(FormatDuration(seconds)) == NonZeroParts(Split(seconds))
  {
    var t := Split(seconds);
    PartsAreNonZero(seconds);
    var ps := NonZeroParts(t);
    NonZeroPartsAreOptionals(t);
    forall w | w in ps
      ensures IsWord(w)
    {
      if t.hours > 0 { ComponentIsWord(t.hours, 'h'); }
      if t.minutes > 0 { ComponentIsWord(t.minutes, 'm'); }
      if t.secs > 0 { ComponentIsWord(t.secs, 's'); }
    }
    WordsJoin(ps);
  }

  /** Below a minute the text is the single field `f'{x:.1f}s'`. */
  lemma ShortFields(seconds: real)
    requires seconds < 60.0
    ensures Words(FormatDuration(seconds)) == [Fixed1(seconds) + ['s']]
  {
    var w := Fixed1(seconds) + ['s'];
    Fixed1Plain(seconds);
    assert FormatDuration(seconds) == w;
    assert forall i :: 0 <= i < |w| - 1 ==> w[i] == Fixed1(seconds)[i];
    WordsSingle(w);
  }

  /** What a reader of the text should find: the value to a tenth below a minute, else its whole seconds. */
  function Shown(seconds: real): real {
    if seconds < 60.0 then Rounded1(seconds) else seconds.Floor as real
  }

  lemma TotalSingle(w: string, read: string -> Result<real, TimeError>, v: real)
    requires read(w) == Ok(v)
    ensures Total(ReadEach([w], read)) == Some(v)
  {
    assert [w][1..] == [];
  }

  lemma ShortTotal(seconds: real, read: string -> Result<real, TimeError>)
    requires seconds < 60.0 && ReadsUnitNumbers(read)
    ensures Total(ReadEach(Words(FormatDuration(seconds)), read)) == Some(Rounded1(seconds))
  {
    ShortFields(seconds);
    SecondsRead(seconds, read);
    TotalSingle(Fixed1(seconds) + ['s'], read, Rounded1(seconds));
  }

  lemma SecondsRead(x: real, read: string -> Result<real, TimeError>)
    requires ReadsUnitNumbers(read)
    ensures read(Fixed1(x) + ['s']) == Ok(Rounded1(x))
  {
    assert Multipliers['s'] == 1;
    assert read(Fixed1(x) + ['s']) == Ok(Times(Rounded1(x), 1));
  }

  lemma LongTotal(seconds: real, read: string -> Result<real, TimeError>)
    requires seconds >= 60.0 && ReadsUnitNumbers(read)
    ensures Total(ReadEach(Words(FormatDuration(seconds)), read)) == Some(seconds.Floor as real)
  {
    var t := Split(seconds);
    SplitDecomposes(seconds);
    NonZeroPartsTotal(t, read);
    assert Total(ReadEach(NonZeroParts(t), read)) == Some(seconds.Floor as real);
    LongFields(seconds);
  }

  /**
   * `format_duration` and `parse_time_string` agree: splitting the text
   * into fields, reading each field back as a duration and adding them
   * up gives the value rounded to a tenth below a minute, and its whole
   * seconds (the fraction dropped, never rounded up) from a minute on.
   */
  lemma FormatRoundTrip(seconds: real)
    ensures ReadTotal(Words(FormatDuration(seconds))) == Some(Shown(seconds))
    ensures seconds < 60.0 ==> -0.05 <= Shown(seconds) - seconds <= 0.05
    ensures seconds >= 60.0 ==> 0.0 <= seconds - Shown(seconds) < 1.0
  {
    ParseTimeStringReadsUnitNumbers();
    if seconds < 60.0 {
      Fixed1RoundTrip(seconds);
      ShortTotal(seconds, ParseTimeString);
    } else {
      LongTotal(seconds, ParseTimeString);
    }
  }

  /** The text is never empty: it always holds at least one field. */
  lemma FormatNeverEmpty(seconds: real)
    ensures Words(FormatDuration(seconds)) != []
    ensures FormatDuration(seconds) != []
  {
    if seconds < 60.0 {
      ShortFields(seconds);
    } else {
      LongFields(seconds);
      PartsAreNonZero(seconds);
    }
    WordsEmpty(FormatDuration(seconds));
  }
}
