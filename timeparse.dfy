/**
 * `parse_time_string`: a duration expression such as `"30"`, `"90s"`,
 * `"5m"`, `"1.5h"` or `"2d"` read as a number of seconds.
 */
module TimeParse {
  import opened Results
  import opened Text
  import opened Numerals

  /** The two `ValueError`s the parser raises, with the normalised text. */
  datatype TimeError =
    | InvalidValue(text: string)   // a unit suffix matched but the rest is not a number
    | InvalidFormat(text: string)  // no unit suffix and the whole text is not a number

  datatype Unit = Unit(suffix: char, multiplier: nat)

  /** The unit table in the order its entries are tried. */
  const Units: seq<Unit> := [Unit('s', 1), Unit('m', 60), Unit('h', 3600), Unit('d', 86400)]

  /** The same table as a dictionary from suffix to multiplier. */
  const Multipliers: map<char, nat> := map['s' := 1, 'm' := 60, 'h' := 3600, 'd' := 86400]

  /**
   * `time_str.strip().lower()`: no whitespace at either end and no capital
   * letter left.
   */
  function Normalize(s: string): (t: string)
    ensures Trimmed(t) && NoUpper(t) && |t| <= |s|
  {
    LowerKeepsTrimmed(Strip(s));
    Lower(Strip(s))
  }

  /** A float times an integer multiplier. */
  function Times(v: real, multiplier: nat): real {
    v * multiplier as real
  }

  /**
   * `float(t[:-1]) * multiplier`: when the text before the unit letter is
   * not a number the error is "invalid time value", quoting the whole text.
   */
  function Scaled(t: string, multiplier: nat): (r: Result<real, TimeError>)
    requires t != []
    ensures r.Err? <==> ParseFloat(t[..|t| - 1]).None?
    ensures r.Err? ==> r.error == InvalidValue(t)
  {
    match ParseFloat(t[..|t| - 1])
    case None => Err(InvalidValue(t))
    case Some(v) => Ok(Times(v, multiplier))
  }

  /**
   * The loop over the unit table: the multiplier of the first unit whose
   * suffix ends `t`, or `None` when the loop runs to completion because no
   * suffix ends it.
   */
  function MatchUnits(t: string, units: seq<Unit>): (r: Option<nat>)
    ensures r.None? <==> forall n :: 0 <= n < |units| ==> !EndsWith(t, units[n])
    ensures r.Some? ==>
      exists n :: && 0 <= n < |units| && EndsWith(t, units[n]) && units[n].multiplier == r.value
                  && (forall p :: 0 <= p < n ==> !EndsWith(t, units[p]))
    decreases |units|
  {
    if units == [] then None
    else if t != [] && t[|t| - 1] == units[0].suffix then Some(units[0].multiplier)
    else
      var r := MatchUnits(t, units[1..]);
      assert forall n :: 1 <= n < |units| ==> units[n] == units[1..][n - 1];
      r
  }

  /** `t.endswith(u)` for a unit's one-letter suffix. */
  predicate EndsWith(t: string, u: Unit) {
    t != [] && t[|t| - 1] == u.suffix
  }

  /**
   * `parse_time_string(s)`: seconds, or the `ValueError` it raises, whose
   * message quotes the stripped, lower-cased argument.
   */
  function ParseTimeString(s: string): (r: Result<real, TimeError>)
    ensures r.Err? ==> r.error.text == Normalize(s)
  {
    ParseNormalized(Normalize(s))
  }

  /**
   * The body of `parse_time_string` after the input has been normalised to
   * `t`. An error quotes `t`; it is "invalid time value" exactly when `t`
   * ends in a unit letter, and "invalid time format" otherwise.
   */
  function ParseNormalized(t: string): (r: Result<real, TimeError>)
    ensures r.Err? ==> r.error.text == t
    ensures r.Err? ==> (r.error.InvalidValue? <==> t != [] && t[|t| - 1] in Multipliers)
  {
    MatchUnitsIsLookup(t);
    match MatchUnits(t, Units)
    case Some(multiplier) => Scaled(t, multiplier)
    case None =>
      match ParseFloat(t)
      case None => Err(InvalidFormat(t))
      case Some(v) => Ok(v)
  }

  /**
   * The order in which the table is tried does not matter: the suffixes are
   * distinct single characters, so the loop finds the dictionary entry for
   * the last character, if there is one.
   */
  lemma MatchUnitsIsLookup(t: string)
    ensures MatchUnits(t, Units) ==
      if t != [] && t[|t| - 1] in Multipliers then Some(Multipliers[t[|t| - 1]]) else None
  {
    if t != [] && t[|t| - 1] in Multipliers {
      MatchUnitsFound(t);
    } else {
      MatchUnitsMissing(t);
    }
  }

  lemma MatchUnitsFound(t: string)
    requires t != [] && t[|t| - 1] in Multipliers
    ensures MatchUnits(t, Units) == Some(Multipliers[t[|t| - 1]])
  {
    var c := t[|t| - 1];
    var n := if c == 's' then 0 else if c == 'm' then 1 else if c == 'h' then 2 else 3;
    MatchUnitsFirst(t, Units, n);
  }

  lemma MatchUnitsMissing(t: string)
    requires t == [] || t[|t| - 1] !in Multipliers
    ensures MatchUnits(t, Units) == None
  {
    assert forall n :: 0 <= n < |Units| ==> Units[n].suffix in Multipliers;
  }

  /** The loop stops at the first unit whose suffix ends `t`. */
  lemma MatchUnitsFirst(t: string, units: seq<Unit>, n: nat)
    requires n < |units| && EndsWith(t, units[n])
    requires forall p :: 0 <= p < n ==> !EndsWith(t, units[p])
    ensures MatchUnits(t, units) == Some(units[n].multiplier)
  {
  }

  /**
   * What `parse_time_string` computes: after stripping and lower-casing, a
   * unit suffix scales the number before it, and text without a suffix is
   * a number of seconds.  A bad number is `InvalidValue` after a suffix and
   * `InvalidFormat` without one.
   */
  lemma ParseNormalizedSpec(t: string)
    ensures ParseNormalized(t) ==
        if t != [] && t[|t| - 1] in Multipliers then
          match ParseFloat(t[..|t| - 1])
          case Some(v) => Ok(Times(v, Multipliers[t[|t| - 1]]))
          case None => Err(InvalidValue(t))
        else
          match ParseFloat(t)
          case Some(v) => Ok(v)
          case None => Err(InvalidFormat(t))
  {
    MatchUnitsIsLookup(t);
  }

  /** Text made of digits and lower-case unit letters is already normalised. */
  lemma NormalizePlain(s: string)
    requires Trimmed(s) && NoUpper(s)
    ensures ParseTimeString(s) == ParseNormalized(s)
  {
    StripTrimmed(s);
    LowerNoUpper(s);
  }

  lemma ScaledNumber(num: string, c: char, m: nat, v: real)
    requires ParseFloat(num) == Some(v)
    ensures Scaled(num + [c], m) == Ok(Times(v, m))
  {
    var t := num + [c];
    assert t[..|t| - 1] == num;
  }

  /** A number followed by a unit letter is scaled by that unit's multiplier. */
  lemma ParseNumberWithUnit(num: string, c: char, v: real)
    requires c in Multipliers && ParseFloat(num) == Some(v)
    ensures ParseNormalized(num + [c]) == Ok(Times(v, Multipliers[c]))
  {
    ScaledNumber(num, c, Multipliers[c], v);
    MatchUnitsIsLookup(num + [c]);
  }

  /** A number with no unit letter after it is a number of seconds. */
  lemma ParseNumberAlone(t: string, v: real)
    requires t == [] || t[|t| - 1] !in Multipliers
    requires ParseFloat(t) == Some(v)
    ensures ParseNormalized(t) == Ok(v)
  {
    ParseNormalizedSpec(t);
  }

  lemma NumeralWithUnit(num: string, c: char)
    requires num != [] && Trimmed(num) && NoUpper(num)
    requires c in Multipliers
    ensures ParseTimeString(num + [c]) == ParseNormalized(num + [c])
  {
    var s := num + [c];
    assert s[0] == num[0];
    NormalizePlain(s);
  }

  lemma NatStringPlain(n: nat)
    ensures NatString(n) != [] && Trimmed(NatString(n)) && NoUpper(NatString(n))
    ensures NatString(n)[|NatString(n)| - 1] !in Multipliers
  {
    NatStringTrimmed(n);
    var s := NatString(n);
    assert IsDigit(s[|s| - 1]);
  }

  lemma NatUnitNormalized(n: nat, c: char)
    requires c in Multipliers
    ensures ParseTimeString(NatString(n) + [c]) == ParseNormalized(NatString(n) + [c])
  {
    NatStringPlain(n);
    NumeralWithUnit(NatString(n), c);
  }

  lemma NatUnitValue(n: nat, c: char)
    requires c in Multipliers
    ensures ParseNormalized(NatString(n) + [c]) == Ok(Times(n as real, Multipliers[c]))
  {
    ParseNatString(n);
    ParseNumberWithUnit(NatString(n), c, n as real);
  }

  /** `parse_time_string(str(n) + unit) == n * multiplier` for every unit of the table. */
  lemma ParseNatWithUnit(n: nat, c: char)
    requires c in Multipliers
    ensures ParseTimeString(NatString(n) + [c]) == Ok(Times(n as real, Multipliers[c]))
  {
    NatUnitNormalized(n, c);
    NatUnitValue(n, c);
  }

  /**
   * Any numeral, signed or not, followed by a unit letter is scaled by that
   * unit's multiplier; in particular negative values are accepted.
   */
  lemma ParseWithUnit(num: string, c: char, v: real)
    requires num != [] && Trimmed(num) && NoUpper(num)
    requires c in Multipliers && ParseFloat(num) == Some(v)
    ensures ParseTimeString(num + [c]) == Ok(Times(v, Multipliers[c]))
  {
    NumeralWithUnit(num, c);
    ParseNumberWithUnit(num, c, v);
  }

  /** A bare integer is a number of seconds: `parse_time_string(str(n)) == n`. */
  lemma ParseBareNat(n: nat)
    ensures ParseTimeString(NatString(n)) == Ok(n as real)
  {
    NatStringPlain(n);
    NormalizePlain(NatString(n));
    ParseNatString(n);
    ParseNumberAlone(NatString(n), n as real);
  }

  /** A unit letter with nothing before it is an invalid value. */
  lemma ParseUnitAlone(c: char)
    requires c in Multipliers
    ensures ParseTimeString([c]) == Err(InvalidValue([c]))
  {
    assert Trimmed([c]) && NoUpper([c]);
    NormalizePlain([c]);
    MatchUnitsIsLookup([c]);
    ScaledNothing(c, Multipliers[c]);
  }

  lemma ScaledNothing(c: char, m: nat)
    ensures Scaled([c], m) == Err(InvalidValue([c]))
  {
    assert [c][..0] == [];
    ParseFloatEmpty();
  }

  /** The empty string (and all-blank text) is an invalid format. */
  lemma ParseBlank(s: string)
    requires AllSpace(s)
    ensures ParseTimeString(s) == Err(InvalidFormat([]))
  {
    StripPadded(s, [], []);
    assert s + [] + [] == s;
    assert Strip([]) == [];
    ParseNormalizedSpec([]);
  }

  /** Letter case is ignored: `parse_time_string(s.lower()) == parse_time_string(s)`, so `"1.5H"` is `"1.5h"`. */
  lemma ParseIgnoresCase(s: string)
    ensures ParseTimeString(Lower(s)) == ParseTimeString(s)
  {
    StripLower(s);
    LowerTwice(Strip(s));
  }

  /** Whitespace around the expression is ignored. */
  lemma ParseIgnoresPadding(a: string, s: string, b: string)
    requires AllSpace(a) && AllSpace(b)
    ensures ParseTimeString(a + s + b) == ParseTimeString(s)
  {
    StripPadded(a, s, b);
  }
}
