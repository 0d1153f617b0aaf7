/**
 * Decimal numerals: Python's `float()` on the decimal forms the program
 * meets, `str()` of a non-negative `int`, and the fixed-point rendering
 * `f'{x:.1f}'`.  Numbers are exact `real`s rather than IEEE-754 doubles.
 */
module Numerals {
  import opened Results
  import opened Text

  predicate IsDigit(c: char) {
    '0' <= c <= '9'
  }

  predicate AllDigits(s: string) {
    forall i :: 0 <= i < |s| ==> IsDigit(s[i])
  }

  function DigitValue(c: char): (d: nat)
    requires IsDigit(c)
    ensures d < 10
  {
    c as int - '0' as int
  }

  function DigitChar(d: nat): (c: char)
    requires d < 10
    ensures IsDigit(c) && DigitValue(c) == d
  {
    ('0' as int + d) as char
  }

  /** Value of a run of decimal digits, most significant digit first. */
  function NatValue(ds: string): nat
    requires AllDigits(ds)
    decreases |ds|
  {
    if ds == [] then 0 else 10 * NatValue(ds[..|ds| - 1]) + DigitValue(ds[|ds| - 1])
  }

  /** Value of the digits written after a decimal point. */
  function FracValue(ds: string): (v: real)
    requires AllDigits(ds)
    ensures 0.0 <= v < 1.0
    decreases |ds|
  {
    if ds == [] then 0.0 else (DigitValue(ds[0]) as real + FracValue(ds[1..])) / 10.0
  }

  /** Position of the first `c` in `s`, or `|s|` when there is none. */
  function IndexOf(s: string, c: char): (k: nat)
    ensures k <= |s| && c !in s[..k]
    ensures k < |s| ==> s[k] == c
    decreases |s|
  {
    if s == [] || s[0] == c then 0
    else
      var k := IndexOf(s[1..], c);
      assert s[..k + 1] == [s[0]] + s[1..][..k];
      k + 1
  }

  /**
   * `float()` of an unsigned numeral: digits, optionally a point and more
   * digits, with at least one digit in all (`"5"`, `"5."`, `".5"`, `"1.25"`).
   */
  function ParseUnsigned(s: string): (r: Option<real>)
    ensures r.Some? ==> r.value >= 0.0
    ensures r.Some? ==> forall i :: 0 <= i < |s| ==> IsDigit(s[i]) || s[i] == '.'
  {
    var p := IndexOf(s, '.');
    var whole := s[..p];
    var frac := if p < |s| then s[p + 1..] else [];
    if AllDigits(whole) && AllDigits(frac) && (whole != [] || frac != []) then
      assert forall i :: p < i < |s| ==> s[i] == frac[i - p - 1];
      Some(NatValue(whole) as real + FracValue(frac))
    else
      None
  }

  /**
   * `float()` on text that has already been stripped: an optional `+` or
   * `-` sign followed by an unsigned numeral.
   */
  function ParseSigned(t: string): (r: Option<real>)
    ensures r.Some? ==> t != []
    ensures r.Some? && r.value < 0.0 ==> t[0] == '-'
    ensures r.Some? ==> forall i :: 0 <= i < |t| ==> !IsSeparator(t[i])
  {
    var signed := t != [] && (t[0] == '+' || t[0] == '-');
    match ParseUnsigned(if signed then t[1..] else t)
    case None => None
    case Some(v) => Some(if signed && t[0] == '-' then -v else v)
  }

  /**
   * The information separators `\x1c`-`\x1f`: whitespace to `str.strip()`
   * and `str.split()`, but not to `float()`, which skips only the C
   * whitespace characters and non-ASCII whitespace around a numeral.
   */
  predicate IsSeparator(c: char) {
    '\U{1C}' <= c <= '\U{1F}'
  }

  /**
   * `float(s)` on decimal numerals: surrounding whitespace is ignored.
   * Anything the grammar does not admit (including the empty string and
   * all-blank text) is a `ValueError`, here `None`; a negative value has a
   * minus sign in front.  A separator is never skipped by `float()`, and
   * one left in the numeral is refused, so text holding one is refused
   * wherever it stands; on the rest `float()` skips exactly what `strip()`
   * would.
   */
  function ParseFloat(s: string): (r: Option<real>)
    ensures r.Some? ==> Strip(s) != []
    ensures r.Some? ==> forall i :: 0 <= i < |s| ==> !IsSeparator(s[i])
    ensures r.Some? && r.value < 0.0 ==> Strip(s)[0] == '-'
  {
    if exists i :: 0 <= i < |s| && IsSeparator(s[i]) then None
    else ParseSigned(Strip(s))
  }

  /** `str(n)` for a non-negative `int`: canonical decimal digits. */
  function NatString(n: nat): (s: string)
    ensures s != [] && AllDigits(s) && NatValue(s) == n
    ensures s[0] == '0' ==> n == 0
    decreases n
  {
    if n < 10 then [DigitChar(n)]
    else
      var s := NatString(n / 10) + [DigitChar(n % 10)];
      assert s[..|s| - 1] == NatString(n / 10);
      s
  }

  lemma {:induction false} IndexOfAppend(w: string, t: string, c: char)
    requires c !in w
    ensures IndexOf(w + t, c) == |w| + IndexOf(t, c)
    decreases |w|
  {
    if w == [] {
      assert w + t == t;
    } else {
      assert (w + t)[0] == w[0];
      assert (w + t)[1..] == w[1..] + t;
      IndexOfAppend(w[1..], t, c);
    }
  }

  lemma DigitsHaveNoPoint(ds: string)
    requires AllDigits(ds)
    ensures '.' !in ds
  {
  }

  /** An unsigned numeral without a point is read as the integer its digits denote. */
  lemma ParseDigits(ds: string)
    requires ds != [] && AllDigits(ds)
    ensures ParseUnsigned(ds) == Some(NatValue(ds) as real)
  {
    DigitsHaveNoPoint(ds);
    IndexOfAppend(ds, [], '.');
    assert ds + [] == ds;
    assert IndexOf(ds, '.') == |ds|;
    assert ds[..|ds|] == ds;
  }

  /** `float('')` raises `ValueError`. */
  lemma ParseFloatEmpty()
    ensures ParseFloat([]) == None
  {
    StripTrimmed([]);
  }

  /** On text without surrounding whitespace `float()` is `ParseSigned`. */
  lemma ParseFloatTrimmed(s: string)
    requires Trimmed(s)
    ensures ParseFloat(s) == ParseSigned(s)
  {
    StripTrimmed(s);
    if exists i :: 0 <= i < |s| && IsSeparator(s[i]) {
      assert ParseSigned(s).None?;
    }
  }

  lemma NatStringTrimmed(n: nat)
    ensures Trimmed(NatString(n)) && IsDigit(NatString(n)[0])
  {
    var s := NatString(n);
    assert IsDigit(s[0]) && IsDigit(s[|s| - 1]);
  }

  lemma ParseSignedNat(n: nat)
    ensures ParseSigned(NatString(n)) == Some(n as real)
  {
    NatStringTrimmed(n);
    ParseDigits(NatString(n));
  }

  /** `float(str(n)) == n`. */
  lemma ParseNatString(n: nat)
    ensures ParseFloat(NatString(n)) == Some(n as real)
  {
    NatStringTrimmed(n);
    ParseFloatTrimmed(NatString(n));
    ParseSignedNat(n);
  }

  /** A numeral with a decimal point: `float(str(a) + "." + ds) == a + 0.ds`. */
  lemma ParsePointNumeral(a: nat, ds: string)
    requires AllDigits(ds)
    ensures ParseUnsigned(NatString(a) + "." + ds) == Some(a as real + FracValue(ds))
  {
    var w := NatString(a);
    var s := w + "." + ds;
    DigitsHaveNoPoint(w);
    assert s == w + ("." + ds);
    IndexOfAppend(w, "." + ds, '.');
    assert IndexOf(s, '.') == |w|;
    assert s[..|w|] == w;
    assert s[|w| + 1..] == ds;
  }

  /** Round to the nearest integer, ties to the even one (the rounding `:.1f` applies). */
  function RoundHalfEven(y: real): (k: int)
    ensures -0.5 <= k as real - y <= 0.5
    ensures (k as real - y == 0.5 || y - k as real == 0.5) ==> k % 2 == 0
  {
    var f := y.Floor;
    var d := y - f as real;
    if d < 0.5 then f
    else if d > 0.5 then f + 1
    else if f % 2 == 0 then f
    else f + 1
  }

  function Abs(x: real): real {
    if x < 0.0 then -x else x
  }

  /** `|x|` in tenths, rounded half to even. */
  function Tenths(x: real): (k: nat)
    ensures -0.5 <= k as real - 10.0 * Abs(x) <= 0.5
  {
    RoundHalfEven(10.0 * Abs(x))
  }

  /** A count of tenths written as a numeral with one decimal: 37 is `"3.7"`. */
  function TenthsText(k: nat): string {
    NatString(k / 10) + "." + [DigitChar(k % 10)]
  }

  /** `f'{x:.1f}'`: a minus sign when `x` is negative, then `|x|` to one decimal. */
  function Fixed1(x: real): (s: string)
    ensures |s| >= 3 && s[|s| - 2] == '.' && IsDigit(s[|s| - 1])
    ensures s[0] == '-' <==> x < 0.0
  {
    if x < 0.0 then "-" + TenthsText(Tenths(x)) else TenthsText(Tenths(x))
  }

  /** The number `Fixed1(x)` denotes: `x` rounded to a tenth. */
  function Rounded1(x: real): real {
    var v := Tenths(x) as real / 10.0;
    if x < 0.0 then -v else v
  }

  lemma TenthsNumeral(k: nat)
    ensures ParseUnsigned(TenthsText(k)) == Some(k as real / 10.0)
  {
    var ds := [DigitChar(k % 10)];
    ParsePointNumeral(k / 10, ds);
    assert FracValue(ds) == (k % 10) as real / 10.0 by {
      assert ds[1..] == [];
    }
    assert (k / 10) as real + (k % 10) as real / 10.0 == k as real / 10.0;
  }

  /** A leading minus sign negates an unsigned numeral. */
  lemma ParseSignedMinus(u: string, v: real)
    requires ParseUnsigned(u) == Some(v)
    ensures ParseSigned("-" + u) == Some(-v)
  {
    assert ("-" + u)[1..] == u;
  }

  /** Without a sign, `ParseSigned` is `ParseUnsigned`. */
  lemma ParseSignedPlain(u: string, v: real)
    requires u != [] && IsDigit(u[0]) && ParseUnsigned(u) == Some(v)
    ensures ParseSigned(u) == Some(v)
  {
  }

  lemma TenthsTextTrimmed(k: nat)
    ensures Trimmed(TenthsText(k)) && IsDigit(TenthsText(k)[0])
  {
    var s := TenthsText(k);
    NatStringTrimmed(k / 10);
    assert s[0] == NatString(k / 10)[0];
    assert s[|s| - 1] == DigitChar(k % 10);
  }

  lemma Fixed1Trimmed(x: real)
    ensures Trimmed(Fixed1(x))
  {
    var t := TenthsText(Tenths(x));
    TenthsTextTrimmed(Tenths(x));
    assert ("-" + t)[|"-" + t| - 1] == t[|t| - 1];
  }

  /** `f'{x:.1f}'` is a non-empty run of digits, a point and perhaps a minus sign. */
  lemma Fixed1Plain(x: real)
    ensures Fixed1(x) != [] && NoUpper(Fixed1(x)) && NoSpace(Fixed1(x))
  {
    var k := Tenths(x);
    var a := NatString(k / 10);
    var t := TenthsText(k);
    forall i | 0 <= i < |t|
      ensures t[i] == '.' || IsDigit(t[i])
    {
      if i < |a| {
        assert t[i] == a[i];
      } else if i > |a| {
        assert t[i] == DigitChar(k % 10);
      }
    }
    var s := Fixed1(x);
    forall i | 0 <= i < |s|
      ensures s[i] == '-' || s[i] == '.' || IsDigit(s[i])
    {
      if x < 0.0 && i > 0 {
        assert s[i] == t[i - 1];
      }
    }
  }

  lemma Fixed1Signed(x: real)
    ensures ParseSigned(Fixed1(x)) == Some(Rounded1(x))
  {
    if x < 0.0 {
      Fixed1SignedNegative(x);
    } else {
      Fixed1SignedPositive(x);
    }
  }

  lemma Fixed1SignedNegative(x: real)
    requires x < 0.0
    ensures ParseSigned(Fixed1(x)) == Some(Rounded1(x))
  {
    var k := Tenths(x);
    TenthsNumeral(k);
    ParseSignedMinus(TenthsText(k), k as real / 10.0);
  }

  lemma Fixed1SignedPositive(x: real)
    requires x >= 0.0
    ensures ParseSigned(Fixed1(x)) == Some(Rounded1(x))
  {
    var k := Tenths(x);
    TenthsNumeral(k);
    TenthsTextTrimmed(k);
    ParseSignedPlain(TenthsText(k), k as real / 10.0);
  }

  /**
   * Reading the text `f'{x:.1f}'` back with `float()` gives `x` to within
   * half a tenth.
   */
  lemma Fixed1RoundTrip(x: real)
    ensures ParseFloat(Fixed1(x)) == Some(Rounded1(x))
    ensures -0.05 <= Rounded1(x) - x <= 0.05
  {
    Fixed1Trimmed(x);
    ParseFloatTrimmed(Fixed1(x));
    Fixed1Signed(x);
  }

  /** Two-decimal rendering of a count of hundredths, as in `/proc/uptime`. */
  function Cents(c: nat): string {
    NatString(c / 100) + "." + [DigitChar(c % 100 / 10), DigitChar(c % 10)]
  }

  lemma TwoDigitFrac(b: nat, d: nat)
    requires b < 10 && d < 10
    ensures FracValue([DigitChar(b), DigitChar(d)]) == b as real / 10.0 + d as real / 100.0
  {
    var ds := [DigitChar(b), DigitChar(d)];
    assert ds[1..] == [DigitChar(d)];
    assert ds[1..][1..] == [];
    assert FracValue(ds[1..]) == d as real / 10.0;
  }

  lemma HundredthsSplit(c: nat)
    ensures c as real / 100.0 == (c / 100) as real + (c % 100 / 10) as real / 10.0 + (c % 10) as real / 100.0
  {
    HundredthsDigits(c);
    ScaleHundredths(c, c / 100, c % 100 / 10, c % 10);
  }

  lemma HundredthsDigits(c: nat)
    ensures c == 100 * (c / 100) + 10 * (c % 100 / 10) + c % 10
  {
    var h, r := c / 100, c % 100;
    var t, u := r / 10, r % 10;
    assert c == 10 * (10 * h + t) + u;
    ModTen(10 * h + t, u);
  }

  lemma ModTen(q: int, u: int)
    requires 0 <= u < 10
    ensures (10 * q + u) % 10 == u
  {
  }


  lemma ScaleHundredths(c: int, h: int, t: int, u: int)
    requires c == 100 * h + 10 * t + u
    ensures c as real / 100.0 == h as real + t as real / 10.0 + u as real / 100.0
  {
    assert c as real == 100.0 * h as real + 10.0 * t as real + u as real;
  }


  lemma CentsNumeral(c: nat)
    ensures ParseUnsigned(NatString(c / 100) + "." + [DigitChar(c % 100 / 10), DigitChar(c % 10)])
         == Some(c as real / 100.0)
  {
    TwoDigitFrac(c % 100 / 10, c % 10);
    ParsePointNumeral(c / 100, [DigitChar(c % 100 / 10), DigitChar(c % 10)]);
    HundredthsSplit(c);
  }

  lemma CentsSigned(c: nat)
    ensures Trimmed(Cents(c))
    ensures ParseSigned(Cents(c)) == Some(c as real / 100.0)
  {
    var s := Cents(c);
    CentsNumeral(c);
    NatStringTrimmed(c / 100);
    assert s[0] == NatString(c / 100)[0];
    assert s[|s| - 1] == DigitChar(c % 10);
    ParseSignedPlain(s, c as real / 100.0);
  }

  /** `float()` reads a two-decimal numeral back exactly. */
  lemma CentsRoundTrip(c: nat)
    ensures ParseFloat(Cents(c)) == Some(c as real / 100.0)
  {
    CentsSigned(c);
    ParseFloatTrimmed(Cents(c));
  }

  /** A two-decimal numeral is a single field: digits and a point, no whitespace. */
  lemma CentsPlain(c: nat)
    ensures IsWord(Cents(c))
  {
    var a := NatString(c / 100);
    var s := Cents(c);
    forall i | 0 <= i < |s|
      ensures s[i] == '.' || IsDigit(s[i])
    {
      if i < |a| {
        assert s[i] == a[i];
      }
    }
  }
}
