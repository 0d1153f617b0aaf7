/**
 * The few pieces of Python's `str` behaviour the program relies on:
 * `strip()`, `lower()`, `split()` with no separator, `' '.join(...)`
 * and reading one line of text with `readline()`.
 */
module Text {

  /** `str.isspace()` for a single character (the characters CPython treats as whitespace). */
  predicate IsSpace(c: char) {
    if c <= ' ' then '\t' <= c <= '\r' || '\U{1C}' <= c
    else if c < '\U{85}' then false
    else
      || c == '\U{85}' || c == '\U{A0}' || c == '\U{1680}'
      || ('\U{2000}' <= c <= '\U{200A}')
      || c == '\U{2028}' || c == '\U{2029}' || c == '\U{202F}' || c == '\U{205F}'
      || c == '\U{3000}'
  }

  predicate AllSpace(s: string) {
    forall i :: 0 <= i < |s| ==> IsSpace(s[i])
  }

  predicate NoSpace(s: string) {
    forall i :: 0 <= i < |s| ==> !IsSpace(s[i])
  }

  /** True when `s` has no whitespace at either end, i.e. `s == s.strip()`. */
  predicate Trimmed(s: string) {
    s == [] || (!IsSpace(s[0]) && !IsSpace(s[|s| - 1]))
  }

  /** `s.lstrip()`: drops the leading whitespace and nothing else. */
  function TrimLeft(s: string): (r: string)
    ensures |r| <= |s| && r == s[|s| - |r|..]
    ensures AllSpace(s[..|s| - |r|])
    ensures r == [] || !IsSpace(r[0])
    decreases |s|
  {
    if s != [] && IsSpace(s[0]) then TrimLeft(s[1..]) else s
  }

  /** `s.rstrip()`: drops the trailing whitespace and nothing else. */
  function TrimRight(s: string): (r: string)
    ensures |r| <= |s| && r == s[..|r|]
    ensures AllSpace(s[|r|..])
    ensures r == [] || !IsSpace(r[|r| - 1])
    decreases |s|
  {
    if s != [] && IsSpace(s[|s| - 1]) then
      var init := s[..|s| - 1];
      var r := TrimRight(init);
      assert r == s[..|r|];
      assert s[|r|..] == init[|r|..] + [s[|s| - 1]];
      r
    else s
  }

  /** `s.strip()`. */
  function Strip(s: string): (r: string)
    ensures Trimmed(r) && |r| <= |s|
  {
    TrimRight(TrimLeft(s))
  }

  /** `strip()` removes whitespace from the two ends and nothing else. */
  lemma StripIsSlice(s: string)
    ensures exists i, j :: 0 <= i <= j <= |s| && Strip(s) == s[i..j] && AllSpace(s[..i]) && AllSpace(s[j..])
  {
    var t := TrimLeft(s);
    var r := TrimRight(t);
    assert r == s[|s| - |t|..|s| - |t| + |r|];
    assert s[|s| - |t| + |r|..] == t[|r|..];
  }

  lemma {:induction false} TrimLeftOfTrimmed(s: string)
    requires s == [] || !IsSpace(s[0])
    ensures TrimLeft(s) == s
  {
  }

  /** A string without whitespace at its ends is its own `strip()`. */
  lemma StripTrimmed(s: string)
    requires Trimmed(s)
    ensures Strip(s) == s
  {
  }

  lemma {:induction false} TrimLeftPadded(a: string, s: string)
    requires AllSpace(a)
    ensures TrimLeft(a + s) == TrimLeft(s)
    decreases |a|
  {
    if a != [] {
      assert (a + s)[0] == a[0] && IsSpace(a[0]);
      assert (a + s)[1..] == a[1..] + s;
      TrimLeftPadded(a[1..], s);
    } else {
      assert a + s == s;
    }
  }

  lemma {:induction false} TrimRightPadded(s: string, b: string)
    requires AllSpace(b)
    ensures TrimRight(s + b) == TrimRight(s)
    decreases |b|
  {
    if b != [] {
      assert (s + b)[|s + b| - 1] == b[|b| - 1] && IsSpace(b[|b| - 1]);
      assert (s + b)[..|s + b| - 1] == s + b[..|b| - 1];
      TrimRightPadded(s, b[..|b| - 1]);
    } else {
      assert s + b == s;
    }
  }

  /** Surrounding whitespace never changes the result of `strip()`. */
  lemma StripPadded(a: string, s: string, b: string)
    requires AllSpace(a) && AllSpace(b)
    ensures Strip(a + s + b) == Strip(s)
  {
    var x := s + b;
    assert a + s + b == a + x;
    TrimLeftPadded(a, x);
    assert Strip(x) == Strip(s) by { StripTrailing(s, b); }
  }

  lemma StripTrailing(s: string, b: string)
    requires AllSpace(b)
    ensures Strip(s + b) == Strip(s)
  {
    if TrimLeft(s) != [] {
      TrimLeftAppend(s, b);
      TrimRightPadded(TrimLeft(s), b);
    } else {
      StripBlank(s, b);
    }
  }

  lemma StripBlank(s: string, b: string)
    requires AllSpace(b) && TrimLeft(s) == []
    ensures Strip(s + b) == Strip(s) == []
  {
    assert s[..|s|] == s;
    assert AllSpace(s + b);
    TrimLeftPadded(s + b, []);
    assert s + b + [] == s + b;
  }

  lemma {:induction false} TrimLeftAppend(s: string, b: string)
    requires TrimLeft(s) != []
    ensures TrimLeft(s + b) == TrimLeft(s) + b
    decreases |s|
  {
    assert s != [];
    assert (s + b)[0] == s[0];
    if IsSpace(s[0]) {
      assert (s + b)[1..] == s[1..] + b;
      TrimLeftAppend(s[1..], b);
    }
  }

  /** ASCII `str.lower()` for one character. */
  function LowerChar(c: char): char {
    if 'A' <= c <= 'Z' then (c as int + 32) as char else c
  }

  /** `s.lower()`, character by character. */
  function Lower(s: string): (r: string)
    ensures |r| == |s|
    ensures forall i :: 0 <= i < |s| ==> r[i] == LowerChar(s[i])
    decreases |s|
  {
    if s == [] then [] else [LowerChar(s[0])] + Lower(s[1..])
  }

  predicate NoUpper(s: string) {
    forall i :: 0 <= i < |s| ==> !('A' <= s[i] <= 'Z')
  }

  /** Lower-casing leaves a string without capitals unchanged. */
  lemma LowerNoUpper(s: string)
    requires NoUpper(s)
    ensures Lower(s) == s
  {
    assert forall i :: 0 <= i < |s| ==> Lower(s)[i] == s[i];
  }

  /** Lower-casing never turns whitespace into something else, or the reverse. */
  lemma LowerCharSpace(c: char)
    ensures IsSpace(LowerChar(c)) == IsSpace(c)
    ensures LowerChar(LowerChar(c)) == LowerChar(c)
  {
  }

  /** Lower-casing keeps a text without whitespace at its ends so, and leaves no capital. */
  lemma LowerKeepsTrimmed(s: string)
    ensures Trimmed(s) ==> Trimmed(Lower(s))
    ensures NoUpper(Lower(s))
  {
    if s != [] {
      LowerCharSpace(s[0]);
      LowerCharSpace(s[|s| - 1]);
    }
  }

  /** Lower-casing commutes with taking a slice. */
  lemma LowerSlice(s: string, a: nat, b: nat)
    requires a <= b <= |s|
    ensures Lower(s)[a..b] == Lower(s[a..b])
  {
    var l, t := Lower(s), s[a..b];
    var y := Lower(t);
    assert |l[a..b]| == |y|;
    forall i | 0 <= i < b - a
      ensures l[a..b][i] == y[i]
    {
      assert l[a + i] == LowerChar(s[a + i]);
      assert y[i] == LowerChar(t[i]) && t[i] == s[a + i];
    }
  }

  /** Lower-casing twice is lower-casing once. */
  lemma LowerTwice(s: string)
    ensures Lower(Lower(s)) == Lower(s)
  {
    forall i | 0 <= i < |s|
      ensures Lower(Lower(s))[i] == Lower(s)[i]
    {
      LowerCharSpace(s[i]);
    }
  }

  lemma {:induction false} TrimLeftLower(s: string)
    ensures TrimLeft(Lower(s)) == Lower(TrimLeft(s))
    decreases |s|
  {
    if s != [] {
      LowerCharSpace(s[0]);
      if IsSpace(s[0]) {
        LowerSlice(s, 1, |s|);
        TrimLeftLower(s[1..]);
      }
    }
  }

  lemma {:induction false} TrimRightLower(s: string)
    ensures TrimRight(Lower(s)) == Lower(TrimRight(s))
    decreases |s|
  {
    if s != [] {
      var last := |s| - 1;
      LowerCharSpace(s[last]);
      if IsSpace(s[last]) {
        var l := Lower(s);
        assert IsSpace(l[last]);
        assert TrimRight(l) == TrimRight(l[..last]);
        LowerSlice(s, 0, last);
        TrimRightLower(s[..last]);
      }
    }
  }

  /** `s.lower().strip() == s.strip().lower()`: the two commute. */
  lemma StripLower(s: string)
    ensures Strip(Lower(s)) == Lower(Strip(s))
  {
    TrimLeftLower(s);
    TrimRightLower(TrimLeft(s));
  }

  /** Length of the leading run of non-whitespace characters of `s`. */
  function WordEnd(s: string): (k: nat)
    ensures k <= |s| && NoSpace(s[..k])
    ensures k == |s| || IsSpace(s[k])
    ensures s != [] && !IsSpace(s[0]) ==> k > 0
    decreases |s|
  {
    if s == [] || IsSpace(s[0]) then 0
    else
      var k := WordEnd(s[1..]);
      assert s[..k + 1] == [s[0]] + s[1..][..k];
      k + 1
  }

  /** A field of `split()`: a non-empty run of non-whitespace characters. */
  predicate IsWord(w: string) {
    w != [] && NoSpace(w)
  }

  /**
   * `s.split()`: the maximal runs of non-whitespace characters, in order;
   * every field is a non-empty run of non-whitespace characters.
   */
  function Words(s: string): (ws: seq<string>)
    ensures forall n :: 0 <= n < |ws| ==> IsWord(ws[n])
    decreases |s|
  {
    var t := TrimLeft(s);
    if t == [] then []
    else
      var k := WordEnd(t);
      [t[..k]] + Words(t[k..])
  }

  /** `split()` finds no field exactly when the text is all whitespace. */
  lemma WordsEmpty(s: string)
    ensures Words(s) == [] <==> AllSpace(s)
  {
    var t := TrimLeft(s);
    if t == [] {
      assert s[..|s| - |t|] == s;
    } else {
      assert s[|s| - |t|] == t[0];
    }
  }

  /** A word followed by whitespace is the first field of `split()`. */
  lemma WordsCons(w: string, sep: string, rest: string)
    requires IsWord(w)
    requires sep != [] && AllSpace(sep)
    ensures Words(w + sep + rest) == [w] + Words(sep + rest)
  {
    var tail := sep + rest;
    var s := w + tail;
    assert w + sep + rest == s;
    assert s[0] == w[0];
    assert TrimLeft(s) == s;
    assert tail[0] == sep[0];
    WordEndOf(w, tail);
    assert s[..|w|] == w;
    assert s[|w|..] == tail;
  }

  lemma {:induction false} WordEndOf(w: string, rest: string)
    requires NoSpace(w)
    requires rest == [] || IsSpace(rest[0])
    ensures WordEnd(w + rest) == |w|
    decreases |w|
  {
    if w != [] {
      assert (w + rest)[1..] == w[1..] + rest;
      WordEndOf(w[1..], rest);
    } else {
      assert w + rest == rest;
    }
  }

  /** A single word splits into itself. */
  lemma WordsSingle(w: string)
    requires IsWord(w)
    ensures Words(w) == [w]
  {
    TrimLeftOfTrimmed(w);
    WordEndOf(w, []);
    assert w + [] == w;
    assert w[..|w|] == w;
    assert w[|w|..] == [];
  }

  /** Whitespace in front of the text adds no field. */
  lemma WordsSkipSpace(sep: string, rest: string)
    requires AllSpace(sep)
    ensures Words(sep + rest) == Words(rest)
  {
    TrimLeftPadded(sep, rest);
  }

  /**
   * Joining words with single spaces and splitting the result again gives
   * back the same words: `" ".join(ws).split() == ws`.
   */
  lemma {:induction false} WordsJoin(ws: seq<string>)
    requires forall w :: w in ws ==> IsWord(w)
    ensures Words(Join(ws, " ")) == ws
    decreases |ws|
  {
    if ws == [] {
      assert AllSpace([]);
      WordsEmpty([]);
    } else if |ws| == 1 {
      assert ws[0] in ws;
      WordsSingle(ws[0]);
    } else {
      assert ws[0] in ws;
      assert forall v :: v in ws[1..] ==> v in ws;
      WordsJoin(ws[1..]);
      WordsJoinStep(ws);
    }
  }

  lemma WordsJoinStep(ws: seq<string>)
    requires |ws| >= 2 && IsWord(ws[0])
    ensures Words(Join(ws, " ")) == [ws[0]] + Words(Join(ws[1..], " "))
  {
    var rest := Join(ws[1..], " ");
    assert Join(ws, " ") == ws[0] + " " + rest;
    WordsCons(ws[0], " ", rest);
    WordsSkipSpace(" ", rest);
  }

  /** The first field of `split()` and the text after it. */
  lemma WordsHead(s: string, t: string, k: nat)
    requires TrimLeft(s) == t && t != [] && WordEnd(t) == k
    ensures Words(s) == [t[..k]] + Words(t[k..])
  {
  }

  /** Whitespace after a word does not lengthen it. */
  lemma {:induction false} WordEndTrailing(t: string, b: string)
    requires AllSpace(b)
    ensures WordEnd(t + b) == WordEnd(t)
    decreases |t|
  {
    if t == [] {
      assert t + b == b;
    } else {
      assert (t + b)[0] == t[0];
      if !IsSpace(t[0]) {
        assert (t + b)[1..] == t[1..] + b;
        WordEndTrailing(t[1..], b);
      }
    }
  }

  /** Whitespace after the text adds no field. */
  lemma {:induction false} WordsTrailing(s: string, b: string)
    requires AllSpace(b)
    ensures Words(s + b) == Words(s)
    decreases |s|
  {
    var t := TrimLeft(s);
    if t == [] {
      WordsTrailingBlank(s, b);
    } else {
      var k := WordEnd(t);
      WordsTrailingStep(s, b);
      WordsTrailing(t[k..], b);
    }
  }

  lemma WordsTrailingBlank(s: string, b: string)
    requires AllSpace(b) && TrimLeft(s) == []
    ensures Words(s + b) == Words(s) == []
  {
    assert s[..|s|] == s;
    assert AllSpace(s + b);
    WordsEmpty(s + b);
    WordsEmpty(s);
  }

  lemma WordsTrailingStep(s: string, b: string)
    requires AllSpace(b) && TrimLeft(s) != []
    ensures var t := TrimLeft(s); var k := WordEnd(t);
      && Words(s + b) == [t[..k]] + Words(t[k..] + b)
      && Words(s) == [t[..k]] + Words(t[k..])
  {
    var t := TrimLeft(s);
    var k := WordEnd(t);
    TrimLeftAppend(s, b);
    WordEndTrailing(t, b);
    WordsHead(s, t, k);
    WordsHead(s + b, t + b, k);
    TakeDropAppend(t, b, k);
  }

  lemma TakeDropAppend(t: string, b: string, k: nat)
    requires k <= |t|
    ensures (t + b)[..k] == t[..k] && (t + b)[k..] == t[k..] + b
  {
  }

  /** `s.strip().split()` is `s.split()`. */
  lemma WordsStrip(s: string)
    ensures Words(Strip(s)) == Words(s)
  {
    var t := TrimLeft(s);
    var n := |s| - |t|;
    LeftSplit(s);
    WordsSkipSpace(s[..n], t);
    var r := TrimRight(t);
    RightSplit(t);
    WordsTrailing(r, t[|r|..]);
  }

  lemma LeftSplit(s: string)
    ensures s == s[..|s| - |TrimLeft(s)|] + TrimLeft(s)
  {
  }

  lemma RightSplit(s: string)
    ensures s == TrimRight(s) + s[|TrimRight(s)|..]
  {
  }

  /**
   * `readline()` on text `s`: everything up to and including the first
   * line feed, or all of `s` when it has none.
   */
  function ReadLine(s: string): (line: string)
    ensures |line| <= |s| && line == s[..|line|]
    ensures forall i :: 0 <= i < |line| - 1 ==> line[i] != '\n'
    ensures line == s || (line != [] && line[|line| - 1] == '\n')
    decreases |s|
  {
    if s == [] then []
    else if s[0] == '\n' then ['\n']
    else [s[0]] + ReadLine(s[1..])
  }

  /** `sep.join(parts)`. */
  function Join(parts: seq<string>, sep: string): (r: string)
    ensures parts == [] ==> r == []
    ensures |parts| == 1 ==> r == parts[0]
    decreases |parts|
  {
    if parts == [] then []
    else if |parts| == 1 then parts[0]
    else parts[0] + sep + Join(parts[1..], sep)
  }

  /** Joining two non-empty lists of parts puts one separator between the two joins. */
  lemma {:induction false} JoinAppend(a: seq<string>, b: seq<string>, sep: string)
    requires a != [] && b != []
    ensures Join(a + b, sep) == Join(a, sep) + sep + Join(b, sep)
    decreases |a|
  {
    assert (a + b)[0] == a[0];
    if |a| == 1 {
      assert (a + b)[1..] == b;
    } else {
      assert (a + b)[1..] == a[1..] + b;
      JoinAppend(a[1..], b, sep);
    }
  }

  /** Text without a line feed is read whole by `readline()`, which then goes on to the rest. */
  lemma {:induction false} ReadLineThrough(w: string, s: string)
    requires forall i :: 0 <= i < |w| ==> w[i] != '\n'
    ensures ReadLine(w + s) == w + ReadLine(s)
    decreases |w|
  {
    if w != [] {
      assert (w + s)[0] == w[0] && (w + s)[1..] == w[1..] + s;
      assert ReadLine(w + s) == [w[0]] + ReadLine(w[1..] + s);
      ReadLineThrough(w[1..], s);
      assert w == [w[0]] + w[1..];
    } else {
      assert w + s == s;
    }
  }

  /** `readline()` stops at the first line feed: what follows it is not read. */
  lemma {:induction false} ReadLineFirst(line: string, rest: string)
    requires line != [] && line[|line| - 1] == '\n'
    requires forall i :: 0 <= i < |line| - 1 ==> line[i] != '\n'
    ensures ReadLine(line + rest) == line
    decreases |line|
  {
    var s := line + rest;
    assert s[0] == line[0];
    if |line| > 1 {
      assert s[1..] == line[1..] + rest;
      ReadLineFirst(line[1..], rest);
      assert line == [line[0]] + line[1..];
    }
  }
}
