/**
 * Reading the system uptime: the first whitespace-separated field of the
 * first line of `/proc/uptime`, read as a float and required to be
 * non-negative. The file system is abstracted as the outcome of one read.
 */
module Uptime {
  import opened Results
  import opened Text
  import opened Numerals

  /** What one attempt to read `/proc/uptime` found. */
  datatype ProcRead =
    | Missing                  // the file does not exist
    | Unreadable               // opening or reading it raised an I/O error
    | Contents(text: string)   // the text of the file

  /** The reasons `get_uptime` raises `UptimeError`. */
  datatype UptimeError =
    | NotFound
    | ReadFailed
    | NoField                  // `split()[0]` raised `IndexError`
    | NotANumber(field: string) // `float()` raised `ValueError`
    | Negative(value: real)

  /**
   * The fields of the first line: `f.readline().strip().split()`. The
   * `strip()` changes nothing: they are the fields of the raw first line.
   */
  function FirstLineFields(content: string): (ws: seq<string>)
    ensures ws == Words(ReadLine(content))
  {
    WordsStrip(ReadLine(content));
    Words(Strip(ReadLine(content)))
  }

  /** `float(field)` followed by the check that the value is not negative. */
  function ParseField(field: string): (r: Result<real, UptimeError>)
    ensures r.Ok? ==> r.value >= 0.0 && ParseFloat(field) == Some(r.value)
    ensures r.Err? ==> r.error.NotANumber? || r.error.Negative?
  {
    match ParseFloat(field)
    case None => Err(NotANumber(field))
    case Some(v) => if v < 0.0 then Err(Negative(v)) else Ok(v)
  }

  /** The parsing half of `get_uptime`, applied to the text of the file. */
  function ParseUptime(content: string): (r: Result<real, UptimeError>)
    ensures r.Ok? ==> r.value >= 0.0
  {
    var fields := FirstLineFields(content);
    if fields == [] then Err(NoField) else ParseField(fields[0])
  }

  /** `get_uptime`: a missing or unreadable file is an error before any parsing. */
  function GetUptime(proc: ProcRead): (r: Result<real, UptimeError>)
    ensures r.Ok? ==> proc.Contents? && r.value >= 0.0
    ensures proc.Missing? ==> r == Err(NotFound)
    ensures proc.Unreadable? ==> r == Err(ReadFailed)
  {
    match proc
    case Missing => Err(NotFound)
    case Unreadable => Err(ReadFailed)
    case Contents(text) => ParseUptime(text)
  }

  /**
   * Stripping the line first changes nothing: the value read is the first
   * field of the raw first line, when there is one and it is a
   * non-negative number.
   */
  lemma UptimeValue(content: string, v: real)
    ensures ParseUptime(content) == Ok(v) <==>
      var fields := Words(ReadLine(content));
      fields != [] && ParseFloat(fields[0]) == Some(v) && v >= 0.0
  {
    WordsStrip(ReadLine(content));
  }

  /** `IndexError` is raised exactly when the first line is blank. */
  lemma BlankFirstLine(content: string)
    ensures ParseUptime(content) == Err(NoField) <==> AllSpace(ReadLine(content))
  {
    var line := ReadLine(content);
    var fields := FirstLineFields(content);
    assert ParseUptime(content) == Err(NoField) <==> fields == [] by {
      if fields != [] {
        assert ParseUptime(content) == ParseField(fields[0]);
      }
    }
    assert fields == [] <==> AllSpace(line) by {
      WordsStrip(line);
      WordsEmpty(line);
    }
  }

  /**
   * Only the first field of the first line decides the result: whatever
   * follows the whitespace after it, on that line and on every later
   * line, is ignored.
   */
  lemma FirstFieldDecides(w: string, after: string)
    requires IsWord(w)
    requires after != [] && IsSpace(after[0])
    ensures ParseUptime(w + after) == ParseField(w)
  {
    var line := ReadLine(after);
    forall i | 0 <= i < |w|
      ensures w[i] != '\n'
    {
      assert !IsSpace(w[i]);
    }
    ReadLineThrough(w, after);
    assert line != [] && line[0] == after[0];
    WordsOfLine(w, line);
  }

  lemma WordsOfLine(w: string, after: string)
    requires IsWord(w)
    requires after != [] && IsSpace(after[0])
    ensures Words(w + after) == [w] + Words(after)
  {
    var sep := [after[0]];
    var tail := after[1..];
    assert after == sep + tail;
    assert w + sep + tail == w + after;
    WordsCons(w, sep, tail);
  }

  /**
   * The file as the kernel writes it, `"<uptime> <idle>\n"` with two
   * decimals each, is read back as the uptime exactly.
   */
  lemma ProcUptimeRoundTrip(uptime: nat, idle: nat, rest: string)
    ensures ParseUptime(Cents(uptime) + " " + Cents(idle) + "\n" + rest)
         == Ok(uptime as real / 100.0)
  {
    var w := Cents(uptime);
    CentsPlain(uptime);
    FirstFieldDecides(w, " " + Cents(idle) + "\n" + rest);
    Regroup(w, " ", Cents(idle), "\n", rest);
    CentsRoundTrip(uptime);
  }

  /** A negative first field is refused, whatever else the file holds. */
  lemma NegativeRefused(w: string, after: string, v: real)
    requires IsWord(w) && ParseFloat(w) == Some(v) && v < 0.0
    requires after != [] && IsSpace(after[0])
    ensures ParseUptime(w + after) == Err(Negative(v))
  {
    FirstFieldDecides(w, after);
  }

  lemma Regroup(w: string, a: string, b: string, c: string, rest: string)
    ensures w + a + b + c + rest == w + (a + b + c + rest)
  {
  }
}
