/** `CommitDateReader`: reads the committer date `git show --format=%ct` prints, in
    seconds from the epoch. */
module CommitDateReader {
  import opened Outcomes
  import opened JavaText
  import opened Records

  /** `getCommand`. */
  function GetCommand(commit: string): (r: seq<string>)
    ensures |r| == 5 && r[2] == "--format=%ct" && r[3] == commit && r[4] == "--no-patch"
  {
    ["git", "show", "--format=%ct", commit, "--no-patch"]
  }

  /** `parseLine`: the trimmed line read by `Long.parseLong`, as seconds from the epoch.
      Text that is not a `long` is a `NumberFormatException`; a `long` outside the range
      of `Instant` is a `DateTimeException`. */
  function ParseLine(line: string): (r: Result<Instant>)
    ensures ParseLong(Trim(line)).Err? ==> r == Err(NumberFormat(Trim(line)))
    ensures r.Ok? <==> ParseLong(Trim(line)).Ok? && MIN_SECOND <= ParseLong(Trim(line)).value <= MAX_SECOND
    ensures r.Ok? ==> r.value == Instant(ParseLong(Trim(line)).value, 0)
  {
    var seconds :- ParseLong(Trim(line));
    OfEpochSecond(seconds)
  }

  /** Round trip: the decimal of a time in seconds, with any surrounding whitespace or
      control characters (the line break `git` prints, say), reads back as that time. */
  lemma ParsePrinted(pre: string, seconds: int, post: string)
    requires forall k | 0 <= k < |pre| :: pre[k] <= ' '
    requires forall k | 0 <= k < |post| :: post[k] <= ' '
    requires MIN_SECOND <= seconds <= MAX_SECOND
    ensures ParseLine(pre + FormatInt(seconds) + post) == Ok(Instant(seconds, 0))
  {
    var t := FormatInt(seconds);
    var d := Decimal(if seconds < 0 then -seconds else seconds);
    assert t[|t| - 1] == d[|d| - 1];
    assert IsAsciiDigit(d[0]) && IsAsciiDigit(d[|d| - 1]);
    TrimPadded(pre, t, post);
    ParseFormatInt(seconds, LONG_MIN, LONG_MAX);
  }

  /** Text that is not a number is a `NumberFormatException` naming the trimmed text. */
  lemma NotANumber()
    ensures ParseLine(" abc\n") == Err(NumberFormat("abc"))
  {
    TrimPadded(" ", "abc", "\n");
    assert " " + "abc" + "\n" == " abc\n";
  }

  /** An empty or blank line is a `NumberFormatException` too. */
  lemma BlankIsNotANumber(line: string)
    requires forall k | 0 <= k < |line| :: line[k] <= ' '
    ensures ParseLine(line) == Err(NumberFormat(""))
  {
  }
}
