/** `CommitCsvWritePipeline`: one CSV row per commit, with its time as seconds since the
    epoch and as a UTC date. */
module CommitCsvWritePipeline {
  import opened Outcomes
  import opened JavaText
  import opened Records
  import opened Calendar
  import opened CsvFiles
  import opened ACsvWritePipeline
  import opened WriteDispacher

  const HEADER: string := "commit,timestamp,date"
  const HEADER_FIELDS: seq<string> := ["commit", "timestamp", "date"]

  /** `1 << 22` rows per file. */
  const LIMIT: int := 4194304

  lemma HeaderIsRow()
    ensures HEADER == Row(HEADER_FIELDS)
  {
    var f := HEADER_FIELDS;
    assert Row(f[2..]) == "date";
    RowCons(f[1..]);
    assert f[1..][1..] == f[2..];
    RowCons(f);
  }

  /** The header names three columns. */
  lemma HeaderColumns()
    ensures Pieces(HEADER, IsComma) == HEADER_FIELDS
  {
    HeaderIsRow();
    var f := HEADER_FIELDS;
    assert ',' !in f[0] && ',' !in f[1] && ',' !in f[2];
    RowOfCommaFree(f);
  }

  /** `getDate`: the ISO text of the UTC day of the instant. */
  function GetDate(date: Instant): string {
    DateText(UtcDate(date))
  }

  function CommitFields(unused: (), c: CommitInfo): (fields: seq<string>)
    ensures |fields| == |HEADER_FIELDS|
  {
    [c.sha1, FormatInt(c.date.epochSecond), GetDate(c.date)]
  }

  function CommitText(unused: (), c: CommitInfo): string {
    Row(CommitFields(unused, c))
  }

  /** The date of years 0 to 9999 holds no comma. */
  lemma DateHasNoComma(date: Instant)
    requires 0 <= UtcDate(date).year <= 9999
    ensures !HasSeparator(GetDate(date), IsComma)
  {
    var t := GetDate(date);
    DateTextFields(UtcDate(date));
    forall k | 0 <= k < |t| ensures t[k] != ',' {
      if k < 4 {
        assert t[k] == t[..4][k];
      } else if 4 < k < 7 {
        assert t[k] == t[5..7][k - 5];
      } else if 7 < k {
        assert t[k] == t[8..][k - 8];
      }
    }
  }

  /** A row read back under the header: the sha1, a timestamp that `Long.parseLong` turns
      back into the commit's second, and the `yyyy-MM-dd` day that holds that second. */
  lemma CommitColumns(c: CommitInfo)
    requires !HasSeparator(c.sha1, IsComma)
    requires LONG_MIN <= c.date.epochSecond <= LONG_MAX
    requires 0 <= UtcDate(c.date).year <= 9999
    ensures var row := Pieces(CommitText((), c), IsComma);
      |row| == 3 && row[0] == c.sha1
      && ParseLong(row[1]) == Ok(c.date.epochSecond)
      && row[2] == DateText(UtcDate(c.date))
      && var day := EpochDay(UtcDate(c.date));
         day * SECONDS_PER_DAY <= c.date.epochSecond < day * SECONDS_PER_DAY + SECONDS_PER_DAY
  {
    FormatIntHasNoComma(c.date.epochSecond);
    DateHasNoComma(c.date);
    var fields := CommitFields((), c);
    assert forall i | 0 <= i < 3 :: !HasSeparator(fields[i], IsComma) by {
      assert fields[0] == c.sha1 && fields[1] == FormatInt(c.date.epochSecond);
      assert fields[2] == GetDate(c.date);
    }
    RowFields(fields);
    ParseFormatInt(c.date.epochSecond, LONG_MIN, LONG_MAX);
  }

  /** `processCommand` as a function of the command: it never fails. */
  function Process(command: WriteCommits): (b: Batch)
    ensures |b.lines| == |command.commits|
  {
    Batch(InnerLines((), command.commits, CommitText), None)
  }

  /** `processCommand`: one row per commit, in order; it reports the number of commits. */
  method ProcessCommand(command: WriteCommits, file: CsvFile)
    returns (written: CsvFile, lines: int)
    ensures written == PrintAll(file, Process(command).lines)
    ensures lines == |command.commits|
  {
    written := PrintEach((), command.commits, CommitText, file);
    lines := |command.commits|;
  }

  /** The configuration `CommitCsvWritePipeline` passes to its base class. */
  function Sink(pattern: FilePattern): CsvSink<WriteCommits> {
    CsvSink(HEADER, Process, LIMIT, pattern)
  }

  method Create(pattern: FilePattern) returns (p: CsvWritePipeline<WriteCommits>)
    ensures fresh(p) && p.Valid() && !p.started && p.State() == FRESH
    ensures p.Sink() == Sink(pattern)
  {
    p := new CsvWritePipeline(HEADER, Process, LIMIT, pattern);
  }
}
