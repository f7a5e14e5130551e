/** `LinesCsvWriterPipeline`: one CSV row per counted file, in commit-then-file order. */
module LinesCsvWriterPipeline {
  import opened Outcomes
  import opened JavaText
  import opened Records
  import opened CsvFiles
  import opened ACsvWritePipeline
  import opened WriteDispacher

  const HEADER: string := "commit,path,lines"
  const HEADER_FIELDS: seq<string> := ["commit", "path", "lines"]

  /** `1 << 16` rows per file. */
  const LIMIT: int := 65536

  lemma HeaderIsRow()
    ensures HEADER == Row(HEADER_FIELDS)
  {
    var f := HEADER_FIELDS;
    assert Row(f[2..]) == "lines";
    RowCons(f[1..]);
    assert f[1..][1..] == f[2..];
    RowCons(f);
  }

  /** The header names three columns. */
  lemma HeaderColumns()
    ensures Pieces(HEADER, IsComma) == HEADER_FIELDS
  {
    HeaderIsRow();
    var f := HEADER_FIELDS;
    assert ',' !in f[0] && ',' !in f[1] && ',' !in f[2];
    RowOfCommaFree(f);
  }

  function CommitLineCounts(d: CommitDetails): seq<FileLineCount> {
    d.fileLineCounts
  }

  function LinesFields(d: CommitDetails, c: FileLineCount): (fields: seq<string>)
    ensures |fields| == |HEADER_FIELDS|
  {
    [d.commit.sha1, c.path, FormatInt(c.lineCount)]
  }

  function LinesText(d: CommitDetails, c: FileLineCount): string {
    Row(LinesFields(d, c))
  }

  /** A row read back under the header: the commit, the path, and a count that
      `Integer.parseInt` turns back into the counted lines. */
  lemma LinesColumns(d: CommitDetails, c: FileLineCount)
    requires !HasSeparator(d.commit.sha1, IsComma) && !HasSeparator(c.path, IsComma)
    requires INT_MIN <= c.lineCount <= INT_MAX
    ensures var row := Pieces(LinesText(d, c), IsComma);
      |row| == 3 && row[0] == d.commit.sha1 && row[1] == c.path
      && ParseInt(row[2]) == Ok(c.lineCount)
  {
    FormatIntHasNoComma(c.lineCount);
    RowFields(LinesFields(d, c));
    ParseFormatInt(c.lineCount, INT_MIN, INT_MAX);
  }

  /** `processCommand` as a function of the command: it never fails. */
  function Process(command: WriteLinesAction): Batch {
    Batch(NestedLines(command.commits, CommitLineCounts, LinesText), None)
  }

  /** `processCommand`: the rows of every counted file of every commit, in order, and
      their number. */
  method ProcessCommand(command: WriteLinesAction, file: CsvFile)
    returns (written: CsvFile, lines: int)
    ensures written == PrintAll(file, Process(command).lines)
    ensures lines == |Process(command).lines| == Total(command.commits, CommitLineCounts)
  {
    written, lines := PrintNested(command.commits, CommitLineCounts, LinesText, file);
  }

  /** The row for file `j` of commit `k` sits after the rows of everything before. */
  lemma LinesRowAt(command: WriteLinesAction, k: nat, j: nat)
    requires k < |command.commits| && j < |command.commits[k].fileLineCounts|
    ensures var ds := command.commits;
      var at := Total(ds[..k], CommitLineCounts) + j;
      at < |Process(command).lines|
      && Process(command).lines[at] == LinesText(ds[k], ds[k].fileLineCounts[j])
  {
    NestedLinesAt(command.commits, CommitLineCounts, LinesText, k, j);
  }

  /** The configuration `LinesCsvWriterPipeline` passes to its base class. */
  function Sink(pattern: FilePattern): CsvSink<WriteLinesAction> {
    CsvSink(HEADER, Process, LIMIT, pattern)
  }

  method Create(pattern: FilePattern) returns (p: CsvWritePipeline<WriteLinesAction>)
    ensures fresh(p) && p.Valid() && !p.started && p.State() == FRESH
    ensures p.Sink() == Sink(pattern)
  {
    p := new CsvWritePipeline(HEADER, Process, LIMIT, pattern);
  }
}
