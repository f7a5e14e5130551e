/** `IndentationCsvWriterPipeline`: one CSV row of indentation statistics per file, in
    commit-then-file order. */
module IndentationCsvWriterPipeline {
  import opened Outcomes
  import opened JavaText
  import opened Records
  import opened CsvFiles
  import opened ACsvWritePipeline
  import opened WriteDispacher

  const HEADER_FIELDS: seq<string> :=
    ["commit", "path", "min_indent", "max_indent", "mean_indent", "median_indent"]

  /** The header line, `commit,path,min_indent,max_indent,mean_indent,median_indent`. */
  const HEADER: string := Row(HEADER_FIELDS)

  /** `1 << 16` rows per file. */
  const LIMIT: int := 65536

  /** The header names six columns. */
  lemma HeaderColumns()
    ensures Pieces(HEADER, IsComma) == HEADER_FIELDS
  {
    var f := HEADER_FIELDS;
    assert ',' !in f[0] && ',' !in f[1] && ',' !in f[2] && ',' !in f[3] && ',' !in f[4] && ',' !in f[5];
    RowOfCommaFree(f);
  }

  function CommitIndentations(d: CommitDetails): seq<FileIndentationStats> {
    d.fileIndentations
  }

  /** `%.2f` of the mean: the average of the levels, `0.0` when there are none. */
  function MeanText(s: FileIndentationStats): string {
    if s.levelCount == 0 then FormatFixed2(0, 1) else FormatFixed2(s.levelSum, s.levelCount)
  }

  function IndentFields(d: CommitDetails, s: FileIndentationStats): (fields: seq<string>)
    ensures |fields| == |HEADER_FIELDS|
  {
    [d.commit.sha1, s.path, FormatInt(s.minIndent), FormatInt(s.maxIndent), MeanText(s),
     FormatInt(s.medianIndent)]
  }

  function IndentText(d: CommitDetails, s: FileIndentationStats): string {
    Row(IndentFields(d, s))
  }

  /** `%.2f` never prints a comma. */
  lemma MeanTextHasNoComma(s: FileIndentationStats)
    ensures !HasSeparator(MeanText(s), IsComma)
  {
    if s.levelCount == 0 {
      FormatFixed2Chars(0, 1);
    } else {
      FormatFixed2Chars(s.levelSum, s.levelCount);
    }
    var t := MeanText(s);
    assert forall k | 0 <= k < |t| :: t[k] != ',';
  }

  /** A row read back under the header: the commit, the path, the bounds and the median
      parse back as integers, and the mean is the levels' average to two decimals. */
  lemma IndentColumns(d: CommitDetails, s: FileIndentationStats)
    requires !HasSeparator(d.commit.sha1, IsComma) && !HasSeparator(s.path, IsComma)
    requires INT_MIN <= s.minIndent <= INT_MAX && INT_MIN <= s.maxIndent <= INT_MAX
    requires INT_MIN <= s.medianIndent <= INT_MAX
    ensures var row := Pieces(IndentText(d, s), IsComma);
      |row| == 6 && row[0] == d.commit.sha1 && row[1] == s.path
      && ParseInt(row[2]) == Ok(s.minIndent) && ParseInt(row[3]) == Ok(s.maxIndent)
      && row[4] == MeanText(s) && ParseInt(row[5]) == Ok(s.medianIndent)
  {
    FormatIntHasNoComma(s.minIndent);
    FormatIntHasNoComma(s.maxIndent);
    FormatIntHasNoComma(s.medianIndent);
    MeanTextHasNoComma(s);
    var fields := IndentFields(d, s);
    assert forall i | 0 <= i < 6 :: !HasSeparator(fields[i], IsComma) by {
      assert fields[0] == d.commit.sha1 && fields[1] == s.path;
      assert fields[2] == FormatInt(s.minIndent) && fields[3] == FormatInt(s.maxIndent);
      assert fields[4] == MeanText(s) && fields[5] == FormatInt(s.medianIndent);
    }
    RowFields(fields);
    ParseFormatInt(s.minIndent, INT_MIN, INT_MAX);
    ParseFormatInt(s.maxIndent, INT_MIN, INT_MAX);
    ParseFormatInt(s.medianIndent, INT_MIN, INT_MAX);
  }

  /** `processCommand` as a function of the command: it never fails. */
  function Process(command: WriteIndentationAction): Batch {
    Batch(NestedLines(command.commits, CommitIndentations, IndentText), None)
  }

  /** `processCommand`: the rows of every measured file of every commit, in order, and
      their number. */
  method ProcessCommand(command: WriteIndentationAction, file: CsvFile)
    returns (written: CsvFile, lines: int)
    ensures written == PrintAll(file, Process(command).lines)
    ensures lines == |Process(command).lines| == Total(command.commits, CommitIndentations)
  {
    written, lines := PrintNested(command.commits, CommitIndentations, IndentText, file);
  }

  /** The row for file `j` of commit `k` sits after the rows of everything before. */
  lemma IndentRowAt(command: WriteIndentationAction, k: nat, j: nat)
    requires k < |command.commits| && j < |command.commits[k].fileIndentations|
    ensures var ds := command.commits;
      var at := Total(ds[..k], CommitIndentations) + j;
      at < |Process(command).lines|
      && Process(command).lines[at] == IndentText(ds[k], ds[k].fileIndentations[j])
  {
    NestedLinesAt(command.commits, CommitIndentations, IndentText, k, j);
  }

  /** The configuration `IndentationCsvWriterPipeline` passes to its base class. */
  function Sink(pattern: FilePattern): CsvSink<WriteIndentationAction> {
    CsvSink(HEADER, Process, LIMIT, pattern)
  }

  method Create(pattern: FilePattern) returns (p: CsvWritePipeline<WriteIndentationAction>)
    ensures fresh(p) && p.Valid() && !p.started && p.State() == FRESH
    ensures p.Sink() == Sink(pattern)
  {
    p := new CsvWritePipeline(HEADER, Process, LIMIT, pattern);
  }
}
