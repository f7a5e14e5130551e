/** `BranchCsvWritePipeline`: one CSV row per commit of a branch, naming the branch. */
module BranchCsvWritePipeline {
  import opened Outcomes
  import opened JavaText
  import opened Records
  import opened CsvFiles
  import opened ACsvWritePipeline
  import opened WriteDispacher

  const HEADER: string := "branch,commit"
  const HEADER_FIELDS: seq<string> := ["branch", "commit"]

  /** `1 << 22` rows per file. */
  const LIMIT: int := 4194304

  /** The header names two columns. */
  lemma HeaderColumns()
    ensures Pieces(HEADER, IsComma) == HEADER_FIELDS
  {
    var f := HEADER_FIELDS;
    RowCons(f);
    assert f[1..] == ["commit"];
    assert HEADER == Row(f);
    assert ',' !in f[0] && ',' !in f[1];
    RowOfCommaFree(f);
  }

  function BranchFields(branch: string, c: CommitInfo): (fields: seq<string>)
    ensures |fields| == |HEADER_FIELDS|
  {
    [branch, c.sha1]
  }

  function BranchText(branch: string, c: CommitInfo): string {
    Row(BranchFields(branch, c))
  }

  /** A row read back under the header: the branch, then the commit. */
  lemma BranchColumns(branch: string, c: CommitInfo)
    requires !HasSeparator(branch, IsComma) && !HasSeparator(c.sha1, IsComma)
    ensures var row := Pieces(BranchText(branch, c), IsComma);
      |row| == 2 && row[0] == branch && row[1] == c.sha1
  {
    RowFields(BranchFields(branch, c));
  }

  /** `processCommand` as a function of the branch and the command: it never fails. */
  function Process(branch: string, command: WriteCommits): (b: Batch)
    ensures |b.lines| == |command.commits|
    ensures forall j | 0 <= j < |command.commits| :: b.lines[j] == BranchText(branch, command.commits[j])
  {
    Batch(InnerLines(branch, command.commits, BranchText), None)
  }

  /** `processCommand`: one row per commit, in order; it reports the number of commits. */
  method ProcessCommand(branch: string, command: WriteCommits, file: CsvFile)
    returns (written: CsvFile, lines: int)
    ensures written == PrintAll(file, Process(branch, command).lines)
    ensures lines == |command.commits|
  {
    written := PrintEach(branch, command.commits, BranchText, file);
    lines := |command.commits|;
  }

  /** The configuration `BranchCsvWritePipeline` passes to its base class. */
  function Sink(pattern: FilePattern, branch: string): CsvSink<WriteCommits> {
    CsvSink(HEADER, command => Process(branch, command), LIMIT, pattern)
  }

  method Create(pattern: FilePattern, branch: string) returns (p: CsvWritePipeline<WriteCommits>)
    ensures fresh(p) && p.Valid() && !p.started && p.State() == FRESH
    ensures p.Sink() == Sink(pattern, branch)
  {
    p := new CsvWritePipeline(HEADER, command => Process(branch, command), LIMIT, pattern);
  }
}
