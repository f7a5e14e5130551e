/** `RenameCsvWriterPipeline`: one CSV row per file renaming, in commit-then-renaming
    order. */
module RenameCsvWriterPipeline {
  import opened Outcomes
  import opened JavaText
  import opened Records
  import opened CsvFiles
  import opened ACsvWritePipeline
  import opened WriteDispacher

  const HEADER: string := "commit,before,after"
  const HEADER_FIELDS: seq<string> := ["commit", "before", "after"]

  /** `1 << 18` rows per file. */
  const LIMIT: int := 262144

  lemma HeaderIsRow()
    ensures HEADER == Row(HEADER_FIELDS)
  {
    var f := HEADER_FIELDS;
    assert Row(f[2..]) == "after";
    RowCons(f[1..]);
    assert f[1..][1..] == f[2..];
    RowCons(f);
  }

  /** The header names three columns. */
  lemma HeaderColumns()
    ensures Pieces(HEADER, IsComma) == HEADER_FIELDS
  {
    HeaderIsRow();
    var f := HEADER_FIELDS;
    assert ',' !in f[0] && ',' !in f[1] && ',' !in f[2];
    RowOfCommaFree(f);
  }

  function CommitRenamings(d: CommitDetails): seq<FileRenaming> {
    d.fileRenamings
  }

  /** The fields of the row for one renaming: the commit, the old path, the new path. */
  function RenameFields(d: CommitDetails, r: FileRenaming): (fields: seq<string>)
    ensures |fields| == |HEADER_FIELDS|
  {
    [d.commit.sha1, r.from, r.to]
  }

  function RenameText(d: CommitDetails, r: FileRenaming): string {
    Row(RenameFields(d, r))
  }

  /** A row read back under the header: `commit` holds the sha1, `before` the old path and
      `after` the new one. */
  lemma RenameColumns(d: CommitDetails, r: FileRenaming)
    requires !HasSeparator(d.commit.sha1, IsComma)
    requires !HasSeparator(r.from, IsComma) && !HasSeparator(r.to, IsComma)
    ensures var row := Pieces(RenameText(d, r), IsComma);
      |row| == 3 && row[0] == d.commit.sha1 && row[1] == r.from && row[2] == r.to
    ensures HEADER_FIELDS[1] == "before" && HEADER_FIELDS[2] == "after"
  {
    RowFields(RenameFields(d, r));
  }

  /** `processCommand` as a function of the command: it never fails. */
  function Process(command: WriteRenamingAction): Batch {
    Batch(NestedLines(command.commits, CommitRenamings, RenameText), None)
  }

  /** `processCommand`: the rows of every renaming of every commit, in order, and their
      number. */
  method ProcessCommand(command: WriteRenamingAction, file: CsvFile)
    returns (written: CsvFile, lines: int)
    ensures written == PrintAll(file, Process(command).lines)
    ensures lines == |Process(command).lines| == Total(command.commits, CommitRenamings)
  {
    written, lines := PrintNested(command.commits, CommitRenamings, RenameText, file);
  }

  /** The row for renaming `j` of commit `k` sits after the rows of everything before. */
  lemma RenameRowAt(command: WriteRenamingAction, k: nat, j: nat)
    requires k < |command.commits| && j < |command.commits[k].fileRenamings|
    ensures var ds := command.commits;
      var at := Total(ds[..k], CommitRenamings) + j;
      at < |Process(command).lines|
      && Process(command).lines[at] == RenameText(ds[k], ds[k].fileRenamings[j])
  {
    NestedLinesAt(command.commits, CommitRenamings, RenameText, k, j);
  }

  /** The configuration `RenameCsvWriterPipeline` passes to its base class. */
  function Sink(pattern: FilePattern): CsvSink<WriteRenamingAction> {
    CsvSink(HEADER, Process, LIMIT, pattern)
  }

  method Create(pattern: FilePattern) returns (p: CsvWritePipeline<WriteRenamingAction>)
    ensures fresh(p) && p.Valid() && !p.started && p.State() == FRESH
    ensures p.Sink() == Sink(pattern)
  {
    p := new CsvWritePipeline(HEADER, Process, LIMIT, pattern);
  }
}
