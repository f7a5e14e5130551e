/** `ReadCommitDetails` (explorer): what is read about one commit, either its history
    (date, changes, renamings) or the statistics of its tree (line counts and indentation
    of Java files). Each reader runs one `git` command; `shell(command)` is the text the
    command prints on its standard output. */
module ReadCommitDetails {
  import opened Outcomes
  import opened JavaText
  import opened Records
  import ChangeReader
  import RenameReader
  import LineCountReader
  import CommitDateReader
  import IndentationReader

  datatype FetchMode = History | TreeStats

  /** A command given to the shell: a plain argument list, or the indentation diff
      restricted to some paths, whose argument list is not part of this model. */
  datatype Command = Args(args: seq<string>) | IndentationFor(commit: string, paths: seq<string>)

  /** The fields of a reader. `unit` is the indent unit of the indent specification. */
  datatype Reader = Reader(commit: string, unit: string, mode: FetchMode, allFiles: bool)

  /** The four-argument constructor: `allFiles` is false, so the tree statistics are
      restricted to the files the commit changed. */
  function NewReader(commit: string, unit: string, mode: FetchMode): (r: Reader)
    ensures !r.allFiles && r.commit == commit && r.unit == unit && r.mode == mode
  {
    Reader(commit, unit, mode, false)
  }

  // ---------------------------------------------------------------------------
  // The readers
  // ---------------------------------------------------------------------------

  /** `readCommitDate`: the whole output, trimmed, read by `CommitDateReader.parseLine`. */
  function ReadCommitDate(shell: Command -> string, commit: string): Result<Instant> {
    CommitDateReader.ParseLine(Trim(shell(Args(CommitDateReader.GetCommand(commit)))))
  }

  /** Trimming before `parseLine`, which trims too, changes nothing: the date is the
      output read as seconds from the epoch. */
  lemma ReadCommitDateIsParse(shell: Command -> string, commit: string)
    ensures ReadCommitDate(shell, commit) == CommitDateReader.ParseLine(shell(Args(CommitDateReader.GetCommand(commit))))
  {
    TrimTwice(shell(Args(CommitDateReader.GetCommand(commit))));
  }

  /** `readFileChanges`: the lines after the first (the commit `git show` prints first),
      without blank ones, each read by `ChangeReader.parseLine`; the first line that
      throws makes the reader throw. */
  function ReadFileChanges(shell: Command -> string, commit: string): Result<seq<FileChanges>> {
    MapAll(NonBlank(SkipFirst(Lines(shell(Args(ChangeReader.GetCommand(commit)))))), ChangeReader.ParseLine)
  }

  /** The output of `git show` put together from its first line and the lines that
      follow: the first line is dropped whatever it holds, blank lines are dropped, and
      each other line gives one change, in order, unless one of them throws. */
  lemma ChangesAfterHeader(shell: Command -> string, commit: string, header: string, body: seq<string>)
    requires !HasSeparator(header, IsLineBreak)
    requires forall k | 0 <= k < |body| :: !HasSeparator(body[k], IsLineBreak)
    requires shell(Args(ChangeReader.GetCommand(commit))) == Unlines([header] + body)
    ensures ReadFileChanges(shell, commit) == MapAll(NonBlank(body), ChangeReader.ParseLine)
  {
    var ls := [header] + body;
    assert forall k | 0 <= k < |ls| :: !HasSeparator(ls[k], IsLineBreak) by {
      forall k | 0 <= k < |ls| ensures !HasSeparator(ls[k], IsLineBreak) {
        if k > 0 { assert ls[k] == body[k - 1]; }
      }
    }
    LinesOfUnlines(ls);
    assert SkipFirst(ls) == body;
  }

  /** Each line after the first, read by `RenameReader.parseLine`. */
  function RenameLines(shell: Command -> string, commit: string): (r: seq<Option<FileRenaming>>)
    ensures var lines := SkipFirst(Lines(shell(Args(RenameReader.GetCommand(commit)))));
      |r| == |lines| && forall k | 0 <= k < |lines| :: r[k] == RenameReader.ParseLine(lines[k])
  {
    var lines := SkipFirst(Lines(shell(Args(RenameReader.GetCommand(commit)))));
    seq(|lines|, k requires 0 <= k < |lines| => RenameReader.ParseLine(lines[k]))
  }

  /** `readFileRenamings`: the renamings found on the lines after the first, in order.
      Blank lines are not dropped here: they give no renaming. */
  function ReadFileRenamings(shell: Command -> string, commit: string): seq<FileRenaming> {
    Somes(RenameLines(shell, commit))
  }

  /** Every renaming read comes from a line after the first, and every line after the
      first that holds a renaming gives it. */
  lemma RenamingsFound(shell: Command -> string, commit: string)
    ensures var lines := SkipFirst(Lines(shell(Args(RenameReader.GetCommand(commit)))));
      var r := ReadFileRenamings(shell, commit);
      (forall k | 0 <= k < |lines| && RenameReader.ParseLine(lines[k]).Some? ::
         RenameReader.ParseLine(lines[k]).value in r)
      && (forall x | x in r :: exists k | 0 <= k < |lines| :: RenameReader.ParseLine(lines[k]) == Some(x))
  {
    var lines := SkipFirst(Lines(shell(Args(RenameReader.GetCommand(commit)))));
    var parsed := RenameLines(shell, commit);
    forall x | x in Somes(parsed) ensures exists k | 0 <= k < |lines| :: RenameReader.ParseLine(lines[k]) == Some(x) {
      var k :| 0 <= k < |parsed| && parsed[k] == Some(x);
    }
  }

  /** The command `readChangedFiles` runs. */
  function DiffTreeCommand(commit: string): (r: seq<string>)
    ensures |r| == 6 && r[1] == "diff-tree" && r[4] == "-r" && r[5] == commit
  {
    ["git", "diff-tree", "--no-commit-id", "--name-only", "-r", commit]
  }

  /** `readChangedFiles`: the non-blank lines of the output, in order. */
  function ReadChangedFiles(shell: Command -> string, commit: string): (r: seq<string>)
    ensures forall p | p in r :: !IsBlank(p) && p in Lines(shell(Args(DiffTreeCommand(commit))))
    ensures forall p | p in Lines(shell(Args(DiffTreeCommand(commit)))) && !IsBlank(p) :: p in r
  {
    NonBlank(Lines(shell(Args(DiffTreeCommand(commit)))))
  }

  /** The paths that restrict the tree statistics: none with `allFiles` (`null`), the
      changed files otherwise. */
  function ChangedPaths(shell: Command -> string, reader: Reader): (r: Option<seq<string>>)
    ensures r.None? <==> reader.allFiles
    ensures r.Some? ==> r.value == ReadChangedFiles(shell, reader.commit)
  {
    if reader.allFiles then None else Some(ReadChangedFiles(shell, reader.commit))
  }

  /** The command of `readFileLineCounts`: `LineCountReader.getCommand(commit)`, or with
      paths `getCommand(commit, paths)`, that command then `--` then the paths. */
  function LineCountCommand(commit: string, emptyTree: string, paths: Option<seq<string>>): (r: seq<string>)
    ensures paths.None? ==> r == LineCountReader.GetCommand(commit, emptyTree)
    ensures paths.Some? ==>
      |r| == 6 + |paths.value| && r[..5] == LineCountReader.GetCommand(commit, emptyTree)
      && r[5] == "--" && r[6..] == paths.value
  {
    match paths
    case None => LineCountReader.GetCommand(commit, emptyTree)
    case Some(p) => LineCountReader.GetCommand(commit, emptyTree) + ["--"] + p
  }

  /** `readFileLineCounts`: every line read by `LineCountReader.parseLine`, keeping the
      counts found; the first line that throws makes the reader throw. */
  function ReadFileLineCounts(shell: Command -> string, commit: string, emptyTree: string,
                              paths: Option<seq<string>>): Result<seq<FileLineCount>>
  {
    var parsed :- MapAll(Lines(shell(Args(LineCountCommand(commit, emptyTree, paths)))), LineCountReader.ParseLine);
    Ok(Somes(parsed))
  }

  /** Every count read is about a Java file. */
  lemma LineCountsAreJava(shell: Command -> string, commit: string, emptyTree: string, paths: Option<seq<string>>)
    requires ReadFileLineCounts(shell, commit, emptyTree, paths).Ok?
    ensures forall c | c in ReadFileLineCounts(shell, commit, emptyTree, paths).value :: EndsWith(c.path, ".java")
  {
    var lines := Lines(shell(Args(LineCountCommand(commit, emptyTree, paths))));
    var parsed := MapAll(lines, LineCountReader.ParseLine).value;
    forall c: FileLineCount | c in Somes(parsed) ensures EndsWith(c.path, ".java") {
      var k :| 0 <= k < |parsed| && parsed[k] == Some(c);
      assert LineCountReader.ParseLine(lines[k]) == Ok(Some(c));
    }
  }

  /** The command of `readFileIndentation`. */
  function IndentationCommand(commit: string, emptyTree: string, paths: Option<seq<string>>): (r: Command)
    ensures paths.None? ==> r == Args(IndentationReader.GetCommand(commit, emptyTree))
    ensures paths.Some? ==> r == IndentationFor(commit, paths.value)
  {
    match paths
    case None => Args(IndentationReader.GetCommand(commit, emptyTree))
    case Some(p) => IndentationFor(commit, p)
  }

  /** `readFileIndentation`: `IndentationReader.parseOutput` on the lines of the diff. */
  function ReadFileIndentation(shell: Command -> string, commit: string, emptyTree: string, unit: string,
                               paths: Option<seq<string>>): (r: seq<FileIndentationStats>)
    requires |unit| >= 1
    ensures forall k | 0 <= k < |r| :: EndsWith(r[k].path, ".java") && r[k].minIndent <= r[k].medianIndent <= r[k].maxIndent
  {
    var lines := Lines(shell(IndentationCommand(commit, emptyTree, paths)));
    IndentationReader.ReportsShape(IndentationReader.Sections(lines), unit);
    IndentationReader.Expected(lines, unit)
  }

  /** `read`. HISTORY reads the date, the changes and the renamings and leaves the tree
      statistics empty; TREE_STATS reads the line counts and the indentation, restricted
      to the changed files unless `allFiles`, with the date `EPOCH` and no changes or
      renamings. A reader that throws makes `read` throw. */
  function Read(shell: Command -> string, emptyTree: string, reader: Reader): (r: Result<CommitDetails>)
    requires |reader.unit| >= 1
    ensures reader.mode == History ==>
      (r.Ok? <==> ReadCommitDate(shell, reader.commit).Ok? && ReadFileChanges(shell, reader.commit).Ok?)
      && (r.Ok? ==>
            r.value.commit == CommitInfo(reader.commit, ReadCommitDate(shell, reader.commit).value)
            && r.value.fileChanges == ReadFileChanges(shell, reader.commit).value
            && r.value.fileRenamings == ReadFileRenamings(shell, reader.commit)
            && r.value.fileLineCounts == [] && r.value.fileIndentations == [])
    ensures reader.mode == TreeStats ==>
      var paths := ChangedPaths(shell, reader);
      (r.Ok? <==> ReadFileLineCounts(shell, reader.commit, emptyTree, paths).Ok?)
      && (r.Ok? ==>
            r.value.commit == CommitInfo(reader.commit, EPOCH)
            && r.value.fileChanges == [] && r.value.fileRenamings == []
            && r.value.fileLineCounts == ReadFileLineCounts(shell, reader.commit, emptyTree, paths).value
            && r.value.fileIndentations == ReadFileIndentation(shell, reader.commit, emptyTree, reader.unit, paths))
  {
    match reader.mode
    case History =>
      var date :- ReadCommitDate(shell, reader.commit);
      var changes :- ReadFileChanges(shell, reader.commit);
      Ok(CommitDetails(CommitInfo(reader.commit, date), changes, ReadFileRenamings(shell, reader.commit), [], []))
    case TreeStats =>
      var paths := ChangedPaths(shell, reader);
      var counts :- ReadFileLineCounts(shell, reader.commit, emptyTree, paths);
      Ok(CommitDetails(CommitInfo(reader.commit, EPOCH), [], [], counts,
                       ReadFileIndentation(shell, reader.commit, emptyTree, reader.unit, paths)))
  }

  /** By default (four-argument constructor) the tree statistics are restricted to the
      files the commit changed: both commands carry the changed paths. */
  lemma DefaultRestrictsToChangedFiles(shell: Command -> string, commit: string, unit: string)
    ensures var paths := ChangedPaths(shell, NewReader(commit, unit, TreeStats));
      paths == Some(ReadChangedFiles(shell, commit))
      && IndentationCommand(commit, "", paths) == IndentationFor(commit, ReadChangedFiles(shell, commit))
  {
  }

  /** Whether a history read succeeds does not depend on the output of `git show --raw`:
      a line that is not a renaming is skipped, never an error. */
  lemma HistoryIgnoresRenamingLines(shell: Command -> string, shell': Command -> string, emptyTree: string,
                                    reader: Reader)
    requires |reader.unit| >= 1 && reader.mode == History
    requires forall c | c != Args(RenameReader.GetCommand(reader.commit)) :: shell(c) == shell'(c)
    ensures Read(shell, emptyTree, reader).Ok? <==> Read(shell', emptyTree, reader).Ok?
  {
    var date := Args(CommitDateReader.GetCommand(reader.commit));
    var changes := Args(ChangeReader.GetCommand(reader.commit));
    var renames := Args(RenameReader.GetCommand(reader.commit));
    assert date.args[2] != renames.args[2] && changes.args[3] != renames.args[3];
    assert shell(date) == shell'(date) && shell(changes) == shell'(changes);
    assert ReadCommitDate(shell, reader.commit) == ReadCommitDate(shell', reader.commit);
    assert ReadFileChanges(shell, reader.commit) == ReadFileChanges(shell', reader.commit);
  }
}
