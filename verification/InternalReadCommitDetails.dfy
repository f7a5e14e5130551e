/** `ReadCommitDetails` of the first version (package `internal`): the date, the changed
    files and the renamed files of one commit, read from two `git show` commands run one
    after the other. `shell(args)` is the text the command `args` prints on its standard
    output. */
module InternalReadCommitDetails {
  import opened Outcomes
  import opened JavaText
  import Records
  import ChangeReader
  import CommitDateReader
  import RenameReader

  /** The record `read` returns: the commit, its date, its changes and its renamings. */
  datatype CommitDetails = CommitDetails(
    commit: string, date: Records.Instant,
    fileChanges: seq<Records.FileChanges>, fileRenamings: seq<Records.FileRenaming>)

  /** The command of `readCommitDate`: the one `CommitDateReader` runs later. */
  function DateCommand(commit: string): (r: seq<string>)
    ensures r == CommitDateReader.GetCommand(commit)
  {
    ["git", "show", "--format=%ct", commit, "--no-patch"]
  }

  /** The command of `readFileChanges` and, the same again, of `readFileRenamings`: the
      one `ChangeReader` runs later. */
  function NumstatCommand(commit: string): (r: seq<string>)
    ensures r == ChangeReader.GetCommand(commit) && r[3] == "--numstat" && r[4] == commit
  {
    ["git", "show", "--format=oneline", "--numstat", commit]
  }

  // ---------------------------------------------------------------------------
  // The date
  // ---------------------------------------------------------------------------

  /** `readCommitDate`: the trimmed output read by `Long.parseLong`, and that number
      taken as MILLIseconds from the epoch (`Instant.ofEpochMilli`), although `%ct`
      prints seconds. */
  function ReadCommitDate(shell: seq<string> -> string, commit: string): Result<Records.Instant> {
    var millis :- ParseLong(Trim(shell(DateCommand(commit))));
    Ok(Records.OfEpochMilli(millis))
  }

  /** What `git` prints for a commit made `seconds` after the epoch is read as a time
      a thousand times closer to the epoch: the second read is `seconds / 1000`, never the
      printed one once it is positive (1700000000, in November 2023, reads as 1700000,
      in January 1970). `CommitDateReader.ParsePrinted` reads the same text back as
      `seconds`. */
  lemma SecondsReadAsMillis(shell: seq<string> -> string, commit: string, pre: string, seconds: int, post: string)
    requires forall k | 0 <= k < |pre| :: pre[k] <= ' '
    requires forall k | 0 <= k < |post| :: post[k] <= ' '
    requires 0 < seconds <= Records.MAX_SECOND
    requires shell(DateCommand(commit)) == pre + FormatInt(seconds) + post
    ensures ReadCommitDate(shell, commit) == Ok(Records.Instant(seconds / 1000, (seconds % 1000) * 1_000_000))
    ensures ReadCommitDate(shell, commit).value.epochSecond < seconds
    ensures CommitDateReader.ParseLine(shell(DateCommand(commit))) == Ok(Records.Instant(seconds, 0))
  {
    var t := FormatInt(seconds);
    assert IsAsciiDigit(t[0]) && IsAsciiDigit(t[|t| - 1]);
    TrimPadded(pre, t, post);
    ParseFormatInt(seconds, LONG_MIN, LONG_MAX);
    CommitDateReader.ParsePrinted(pre, seconds, post);
  }

  // ---------------------------------------------------------------------------
  // The changes
  // ---------------------------------------------------------------------------

  /** `parseFileChange`: the line split at runs of whitespace; `parts[2]` is read first,
      so a line of fewer than three fields throws `ArrayIndexOutOfBoundsException`; then
      the additions by `parseCount` (`-` counts as -1); then the deletions by
      `Integer.parseInt`, which has no such case for `-`. */
  function ParseFileChange(line: string): (r: Result<Records.FileChanges>)
    ensures |SplitWhitespace(line)| < 3 <==> r == Err(IndexOutOfBounds(2, |SplitWhitespace(line)|))
    ensures r.Ok? ==> var parts := SplitWhitespace(line);
      |parts| >= 3 && r.value.filename == parts[2]
      && Ok(r.value.additions) == ChangeReader.ParseCount(parts[0])
      && Ok(r.value.deletions) == ParseInt(parts[1])
    ensures r.Err? && |SplitWhitespace(line)| >= 3 ==>
      var parts := SplitWhitespace(line);
      r == Err(NumberFormat(parts[0])) || r == Err(NumberFormat(parts[1]))
  {
    var parts := SplitWhitespace(line);
    if |parts| < 3 then Err(IndexOutOfBounds(2, |parts|))
    else
      var additions :- ChangeReader.ParseCount(parts[0]);
      var deletions :- ParseInt(parts[1]);
      Ok(Records.FileChanges(parts[2], additions, deletions))
  }

  /** The fields of a numstat line: the two counts and the path. */
  lemma NumstatFields(adds: int, dels: int, sep: char, path: string)
    requires IsRegexSpace(sep) && path != "" && !HasSeparator(path, IsRegexSpace)
    ensures SplitWhitespace(ChangeReader.NumstatLine(adds, dels, sep, path))
      == [ChangeReader.CountText(adds), ChangeReader.CountText(dels), path]
  {
    ChangeReader.CountTextHasNoSpace(adds);
    ChangeReader.CountTextHasNoSpace(dels);
    var fields := [ChangeReader.CountText(adds), ChangeReader.CountText(dels), path];
    assert forall i | 0 <= i < |fields| :: fields[i] != "" && !HasSeparator(fields[i], IsRegexSpace);
    SplitWhitespaceOfJoin(fields, sep);
  }

  /** Round trip for a text file: the numstat line of a file with some lines added and
      some deleted reads back as that change, binary additions counting -1. */
  lemma TextFileRoundTrip(adds: int, dels: nat, sep: char, path: string)
    requires adds <= INT_MAX && dels <= INT_MAX
    requires IsRegexSpace(sep) && path != "" && !HasSeparator(path, IsRegexSpace)
    ensures ParseFileChange(ChangeReader.NumstatLine(adds, dels, sep, path))
      == Ok(Records.FileChanges(path, ChangeReader.CountValue(adds), dels))
  {
    NumstatFields(adds, dels, sep, path);
    ChangeReader.ParseCountText(adds);
    var d := Decimal(dels);
    DecimalValue(dels);
    ParseDigits(d, INT_MIN, INT_MAX);
  }

  /** A binary file, for which numstat prints `-` for both counts, makes the parse throw
      a `NumberFormatException` on the deletions, where `ChangeReader`, which reads both
      counts with `parseCount`, gives -1 and -1. */
  lemma BinaryFileFails(sep: char, path: string)
    requires IsRegexSpace(sep) && path != "" && !HasSeparator(path, IsRegexSpace)
    requires ChangeReader.HasNoArrow(path)
    ensures ParseFileChange(ChangeReader.NumstatLine(-1, -1, sep, path)) == Err(NumberFormat("-"))
    ensures ChangeReader.ParseLine(ChangeReader.NumstatLine(-1, -1, sep, path))
      == Ok(Records.FileChanges(path, -1, -1))
  {
    NumstatFields(-1, -1, sep, path);
    assert OccursAt("-", "-", 0);
    ContainsIff("-", "-");
    ChangeReader.SimpleLineRoundTrip(ChangeReader.NumstatLine(-1, -1, sep, path), -1, -1, sep, path);
  }

  /** An empty line has one (empty) field: reading `parts[2]` throws. */
  lemma EmptyLineFails()
    ensures ParseFileChange("") == Err(IndexOutOfBounds(2, 1))
  {
    assert !HasSeparator("", IsRegexSpace);
  }

  /** The lines of the numstat output after the first, which names the commit. */
  function NumstatBody(shell: seq<string> -> string, commit: string): seq<string> {
    SkipFirst(Lines(shell(NumstatCommand(commit))))
  }

  /** `readFileChanges`: the lines after the first (the commit), each read by
      `parseFileChange`, blank ones included; the first line that throws makes the
      reader throw. */
  function ReadFileChanges(shell: seq<string> -> string, commit: string): Result<seq<Records.FileChanges>> {
    MapAll(NumstatBody(shell, commit), ParseFileChange)
  }

  /** The output put together from its first line and the lines that follow: the first
      line is dropped whatever it holds, and each line that follows gives one change, in
      order, unless one of them throws. */
  lemma ChangesAfterHeader(shell: seq<string> -> string, commit: string, header: string, body: seq<string>)
    requires !HasSeparator(header, IsLineBreak)
    requires forall k | 0 <= k < |body| :: !HasSeparator(body[k], IsLineBreak)
    requires shell(NumstatCommand(commit)) == Unlines([header] + body)
    ensures ReadFileChanges(shell, commit) == MapAll(body, ParseFileChange)
  {
    var ls := [header] + body;
    assert forall k | 0 <= k < |ls| :: !HasSeparator(ls[k], IsLineBreak) by {
      forall k | 0 <= k < |ls| ensures !HasSeparator(ls[k], IsLineBreak) {
        if k > 0 { assert ls[k] == body[k - 1]; }
      }
    }
    LinesOfUnlines(ls);
    assert SkipFirst(ls) == body;
  }

  /** An empty line after the commit, behind lines that parse, makes the whole read
      throw; the later reader drops blank lines first. */
  lemma EmptyLineAfterHeaderFails(shell: seq<string> -> string, commit: string, header: string, body: seq<string>, k: nat)
    requires !HasSeparator(header, IsLineBreak)
    requires forall j | 0 <= j < |body| :: !HasSeparator(body[j], IsLineBreak)
    requires shell(NumstatCommand(commit)) == Unlines([header] + body)
    requires k < |body| && body[k] == ""
    requires forall j | 0 <= j < k :: ParseFileChange(body[j]).Ok?
    ensures ReadFileChanges(shell, commit) == Err(IndexOutOfBounds(2, 1))
  {
    ChangesAfterHeader(shell, commit, header, body);
    EmptyLineFails();
    MapAllFailsAt(body, ParseFileChange, k);
  }

  // ---------------------------------------------------------------------------
  // The renamings
  // ---------------------------------------------------------------------------

  /** Each line after the first of the numstat output, read by `parseFileInfo`, which is
      `RenameReader.parseLine` word for word (seven fields give a renaming from the
      seventh to the sixth). */
  function RenameLines(shell: seq<string> -> string, commit: string): (r: seq<Option<Records.FileRenaming>>)
    ensures var lines := NumstatBody(shell, commit);
      |r| == |lines| && forall k | 0 <= k < |lines| :: r[k] == RenameReader.ParseLine(lines[k])
  {
    var lines := NumstatBody(shell, commit);
    seq(|lines|, k requires 0 <= k < |lines| => RenameReader.ParseLine(lines[k]))
  }

  /** `readFileRenamings`: the renamings found on the lines after the first, in order. */
  function ReadFileRenamings(shell: seq<string> -> string, commit: string): seq<Records.FileRenaming> {
    Somes(RenameLines(shell, commit))
  }

  /** Numstat prints a rename as `<adds> <dels> <from> => <to>`: five fields, so no
      renaming is read from it. */
  lemma NumstatRenameIgnored(adds: int, dels: int, from: string, to: string)
    requires RenameReader.IsField(from) && RenameReader.IsField(to)
    ensures SplitWhitespace(ChangeReader.NumstatLine(adds, dels, '\t', from + " => " + to))
      == [ChangeReader.CountText(adds), ChangeReader.CountText(dels), from, "=>", to]
    ensures RenameReader.ParseLine(ChangeReader.NumstatLine(adds, dels, '\t', from + " => " + to)) == None
  {
    var ca := ChangeReader.CountText(adds);
    var cd := ChangeReader.CountText(dels);
    ChangeReader.CountTextHasNoSpace(adds);
    ChangeReader.CountTextHasNoSpace(dels);
    var path := from + " => " + to;
    ArrowPieces(from, to);
    HeadPieces(ca, cd, path);
    var line := ChangeReader.NumstatLine(adds, dels, '\t', path);
    ChangeReader.JoinThree(ca, cd, path, '\t');
    assert line[|ca|] == '\t';
    SplitWhitespaceOfPieces(line, [ca, cd, from, "=>", to]);
  }

  /** The two counts of a numstat line are its first two pieces. */
  lemma HeadPieces(ca: string, cd: string, path: string)
    requires !HasSeparator(ca, IsRegexSpace) && !HasSeparator(cd, IsRegexSpace)
    ensures Pieces(ca + ['\t'] + cd + ['\t'] + path, IsRegexSpace) == [ca, cd] + Pieces(path, IsRegexSpace)
  {
    assert IsRegexSpace('\t');
    PiecesOfTwoPlain(ca, cd, '\t', path, IsRegexSpace);
  }

  /** The pieces of `<from> => <to>`. */
  lemma ArrowPieces(from: string, to: string)
    requires RenameReader.IsField(from) && RenameReader.IsField(to)
    ensures Pieces(from + " => " + to, IsRegexSpace) == [from, "=>", to]
  {
    var tail := "=>" + [' '] + to;
    assert from + " => " + to == from + [' '] + tail;
    assert !HasSeparator("=>", IsRegexSpace);
    PiecesOfPlain("=>", IsRegexSpace);
    PiecesOfPlain(to, IsRegexSpace);
    PiecesAppendSep("=>", ' ', to, IsRegexSpace);
    PiecesOfPlain(from, IsRegexSpace);
    PiecesAppendSep(from, ' ', tail, IsRegexSpace);
  }

  /** When no line after the first has seven fields, as in numstat output whose paths
      hold no whitespace, no renaming is read at all. */
  lemma NoSevenFieldsNoRenamings(shell: seq<string> -> string, commit: string)
    requires forall k | 0 <= k < |NumstatBody(shell, commit)| :: |SplitWhitespace(NumstatBody(shell, commit)[k])| != 7
    ensures ReadFileRenamings(shell, commit) == []
  {
    var parsed := RenameLines(shell, commit);
    SomesOfNones(parsed);
  }

  // ---------------------------------------------------------------------------
  // The whole read
  // ---------------------------------------------------------------------------

  /** `read`: the date, then the changes, then the renamings; the first reader that
      throws makes `read` throw with its exception. */
  function Read(shell: seq<string> -> string, commit: string): (r: Result<CommitDetails>)
    ensures r.Ok? <==> ReadCommitDate(shell, commit).Ok? && ReadFileChanges(shell, commit).Ok?
    ensures ReadCommitDate(shell, commit).Err? ==> r == Err(ReadCommitDate(shell, commit).failure)
    ensures ReadCommitDate(shell, commit).Ok? && ReadFileChanges(shell, commit).Err? ==>
      r == Err(ReadFileChanges(shell, commit).failure)
    ensures r.Ok? ==>
      r.value.commit == commit && r.value.date == ReadCommitDate(shell, commit).value
      && r.value.fileChanges == ReadFileChanges(shell, commit).value
      && r.value.fileRenamings == ReadFileRenamings(shell, commit)
  {
    var date :- ReadCommitDate(shell, commit);
    var changes :- ReadFileChanges(shell, commit);
    var renamings := ReadFileRenamings(shell, commit);
    Ok(CommitDetails(commit, date, changes, renamings))
  }

  /** A commit that touched a binary file cannot be read at all: its numstat line, after
      the lines that parse, makes `read` throw a `NumberFormatException`. */
  lemma BinaryCommitUnreadable(shell: seq<string> -> string, commit: string, header: string, body: seq<string>, k: nat, path: string)
    requires !HasSeparator(header, IsLineBreak)
    requires forall j | 0 <= j < |body| :: !HasSeparator(body[j], IsLineBreak)
    requires shell(NumstatCommand(commit)) == Unlines([header] + body)
    requires ReadCommitDate(shell, commit).Ok?
    requires path != "" && !HasSeparator(path, IsRegexSpace) && ChangeReader.HasNoArrow(path)
    requires k < |body| && body[k] == ChangeReader.NumstatLine(-1, -1, '\t', path)
    requires forall j | 0 <= j < k :: ParseFileChange(body[j]).Ok?
    ensures Read(shell, commit) == Err(NumberFormat("-"))
  {
    ChangesAfterHeader(shell, commit, header, body);
    BinaryFileFails('\t', path);
    MapAllFailsAt(body, ParseFileChange, k);
  }
}
