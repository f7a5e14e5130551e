/** The records that flow between the stages: what is read about one commit, and the
    points in time attached to it. */
module Records {
  import opened Outcomes

  /** `java.time.Instant`: seconds from the epoch and a nanosecond adjustment. */
  datatype Instant = Instant(epochSecond: int, nano: nat)

  /** `Instant.EPOCH`. */
  const EPOCH: Instant := Instant(0, 0)

  /** The range of seconds `Instant` accepts (`Instant.MIN` and `Instant.MAX`). */
  const MIN_SECOND: int := -31557014167219200
  const MAX_SECOND: int := 31556889864403199

  /** `Instant.ofEpochSecond`: a `DateTimeException` outside the supported range. */
  function OfEpochSecond(second: int): (r: Result<Instant>)
    ensures r.Ok? <==> MIN_SECOND <= second <= MAX_SECOND
    ensures r.Ok? ==> r.value.epochSecond == second && r.value.nano == 0
    ensures r.Err? ==> r.failure == DateTime(second)
  {
    if MIN_SECOND <= second <= MAX_SECOND then Ok(Instant(second, 0)) else Err(DateTime(second))
  }

  /** `Instant.ofEpochMilli`: floor division into seconds, the remainder as nanoseconds.
      Every `long` gives a second within range, so there is no failure. */
  function OfEpochMilli(milli: int): (r: Instant)
    ensures r.epochSecond * 1000 + r.nano / 1_000_000 == milli
    ensures r.nano < 1_000_000_000 && r.nano % 1_000_000 == 0
  {
    Instant(milli / 1000, (milli % 1000) * 1_000_000)
  }

  datatype CommitInfo = CommitInfo(sha1: string, date: Instant)

  datatype FileChanges = FileChanges(filename: string, additions: int, deletions: int)

  datatype FileRenaming = FileRenaming(from: string, to: string)

  datatype FileLineCount = FileLineCount(path: string, lineCount: int)

  /** Indentation statistics of one file. The mean, a `double` in the program, is kept
      as the sum and the number of the levels it averages. */
  datatype FileIndentationStats = FileIndentationStats(
    path: string, minIndent: int, maxIndent: int,
    levelSum: int, levelCount: nat, medianIndent: int)

  datatype CommitDetails = CommitDetails(
    commit: CommitInfo,
    fileChanges: seq<FileChanges>,
    fileRenamings: seq<FileRenaming>,
    fileLineCounts: seq<FileLineCount>,
    fileIndentations: seq<FileIndentationStats>)
}
