# git-stats core, modelled in Dafny

This project models the core of `git-stats`, a Java tool that mines the history of a `git`
repository and writes tabular extracts: the commits of a branch, commit timestamps,
per-file changes and renamings, per-file line counts and per-file indentation statistics.
The core is a chain of stages joined by queues of `Action<T>`. An `Action<T>` is either
`Value(t)` or the end-of-stream marker `Stop`.

- **Discovery.** `explorer/BranchCommitReader` walks `git rev-list` in windows of 100
  commits. The older `internal/BranchCommitReader` walks `git cherry` windows instead.
- **Reading.** `ReadCommitPipeline` turns commit ids into fetch requests.
  `explorer/ReadCommitDetails` (and the older `internal/ReadCommitDetails`) runs `git` and
  parses its output with the `shell` readers: `ChangeReader`, `RenameReader`,
  `LineCountReader`, `CommitDateReader` and `IndentationReader`.
- **Batching.** `WriteDispacher` feeds every commit's details to three weighted
  accumulators. Each accumulator is backed by a `Buffer`. The batches they cut go to three
  queues. `Multiplexer` copies one queue to several targets.
- **Writing.** `ACsvWritePipeline` and its subclasses print the batches as CSV rows. The
  output goes into a series of numbered files, rotated once a file holds at least a
  per-kind number of rows. `writing/FileChangeWriter` fills the Avro record of one file
  change.

The model keeps the form of the source:

- Stages that loop over a queue are methods with loop invariants.
- `Buffer`, the accumulators, the CSV pipeline and the bounded commit queue are classes
  whose methods update their fields.
- The parsers and the record builders are functions.
- A queue read by a stage is the sequence of actions it will take. A queue a stage writes
  to is the sequence it has put so far.
- The shell is a function from a command to its standard output.

Every stage is proved against a specification function. The lemmas then state what the
stage promises:

- no value lost, duplicated or reordered;
- exactly one `Stop`, at the end;
- batch bounds;
- round trips between what `git` prints and what the readers read back;
- the regex semantics of the two patterns the readers use.

Java library behaviour the core relies on is written out in `JavaText.dfy`, `JavaPaths.dfy`
and `Calendar.dfy`:

- `String.split`, `trim`, `isBlank`, `lines`, `indexOf` and `replaceFirst` with the
  patterns used;
- `Integer.parseInt` and `Long.parseLong` with their ranges, over ASCII digits, and `%d` /
  `%04d` formatting;
- `Path.getParent`, `getFileName` and `toString`;
- `Instant`, and the UTC calendar date.

Where the specification of the system and the code disagree, the model follows the code.

- Discovery is described as probing one extra id and never emitting a duplicate. The code
  asks `git rev-list <start> -n 100`, starts each window at the last id of the previous
  one, and stops only at the literal id `not-a-sha1`. It puts every id a window lists, so
  it can put more than `historySize` ids. See Findings.
- The CSV sinks are described as writing one fresh file per batch. The code keeps one
  writer across batches and opens the next file only once the current one holds at least
  the limit (`1 << 14` changes, `1 << 18` renamings, `1 << 16` line counts and
  indentations, `1 << 22` commits and branches).
- The multiplexer is described as forwarding `Stop` once. The code forwards it twice. See
  Findings.
- The change rows are described, and headed, as `commit,module,filename,path,…`. The code
  prints path, module and file name in that order. See Findings.
- The rename mapping is described as old path = 6th field, new path = 7th field. The code
  reads `from = parts[6]` (the 7th field) and `to = parts[5]` (the 6th). See Findings.

## Model

| member | source | states |
|---|---|---|
| Actions.UnpackValue | src/main/java/com/activeviam/tooling/gitstats/internal/orchestration/Action.java:30-35 | a `Value` unpacks to the one value it carries |
| Actions.UnpackStop | src/main/java/com/activeviam/tooling/gitstats/internal/orchestration/Action.java:48-50 | `Stop` unpacks to nothing |
| Actions.StopIndex | src/main/java/com/activeviam/tooling/gitstats/internal/orchestration/Action.java:17-26 | the first `Stop` of a stream: every action before it is a `Value` |
| Actions.WrapValues | src/main/java/com/activeviam/tooling/gitstats/internal/orchestration/Action.java:19-21 | wrapping values as `Value`s and unpacking them gives them back, with no `Stop` |
| Actions.PrefixBeforeStop | src/main/java/com/activeviam/tooling/gitstats/internal/orchestration/Action.java:17-26 | the actions before the first `Stop` are exactly the wrapped values they carry |
| Buffers.Buffer.constructor | src/main/java/com/activeviam/tooling/gitstats/internal/orchestration/Buffer.java:19-21 | a new buffer is empty, with weight 0 and the given limit |
| Buffers.Buffer.Add | src/main/java/com/activeviam/tooling/gitstats/internal/orchestration/Buffer.java:23-26 | appends the element and raises the weight by exactly its size; the weight stays the sum of the sizes since the last drain |
| Buffers.Buffer.HasEnough | src/main/java/com/activeviam/tooling/gitstats/internal/orchestration/Buffer.java:28-30 | true exactly when the weight has reached the limit |
| Buffers.Buffer.IsEmpty | src/main/java/com/activeviam/tooling/gitstats/internal/orchestration/Buffer.java:32-34 | true exactly when no element is held, whatever the weight |
| Buffers.Buffer.IsNotEmpty | src/main/java/com/activeviam/tooling/gitstats/internal/orchestration/Buffer.java:36-38 | the negation of `isEmpty` |
| Buffers.Buffer.Drain | src/main/java/com/activeviam/tooling/gitstats/internal/orchestration/Buffer.java:40-45 | hands back the elements added since the last drain, in order, and resets the buffer to empty with weight 0 |
| WriteDispacher.Accumulator.Create | src/main/java/com/activeviam/tooling/gitstats/internal/orchestration/WriteDispacher.java:75-78 | a fresh buffer with the given limit and an empty queue |
| WriteDispacher.Accumulator.Add | src/main/java/com/activeviam/tooling/gitstats/internal/orchestration/WriteDispacher.java:80-85 | the element joins the batch; the queue always equals the cut batches of everything fed so far |
| WriteDispacher.Accumulator.EmitAction | src/main/java/com/activeviam/tooling/gitstats/internal/orchestration/WriteDispacher.java:87-89 | puts the built pending batch on the queue and empties the buffer |
| WriteDispacher.Accumulator.Flush | src/main/java/com/activeviam/tooling/gitstats/internal/orchestration/WriteDispacher.java:91-96 | the queue ends up as every batch of the elements fed, the non-empty remainder included, then one `Stop` |
| WriteDispacher.AddToAll | src/main/java/com/activeviam/tooling/gitstats/internal/orchestration/WriteDispacher.java:38-42 | one commit's details reach the three accumulators, weighted by file changes, renamings and 1 |
| WriteDispacher.FlushAll | src/main/java/com/activeviam/tooling/gitstats/internal/orchestration/WriteDispacher.java:43-48 | on `Stop` each of the three queues receives its batches and then `Stop` |
| WriteDispacher.Run | src/main/java/com/activeviam/tooling/gitstats/internal/orchestration/WriteDispacher.java:31-51 | takes up to the first `Stop`, and each queue is the batching specification applied to the details taken, with limits 2000, 1000 and 1000 |
| WriteDispacher.ChangeQueueKeepsEveryCommit | src/main/java/com/activeviam/tooling/gitstats/internal/orchestration/WriteDispacher.java:31-51 | the change batches, concatenated, are the details taken, in order, each exactly once, followed by one `Stop` |
| WriteDispacher.RenamingQueueKeepsEveryCommit | src/main/java/com/activeviam/tooling/gitstats/internal/orchestration/WriteDispacher.java:31-51 | the same for renamings, commits without renamings included |
| WriteDispacher.CommitQueueKeepsEveryCommit | src/main/java/com/activeviam/tooling/gitstats/internal/orchestration/WriteDispacher.java:31-51 | the commit batches, concatenated, are the commit of every details taken, in order |
| WriteDispacher.CutBatchesReachTheirLimit | src/main/java/com/activeviam/tooling/gitstats/internal/orchestration/WriteDispacher.java:80-85 | every batch cut before `Stop` has reached its limit and was below it before its last element; the remainder is below the limit |
| WriteDispacher.CommitBatchesHoldAThousand | src/main/java/com/activeviam/tooling/gitstats/internal/orchestration/WriteDispacher.java:32-34 | every commit batch but the last holds exactly 1000 commits, and the last between 1 and 1000 |
| Batching.FeedAllKeepsItems | src/main/java/com/activeviam/tooling/gitstats/internal/orchestration/WriteDispacher.java:80-96 | the cut batches followed by the pending one are exactly the items fed, in order |
| Batching.FeedAllCuts | src/main/java/com/activeviam/tooling/gitstats/internal/orchestration/WriteDispacher.java:80-85 | cut batches are non-empty and reached the limit only with their last element |
| Batching.OutputShape | src/main/java/com/activeviam/tooling/gitstats/internal/orchestration/WriteDispacher.java:87-96 | an accumulator's queue holds one built value per drained batch and exactly one `Stop`, last |
| Batching.DrainedKeepsElements | src/main/java/com/activeviam/tooling/gitstats/internal/orchestration/Buffer.java:40-45 | the drained lists, concatenated, are the elements fed |
| Batching.UnitBatches | src/main/java/com/activeviam/tooling/gitstats/internal/orchestration/WriteDispacher.java:80-96 | with unit weights, every drained list holds between 1 and `limit` elements, and all but the last exactly `limit` |
| Multiplexer.Forward | src/main/java/com/activeviam/tooling/gitstats/internal/orchestration/Multiplexer.java:40-44 | appends the action to every target, leaving the rest of each target unchanged |
| Multiplexer.Run | src/main/java/com/activeviam/tooling/gitstats/internal/orchestration/Multiplexer.java:24-38 | takes up to the first `Stop`; every target receives the values in order, then `Stop` twice |
| Multiplexer.BroadcastStopsTwice | src/main/java/com/activeviam/tooling/gitstats/internal/orchestration/Multiplexer.java:32-35 | as written, every target receives each value once, in order, and two `Stop`s |
| Multiplexer.LoneStopIsDoubled | src/main/java/com/activeviam/tooling/gitstats/internal/orchestration/Multiplexer.java:27-35 | a stream of one `Stop` reaches each target as `[Stop, Stop]` |
| Multiplexer.RunForwardingOnce | src/main/java/com/activeviam/tooling/gitstats/internal/orchestration/Multiplexer.java:24-38 | without the second forward, every target receives the values and one `Stop` |
| Multiplexer.ForwardedStopsOnce | src/main/java/com/activeviam/tooling/gitstats/internal/orchestration/Multiplexer.java:24-38 | corrected: each value once, in order, and exactly one `Stop`, last |
| ReadCommitPipeline.Fetches | src/main/java/com/activeviam/tooling/gitstats/internal/orchestration/ReadCommitPipeline.java:30 | one fetch request per commit id, for that id and the project directory |
| ReadCommitPipeline.Run | src/main/java/com/activeviam/tooling/gitstats/internal/orchestration/ReadCommitPipeline.java:26-37 | takes up to the first `Stop`; the output is one request per id taken, in order, then `Stop` |
| ReadCommitPipeline.OutputMatchesInput | src/main/java/com/activeviam/tooling/gitstats/internal/orchestration/ReadCommitPipeline.java:26-37 | the `i`-th value out is the request for the `i`-th id in, and there is exactly one `Stop` |
| ACsvWritePipeline.Rotate | src/main/java/com/activeviam/tooling/gitstats/internal/orchestration/ACsvWritePipeline.java:46-52 | closes the current file and opens the next one, named after the counter and holding only the header |
| ACsvWritePipeline.Prepare | src/main/java/com/activeviam/tooling/gitstats/internal/orchestration/ACsvWritePipeline.java:46-52 | rotates exactly when the current file is full or there is none; otherwise the state is unchanged |
| ACsvWritePipeline.Print | src/main/java/com/activeviam/tooling/gitstats/internal/orchestration/ACsvWritePipeline.java:53-54 | prints the command's lines into the current file and adds their number to the count, unless the command throws |
| ACsvWritePipeline.Consume | src/main/java/com/activeviam/tooling/gitstats/internal/orchestration/ACsvWritePipeline.java:42-61 | the loop stops at the first command that throws, reporting that command's exception; otherwise every value is taken |
| ACsvWritePipeline.RunClosesEveryFile | src/main/java/com/activeviam/tooling/gitstats/internal/orchestration/ACsvWritePipeline.java:64-69 | after a run every file is closed, starts with the header and is named after its position |
| ACsvWritePipeline.FileNamesDistinct | src/main/java/com/activeviam/tooling/gitstats/internal/orchestration/ACsvWritePipeline.java:84-86 | no two files of the output directory have the same name |
| ACsvWritePipeline.ConsumeKeepsRows | src/main/java/com/activeviam/tooling/gitstats/internal/orchestration/ACsvWritePipeline.java:42-61 | from a live state the rows of the directory grow by exactly the lines printed for the values taken, in order |
| ACsvWritePipeline.RunFromLiveKeepsRows | src/main/java/com/activeviam/tooling/gitstats/internal/orchestration/ACsvWritePipeline.java:37-70 | a run from a live state loses no row |
| ACsvWritePipeline.FreshRunOfOne | src/main/java/com/activeviam/tooling/gitstats/internal/orchestration/ACsvWritePipeline.java:37-70 | a fresh pipeline run on one value makes one closed file holding the header and that value's lines |
| ACsvWritePipeline.FreshRunIsBalanced | src/main/java/com/activeviam/tooling/gitstats/internal/orchestration/ACsvWritePipeline.java:46-54 | every file but the last holds at least `limit` rows, and none holds more than `limit - 1` plus one command's lines |
| ACsvWritePipeline.OversizedCommandStaysInOneFile | src/main/java/com/activeviam/tooling/gitstats/internal/orchestration/ACsvWritePipeline.java:46-54 | a command with more lines than the limit is not split across files |
| ACsvWritePipeline.EmptyStreamCreatesNoFile | src/main/java/com/activeviam/tooling/gitstats/internal/orchestration/ACsvWritePipeline.java:57-59 | a stream with no value creates no file |
| ACsvWritePipeline.SecondRunLosesRows | src/main/java/com/activeviam/tooling/gitstats/internal/orchestration/ACsvWritePipeline.java:64-69 | as written, a second run on the same pipeline prints into the closed writer and its row is lost |
| ACsvWritePipeline.RunIntoClosedWriter | src/main/java/com/activeviam/tooling/gitstats/internal/orchestration/ACsvWritePipeline.java:46-54 | a run whose writer is set but closed and not full changes no file |
| ACsvWritePipeline.ReleasingRunKeepsRows | src/main/java/com/activeviam/tooling/gitstats/internal/orchestration/ACsvWritePipeline.java:64-69 | with the writer released at the end of a run, the state is live again and no row is lost |
| ACsvWritePipeline.ReleasedSecondRunKeepsRows | src/main/java/com/activeviam/tooling/gitstats/internal/orchestration/ACsvWritePipeline.java:64-69 | corrected: two runs of one line each leave both lines |
| ACsvWritePipeline.CsvWritePipeline.constructor | src/main/java/com/activeviam/tooling/gitstats/internal/orchestration/ACsvWritePipeline.java:27-34 | a new pipeline is not started, has counter 0, no writer and no file |
| ACsvWritePipeline.CsvWritePipeline.OpenNext | src/main/java/com/activeviam/tooling/gitstats/internal/orchestration/ACsvWritePipeline.java:72-78 | the new state is `Rotate` of the old one |
| ACsvWritePipeline.CsvWritePipeline.PrepareWriter | src/main/java/com/activeviam/tooling/gitstats/internal/orchestration/ACsvWritePipeline.java:46-52 | the new state is `Prepare` of the old one |
| ACsvWritePipeline.CsvWritePipeline.PrintCommand | src/main/java/com/activeviam/tooling/gitstats/internal/orchestration/ACsvWritePipeline.java:53-54 | the new state and the exception are those of `Print` |
| ACsvWritePipeline.CsvWritePipeline.Accept | src/main/java/com/activeviam/tooling/gitstats/internal/orchestration/ACsvWritePipeline.java:45-56 | one `Value`: prepare, then print |
| ACsvWritePipeline.CsvWritePipeline.Finally | src/main/java/com/activeviam/tooling/gitstats/internal/orchestration/ACsvWritePipeline.java:64-69 | closes the writer, keeps it set, and clears `started` |
| ACsvWritePipeline.CsvWritePipeline.TakeValues | src/main/java/com/activeviam/tooling/gitstats/internal/orchestration/ACsvWritePipeline.java:42-61 | the loop takes values up to `Stop` or the first exception, as `Consume` states |
| ACsvWritePipeline.CsvWritePipeline.Run | src/main/java/com/activeviam/tooling/gitstats/internal/orchestration/ACsvWritePipeline.java:37-70 | a started pipeline fails with `Pipeline already started` and changes nothing; otherwise the new state, exception and number taken are those of the run specification |
| ACsvWritePipeline.CloseWriter | src/main/java/com/activeviam/tooling/gitstats/internal/orchestration/ACsvWritePipeline.java:47-49 | closes only the current file, whose writer stays set; every other file, the counter and the line count are unchanged |
| ACsvWritePipeline.ClosedThenNext | src/main/java/com/activeviam/tooling/gitstats/internal/orchestration/ACsvWritePipeline.java:47-51 | after the close, the new file is the only open one, so at most one file is open at a time |
| ACsvWritePipeline.OnValue | src/main/java/com/activeviam/tooling/gitstats/internal/orchestration/ACsvWritePipeline.java:45-56 | one `Value` always leaves a current writer, and fails exactly with the command's own exception |
| ACsvWritePipeline.ConsumeBalanced | src/main/java/com/activeviam/tooling/gitstats/internal/orchestration/ACsvWritePipeline.java:46-54 | the bounds of `FreshRunIsBalanced` are kept by every value taken |
| CsvFiles.Println | src/main/java/com/activeviam/tooling/gitstats/internal/orchestration/ACsvWritePipeline.java:53 | a line printed to an open file is appended; a closed `PrintWriter` drops it |
| CsvFiles.FormatNameInjective | src/main/java/com/activeviam/tooling/gitstats/internal/orchestration/ACsvWritePipeline.java:84-86 | two counter values give the same file name only when they are equal |
| CsvFiles.RowFields | src/main/java/com/activeviam/tooling/gitstats/internal/orchestration/LinesCsvWriterPipeline.java:34-38 | a row of comma-free fields splits back at commas into those fields |
| CsvFiles.PrintEach | src/main/java/com/activeviam/tooling/gitstats/internal/orchestration/ChangeCsvWriterPipeline.java:37-47 | the inner loop prints one line per item, in order |
| CsvFiles.PrintNested | src/main/java/com/activeviam/tooling/gitstats/internal/orchestration/LinesCsvWriterPipeline.java:30-43 | the nested loop prints one line per item of every commit, in order, and returns their number |
| CsvFiles.NestedLinesAt | src/main/java/com/activeviam/tooling/gitstats/internal/orchestration/LinesCsvWriterPipeline.java:32-40 | item `j` of commit `k` is the line after the items of the commits before `k` and the first `j` of `k` |
| ChangeCsvWriterPipeline.HeaderColumns | src/main/java/com/activeviam/tooling/gitstats/internal/orchestration/ChangeCsvWriterPipeline.java:29-31 | the header is the six columns `commit,module,filename,path,additions,deletions` |
| ChangeCsvWriterPipeline.LastMarkerAtOrBefore | src/main/java/com/activeviam/tooling/gitstats/internal/orchestration/ChangeCsvWriterPipeline.java:52 | the last place at or before `i` where `/src/(main\|test\|generated)/` occurs, or none |
| ChangeCsvWriterPipeline.ComputeModuleCases | src/main/java/com/activeviam/tooling/gitstats/internal/orchestration/ChangeCsvWriterPipeline.java:54-64 | the module is the text before the last source marker on the first line (the greedy group); otherwise the parent of a `pom.xml` (`<root>` without one), otherwise `n/a` |
| ChangeCsvWriterPipeline.ComputeFileNameCases | src/main/java/com/activeviam/tooling/gitstats/internal/orchestration/ChangeCsvWriterPipeline.java:66-68 | fails with a `NullPointerException` exactly for a path made only of slashes; otherwise a name without a slash |
| ChangeCsvWriterPipeline.ChangeBatchNamed | src/main/java/com/activeviam/tooling/gitstats/internal/orchestration/ChangeCsvWriterPipeline.java:34-50 | when every path has a name, one row per file change of every commit, in order |
| ChangeCsvWriterPipeline.ChangeBatchFailsOnUnnamed | src/main/java/com/activeviam/tooling/gitstats/internal/orchestration/ChangeCsvWriterPipeline.java:34-50 | one path without a name makes the command throw a `NullPointerException` |
| ChangeCsvWriterPipeline.ChangeBatchSticks | src/main/java/com/activeviam/tooling/gitstats/internal/orchestration/ChangeCsvWriterPipeline.java:34-50 | nothing is printed after the first exception |
| ChangeCsvWriterPipeline.ColumnsDoNotFollowHeader | src/main/java/com/activeviam/tooling/gitstats/internal/orchestration/ChangeCsvWriterPipeline.java:29-47 | as written, the columns headed module, filename and path hold the path, the module and the file name |
| ChangeCsvWriterPipeline.PomRowMislabelled | src/main/java/com/activeviam/tooling/gitstats/internal/orchestration/ChangeCsvWriterPipeline.java:29-47 | for `a/pom.xml` the three columns all disagree with their header |
| ChangeCsvWriterPipeline.HeaderOrderColumns | src/main/java/com/activeviam/tooling/gitstats/internal/orchestration/ChangeCsvWriterPipeline.java:29-47 | corrected: every column of a row holds the value its header names |
| ChangeCsvWriterPipeline.PrintChanges | src/main/java/com/activeviam/tooling/gitstats/internal/orchestration/ChangeCsvWriterPipeline.java:37-47 | the inner loop prints the rows of one commit up to the first exception |
| ChangeCsvWriterPipeline.ProcessCommand | src/main/java/com/activeviam/tooling/gitstats/internal/orchestration/ChangeCsvWriterPipeline.java:34-50 | prints the rows of the batch and returns their number, or stops at the first exception |
| ChangeCsvWriterPipeline.ChangeBatchFailsAny | src/main/java/com/activeviam/tooling/gitstats/internal/orchestration/ChangeCsvWriterPipeline.java:66-68 | the only exception a change batch can throw is the `NullPointerException` of `computeFileName` |
| ChangeCsvWriterPipeline.Create | src/main/java/com/activeviam/tooling/gitstats/internal/orchestration/ChangeCsvWriterPipeline.java:23-31 | a fresh pipeline with this header and a limit of `1 << 14` rows |
| RenameCsvWriterPipeline.HeaderColumns | src/main/java/com/activeviam/tooling/gitstats/internal/orchestration/RenameCsvWriterPipeline.java:26-28 | the header is `commit,before,after` |
| RenameCsvWriterPipeline.RenameColumns | src/main/java/com/activeviam/tooling/gitstats/internal/orchestration/RenameCsvWriterPipeline.java:35 | a row splits into the commit, the `from` path and the `to` path |
| RenameCsvWriterPipeline.ProcessCommand | src/main/java/com/activeviam/tooling/gitstats/internal/orchestration/RenameCsvWriterPipeline.java:31-40 | prints one row per renaming of every commit and returns their number |
| RenameCsvWriterPipeline.RenameRowAt | src/main/java/com/activeviam/tooling/gitstats/internal/orchestration/RenameCsvWriterPipeline.java:31-40 | the row of renaming `j` of commit `k` sits after the rows of the earlier ones |
| RenameCsvWriterPipeline.Create | src/main/java/com/activeviam/tooling/gitstats/internal/orchestration/RenameCsvWriterPipeline.java:20-28 | a fresh pipeline with this header and a limit of `1 << 18` rows |
| BranchCsvWritePipeline.HeaderColumns | src/main/java/com/activeviam/tooling/gitstats/internal/orchestration/BranchCsvWritePipeline.java:31-33 | the header is `branch,commit` |
| BranchCsvWritePipeline.BranchColumns | src/main/java/com/activeviam/tooling/gitstats/internal/orchestration/BranchCsvWritePipeline.java:38 | a row splits into the branch and the commit |
| BranchCsvWritePipeline.Process | src/main/java/com/activeviam/tooling/gitstats/internal/orchestration/BranchCsvWritePipeline.java:36-41 | one row per commit, in order |
| BranchCsvWritePipeline.ProcessCommand | src/main/java/com/activeviam/tooling/gitstats/internal/orchestration/BranchCsvWritePipeline.java:36-41 | prints one row per commit and returns the number of commits |
| BranchCsvWritePipeline.Create | src/main/java/com/activeviam/tooling/gitstats/internal/orchestration/BranchCsvWritePipeline.java:21-33 | a fresh pipeline for the branch, with this header and a limit of `1 << 22` rows |
| CommitCsvWritePipeline.HeaderColumns | src/main/java/com/activeviam/tooling/gitstats/internal/orchestration/CommitCsvWritePipeline.java:27-29 | the header is `commit,timestamp,date` |
| CommitCsvWritePipeline.CommitColumns | src/main/java/com/activeviam/tooling/gitstats/internal/orchestration/CommitCsvWritePipeline.java:32-42 | a row holds the commit, its timestamp in seconds (read back by `parseLong`) and the UTC date of the day holding that second |
| CommitCsvWritePipeline.DateHasNoComma | src/main/java/com/activeviam/tooling/gitstats/internal/orchestration/CommitCsvWritePipeline.java:40-42 | a date of a four-digit year holds no comma |
| CommitCsvWritePipeline.Process | src/main/java/com/activeviam/tooling/gitstats/internal/orchestration/CommitCsvWritePipeline.java:32-38 | one row per commit |
| CommitCsvWritePipeline.ProcessCommand | src/main/java/com/activeviam/tooling/gitstats/internal/orchestration/CommitCsvWritePipeline.java:32-38 | prints one row per commit and returns the number of commits |
| CommitCsvWritePipeline.Create | src/main/java/com/activeviam/tooling/gitstats/internal/orchestration/CommitCsvWritePipeline.java:21-29 | a fresh pipeline with this header and a limit of `1 << 22` rows |
| LinesCsvWriterPipeline.HeaderColumns | src/main/java/com/activeviam/tooling/gitstats/internal/orchestration/LinesCsvWriterPipeline.java:25-27 | the header is `commit,path,lines` |
| LinesCsvWriterPipeline.LinesColumns | src/main/java/com/activeviam/tooling/gitstats/internal/orchestration/LinesCsvWriterPipeline.java:34-38 | a row splits into the commit, the path and the line count |
| LinesCsvWriterPipeline.ProcessCommand | src/main/java/com/activeviam/tooling/gitstats/internal/orchestration/LinesCsvWriterPipeline.java:30-43 | prints one row per line count of every commit and returns their number |
| LinesCsvWriterPipeline.LinesRowAt | src/main/java/com/activeviam/tooling/gitstats/internal/orchestration/LinesCsvWriterPipeline.java:30-43 | the row of count `j` of commit `k` sits after the rows of the earlier ones |
| LinesCsvWriterPipeline.Create | src/main/java/com/activeviam/tooling/gitstats/internal/orchestration/LinesCsvWriterPipeline.java:20-27 | a fresh pipeline with this header and a limit of `1 << 16` rows |
| IndentationCsvWriterPipeline.HeaderColumns | src/main/java/com/activeviam/tooling/gitstats/internal/orchestration/IndentationCsvWriterPipeline.java:26-28 | the header is `commit,path,min_indent,max_indent,mean_indent,median_indent` |
| IndentationCsvWriterPipeline.MeanTextHasNoComma | src/main/java/com/activeviam/tooling/gitstats/internal/orchestration/IndentationCsvWriterPipeline.java:36-41 | the mean, as written, holds no comma |
| IndentationCsvWriterPipeline.IndentColumns | src/main/java/com/activeviam/tooling/gitstats/internal/orchestration/IndentationCsvWriterPipeline.java:35-42 | a row splits into the commit, the path, the minimum, the maximum, the mean and the median |
| IndentationCsvWriterPipeline.ProcessCommand | src/main/java/com/activeviam/tooling/gitstats/internal/orchestration/IndentationCsvWriterPipeline.java:31-47 | prints one row per file statistics of every commit and returns their number |
| IndentationCsvWriterPipeline.IndentRowAt | src/main/java/com/activeviam/tooling/gitstats/internal/orchestration/IndentationCsvWriterPipeline.java:31-47 | the row of statistics `j` of commit `k` sits after the rows of the earlier ones |
| IndentationCsvWriterPipeline.Create | src/main/java/com/activeviam/tooling/gitstats/internal/orchestration/IndentationCsvWriterPipeline.java:20-28 | a fresh pipeline with this header and a limit of `1 << 16` rows |
| Calendar.DateOfEpochDay | src/main/java/com/activeviam/tooling/gitstats/internal/orchestration/CommitCsvWritePipeline.java:40-42 | the date of a day number is a valid date whose day number is that one |
| Calendar.DateOfEpochDayOf | src/main/java/com/activeviam/tooling/gitstats/internal/orchestration/CommitCsvWritePipeline.java:40-42 | round trip: the date of the day number of a date is that date |
| Calendar.EpochDayInjective | src/main/java/com/activeviam/tooling/gitstats/internal/orchestration/CommitCsvWritePipeline.java:40-42 | two dates with the same day number are equal |
| Calendar.UtcDate | src/main/java/com/activeviam/tooling/gitstats/internal/orchestration/CommitCsvWritePipeline.java:40-42 | the UTC date of an instant is the day whose 86400 seconds hold it |
| Calendar.EpochDate | src/main/java/com/activeviam/tooling/gitstats/internal/orchestration/CommitCsvWritePipeline.java:40-42 | the epoch falls on 1970-01-01 |
| Calendar.DateTextFields | src/main/java/com/activeviam/tooling/gitstats/internal/orchestration/CommitCsvWritePipeline.java:40-42 | `LocalDate.toString` is the year, the zero-padded month and day, separated by `-` |
| ChangeReader.ParseCount | src/main/java/com/activeviam/tooling/gitstats/internal/shell/ChangeReader.java:56-61 | -1 exactly when the text holds a `-`; otherwise an `int` in range or a `NumberFormatException` |
| ChangeReader.ParseCountText | src/main/java/com/activeviam/tooling/gitstats/internal/shell/ChangeReader.java:56-61 | round trip: a printed count reads back as itself, `-` as -1 |
| ChangeReader.ParseSimpleLine | src/main/java/com/activeviam/tooling/gitstats/internal/shell/ChangeReader.java:51-54 | fewer than three whitespace fields throws an index error; otherwise the third field is the path and the first two are the counts |
| ChangeReader.MatchComplex | src/main/java/com/activeviam/tooling/gitstats/internal/shell/ChangeReader.java:20-22 | the match reported has its boundaries in order within the line |
| ChangeReader.MatchComplexIsLeftmost | src/main/java/com/activeviam/tooling/gitstats/internal/shell/ChangeReader.java:20-22 | `matches` succeeds exactly when some cut covers the line, and the reported cut is the one the lazy and greedy groups pick |
| ChangeReader.ParseComplexLine | src/main/java/com/activeviam/tooling/gitstats/internal/shell/ChangeReader.java:38-49 | a line the pattern does not match throws `Cannot parse line`; otherwise the name is `before + target + after` and the counts are parsed |
| ChangeReader.ParseLine | src/main/java/com/activeviam/tooling/gitstats/internal/shell/ChangeReader.java:30-36 | a line holding `=>` is parsed as a rename, any other as a simple line |
| ChangeReader.SimpleLineRoundTrip | src/main/java/com/activeviam/tooling/gitstats/internal/shell/ChangeReader.java:30-54 | a numstat line of a plain path reads back as that path and its counts |
| ChangeReader.BraceRoundTrip | src/main/java/com/activeviam/tooling/gitstats/internal/shell/ChangeReader.java:38-49 | a numstat line of `before{from => target}after` reads back as `before + target + after` with its counts |
| ChangeReader.PlainExample | src/test/java/com/activeviam/tooling/gitstats/internal/shell/TestChangeReader.java:21-25 | `1 2 file.txt` reads as `file.txt` with 1 and 2 |
| ChangeReader.BinaryExample | src/test/java/com/activeviam/tooling/gitstats/internal/shell/TestChangeReader.java:45-49 | `- - image.png` reads with -1 and -1 |
| ChangeReader.MatchComplexIsMatch | src/main/java/com/activeviam/tooling/gitstats/internal/shell/ChangeReader.java:20-22 | the cut reported covers the whole line, as `matches` requires |
| ChangeReader.BraceLineRead | src/main/java/com/activeviam/tooling/gitstats/internal/shell/ChangeReader.java:38-49 | a matched line whose path is `before{from => target}after` reads as `before + target + after` with its counts |
| CommitDateReader.GetCommand | src/main/java/com/activeviam/tooling/gitstats/internal/shell/CommitDateReader.java:20-22 | `git show --format=%ct <commit> --no-patch` |
| CommitDateReader.ParseLine | src/main/java/com/activeviam/tooling/gitstats/internal/shell/CommitDateReader.java:24-26 | the trimmed text read as a `long` number of seconds, failing for non-numbers and seconds out of the `Instant` range |
| CommitDateReader.ParsePrinted | src/main/java/com/activeviam/tooling/gitstats/internal/shell/CommitDateReader.java:24-26 | round trip: the decimal of a time in seconds, with surrounding whitespace, reads back as that time |
| CommitDateReader.BlankIsNotANumber | src/main/java/com/activeviam/tooling/gitstats/internal/shell/CommitDateReader.java:24-26 | a blank line is a `NumberFormatException` |
| CommitDateReader.NotANumber | src/main/java/com/activeviam/tooling/gitstats/internal/shell/CommitDateReader.java:24-26 | ` abc` is a `NumberFormatException` naming the trimmed text |
| Records.OfEpochSecond | src/main/java/com/activeviam/tooling/gitstats/internal/shell/CommitDateReader.java:25 | `Instant.ofEpochSecond` gives that second exactly within the `Instant` range and a `DateTimeException` outside it |
| Records.OfEpochMilli | src/main/java/com/activeviam/tooling/gitstats/internal/ReadCommitDetails.java:40 | `Instant.ofEpochMilli`: seconds and nanoseconds that add back up to the milliseconds |
| LineCountReader.GetCommand | src/main/java/com/activeviam/tooling/gitstats/internal/shell/LineCountReader.java:40-42 | `git diff --numstat <empty tree> <commit>` |
| LineCountReader.GetCommandForPaths | src/main/java/com/activeviam/tooling/gitstats/internal/shell/LineCountReader.java:44-49 | the unrestricted command, then `--`, then the paths |
| LineCountReader.ParseLine | src/main/java/com/activeviam/tooling/gitstats/internal/shell/LineCountReader.java:51-67 | blank or short lines and non-Java or binary files give nothing; a Java file gives its added count, or a `NumberFormatException` |
| LineCountReader.ParseJavaFile | src/main/java/com/activeviam/tooling/gitstats/internal/shell/LineCountReader.java:51-67 | round trip: the numstat line of a Java file of `n` lines reads back as `n` |
| LineCountReader.BinaryFileSkipped | src/main/java/com/activeviam/tooling/gitstats/internal/shell/LineCountReader.java:63-65 | a binary Java file gives no count |
| LineCountReader.OtherFileSkipped | src/main/java/com/activeviam/tooling/gitstats/internal/shell/LineCountReader.java:59-62 | a file not ending in `.java` gives no count |
| LineCountReader.MalformedCountFails | src/main/java/com/activeviam/tooling/gitstats/internal/shell/LineCountReader.java:59-66 | a Java file whose count is not an `int` throws |
| LineCountReader.NumstatFields | src/main/java/com/activeviam/tooling/gitstats/internal/shell/LineCountReader.java:55 | a numstat line splits at tabs into the added count, the deleted count and the path |
| LineCountReader.FractionFails | src/main/java/com/activeviam/tooling/gitstats/internal/shell/LineCountReader.java:66 | a count of `1.5` throws a `NumberFormatException` |
| RenameReader.GetCommand | src/main/java/com/activeviam/tooling/gitstats/internal/shell/RenameReader.java:21-23 | `git show … --raw <commit>` |
| RenameReader.ParseLine | src/main/java/com/activeviam/tooling/gitstats/internal/shell/RenameReader.java:25-32 | a renaming exactly for seven whitespace fields, from `parts[6]` to `parts[5]` |
| RenameReader.ParseRawLine | src/main/java/com/activeviam/tooling/gitstats/internal/shell/RenameReader.java:25-32 | as written, a raw rename line reads as the renaming from its destination to its source |
| RenameReader.RenameIsSwapped | src/main/java/com/activeviam/tooling/gitstats/internal/shell/RenameReader.java:27-28 | the rename of `a` to `b` reads as `b` to `a` |
| RenameReader.ParseRawLineInOrder | src/main/java/com/activeviam/tooling/gitstats/internal/shell/RenameReader.java:25-32 | corrected: a raw rename line reads back as the renaming from its source to its destination |
| RenameReader.IndentedRawLine | src/main/java/com/activeviam/tooling/gitstats/internal/shell/RenameReader.java:25-32 | a leading space adds an empty first field, so the line gives no renaming |
| RenameReader.TrailingSpaceIgnored | src/main/java/com/activeviam/tooling/gitstats/internal/shell/RenameReader.java:25-32 | trailing whitespace changes nothing |
| RenameReader.RawLineFields | src/main/java/com/activeviam/tooling/gitstats/internal/shell/RenameReader.java:27 | a raw line splits into its five head fields, the source and the destination |
| RenameReader.ParseLineInOrder | src/main/java/com/activeviam/tooling/gitstats/internal/shell/RenameReader.java:25-32 | corrected: a renaming exactly for seven whitespace fields, the same condition as written |
| IndentationReader.GetCommand | src/main/java/com/activeviam/tooling/gitstats/internal/shell/IndentationReader.java:24-26 | `git diff <empty tree> <commit>` |
| IndentationReader.IndentLevelsIsLargest | src/main/java/com/activeviam/tooling/gitstats/internal/shell/IndentationReader.java:76-85 | the level is the largest `m` such that the line starts with the unit written `m` times |
| IndentationReader.CountIndentLevels | src/main/java/com/activeviam/tooling/gitstats/internal/shell/IndentationReader.java:76-85 | the loop counts whole units: the line starts with `levels` units and not with one more |
| IndentationReader.LevelsOfRepeat | src/main/java/com/activeviam/tooling/gitstats/internal/shell/IndentationReader.java:76-85 | `m` units followed by text not starting with the unit give `m` |
| IndentationReader.PartialUnitsFloor | src/test/java/com/activeviam/tooling/gitstats/internal/shell/TestIndentationReader.java:95-110 | five spaces under a three-space unit give 1; three tabs under a two-tab unit give 1 |
| IndentationReader.SortLevels | src/main/java/com/activeviam/tooling/gitstats/internal/shell/IndentationReader.java:87-95 | the sorted copy is sorted and holds the same levels |
| IndentationReader.Median | src/main/java/com/activeviam/tooling/gitstats/internal/shell/IndentationReader.java:97-103 | the median lies between the two middle elements of a sorted list |
| IndentationReader.ComputeStats | src/main/java/com/activeviam/tooling/gitstats/internal/shell/IndentationReader.java:87-95 | minimum and maximum are levels bounding all others, the median lies between them, and sum and count are those of the levels |
| IndentationReader.ParseOutput | src/main/java/com/activeviam/tooling/gitstats/internal/shell/IndentationReader.java:28-74 | the one-pass loop returns exactly the specification: one result per Java file with at least one measured added line, in order |
| IndentationReader.ReportsShape | src/main/java/com/activeviam/tooling/gitstats/internal/shell/IndentationReader.java:28-74 | every result is about a Java file and has its median between its bounds; at most one per file |
| IndentationReader.SectionsOfRender | src/main/java/com/activeviam/tooling/gitstats/internal/shell/IndentationReader.java:35-46 | cutting a diff at its `+++ b/` headers gives back its files |
| IndentationReader.OtherFileIgnored | src/main/java/com/activeviam/tooling/gitstats/internal/shell/IndentationReader.java:42-44 | a file not ending in `.java` gives nothing |
| IndentationReader.OneLineReport | src/main/java/com/activeviam/tooling/gitstats/internal/shell/IndentationReader.java:53-65 | a Java file with one measured line gives the statistics of that line's level |
| IndentationReader.Insert | src/main/java/com/activeviam/tooling/gitstats/internal/shell/IndentationReader.java:88-89 | one level put into its place keeps the list sorted and adds exactly that level |
| IndentationReader.SortedBounds | src/main/java/com/activeviam/tooling/gitstats/internal/shell/IndentationReader.java:88-91 | the first and last of the sorted copy are levels that bound all the others |
| IndentationReader.SumOfPermutation | src/main/java/com/activeviam/tooling/gitstats/internal/shell/IndentationReader.java:88-92 | sorting does not change the sum of the levels, so the mean is that of the original list |
| IndentationReader.MedianExamples | src/main/java/com/activeviam/tooling/gitstats/internal/shell/IndentationReader.java:97-103 | `[1,2,3]` gives 2, `[1,2,3,4]` gives 2 by integer division, `[5]` gives 5 |
| IndentationReader.OneMoreSection | src/main/java/com/activeviam/tooling/gitstats/internal/shell/IndentationReader.java:35-46 | a `+++ b/` header followed by a header-free body adds exactly one file |
| IndentationReader.ExpectedAppendFile | src/main/java/com/activeviam/tooling/gitstats/internal/shell/IndentationReader.java:35-71 | the diff of one more file appends its result, if any, to the results so far |
| BranchCommitReader.CommitsToIgnore | src/main/java/com/activeviam/tooling/gitstats/internal/explorer/BranchCommitReader.java:93-107 | no file ignores nothing; otherwise exactly the non-blank lines not starting with `#`, untrimmed |
| BranchCommitReader.Unignored | src/main/java/com/activeviam/tooling/gitstats/internal/explorer/BranchCommitReader.java:78-82 | the ids kept are those not ignored |
| BranchCommitReader.ReadCommits | src/main/java/com/activeviam/tooling/gitstats/internal/explorer/BranchCommitReader.java:70-85 | the unignored lines of `git rev-list <start> -n 100`; an empty list throws on `getLast` |
| BranchCommitReader.Before | src/main/java/com/activeviam/tooling/gitstats/internal/explorer/BranchCommitReader.java:56-58 | the longest prefix without `not-a-sha1` |
| BranchCommitReader.Walk | src/main/java/com/activeviam/tooling/gitstats/internal/explorer/BranchCommitReader.java:51-67 | no query at or past `historySize`, and fewer than one query per 100 positions beyond the first; no ignored id and no sentinel is ever put |
| BranchCommitReader.Run | src/main/java/com/activeviam/tooling/gitstats/internal/explorer/BranchCommitReader.java:51-67 | puts the ids of the windowed walk, then one `Stop` unless a window throws |
| BranchCommitReader.WalkLength | src/main/java/com/activeviam/tooling/gitstats/internal/explorer/BranchCommitReader.java:52-55 | at most 100 ids per query |
| BranchCommitReader.BoundaryRepeated | src/main/java/com/activeviam/tooling/gitstats/internal/explorer/BranchCommitReader.java:64 | as written, on a linear history of more than 100 commits, the 100th id is put twice |
| BranchCommitReader.HundredIdsForAnySize | src/main/java/com/activeviam/tooling/gitstats/internal/explorer/BranchCommitReader.java:52-59 | as written, on a linear history of at least 100 commits, any `historySize` from 1 to 100 puts 100 ids |
| BranchCommitReader.WalkFresh | src/main/java/com/activeviam/tooling/gitstats/internal/explorer/BranchCommitReader.java:51-67 | corrected: from window `i`, at most `historySize - i` ids, none ignored and no sentinel; nothing at or past `historySize` |
| BranchCommitReader.FreshWalkOfSize | src/main/java/com/activeviam/tooling/gitstats/internal/explorer/BranchCommitReader.java:51-67 | corrected: on a linear history of at least 100 commits, a `historySize` from 1 to 100 puts exactly the first `historySize` ids |
| BranchCommitReader.WalkFreshIsPrefix | src/main/java/com/activeviam/tooling/gitstats/internal/explorer/BranchCommitReader.java:51-67 | corrected: the walk puts a prefix of the history |
| BranchCommitReader.WalkFreshDistinct | src/main/java/com/activeviam/tooling/gitstats/internal/explorer/BranchCommitReader.java:51-67 | corrected: on a history without repeated ids, no id is put twice |
| BranchCommitReader.RevListCommand | src/main/java/com/activeviam/tooling/gitstats/internal/explorer/BranchCommitReader.java:76 | `git rev-list <start> -n 100` |
| BranchCommitReader.EntriesAreNotTrimmed | src/main/java/com/activeviam/tooling/gitstats/internal/explorer/BranchCommitReader.java:93-107 | entries are compared untrimmed: `abc ` is ignored but `abc` is not, and comment lines are dropped |
| BranchCommitReader.FailedWindow | src/main/java/com/activeviam/tooling/gitstats/internal/explorer/BranchCommitReader.java:55 | a window that throws ends the walk with what was put before it and that exception |
| BranchCommitReader.LastWindow | src/main/java/com/activeviam/tooling/gitstats/internal/explorer/BranchCommitReader.java:56-63 | a window cut at the sentinel puts its kept ids and ends the walk normally |
| BranchCommitReader.NextWindow | src/main/java/com/activeviam/tooling/gitstats/internal/explorer/BranchCommitReader.java:59-64 | a window kept whole is put, and the walk resumes 100 positions later from its last id |
| BranchCommitReader.NoMoreWindows | src/main/java/com/activeviam/tooling/gitstats/internal/explorer/BranchCommitReader.java:54 | once the position reaches `historySize` the walk ends normally with what was put |
| BranchCommitReader.WholeWindow | src/main/java/com/activeviam/tooling/gitstats/internal/explorer/BranchCommitReader.java:59-64 | the ids of a whole window open what the walk puts |
| BranchCommitReader.TwoWholeWindows | src/main/java/com/activeviam/tooling/gitstats/internal/explorer/BranchCommitReader.java:59-64 | after a whole window of 100 ids, the next window's first id is put right after the first window's last |
| ReadCommitDetails.NewReader | src/main/java/com/activeviam/tooling/gitstats/internal/explorer/ReadCommitDetails.java:45-51 | the four-argument constructor does not read all files |
| ReadCommitDetails.ReadCommitDateIsParse | src/main/java/com/activeviam/tooling/gitstats/internal/explorer/ReadCommitDetails.java:66-70 | the date is `CommitDateReader.parseLine` of the output |
| ReadCommitDetails.ChangesAfterHeader | src/main/java/com/activeviam/tooling/gitstats/internal/explorer/ReadCommitDetails.java:72-85 | the first line is skipped, blank lines dropped, and each other line parsed, in order |
| ReadCommitDetails.RenameLines | src/main/java/com/activeviam/tooling/gitstats/internal/explorer/ReadCommitDetails.java:87-99 | each line after the first is read by `RenameReader.parseLine` |
| ReadCommitDetails.RenamingsFound | src/main/java/com/activeviam/tooling/gitstats/internal/explorer/ReadCommitDetails.java:87-99 | a renaming is read exactly when some line after the first holds it |
| ReadCommitDetails.ReadChangedFiles | src/main/java/com/activeviam/tooling/gitstats/internal/explorer/ReadCommitDetails.java:101-106 | exactly the non-blank lines of `git diff-tree` |
| ReadCommitDetails.ChangedPaths | src/main/java/com/activeviam/tooling/gitstats/internal/explorer/ReadCommitDetails.java:150 | no restriction with `allFiles`; otherwise the changed files |
| ReadCommitDetails.LineCountCommand | src/main/java/com/activeviam/tooling/gitstats/internal/explorer/ReadCommitDetails.java:108-112 | the restricted or unrestricted command of `LineCountReader` |
| ReadCommitDetails.LineCountsAreJava | src/main/java/com/activeviam/tooling/gitstats/internal/explorer/ReadCommitDetails.java:108-118 | every count read is about a Java file |
| ReadCommitDetails.ReadFileIndentation | src/main/java/com/activeviam/tooling/gitstats/internal/explorer/ReadCommitDetails.java:120-129 | every result is about a Java file with its median between its bounds |
| ReadCommitDetails.Read | src/main/java/com/activeviam/tooling/gitstats/internal/explorer/ReadCommitDetails.java:132-166 | history mode: date, changes and renamings, succeeding exactly when date and changes do; tree mode: epoch date, line counts and indentation |
| ReadCommitDetails.DefaultRestrictsToChangedFiles | src/main/java/com/activeviam/tooling/gitstats/internal/explorer/ReadCommitDetails.java:45-51 | by default the tree statistics are restricted to the changed files |
| ReadCommitDetails.HistoryIgnoresRenamingLines | src/main/java/com/activeviam/tooling/gitstats/internal/explorer/ReadCommitDetails.java:137-148 | whether a history read succeeds does not depend on the `--raw` output |
| ReadCommitDetails.DiffTreeCommand | src/main/java/com/activeviam/tooling/gitstats/internal/explorer/ReadCommitDetails.java:102 | `git diff-tree --no-commit-id --name-only -r <commit>` |
| ReadCommitDetails.IndentationCommand | src/main/java/com/activeviam/tooling/gitstats/internal/explorer/ReadCommitDetails.java:121-124 | the unrestricted `IndentationReader` command with `allFiles`, the restricted one otherwise |
| FileChangeWriter.ComputeModule | src/main/java/com/activeviam/tooling/gitstats/internal/writing/FileChangeWriter.java:53-67 | as written: a suffix of the path that starts with `/src/main` and whose preceding text holds no `/src/main`, that is from the first occurrence on; else the same with `/src/test`; else, for a path ending in `pom.xml`, the text of its parent directory, or a `NullPointerException` exactly when it has none; else exactly `n/a` |
| FileChangeWriter.ComputeFileName | src/main/java/com/activeviam/tooling/gitstats/internal/writing/FileChangeWriter.java:69-71 | throws exactly for a path made only of slashes; otherwise a name without a slash |
| FileChangeWriter.FillRecord | src/main/java/com/activeviam/tooling/gitstats/internal/writing/FileChangeWriter.java:44-51 | the record holds the commit, the path, the module, the file name and the two counts, or the exception |
| FileChangeWriter.BarePomFails | src/main/java/com/activeviam/tooling/gitstats/internal/writing/FileChangeWriter.java:62-65 | a top-level `pom.xml` makes the record throw |
| FileChangeWriter.FileNameOfPath | src/main/java/com/activeviam/tooling/gitstats/internal/writing/FileChangeWriter.java:69-71 | round trip: the file name of a relative path is its last element |
| FileChangeWriter.SourceAndPomDisagree | src/main/java/com/activeviam/tooling/gitstats/internal/writing/FileChangeWriter.java:53-67 | as written, a source file of directory `m` gets module `/src/main…` while `m/pom.xml` gets `m` |
| FileChangeWriter.ComputeModuleFixed | src/main/java/com/activeviam/tooling/gitstats/internal/writing/FileChangeWriter.java:53-67 | corrected: the path before the first marker, which does not hold the marker; without a marker, the same pom parent, `NullPointerException` and `n/a` results as `ComputeModule` |
| FileChangeWriter.SourceAndPomAgree | src/main/java/com/activeviam/tooling/gitstats/internal/writing/FileChangeWriter.java:53-67 | corrected: the sources and the build file of `m` all belong to `m` |
| InternalBranchCommitReader.Commit | src/main/java/com/activeviam/tooling/gitstats/internal/BranchCommitReader.java:57-59 | `<branch>~<index>`, the plain decimal below 1000 |
| InternalBranchCommitReader.CommitGroupedFromThousand | src/main/java/com/activeviam/tooling/gitstats/internal/BranchCommitReader.java:57-59 | from 1000 on, `MessageFormat` puts a grouping comma in the ancestor index |
| InternalBranchCommitReader.CommitFixed | src/main/java/com/activeviam/tooling/gitstats/internal/BranchCommitReader.java:57-59 | corrected: the index written as plain digits that read back as the index |
| InternalBranchCommitReader.CommitAgreesBelowThousand | src/main/java/com/activeviam/tooling/gitstats/internal/BranchCommitReader.java:57-59 | the two agree below 1000 |
| InternalBranchCommitReader.TrimIsFirstMatch | src/main/java/com/activeviam/tooling/gitstats/internal/BranchCommitReader.java:61-63 | `replaceFirst` removes the leftmost match of whitespace, `+`, whitespace (the runs taken greedily), and nothing when the line has no `+` |
| InternalBranchCommitReader.CherryAddedLine | src/main/java/com/activeviam/tooling/gitstats/internal/BranchCommitReader.java:61-63 | a `+ <sha>` line becomes the bare sha |
| InternalBranchCommitReader.CherryKeptLine | src/main/java/com/activeviam/tooling/gitstats/internal/BranchCommitReader.java:61-63 | a `- <sha>` line is unchanged |
| InternalBranchCommitReader.WindowsTile | src/main/java/com/activeviam/tooling/gitstats/internal/BranchCommitReader.java:36-40 | the windows tile `[0, historySize)` in steps of 100, each holding 1 to 100 commits |
| InternalBranchCommitReader.CherryCommand | src/main/java/com/activeviam/tooling/gitstats/internal/BranchCommitReader.java:49-50 | `git cherry <branch>~end <branch>~start` |
| InternalBranchCommitReader.CommitQueue.Add | src/main/java/com/activeviam/tooling/gitstats/internal/BranchCommitReader.java:54 | `add` appends below capacity and throws `Queue full` at capacity, changing nothing |
| InternalBranchCommitReader.ReadCommits | src/main/java/com/activeviam/tooling/gitstats/internal/BranchCommitReader.java:43-55 | the window's trimmed lines are added in order; on overflow the queue holds the prefix that fits |
| InternalBranchCommitReader.Run | src/main/java/com/activeviam/tooling/gitstats/internal/BranchCommitReader.java:36-40 | all windows' lines are added in order, or the queue is full with the prefix that fits |
| InternalBranchCommitReader.NothingForEmptyHistory | src/main/java/com/activeviam/tooling/gitstats/internal/BranchCommitReader.java:38 | a non-positive history size runs no command and adds nothing |
| InternalBranchCommitReader.TrimAll | src/main/java/com/activeviam/tooling/gitstats/internal/BranchCommitReader.java:51-53 | one trimmed line per output line, in order |
| InternalBranchCommitReader.CherryWindow | src/main/java/com/activeviam/tooling/gitstats/internal/BranchCommitReader.java:51-54 | a window of `+ <sha>` lines gives the shas, in order |
| InternalBranchCommitReader.WindowFailed | src/main/java/com/activeviam/tooling/gitstats/internal/BranchCommitReader.java:38-39 | a window that overflows the queue leaves the same prefix as the whole run |
| InternalBranchCommitReader.CommitQueue.constructor | src/main/java/com/activeviam/tooling/gitstats/Application.java:48 | an empty bounded queue of the given capacity (20 where the reader is used) |
| InternalReadCommitDetails.SecondsReadAsMillis | src/main/java/com/activeviam/tooling/gitstats/internal/ReadCommitDetails.java:40 | a commit time printed in seconds is read a thousand times closer to the epoch |
| InternalReadCommitDetails.ParseFileChange | src/main/java/com/activeviam/tooling/gitstats/internal/ReadCommitDetails.java:55-58 | fewer than three fields throws an index error; otherwise the path and the counts, the second read by `parseInt` |
| InternalReadCommitDetails.TextFileRoundTrip | src/main/java/com/activeviam/tooling/gitstats/internal/ReadCommitDetails.java:55-65 | a text file's numstat line reads back as its path and counts |
| InternalReadCommitDetails.BinaryFileFails | src/main/java/com/activeviam/tooling/gitstats/internal/ReadCommitDetails.java:57 | a binary file's `-` deletions throw, where `ChangeReader` reads -1 |
| InternalReadCommitDetails.ChangesAfterHeader | src/main/java/com/activeviam/tooling/gitstats/internal/ReadCommitDetails.java:43-53 | the first line is skipped and every other line parsed, blank ones included |
| InternalReadCommitDetails.EmptyLineAfterHeaderFails | src/main/java/com/activeviam/tooling/gitstats/internal/ReadCommitDetails.java:49 | an empty line after the header makes the read throw |
| InternalReadCommitDetails.NumstatRenameIgnored | src/main/java/com/activeviam/tooling/gitstats/internal/ReadCommitDetails.java:84-91 | a numstat rename has five fields, so it gives no renaming |
| InternalReadCommitDetails.NoSevenFieldsNoRenamings | src/main/java/com/activeviam/tooling/gitstats/internal/ReadCommitDetails.java:67-82 | without a seven-field line, no renaming is read |
| InternalReadCommitDetails.Read | src/main/java/com/activeviam/tooling/gitstats/internal/ReadCommitDetails.java:93-101 | date, then changes, then renamings; the first failure is the result |
| InternalReadCommitDetails.BinaryCommitUnreadable | src/main/java/com/activeviam/tooling/gitstats/internal/ReadCommitDetails.java:93-101 | a commit touching a binary file cannot be read |
| InternalReadCommitDetails.DateCommand | src/main/java/com/activeviam/tooling/gitstats/internal/ReadCommitDetails.java:36-38 | the same `git show --format=%ct` command as `CommitDateReader` |
| InternalReadCommitDetails.NumstatCommand | src/main/java/com/activeviam/tooling/gitstats/internal/ReadCommitDetails.java:44-46 | the `git show --numstat` command, used for changes and renamings alike |
| InternalReadCommitDetails.NumstatFields | src/main/java/com/activeviam/tooling/gitstats/internal/ReadCommitDetails.java:55-58 | a numstat line splits into the two counts and the path |
| InternalReadCommitDetails.EmptyLineFails | src/main/java/com/activeviam/tooling/gitstats/internal/ReadCommitDetails.java:56-57 | an empty line has one empty field, so `parts[2]` throws |
| InternalReadCommitDetails.ArrowPieces | src/main/java/com/activeviam/tooling/gitstats/internal/ReadCommitDetails.java:84-91 | `<from> => <to>` splits into three fields |
| InternalReadCommitDetails.RenameLines | src/main/java/com/activeviam/tooling/gitstats/internal/ReadCommitDetails.java:67-82 | every line after the first of the numstat output is read by the seven-field rule |

## Left out

- `LineCountReader.computeEmptyTreeHash` runs `git hash-object -t tree --stdin`, closes its
  standard input at once and reads the trimmed output, with standard error merged into it.
  Its result is a parameter `emptyTree` of the commands that use it.
- `explorer/BranchCommitReader.resolveStartCommit` runs `git rev-parse`. Its result is the
  parameter `resolvedCommit` of `Run`.
- Reading `.git-blame-ignore-revs` is file I/O. Its lines are a parameter, and an I/O
  failure of that read is not modelled.
- Processes, their exit codes, their standard error and span and log calls are left out.
  Standard output is a function from the command to its text. The explorer reader runs its
  sub-reads in a structured task scope. The model evaluates them in order. It assumes the
  first failure found is the one reported.
- The identity of the `Stop` singleton (`Action.stop()` and `Stop.create()`) is not modelled.
  `Stop` is a constructor without arguments, so every stop is the same value.
- IndentationReader.CountIndentLevels: requires a non-empty unit. With an empty unit the Java
  loop never ends, and a loop that does not terminate is not modelled.
- Blocking queues and threads are left out. A stage reads the sequence of actions it will
  take and must meet a `Stop` (a stage that never does blocks forever). Output queues are
  unbounded sequences. `put` blocking on a full queue is not modelled, since it changes
  timing and not content. The bounded `add` of the older discovery is modelled.
- The interrupt handling and the wrapping of `IOException` into `IllegalStateException` in
  `ACsvWritePipeline.run` are left out. File creation is taken to succeed.
- `IndentationReader.getCommand(commit, paths)` is called at
  `explorer/ReadCommitDetails.java:123`, but `shell/IndentationReader.java` defines only the
  one-argument overload. The two-argument overload is not part of this model.
  `ReadCommitDetails.IndentationCommand` names that command without defining its arguments.
- `FileIndentationStats.bumps` is never set by `IndentationReader.computeStats`, so it is not
  modelled.
- IndentationReader.ComputeStats: the mean, a `double`, is kept as its sum and count.
  The `%.2f` text of the mean is the decimal quotient rounded half-up to two digits, and
  locale-specific formats are not modelled.
- IndentationReader.ParseOutput: the source reads lines from a `BufferedReader`. Its input is the
  sequence of lines.
- ChangeReader.MatchComplex: the regex `.` excludes `\n`, `\r`, `\u0085`, `\u2028` and
  `\u2029`. These are modelled. Surrogate pairs are treated as two characters.
- InternalBranchCommitReader.Commit: `MessageFormat` grouping is modelled for the English
  locale (`,` every three digits). Other locales are not modelled.
- ACsvWritePipeline.CsvWritePipeline.Run: `count` and `lines` are Java `int`s. Their
  overflow after 2^31 files or rows is not modelled.
- Buffers.Buffer.Add: the `int` weight is unbounded in the model. Overflow is not
  modelled.
- JavaPaths.PathOf: `Path.of` throws `InvalidPathException` on a NUL character, and the
  model never fails. The paths come from `git` output, which cannot hold a NUL inside a
  path, so this case does not arise from the modelled inputs.
- JavaText.ParseSigned: only ASCII digits `0`–`9` are read as digits. `Integer.parseInt`
  and `Long.parseLong` also accept the other Unicode decimal digits (`Character.digit`),
  so a text such as `١٢` fails in the model and reads as 12 in Java. This reaches
  `ParseInt`, `ParseLong` and the readers built on them.
- BranchCommitReader.Walk: the window counter `i` is a Java `int`. Above a `historySize`
  of 2^31 - 101, `i += 100` wraps to a negative value and the loop no longer ends by its
  bound. The model's counter does not wrap.
- InternalBranchCommitReader.WindowStarts: the `int` stream `i -> i + 100` wraps above a
  `historySize` of 2^31 - 101. The model's starts do not wrap.
- InternalBranchCommitReader.WindowEnd: `Math.min(start + 100, historySize)` overflows to
  a negative end for a start above 2^31 - 101. The model's end does not.
- InternalBranchCommitReader.EmittedFrom: built on `WindowStarts` and `WindowEnd`, so it
  inherits their missing wrap-around.
- WriteDispacher.Run: covers the dispatcher on its own. The three queues are sequences
  returned by `Run`, and thread hand-off is not modelled.
- The Avro and Parquet writers (`writing/Writer`, `CommitWriter`, `BranchWriter`,
  `FileRenamingWriter`), the CLI and the programs that wire the stages together are
  outside the core. Only `FileChangeWriter`'s record filling is modelled.
- `CsvFiles.FormatName` stands for `String.format(filePattern, count)` with a pattern of
  the form `<prefix>%04d<suffix>`. Other patterns are not modelled.

## Findings

| source | as written | input that shows it | evidently intended | confidence | as-written member | corrected member |
|---|---|---|---|---|---|---|
| src/main/java/com/activeviam/tooling/gitstats/internal/orchestration/Multiplexer.java:32-35 | on `Stop` the action is forwarded once by the common call and once more in the `Stop` branch | the stream `[Stop]` reaches each target as `[Stop, Stop]` | one `Stop` per target | not executed | Multiplexer.LoneStopIsDoubled | Multiplexer.ForwardedStopsOnce |
| src/main/java/com/activeviam/tooling/gitstats/internal/orchestration/ACsvWritePipeline.java:64-69 | `finally` closes the writer but leaves it set, so the next run prints into a closed `PrintWriter`, which drops the lines | two runs of one one-line command each, with a limit of at least 2: the second line is lost | release the writer (`writer = null`) after closing | not executed | ACsvWritePipeline.SecondRunLosesRows | ACsvWritePipeline.ReleasedSecondRunKeepsRows |
| src/main/java/com/activeviam/tooling/gitstats/internal/orchestration/ChangeCsvWriterPipeline.java:29-47 | the header says `commit,module,filename,path,…` but each row prints the path, the module, then the file name | the change of `a/pom.xml`: the column `module` holds `a/pom.xml`, `filename` holds `a`, `path` holds `pom.xml` | each column holds the value its header names | not executed | ChangeCsvWriterPipeline.PomRowMislabelled | ChangeCsvWriterPipeline.HeaderOrderColumns |
| src/main/java/com/activeviam/tooling/gitstats/internal/shell/RenameReader.java:27-28 | `new FileRenaming(parts[6], parts[5])` sets `from` to the destination and `to` to the source of the raw line | `:100644 100644 1 2 R100	a	b` reads as `b` to `a` | `from` = source, `to` = destination | not executed | RenameReader.RenameIsSwapped | RenameReader.ParseRawLineInOrder |
| src/main/java/com/activeviam/tooling/gitstats/internal/explorer/BranchCommitReader.java:64 | the next window starts at the last id put, and `git rev-list <id>` lists `<id>` itself | a linear history of 101 commits with `historySize` above 100: the 100th commit is put twice | each id once, the next window starting after the last id | not executed | BranchCommitReader.BoundaryRepeated | BranchCommitReader.WalkFreshDistinct |
| src/main/java/com/activeviam/tooling/gitstats/internal/explorer/BranchCommitReader.java:52-59 | every window asks `git rev-list -n 100` and puts every id it lists, whatever `historySize` is; the bound only limits the number of windows | a linear history of 100 commits or more with `historySize` 1: 100 ids are put | at most `historySize` ids | not executed | BranchCommitReader.HundredIdsForAnySize | BranchCommitReader.FreshWalkOfSize |
| src/main/java/com/activeviam/tooling/gitstats/internal/ReadCommitDetails.java:40 | `Instant.ofEpochMilli` reads `%ct`, which is in seconds | a commit at 1700000000 seconds (November 2023) is read as 1700000 seconds, in January 1970 | `Instant.ofEpochSecond` | not executed | InternalReadCommitDetails.SecondsReadAsMillis | CommitDateReader.ParsePrinted |
| src/main/java/com/activeviam/tooling/gitstats/internal/ReadCommitDetails.java:57 | the deletions are read with `Integer.parseInt`, so the `-` of a binary file throws | `-	-	image.png` throws `NumberFormatException` | -1 for a binary file, as for the additions | not executed | InternalReadCommitDetails.BinaryFileFails | ChangeReader.SimpleLineRoundTrip |
| src/main/java/com/activeviam/tooling/gitstats/internal/ReadCommitDetails.java:67-91 | renamings are read from `--numstat` output with the seven-field rule of `--raw` | `1	2	a => b` has five fields and gives no renaming | read renamings from `git show --raw` | not executed | InternalReadCommitDetails.NumstatRenameIgnored | RenameReader.ParseRawLineInOrder |
| src/main/java/com/activeviam/tooling/gitstats/internal/writing/FileChangeWriter.java:53-61 | the module of a source file is the text from `/src/main` on, not the directory before it | `m/src/main/A.java` gets module `/src/main/A.java`, while `m/pom.xml` gets `m` | the directory before the marker, as for the build file | not executed | FileChangeWriter.SourceAndPomDisagree | FileChangeWriter.SourceAndPomAgree |
| src/main/java/com/activeviam/tooling/gitstats/internal/BranchCommitReader.java:57-59 | `MessageFormat.format("{0}~{1}", branch, index)` groups the index digits | index 1000 gives `main~1,000`, which `git` cannot resolve | the plain decimal index | not executed | InternalBranchCommitReader.CommitGroupedFromThousand | InternalBranchCommitReader.CommitAgreesBelowThousand |
