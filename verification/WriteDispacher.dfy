/** `WriteDispacher`: splits one stream of commit details into three streams of
    batches (file changes, renamings, commits), each cut by weight, and ends each
    output stream with one `Stop`. */
module WriteDispacher {
  import opened Actions
  import opened Buffers
  import opened Batching
  import opened Records

  datatype WriteChangesAction = WriteChangesAction(commits: seq<CommitDetails>)
  datatype WriteRenamingAction = WriteRenamingAction(commits: seq<CommitDetails>)
  datatype WriteCommits = WriteCommits(commits: seq<CommitInfo>)

  /** Batches for the per-file writers of the tree statistics, which wrap a list of
      details in the same way. */
  datatype WriteLinesAction = WriteLinesAction(commits: seq<CommitDetails>)
  datatype WriteIndentationAction = WriteIndentationAction(commits: seq<CommitDetails>)

  const CHANGE_LIMIT: int := 2000
  const RENAMING_LIMIT: int := 1000
  const COMMIT_LIMIT: int := 1000

  function MakeChanges(commits: seq<CommitDetails>): WriteChangesAction {
    WriteChangesAction(commits)
  }

  function MakeRenamings(commits: seq<CommitDetails>): WriteRenamingAction {
    WriteRenamingAction(commits)
  }

  function MakeCommits(commits: seq<CommitInfo>): WriteCommits {
    WriteCommits(commits)
  }

  /** An accumulator over a buffer, putting each drained batch, built into an action,
      on its own queue. */
  class Accumulator<T, U> {
    const buffer: Buffer<T>
    const build: seq<T> -> U
    var queue: seq<Action<U>>
    /** Every element added so far, with its weight. */
    ghost var fed: seq<(T, int)>

    /** The buffer holds the pending batch of `fed` and the queue holds one value per
        cut batch. */
    ghost predicate Valid()
      reads this, buffer
    {
      var st := FeedAll(fed, buffer.limit);
      buffer.Valid()
      && buffer.underlying == Elements(st.pending)
      && buffer.sizes == Sizes(st.pending)
      && queue == Wrap(BuildEach(ElementsEach(st.emitted), build))
    }

    /** `Accumulator.create`: a fresh buffer with the given limit and an empty queue. */
    constructor Create(limit: int, build: seq<T> -> U)
      ensures Valid() && fresh(buffer)
      ensures buffer.limit == limit && this.build == build
      ensures fed == [] && queue == []
    {
      buffer := new Buffer(limit);
      this.build := build;
      queue := [];
      fed := [];
    }

    /** `add`: the element joins the buffer, and the batch is emitted as soon as the
        buffer has enough weight. */
    method Add(item: T, size: int)
      requires Valid()
      modifies this, buffer
      ensures Valid()
      ensures fed == old(fed) + [(item, size)]
    {
      ghost var st := FeedAll(fed, buffer.limit);
      ghost var x := (item, size);
      FeedAllSnoc(fed, x, buffer.limit);
      WeightAppend(st.pending, x);
      buffer.Add(item, size);
      fed := fed + [x];
      var enough := buffer.HasEnough();
      if enough {
        EmitAction();
        CutSnoc(st.emitted, st.pending + [x], build);
        assert Elements<T>([]) == [] && Sizes<T>([]) == [];
      }
    }

    /** `emitAction`: drains the buffer and puts the built batch on the queue. */
    method EmitAction()
      requires buffer.Valid()
      modifies this, buffer
      ensures buffer.Valid()
      ensures queue == old(queue) + [Value(build(old(buffer.underlying)))]
      ensures buffer.underlying == [] && buffer.count == 0 && buffer.sizes == []
      ensures fed == old(fed)
    {
      var batch := buffer.Drain();
      queue := queue + [Value(build(batch))];
    }

    /** `flush`: emits the pending batch when the buffer is not empty, then one `Stop`.
        The queue is then the whole output of the accumulator. */
    method Flush()
      requires Valid()
      modifies this, buffer
      ensures queue == Output(fed, buffer.limit, build) && fed == old(fed)
    {
      ghost var st := FeedAll(fed, buffer.limit);
      ghost var cut := ElementsEach(st.emitted);
      var empty := buffer.IsEmpty();
      if !empty {
        EmitAction();
        WrapBuildSnoc(cut, Elements(st.pending), build);
        assert queue == Wrap(BuildEach(Drained(fed, buffer.limit), build));
      } else {
        assert st.pending == [];
        assert cut == Drained(fed, buffer.limit);
      }
      queue := queue + [Stop];
    }
  }

  /** The weighted inputs of each accumulator. */
  function ChangeItems(ds: seq<CommitDetails>): (r: seq<(CommitDetails, int)>)
    ensures |r| == |ds|
    ensures forall i | 0 <= i < |ds| :: r[i] == (ds[i], |ds[i].fileChanges|)
  {
    if ds == [] then [] else ChangeItems(ds[..|ds| - 1]) + [(ds[|ds| - 1], |ds[|ds| - 1].fileChanges|)]
  }

  function RenamingItems(ds: seq<CommitDetails>): (r: seq<(CommitDetails, int)>)
    ensures |r| == |ds|
    ensures forall i | 0 <= i < |ds| :: r[i] == (ds[i], |ds[i].fileRenamings|)
  {
    if ds == [] then [] else RenamingItems(ds[..|ds| - 1]) + [(ds[|ds| - 1], |ds[|ds| - 1].fileRenamings|)]
  }

  function CommitItems(ds: seq<CommitDetails>): (r: seq<(CommitInfo, int)>)
    ensures |r| == |ds|
    ensures forall i | 0 <= i < |ds| :: r[i] == (ds[i].commit, 1)
  {
    if ds == [] then [] else CommitItems(ds[..|ds| - 1]) + [(ds[|ds| - 1].commit, 1)]
  }

  lemma ItemsSnoc(ds: seq<CommitDetails>, d: CommitDetails)
    ensures ChangeItems(ds + [d]) == ChangeItems(ds) + [(d, |d.fileChanges|)]
    ensures RenamingItems(ds + [d]) == RenamingItems(ds) + [(d, |d.fileRenamings|)]
    ensures CommitItems(ds + [d]) == CommitItems(ds) + [(d.commit, 1)]
  {
    assert (ds + [d])[..|ds|] == ds;
  }

  /** The body of the `run` loop for one `Value`: the details go to every accumulator. */
  method AddToAll(details: CommitDetails,
                  change: Accumulator<CommitDetails, WriteChangesAction>,
                  renaming: Accumulator<CommitDetails, WriteRenamingAction>,
                  commit: Accumulator<CommitInfo, WriteCommits>)
    requires change.Valid() && renaming.Valid() && commit.Valid()
    requires change.buffer != renaming.buffer
    requires change.buffer as object != commit.buffer
    requires renaming.buffer as object != commit.buffer
    requires change as object != renaming
    requires change as object != commit
    requires renaming as object != commit
    modifies change, change.buffer, renaming, renaming.buffer, commit, commit.buffer
    ensures change.Valid() && renaming.Valid() && commit.Valid()
    ensures change.fed == old(change.fed) + [(details, |details.fileChanges|)]
    ensures renaming.fed == old(renaming.fed) + [(details, |details.fileRenamings|)]
    ensures commit.fed == old(commit.fed) + [(details.commit, 1)]
  {
    change.Add(details, |details.fileChanges|);
    renaming.Add(details, |details.fileRenamings|);
    commit.Add(details.commit, 1);
  }

  /** The `Stop` branch of `run`: flushes the accumulators in the order changes,
      renamings, commits, and hands back their queues. */
  method FlushAll(change: Accumulator<CommitDetails, WriteChangesAction>,
                  renaming: Accumulator<CommitDetails, WriteRenamingAction>,
                  commit: Accumulator<CommitInfo, WriteCommits>)
    returns (changes: seq<Action<WriteChangesAction>>,
             renamings: seq<Action<WriteRenamingAction>>,
             commits: seq<Action<WriteCommits>>)
    requires change.Valid() && renaming.Valid() && commit.Valid()
    requires change.buffer != renaming.buffer
    requires change.buffer as object != commit.buffer
    requires renaming.buffer as object != commit.buffer
    requires change as object != renaming
    requires change as object != commit
    requires renaming as object != commit
    modifies change, change.buffer, renaming, renaming.buffer, commit, commit.buffer
    ensures changes == Output(old(change.fed), change.buffer.limit, change.build)
    ensures renamings == Output(old(renaming.fed), renaming.buffer.limit, renaming.build)
    ensures commits == Output(old(commit.fed), commit.buffer.limit, commit.build)
  {
    change.Flush();
    changes := change.queue;
    renaming.Flush();
    renamings := renaming.queue;
    commit.Flush();
    commits := commit.queue;
  }

  /** `run`: takes details up to the first `Stop`, feeding each to the three
      accumulators, then flushes them in the order changes, renamings, commits. The
      three queues are then the outputs of the accumulators over the values taken. */
  method Run(input: seq<Action<CommitDetails>>)
    returns (changes: seq<Action<WriteChangesAction>>,
             renamings: seq<Action<WriteRenamingAction>>,
             commits: seq<Action<WriteCommits>>,
             taken: nat)
    requires HasStop(input)
    ensures taken == StopIndex(input) + 1
    ensures var ds := Values(input[..StopIndex(input)]);
      && changes == Output(ChangeItems(ds), CHANGE_LIMIT, MakeChanges)
      && renamings == Output(RenamingItems(ds), RENAMING_LIMIT, MakeRenamings)
      && commits == Output(CommitItems(ds), COMMIT_LIMIT, MakeCommits)
  {
    var changeAccumulator := new Accumulator.Create(CHANGE_LIMIT, MakeChanges);
    var renamingAccumulator := new Accumulator.Create(RENAMING_LIMIT, MakeRenamings);
    var commitAccumulator := new Accumulator.Create(COMMIT_LIMIT, MakeCommits);
    var i := 0;
    assert input[..0] == [];
    assert ChangeItems(Values(input[..0])) == [];
    assert RenamingItems(Values(input[..0])) == [];
    assert CommitItems(Values(input[..0])) == [];
    while input[i].Value?
      invariant 0 <= i <= StopIndex(input)
      invariant changeAccumulator.Valid() && renamingAccumulator.Valid() && commitAccumulator.Valid()
      invariant changeAccumulator.buffer.limit == CHANGE_LIMIT && changeAccumulator.build == MakeChanges
      invariant renamingAccumulator.buffer.limit == RENAMING_LIMIT && renamingAccumulator.build == MakeRenamings
      invariant commitAccumulator.buffer.limit == COMMIT_LIMIT && commitAccumulator.build == MakeCommits
      invariant changeAccumulator.fed == ChangeItems(Values(input[..i]))
      invariant renamingAccumulator.fed == RenamingItems(Values(input[..i]))
      invariant commitAccumulator.fed == CommitItems(Values(input[..i]))
      invariant fresh(changeAccumulator) && fresh(changeAccumulator.buffer)
      invariant fresh(renamingAccumulator) && fresh(renamingAccumulator.buffer)
      invariant fresh(commitAccumulator) && fresh(commitAccumulator.buffer)
      invariant changeAccumulator.buffer != renamingAccumulator.buffer
      invariant changeAccumulator.buffer as object != commitAccumulator.buffer
      invariant renamingAccumulator.buffer as object != commitAccumulator.buffer
      invariant changeAccumulator as object != renamingAccumulator
      invariant changeAccumulator as object != commitAccumulator
      invariant renamingAccumulator as object != commitAccumulator
      decreases StopIndex(input) - i
    {
      assert i < StopIndex(input);
      var details := input[i].value;
      ValuesSnoc(input, i);
      assert Values(input[..i + 1]) == Values(input[..i]) + [details];
      ItemsSnoc(Values(input[..i]), details);
      AddToAll(details, changeAccumulator, renamingAccumulator, commitAccumulator);
      assert changeAccumulator.fed == ChangeItems(Values(input[..i + 1]));
      assert renamingAccumulator.fed == RenamingItems(Values(input[..i + 1]));
      assert commitAccumulator.fed == CommitItems(Values(input[..i + 1]));
      i := i + 1;
    }
    assert i == StopIndex(input);
    changes, renamings, commits := FlushAll(changeAccumulator, renamingAccumulator, commitAccumulator);
    taken := i + 1;
  }

  /** The commit of each details, in order. */
  function Infos(ds: seq<CommitDetails>): (r: seq<CommitInfo>)
    ensures |r| == |ds|
    ensures forall i | 0 <= i < |ds| :: r[i] == ds[i].commit
  {
    if ds == [] then [] else Infos(ds[..|ds| - 1]) + [ds[|ds| - 1].commit]
  }

  /** No loss, no duplication, order kept, exactly one `Stop` at the end: the values on
      the change queue are the drained batches, and these concatenate to the details
      taken, commits without any file change included. */
  lemma ChangeQueueKeepsEveryCommit(ds: seq<CommitDetails>)
    ensures var out := Output(ChangeItems(ds), CHANGE_LIMIT, MakeChanges);
      StopCount(out) == 1 && out[|out| - 1] == Stop
      && Values(out) == BuildEach(Drained(ChangeItems(ds), CHANGE_LIMIT), MakeChanges)
      && Flatten(Drained(ChangeItems(ds), CHANGE_LIMIT)) == ds
  {
    OutputShape(ChangeItems(ds), CHANGE_LIMIT, MakeChanges);
    DrainedKeepsElements(ChangeItems(ds), CHANGE_LIMIT);
    assert Elements(ChangeItems(ds)) == ds;
  }

  /** The same for the renaming queue, commits without any renaming included. */
  lemma RenamingQueueKeepsEveryCommit(ds: seq<CommitDetails>)
    ensures var out := Output(RenamingItems(ds), RENAMING_LIMIT, MakeRenamings);
      StopCount(out) == 1 && out[|out| - 1] == Stop
      && Values(out) == BuildEach(Drained(RenamingItems(ds), RENAMING_LIMIT), MakeRenamings)
      && Flatten(Drained(RenamingItems(ds), RENAMING_LIMIT)) == ds
  {
    OutputShape(RenamingItems(ds), RENAMING_LIMIT, MakeRenamings);
    DrainedKeepsElements(RenamingItems(ds), RENAMING_LIMIT);
    assert Elements(RenamingItems(ds)) == ds;
  }

  /** The same for the commit queue, whose batches concatenate to the commit of every
      details taken. */
  lemma CommitQueueKeepsEveryCommit(ds: seq<CommitDetails>)
    ensures var out := Output(CommitItems(ds), COMMIT_LIMIT, MakeCommits);
      StopCount(out) == 1 && out[|out| - 1] == Stop
      && Values(out) == BuildEach(Drained(CommitItems(ds), COMMIT_LIMIT), MakeCommits)
      && Flatten(Drained(CommitItems(ds), COMMIT_LIMIT)) == Infos(ds)
  {
    OutputShape(CommitItems(ds), COMMIT_LIMIT, MakeCommits);
    DrainedKeepsElements(CommitItems(ds), COMMIT_LIMIT);
    assert Elements(CommitItems(ds)) == Infos(ds);
  }

  /** Before `Stop`, a change batch is cut as soon as it holds at least 2000 file
      changes and a renaming batch as soon as it holds at least 1000 renamings; what
      stays pending is below the limit. */
  lemma CutBatchesReachTheirLimit(ds: seq<CommitDetails>)
    ensures forall i | 0 <= i < |FeedAll(ChangeItems(ds), CHANGE_LIMIT).emitted| ::
      CutAtLimit(FeedAll(ChangeItems(ds), CHANGE_LIMIT).emitted[i], CHANGE_LIMIT)
    ensures PendingBelow(FeedAll(ChangeItems(ds), CHANGE_LIMIT), CHANGE_LIMIT)
    ensures forall i | 0 <= i < |FeedAll(RenamingItems(ds), RENAMING_LIMIT).emitted| ::
      CutAtLimit(FeedAll(RenamingItems(ds), RENAMING_LIMIT).emitted[i], RENAMING_LIMIT)
    ensures PendingBelow(FeedAll(RenamingItems(ds), RENAMING_LIMIT), RENAMING_LIMIT)
  {
    FeedAllCuts(ChangeItems(ds), CHANGE_LIMIT);
    FeedAllCuts(RenamingItems(ds), RENAMING_LIMIT);
  }

  /** Every commit batch holds between 1 and 1000 commits, and every batch but the last
      (the one `flush` emits) holds exactly 1000. */
  lemma CommitBatchesHoldAThousand(ds: seq<CommitDetails>)
    ensures var d := Drained(CommitItems(ds), COMMIT_LIMIT);
      (forall i | 0 <= i < |d| :: 1 <= |d[i]| <= 1000)
      && (forall i | 0 <= i < |d| - 1 :: |d[i]| == 1000)
  {
    UnitBatches(CommitItems(ds), COMMIT_LIMIT);
  }
}
