/** `BranchCommitReader` of the first version (package `internal`): walks the first
    `historySize` commits of a branch in windows of 100, asks `git cherry` for the
    commits of each window and adds each line it prints, trimmed of its `+` marker, to
    the output queue. `cherry(args)` is the text the command `args` prints. */
module InternalBranchCommitReader {
  import opened Outcomes
  import opened JavaText
  import opened Sequences

  // ---------------------------------------------------------------------------
  // `commit(index)`
  // ---------------------------------------------------------------------------

  /** `commit(index)`: `MessageFormat.format("{0}~{1}", branch, index)`. The index is a
      number argument, which `MessageFormat` renders with the grouping separator of the
      default locale: `,` in an English one. */
  function Commit(branch: string, index: nat): (r: string)
    ensures StartsWith(r, branch + "~") && |r| > |branch| + 1
    ensures index < 1000 ==> r == branch + "~" + Decimal(index)
  {
    branch + "~" + GroupedDecimal(index)
  }

  /** From the thousandth ancestor on, the revision names a comma after the `~`, which is
      no ancestor count: `main~1,000` instead of `main~1000`. */
  lemma CommitGroupedFromThousand(branch: string, index: nat)
    requires index >= 1000
    ensures exists k | |branch| + 1 <= k < |Commit(branch, index)| :: Commit(branch, index)[k] == ','
    ensures !AllDigits(Commit(branch, index)[|branch| + 1..])
  {
    var r := Commit(branch, index);
    var k := |branch| + 1 + |GroupedDecimal(index / 1000)|;
    assert r[k] == ',';
    assert r[|branch| + 1..][k - |branch| - 1] == ',';
  }

  /** `commit(index)` with the index written as plain digits, as `git` reads an ancestor
      count. */
  function CommitFixed(branch: string, index: nat): (r: string)
    ensures StartsWith(r, branch + "~") && |r| > |branch| + 1
    ensures AllDigits(r[|branch| + 1..]) && DigitsValue(r[|branch| + 1..]) == index
  {
    DecimalValue(index);
    assert (branch + "~" + Decimal(index))[|branch| + 1..] == Decimal(index);
    branch + "~" + Decimal(index)
  }

  /** The two agree below a thousand: the defect shows only on long histories. */
  lemma CommitAgreesBelowThousand(branch: string, index: nat)
    requires index < 1000
    ensures Commit(branch, index) == CommitFixed(branch, index)
  {
  }

  // ---------------------------------------------------------------------------
  // `trimCommitLine`: `line.replaceFirst("\\s*\\+\\s*", "")`
  // ---------------------------------------------------------------------------

  /** The pattern covers `[i, e)` with its `+` at `p`: whitespace, the `+`, whitespace. */
  predicate PlusMatch(s: string, i: int, p: int, e: int) {
    0 <= i <= p < e <= |s| && s[p] == '+'
    && (forall k | i <= k < p :: IsRegexSpace(s[k]))
    && (forall k | p < k < e :: IsRegexSpace(s[k]))
  }

  /** The start of the run of whitespace that ends at `j`. */
  function SpaceRunStart(s: string, j: nat): (i: nat)
    requires j <= |s|
    ensures i <= j && (forall k | i <= k < j :: IsRegexSpace(s[k]))
    ensures i == 0 || !IsRegexSpace(s[i - 1])
  {
    if j > 0 && IsRegexSpace(s[j - 1]) then SpaceRunStart(s, j - 1) else j
  }

  /** The end of the run of whitespace that starts at `j`. */
  function SpaceRunEnd(s: string, j: nat): (e: nat)
    requires j <= |s|
    ensures j <= e <= |s| && (forall k | j <= k < e :: IsRegexSpace(s[k]))
    ensures e == |s| || !IsRegexSpace(s[e])
    decreases |s| - j
  {
    if j < |s| && IsRegexSpace(s[j]) then SpaceRunEnd(s, j + 1) else j
  }

  /** `trimCommitLine`: the first match of the pattern removed. The leftmost match has
      its `+` at the first `+` of the line and starts at the whitespace before it; its
      trailing whitespace is as long as possible. A line without `+` is unchanged. */
  function TrimCommitLine(line: string): string {
    var p := IndexOf(line, "+");
    if p < 0 then line
    else
      var i := SpaceRunStart(line, p);
      var e := SpaceRunEnd(line, p + 1);
      line[..i] + line[e..]
  }

  /** `+` occurs at `p` exactly when the character there is `+`. */
  lemma PlusOccursAt(s: string, p: int)
    requires 0 <= p < |s|
    ensures OccursAt(s, "+", p) <==> s[p] == '+'
  {
    assert p + 1 <= |s| ==> s[p..p + 1] == [s[p]];
  }

  /** `trimCommitLine` removes the match `replaceFirst` finds: no match starts before it,
      and its trailing whitespace cannot be extended. Without a `+` nothing matches and
      the line is unchanged. */
  lemma TrimIsFirstMatch(line: string)
    ensures IndexOf(line, "+") < 0 ==>
      TrimCommitLine(line) == line && forall i, p, e :: !PlusMatch(line, i, p, e)
    ensures IndexOf(line, "+") >= 0 ==>
      var p := IndexOf(line, "+");
      var i := SpaceRunStart(line, p);
      var e := SpaceRunEnd(line, p + 1);
      && PlusMatch(line, i, p, e) && (e == |line| || !IsRegexSpace(line[e]))
      && TrimCommitLine(line) == line[..i] + line[e..]
      && forall i', p', e' | PlusMatch(line, i', p', e') :: i <= i'
  {
    var p := IndexOf(line, "+");
    forall i', p', e' | PlusMatch(line, i', p', e')
      ensures p >= 0 && p <= p'
    {
      PlusOccursAt(line, p');
    }
    if p >= 0 {
      PlusOccursAt(line, p);
      var i := SpaceRunStart(line, p);
      forall i', p', e' | PlusMatch(line, i', p', e') ensures i <= i' {
      }
    }
  }

  /** `git cherry` marks a commit missing upstream with `+ `: the line becomes the bare
      hash. */
  lemma CherryAddedLine(sha: string)
    requires sha != "" && !IsRegexSpace(sha[0])
    ensures TrimCommitLine("+ " + sha) == sha
  {
    var line := "+ " + sha;
    PlusOccursAt(line, 0);
    assert IndexOf(line, "+") == 0;
    assert SpaceRunEnd(line, 2) == 2;
    assert SpaceRunEnd(line, 1) == 2;
    assert line[2..] == sha;
  }

  /** A commit whose change is already upstream is marked `- `: without a `+` the line
      is kept whole, marker included. */
  lemma CherryKeptLine(sha: string)
    requires forall k | 0 <= k < |sha| :: sha[k] != '+'
    ensures TrimCommitLine("- " + sha) == "- " + sha
  {
    var line := "- " + sha;
    forall k | 0 <= k < |line| ensures !OccursAt(line, "+", k) {
      PlusOccursAt(line, k);
      if k >= 2 { assert line[k] == sha[k - 2]; }
    }
    ContainsIff(line, "+");
  }

  // ---------------------------------------------------------------------------
  // Windows
  // ---------------------------------------------------------------------------

  /** The window starts `IntStream.iterate(from, i -> i < historySize, i -> i + 100)`
      gives. */
  function WindowStarts(from: int, historySize: int): seq<int>
    decreases historySize - from
  {
    if from < historySize then [from] + WindowStarts(from + 100, historySize) else []
  }

  /** `end = Math.min(start + increment, historySize)`. */
  function WindowEnd(start: int, historySize: int): int {
    if start + 100 < historySize then start + 100 else historySize
  }

  /** The windows tile `[from, historySize)`: the k-th starts `100 * k` after `from`,
      each ends where the next starts, each holds between 1 and 100 commits, the last
      ends at `historySize`, and there are `ceil((historySize - from) / 100)` of them. */
  lemma {:induction false} WindowsTile(from: int, historySize: int)
    ensures var w := WindowStarts(from, historySize);
      && (from >= historySize ==> w == [])
      && (from < historySize ==> |w| == (historySize - from + 99) / 100)
      && (forall k | 0 <= k < |w| :: w[k] == from + 100 * k)
      && (forall k | 0 <= k < |w| :: 1 <= WindowEnd(w[k], historySize) - w[k] <= 100)
      && (forall k | 0 <= k && k + 1 < |w| :: WindowEnd(w[k], historySize) == w[k + 1])
      && (|w| > 0 ==> WindowEnd(w[|w| - 1], historySize) == historySize)
    decreases historySize - from
  {
    if from < historySize {
      WindowsTile(from + 100, historySize);
      var w := WindowStarts(from, historySize);
      var rest := WindowStarts(from + 100, historySize);
      assert w == [from] + rest;
      forall k | 1 <= k < |w| ensures w[k] == from + 100 * k {
        assert w[k] == rest[k - 1];
      }
    }
  }

  /** The command of one window: `git cherry <branch>~end <branch>~start`. */
  function CherryCommand(branch: string, start: nat, end: nat): (r: seq<string>)
    ensures |r| == 4 && r[1] == "cherry"
    ensures r[2] == Commit(branch, end) && r[3] == Commit(branch, start)
  {
    ["git", "cherry", Commit(branch, end), Commit(branch, start)]
  }

  /** Each line trimmed, in order. */
  function TrimAll(lines: seq<string>): (r: seq<string>)
    ensures |r| == |lines| && forall k | 0 <= k < |lines| :: r[k] == TrimCommitLine(lines[k])
  {
    seq(|lines|, k requires 0 <= k < |lines| => TrimCommitLine(lines[k]))
  }

  /** What `readCommits(start, 100)` adds: the lines `git cherry` prints for the window,
      each trimmed. */
  function WindowLines(cherry: seq<string> -> string, branch: string, historySize: int, start: nat): seq<string> {
    var end := WindowEnd(start, historySize);
    TrimAll(Lines(cherry(CherryCommand(branch, start, if end < 0 then 0 else end))))
  }

  /** What `run` adds from the window starting at `from` on, window after window. */
  function EmittedFrom(cherry: seq<string> -> string, branch: string, historySize: int, from: nat): seq<string>
    decreases historySize - from
  {
    if from < historySize
    then WindowLines(cherry, branch, historySize, from) + EmittedFrom(cherry, branch, historySize, from + 100)
    else []
  }

  /** No window, no command and nothing added, when the history size is not positive. */
  lemma NothingForEmptyHistory(cherry: seq<string> -> string, branch: string, historySize: int)
    requires historySize <= 0
    ensures EmittedFrom(cherry, branch, historySize, 0) == [] && WindowStarts(0, historySize) == []
  {
  }

  /** A window of `git cherry` lines `+ <hash>` gives the hashes, in order. */
  lemma {:induction false} CherryWindow(shas: seq<string>)
    requires forall k | 0 <= k < |shas| :: shas[k] != "" && !IsRegexSpace(shas[k][0])
    ensures TrimAll(seq(|shas|, k requires 0 <= k < |shas| => "+ " + shas[k])) == shas
  {
    var lines := seq(|shas|, k requires 0 <= k < |shas| => "+ " + shas[k]);
    forall k | 0 <= k < |shas| ensures TrimAll(lines)[k] == shas[k] {
      CherryAddedLine(shas[k]);
    }
  }

  // ---------------------------------------------------------------------------
  // The output queue and `run`
  // ---------------------------------------------------------------------------

  /** The `BlockingQueue<String>` the reader adds to, with its capacity. */
  class CommitQueue {
    var items: seq<string>
    const capacity: nat

    ghost predicate Valid()
      reads this
    {
      |items| <= capacity
    }

    constructor (capacity: nat)
      ensures Valid() && items == [] && this.capacity == capacity
    {
      items := [];
      this.capacity := capacity;
    }

    /** `add`: appends the element, or throws `IllegalStateException("Queue full")`
        when the queue is at capacity. */
    method Add(x: string) returns (failure: Option<Failure>)
      requires Valid()
      modifies this
      ensures Valid()
      ensures |old(items)| < capacity ==> failure.None? && items == old(items) + [x]
      ensures |old(items)| >= capacity ==> failure == Some(IllegalState("Queue full")) && items == old(items)
    {
      if |items| < capacity {
        items := items + [x];
        failure := None;
      } else {
        failure := Some(IllegalState("Queue full"));
      }
    }
  }

  /** The first `n` elements of a concatenation whose first part is at least `n` long. */
  lemma PrefixOfLonger(a: seq<string>, b: seq<string>, n: nat)
    requires n <= |a|
    ensures (a + b)[..n] == a[..n]
  {
  }

  /** `readCommits(start, 100)`: each line of the window, trimmed, added in order; the
      first `add` that throws ends the window, the lines added before it staying. */
  method ReadCommits(cherry: seq<string> -> string, branch: string, historySize: int, start: nat, queue: CommitQueue)
    returns (failure: Option<Failure>)
    requires queue.Valid()
    modifies queue
    ensures queue.Valid()
    ensures var all := old(queue.items) + WindowLines(cherry, branch, historySize, start);
      && (failure.None? <==> |all| <= queue.capacity)
      && (failure.None? ==> queue.items == all)
      && (failure.Some? ==> failure == Some(IllegalState("Queue full")) && queue.items == all[..queue.capacity])
  {
    var end := if start + 100 < historySize then start + 100 else historySize;
    var lines := Lines(cherry(CherryCommand(branch, start, if end < 0 then 0 else end)));
    ghost var base := queue.items;
    ghost var trimmed := TrimAll(lines);
    assert trimmed == WindowLines(cherry, branch, historySize, start);
    var j := 0;
    failure := None;
    while j < |lines|
      invariant 0 <= j <= |lines| && queue.Valid()
      invariant queue.items == base + trimmed[..j]
      invariant failure.None?
    {
      var line := TrimCommitLine(lines[j]);
      failure := queue.Add(line);
      if failure.Some? {
        PrefixOfSum(base, trimmed, j);
        return;
      }
      PrefixSnoc(base, trimmed, j);
      j := j + 1;
    }
    assert trimmed[..j] == trimmed;
  }

  /** The first `|base| + j` elements of `base + t` are `base` and the first `j` of `t`. */
  lemma PrefixOfSum(base: seq<string>, t: seq<string>, j: nat)
    requires j <= |t|
    ensures (base + t)[..|base| + j] == base + t[..j]
  {
  }

  /** One more element of a prefix. */
  lemma PrefixSnoc(base: seq<string>, t: seq<string>, j: nat)
    requires j < |t|
    ensures base + t[..j + 1] == base + t[..j] + [t[j]]
  {
    assert t[..j + 1] == t[..j] + [t[j]];
  }

  /** `run`: the windows in order, each read by `readCommits`; a throwing `add` ends the
      run with the lines added so far. */
  method Run(cherry: seq<string> -> string, branch: string, historySize: int, queue: CommitQueue)
    returns (failure: Option<Failure>)
    requires queue.Valid()
    modifies queue
    ensures queue.Valid()
    ensures var all := old(queue.items) + EmittedFrom(cherry, branch, historySize, 0);
      && (failure.None? <==> |all| <= queue.capacity)
      && (failure.None? ==> queue.items == all)
      && (failure.Some? ==> failure == Some(IllegalState("Queue full")) && queue.items == all[..queue.capacity])
  {
    ghost var all := old(queue.items) + EmittedFrom(cherry, branch, historySize, 0);
    var start: nat := 0;
    failure := None;
    while start < historySize
      invariant queue.Valid()
      invariant queue.items + EmittedFrom(cherry, branch, historySize, start) == all
      invariant failure.None?
      decreases historySize - start
    {
      ghost var before := queue.items;
      ghost var window := WindowLines(cherry, branch, historySize, start);
      ghost var rest := EmittedFrom(cherry, branch, historySize, start + 100);
      assert EmittedFrom(cherry, branch, historySize, start) == window + rest;
      failure := ReadCommits(cherry, branch, historySize, start, queue);
      if failure.Some? {
        WindowFailed(before, window, rest, queue.capacity);
        return;
      }
      AppendAssoc(before, window, rest);
      start := start + 100;
    }
    assert queue.items == all;
  }

  /** A window that overflows the queue overflows the whole run by the same prefix. */
  lemma WindowFailed(before: seq<string>, window: seq<string>, rest: seq<string>, capacity: nat)
    requires |before + window| > capacity
    ensures |before + (window + rest)| > capacity
    ensures (before + (window + rest))[..capacity] == (before + window)[..capacity]
  {
    assert before + (window + rest) == (before + window) + rest;
    PrefixOfLonger(before + window, rest, capacity);
  }
}
