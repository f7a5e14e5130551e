/** `BranchCommitReader` (explorer): pages backwards through the history of a branch,
    100 commits at a time, and puts the commit ids on a queue, then one `Stop`. `git` is
    an oracle: `stdout(command)` is the lines the command prints. */
module BranchCommitReader {
  import opened Outcomes
  import opened JavaText
  import opened Actions

  /** The id after which the history is not read further. */
  const LAST_COMMIT: string := "not-a-sha1"

  // ---------------------------------------------------------------------------
  // The ignore file
  // ---------------------------------------------------------------------------

  /** A line of `.git-blame-ignore-revs` that names a commit: not blank and not a `#`
      comment. The line is not trimmed. */
  predicate Listed(line: string) {
    !IsBlank(line) && !StartsWith(line, "#")
  }

  /** `readCommitsToIgnore`: the listed lines of the ignore file, or nothing when the file
      does not exist (`None`). */
  function CommitsToIgnore(file: Option<seq<string>>): (r: set<string>)
    ensures file.None? ==> r == {}
    ensures file.Some? ==> forall line | line in file.value :: line in r <==> Listed(line)
    ensures forall id | id in r :: file.Some? && id in file.value && Listed(id)
  {
    if file.None? then {} else set line | line in file.value && Listed(line)
  }

  /** Entries are compared as written: an entry with a trailing space does not match the
      id it names, and a commented-out id is not ignored. */
  lemma EntriesAreNotTrimmed()
    ensures var ignore := CommitsToIgnore(Some(["# old format", "abc ", ""]));
      "abc " in ignore && "abc" !in ignore && |ignore| == 1
  {
    var file := ["# old format", "abc ", ""];
    var ignore := CommitsToIgnore(Some(file));
    assert StartsWith(file[0], "#");
    assert !IsWhitespace(file[1][0]);
    assert Listed(file[1]);
    assert ignore == {"abc "} by {
      forall id | id in ignore ensures id == "abc " {
        assert id in file;
      }
    }
  }

  // ---------------------------------------------------------------------------
  // One window
  // ---------------------------------------------------------------------------

  /** The command `readCommits` runs for a window starting at `start`: at most 100 commits
      (the increment of `run`), from `start` backwards. */
  function RevListCommand(start: string): (r: seq<string>)
    ensures |r| == 5 && r[1] == "rev-list" && r[2] == start && r[4] == "100"
  {
    ["git", "rev-list", start, "-n", "100"]
  }

  /** The lines not in the ignore set, in order. */
  function Unignored(lines: seq<string>, ignore: set<string>): (r: seq<string>)
    ensures |r| <= |lines|
    ensures forall id :: id in r <==> id in lines && id !in ignore
  {
    if lines == [] then []
    else
      var init := Unignored(lines[..|lines| - 1], ignore);
      var last := lines[|lines| - 1];
      assert lines == lines[..|lines| - 1] + [last];
      if last in ignore then init else init + [last]
  }

  /** Filtering keeps the order: filtering a concatenation concatenates the filtered parts. */
  lemma {:induction false} UnignoredAppend(a: seq<string>, b: seq<string>, ignore: set<string>)
    ensures Unignored(a + b, ignore) == Unignored(a, ignore) + Unignored(b, ignore)
    decreases |b|
  {
    if b == [] {
      assert a + b == a;
    } else {
      var b' := b[..|b| - 1];
      UnignoredAppend(a, b', ignore);
      assert (a + b)[..|a + b| - 1] == a + b';
    }
  }

  /** `readCommits`: the lines of `git rev-list <start> -n 100` minus the ignored ids.
      `commits.getLast()` throws when nothing is left. */
  function ReadCommits(stdout: seq<string> -> seq<string>, start: string, ignore: set<string>): (r: Result<seq<string>>)
    ensures r.Err? <==> Unignored(stdout(RevListCommand(start)), ignore) == []
    ensures r.Err? ==> r.failure == NoSuchElement
    ensures r.Ok? ==> r.value == Unignored(stdout(RevListCommand(start)), ignore)
  {
    var commits := Unignored(stdout(RevListCommand(start)), ignore);
    if commits == [] then Err(NoSuchElement) else Ok(commits)
  }

  /** `takeWhile(commit -> !commit.equals(lastCommit))`: the longest prefix without the
      sentinel. */
  function Before(commits: seq<string>, sentinel: string): (r: seq<string>)
    ensures r <= commits
    ensures sentinel !in r
    ensures |r| < |commits| ==> commits[|r|] == sentinel
  {
    if commits == [] || commits[0] == sentinel then []
    else [commits[0]] + Before(commits[1..], sentinel)
  }

  /** Without the sentinel, nothing is cut. */
  lemma BeforeAll(commits: seq<string>, sentinel: string)
    requires sentinel !in commits
    ensures Before(commits, sentinel) == commits
  {
  }

  // ---------------------------------------------------------------------------
  // The window loop
  // ---------------------------------------------------------------------------

  /** What the window loop produces from window `i` on: the ids it puts, how many
      windows it asks `git` for, and the exception that ends it, if any. */
  datatype Walked = Walked(ids: seq<string>, queries: nat, failure: Option<Failure>)

  /** The windows from `i` on, starting at commit `start`. A window that lost something
      to the cut ends the loop; otherwise the next one starts at its last id. */
  function Walk(stdout: seq<string> -> seq<string>, start: string, i: int, historySize: int,
                ignore: set<string>): (r: Walked)
    ensures i >= historySize ==> r == Walked([], 0, None)
    ensures i < historySize ==> r.queries >= 1 && 100 * (r.queries - 1) < historySize - i
    ensures forall id | id in r.ids :: id != LAST_COMMIT && id !in ignore
    decreases historySize - i
  {
    if i >= historySize then Walked([], 0, None)
    else
      match ReadCommits(stdout, start, ignore)
      case Err(e) => Walked([], 1, Some(e))
      case Ok(commits) =>
        var kept := Before(commits, LAST_COMMIT);
        if |kept| < |commits| then Walked(kept, 1, None)
        else
          var rest := Walk(stdout, kept[|kept| - 1], i + 100, historySize, ignore);
          Walked(kept + rest.ids, rest.queries + 1, rest.failure)
  }

  /** After the windows before window `i`, the ids put so far are `emitted`, and what is
      left to do is the walk from window `i`, starting at `start`. */
  predicate Resumes(stdout: seq<string> -> seq<string>, resolvedCommit: string, historySize: int,
                    ignore: set<string>, emitted: seq<string>, start: string, i: int)
  {
    var total := Walk(stdout, resolvedCommit, 0, historySize, ignore);
    var w := Walk(stdout, start, i, historySize, ignore);
    total.ids == emitted + w.ids && total.failure == w.failure
  }

  /** The window at `i` throws: the walk ends there, with nothing more put. */
  lemma FailedWindow(stdout: seq<string> -> seq<string>, resolvedCommit: string, historySize: int,
                     ignore: set<string>, emitted: seq<string>, start: string, i: int)
    requires i < historySize && Resumes(stdout, resolvedCommit, historySize, ignore, emitted, start, i)
    requires ReadCommits(stdout, start, ignore).Err?
    ensures var total := Walk(stdout, resolvedCommit, 0, historySize, ignore);
      total.ids == emitted && total.failure == Some(ReadCommits(stdout, start, ignore).failure)
  {
    assert emitted + [] == emitted;
  }

  /** The window at `i` reaches the sentinel: the walk ends with what it kept. */
  lemma LastWindow(stdout: seq<string> -> seq<string>, resolvedCommit: string, historySize: int,
                   ignore: set<string>, emitted: seq<string>, start: string, i: int)
    requires i < historySize && Resumes(stdout, resolvedCommit, historySize, ignore, emitted, start, i)
    requires ReadCommits(stdout, start, ignore).Ok?
    requires var commits := ReadCommits(stdout, start, ignore).value;
      |Before(commits, LAST_COMMIT)| < |commits|
    ensures var total := Walk(stdout, resolvedCommit, 0, historySize, ignore);
      total.ids == emitted + Before(ReadCommits(stdout, start, ignore).value, LAST_COMMIT)
      && total.failure == None
  {
  }

  /** The window at `i` is kept whole: the walk goes on from its last id at `i + 100`. */
  lemma NextWindow(stdout: seq<string> -> seq<string>, resolvedCommit: string, historySize: int,
                   ignore: set<string>, emitted: seq<string>, start: string, i: int)
    requires i < historySize && Resumes(stdout, resolvedCommit, historySize, ignore, emitted, start, i)
    requires ReadCommits(stdout, start, ignore).Ok?
    requires var commits := ReadCommits(stdout, start, ignore).value;
      |Before(commits, LAST_COMMIT)| == |commits|
    ensures var kept := Before(ReadCommits(stdout, start, ignore).value, LAST_COMMIT);
      Resumes(stdout, resolvedCommit, historySize, ignore, emitted + kept, kept[|kept| - 1], i + 100)
  {
    var kept := Before(ReadCommits(stdout, start, ignore).value, LAST_COMMIT);
    var next := Walk(stdout, kept[|kept| - 1], i + 100, historySize, ignore);
    assert emitted + (kept + next.ids) == (emitted + kept) + next.ids;
  }

  /** Past the history size: the walk has put everything and ends normally. */
  lemma NoMoreWindows(stdout: seq<string> -> seq<string>, resolvedCommit: string, historySize: int,
                      ignore: set<string>, emitted: seq<string>, start: string, i: int)
    requires i >= historySize && Resumes(stdout, resolvedCommit, historySize, ignore, emitted, start, i)
    ensures var total := Walk(stdout, resolvedCommit, 0, historySize, ignore);
      total.ids == emitted && total.failure == None
  {
    assert emitted + [] == emitted;
  }

  /** `run`: the window loop, then one `Stop`. When `readCommits` throws, the ids already
      put stay on the queue and no `Stop` follows. */
  method Run(stdout: seq<string> -> seq<string>, resolvedCommit: string, historySize: int,
             ignore: set<string>)
    returns (output: seq<Action<string>>, failure: Option<Failure>)
    ensures var w := Walk(stdout, resolvedCommit, 0, historySize, ignore);
      failure == w.failure
      && (failure.Some? ==> output == Wrap(w.ids))
      && (failure.None? ==> output == Wrap(w.ids) + [Stop])
  {
    output := [];
    var startCommit := resolvedCommit;
    var i := 0;
    ghost var emitted: seq<string> := [];
    failure := None;
    while i < historySize
      invariant Resumes(stdout, resolvedCommit, historySize, ignore, emitted, startCommit, i)
      invariant output == Wrap(emitted)
      decreases historySize - i
    {
      var read := ReadCommits(stdout, startCommit, ignore);
      if read.Err? {
        FailedWindow(stdout, resolvedCommit, historySize, ignore, emitted, startCommit, i);
        failure := Some(read.failure);
        return;
      }
      var commits := read.value;
      var filtered := Before(commits, LAST_COMMIT);
      WrapAppend(emitted, filtered);
      output := output + Wrap(filtered);
      if |filtered| < |commits| {
        LastWindow(stdout, resolvedCommit, historySize, ignore, emitted, startCommit, i);
        output := output + [Stop];
        return;
      }
      NextWindow(stdout, resolvedCommit, historySize, ignore, emitted, startCommit, i);
      emitted := emitted + filtered;
      startCommit := filtered[|filtered| - 1];
      i := i + 100;
    }
    NoMoreWindows(stdout, resolvedCommit, historySize, ignore, emitted, startCommit, i);
    output := output + [Stop];
  }

  // ---------------------------------------------------------------------------
  // Properties of the walk
  // ---------------------------------------------------------------------------

  /** When `git rev-list -n 100` prints at most 100 lines, each query puts at most 100
      ids: at most `100 * ceil(historySize / 100)` in all, which can exceed
      `historySize`. */
  lemma {:induction false} WalkLength(stdout: seq<string> -> seq<string>, start: string, i: int,
                                      historySize: int, ignore: set<string>)
    requires forall s :: |stdout(RevListCommand(s))| <= 100
    ensures |Walk(stdout, start, i, historySize, ignore).ids| <= 100 * Walk(stdout, start, i, historySize, ignore).queries
    decreases historySize - i
  {
    if i < historySize {
      var read := ReadCommits(stdout, start, ignore);
      if read.Ok? {
        var kept := Before(read.value, LAST_COMMIT);
        if |kept| == |read.value| {
          WalkLength(stdout, kept[|kept| - 1], i + 100, historySize, ignore);
        }
      }
    }
  }

  /** A linear history `history`, newest first, as `git rev-list <id> -n 100` sees it:
      from any of its ids, that id and the at most 99 ids that follow it. */
  predicate LinearHistory(stdout: seq<string> -> seq<string>, history: seq<string>) {
    forall k {:trigger RevListCommand(history[k])} | 0 <= k < |history| ::
      stdout(RevListCommand(history[k])) == history[k..if k + 100 <= |history| then k + 100 else |history|]
  }

  /** A history none of whose ids is ignored or is the sentinel. */
  predicate Plain(history: seq<string>, ignore: set<string>) {
    forall k | 0 <= k < |history| :: history[k] !in ignore && history[k] != LAST_COMMIT
  }

  lemma {:induction false} UnignoredNone(lines: seq<string>, ignore: set<string>)
    requires forall id | id in lines :: id !in ignore
    ensures Unignored(lines, ignore) == lines
    decreases |lines|
  {
    if lines != [] {
      UnignoredNone(lines[..|lines| - 1], ignore);
      assert lines == lines[..|lines| - 1] + [lines[|lines| - 1]];
    }
  }

  /** The window read from id `k` of a plain linear history is that id and the ones
      after it, up to 100. */
  lemma WindowOf(stdout: seq<string> -> seq<string>, history: seq<string>, ignore: set<string>, k: int)
    requires LinearHistory(stdout, history) && Plain(history, ignore) && 0 <= k < |history|
    ensures var e := if k + 100 <= |history| then k + 100 else |history|;
      ReadCommits(stdout, history[k], ignore) == Ok(history[k..e])
      && Before(history[k..e], LAST_COMMIT) == history[k..e]
  {
    var e := if k + 100 <= |history| then k + 100 else |history|;
    UnignoredNone(history[k..e], ignore);
    BeforeAll(history[k..e], LAST_COMMIT);
  }

  /** As written, `git rev-list <start>` lists `start` itself, so the id that ends a full
      window starts the next one and is put twice: on a history of more than 100 commits,
      the 100th commit is put at positions 99 and 100. */
  lemma BoundaryRepeated(stdout: seq<string> -> seq<string>, history: seq<string>, historySize: int,
                         ignore: set<string>)
    requires LinearHistory(stdout, history) && Plain(history, ignore)
    requires |history| > 100 && historySize > 100
    ensures var w := Walk(stdout, history[0], 0, historySize, ignore);
      |w.ids| > 100 && w.ids[99] == history[99] && w.ids[100] == history[99]
  {
    WindowOf(stdout, history, ignore, 0);
    WindowOf(stdout, history, ignore, 99);
    var e := if 199 <= |history| then 199 else |history|;
    assert history[0..100][99] == history[99] && history[99..e][0] == history[99];
    TwoWholeWindows(stdout, history[0], historySize, ignore, history[0..100], history[99..e]);
  }

  /** Two whole windows in a row, the second read from the last id of the first: the
      first's last id is put at position 99, the second's first id at position 100. */
  lemma TwoWholeWindows(stdout: seq<string> -> seq<string>, start: string, historySize: int,
                        ignore: set<string>, first: seq<string>, second: seq<string>)
    requires historySize > 100 && |first| == 100 && second != []
    requires ReadCommits(stdout, start, ignore) == Ok(first) && Before(first, LAST_COMMIT) == first
    requires ReadCommits(stdout, first[99], ignore) == Ok(second) && Before(second, LAST_COMMIT) == second
    ensures var w := Walk(stdout, start, 0, historySize, ignore);
      |w.ids| > 100 && w.ids[99] == first[99] && w.ids[100] == second[0]
  {
    WholeWindow(stdout, start, 0, historySize, ignore, first);
    WholeWindow(stdout, first[99], 100, historySize, ignore, second);
    var rest := Walk(stdout, first[99], 100, historySize, ignore);
    PutAfter(first, rest.ids, second);
  }

  lemma PutAfter<T>(first: seq<T>, rest: seq<T>, second: seq<T>)
    requires |first| == 100 && second != [] && second <= rest
    ensures |first + rest| > 100 && (first + rest)[99] == first[99] && (first + rest)[100] == second[0]
  {
  }

  /** A window kept whole is put, and the walk goes on from its last id. */
  lemma WholeWindow(stdout: seq<string> -> seq<string>, start: string, i: int, historySize: int,
                    ignore: set<string>, commits: seq<string>)
    requires i < historySize && ReadCommits(stdout, start, ignore) == Ok(commits)
    requires Before(commits, LAST_COMMIT) == commits
    ensures Walk(stdout, start, i, historySize, ignore).ids
      == commits + Walk(stdout, commits[|commits| - 1], i + 100, historySize, ignore).ids
    ensures commits <= Walk(stdout, start, i, historySize, ignore).ids
  {
    var rest := Walk(stdout, commits[|commits| - 1], i + 100, historySize, ignore);
    assert (commits + rest.ids)[..|commits|] == commits;
  }

  /** As written, every window puts all the ids `git rev-list -n 100` lists, whatever
      `historySize` is: on a linear history of at least 100 commits, a history size of 1
      to 100 puts 100 ids. */
  lemma HundredIdsForAnySize(stdout: seq<string> -> seq<string>, history: seq<string>,
                             historySize: int, ignore: set<string>)
    requires LinearHistory(stdout, history) && Plain(history, ignore) && |history| >= 100
    requires 1 <= historySize <= 100
    ensures |Walk(stdout, history[0], 0, historySize, ignore).ids| == 100
  {
    WindowOf(stdout, history, ignore, 0);
  }

  /** How many ids the window at `i` may still put: at most the 100 it asks for, and no
      more than the history size leaves. */
  function Room(i: int, historySize: int): (n: int)
    ensures n <= 100 && n <= historySize - i
    ensures i < historySize ==> n >= 1
  {
    if historySize - i < 100 then historySize - i else 100
  }

  /** The walk `run` evidently means: every window after the first drops its first id,
      which the window before has already put; a window puts no more than its `Room`; and
      the walk ends when a window is cut short or brings nothing new. It puts at most
      `historySize` ids in all. */
  function WalkFresh(stdout: seq<string> -> seq<string>, start: string, i: int, historySize: int,
                     ignore: set<string>, later: bool): (r: Walked)
    ensures i >= historySize ==> r == Walked([], 0, None)
    ensures i < historySize ==> |r.ids| <= historySize - i
    ensures forall id | id in r.ids :: id != LAST_COMMIT && id !in ignore
    decreases historySize - i
  {
    if i >= historySize then Walked([], 0, None)
    else
      match ReadCommits(stdout, start, ignore)
      case Err(e) => Walked([], 1, Some(e))
      case Ok(commits) =>
        var unseen := if later then commits[1..] else commits;
        var kept := Before(unseen, LAST_COMMIT);
        var room := Room(i, historySize);
        var taken := if |kept| <= room then kept else kept[..room];
        if |taken| < |unseen| || taken == [] then Walked(taken, 1, None)
        else
          var rest := WalkFresh(stdout, taken[|taken| - 1], i + 100, historySize, ignore, true);
          Walked(taken + rest.ids, rest.queries + 1, rest.failure)
  }

  /** Corrected: on a linear history of at least 100 commits, a history size of 1 to 100
      puts exactly that many ids. */
  lemma FreshWalkOfSize(stdout: seq<string> -> seq<string>, history: seq<string>,
                        historySize: int, ignore: set<string>)
    requires LinearHistory(stdout, history) && Plain(history, ignore) && |history| >= 100
    requires 1 <= historySize <= 100
    ensures WalkFresh(stdout, history[0], 0, historySize, ignore, false).ids == history[..historySize]
  {
    var c := history[0..100];
    assert ReadCommits(stdout, history[0], ignore) == Ok(c) && Before(c, LAST_COMMIT) == c by {
      WindowOf(stdout, history, ignore, 0);
    }
    TakeOfSlice(history, 100, historySize);
    FirstWindowOfSize(stdout, history[0], historySize, ignore, c);
  }

  /** A first window of 100 ids kept whole, with a history size of at most 100: the
      corrected walk puts the first `historySize` of them. */
  lemma FirstWindowOfSize(stdout: seq<string> -> seq<string>, start: string, historySize: int,
                          ignore: set<string>, commits: seq<string>)
    requires 1 <= historySize <= 100 && |commits| == 100
    requires ReadCommits(stdout, start, ignore) == Ok(commits) && Before(commits, LAST_COMMIT) == commits
    ensures WalkFresh(stdout, start, 0, historySize, ignore, false).ids == commits[..historySize]
  {
    FreshStep(stdout, start, 0, historySize, ignore, false, commits, commits);
    if historySize == 100 {
      assert commits + [] == commits[..100];
    }
  }

  /** On a plain linear history, the corrected walk from id `k` puts a prefix of the
      history from `k` on (from `k + 1` after the first window), and never fails. */
  lemma {:induction false} WalkFreshIsPrefix(stdout: seq<string> -> seq<string>, history: seq<string>,
                                             k: int, i: int, historySize: int, ignore: set<string>,
                                             later: bool)
    requires LinearHistory(stdout, history) && Plain(history, ignore) && 0 <= k < |history|
    ensures var r := WalkFresh(stdout, history[k], i, historySize, ignore, later);
      r.failure == None && r.ids <= history[k + (if later then 1 else 0)..]
    decreases historySize - i
  {
    if i < historySize {
      var e := if k + 100 <= |history| then k + 100 else |history|;
      var off := if later then 1 else 0;
      var unseen := history[k + off..e];
      assert ReadCommits(stdout, history[k], ignore) == Ok(history[k..e])
        && Before(unseen, LAST_COMMIT) == unseen by {
        WindowOf(stdout, history, ignore, k);
        BeforeAll(unseen, LAST_COMMIT);
      }
      DropFirst(history, k, e, later);
      FreshStep(stdout, history[k], i, historySize, ignore, later, history[k..e], unseen);
      if unseen != [] && |unseen| > Room(i, historySize) {
        PrefixOfSlice(history, k + off, e, Room(i, historySize));
      } else if unseen != [] {
        SplitAt(history, k + off, e);
        WalkFreshIsPrefix(stdout, history, e - 1, i + 100, historySize, ignore, true);
        var rest := WalkFresh(stdout, history[e - 1], i + 100, historySize, ignore, true);
        PrefixOfAppend(unseen, rest.ids, history[e..]);
      }
    }
  }

  /** One window of the corrected walk that the sentinel leaves whole: nothing new ends
      the walk, more than its room is cut to the room and ends it; otherwise what is new
      is put and the walk goes on from its last id. */
  lemma FreshStep(stdout: seq<string> -> seq<string>, start: string, i: int, historySize: int,
                  ignore: set<string>, later: bool, commits: seq<string>, unseen: seq<string>)
    requires i < historySize && ReadCommits(stdout, start, ignore) == Ok(commits)
    requires unseen == if later then commits[1..] else commits
    requires Before(unseen, LAST_COMMIT) == unseen
    ensures var w := WalkFresh(stdout, start, i, historySize, ignore, later);
      if unseen == [] then w == Walked([], 1, None)
      else if |unseen| > Room(i, historySize) then w == Walked(unseen[..Room(i, historySize)], 1, None)
      else
        var rest := WalkFresh(stdout, unseen[|unseen| - 1], i + 100, historySize, ignore, true);
        w.ids == unseen + rest.ids && w.failure == rest.failure
  {
  }

  lemma SplitAt<T>(s: seq<T>, a: int, e: int)
    requires 0 <= a < e <= |s|
    ensures s[a..e][e - a - 1] == s[e - 1] && s[a..] == s[a..e] + s[e..]
  {
  }

  lemma DropFirst<T>(s: seq<T>, k: int, e: int, later: bool)
    requires 0 <= k < e <= |s|
    ensures (if later then s[k..e][1..] else s[k..e]) == s[k + (if later then 1 else 0)..e]
  {
  }

  lemma TakeOfSlice<T>(s: seq<T>, e: int, n: int)
    requires 0 <= n <= e <= |s|
    ensures s[0..e][..n] == s[..n]
  {
  }

  lemma PrefixOfSlice<T>(s: seq<T>, a: int, e: int, n: int)
    requires 0 <= a <= e <= |s| && 0 <= n <= e - a
    ensures s[a..e][..n] <= s[a..]
  {
    assert s[a..e][..n] == s[a..][..n];
  }

  lemma PrefixOfAppend<T>(a: seq<T>, b: seq<T>, c: seq<T>)
    requires b <= c
    ensures a + b <= a + c
  {
    assert (a + c)[..|a + b|] == a + b;
  }

  /** On a linear history without repeated ids, the corrected walk puts no id twice. */
  lemma WalkFreshDistinct(stdout: seq<string> -> seq<string>, history: seq<string>, historySize: int,
                          ignore: set<string>)
    requires LinearHistory(stdout, history) && Plain(history, ignore) && |history| > 0
    requires forall a, b | 0 <= a < b < |history| :: history[a] != history[b]
    ensures var r := WalkFresh(stdout, history[0], 0, historySize, ignore, false);
      r.failure == None && r.ids <= history
      && forall a, b | 0 <= a < b < |r.ids| :: r.ids[a] != r.ids[b]
  {
    WalkFreshIsPrefix(stdout, history, 0, 0, historySize, ignore, false);
    assert history[0..] == history;
  }
}
