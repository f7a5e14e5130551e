/** `IndentationReader`: walks the unified diff of a commit against the empty tree, file
    by file, and measures the indentation of every added line of every Java file in
    whole indent units. */
module IndentationReader {
  import opened Outcomes
  import opened JavaText
  import opened Records
  import opened Buffers

  /** `getCommand`. The hash of the empty tree is a parameter. */
  function GetCommand(commit: string, emptyTree: string): (r: seq<string>)
    ensures |r| == 4 && r[1] == "diff" && r[2] == emptyTree && r[3] == commit
  {
    ["git", "diff", emptyTree, commit]
  }

  // ---------------------------------------------------------------------------
  // Indent levels of one line
  // ---------------------------------------------------------------------------

  /** The indent unit written `m` times. */
  function Repeat(unit: string, m: nat): string {
    if m == 0 then "" else unit + Repeat(unit, m - 1)
  }

  /** The number of whole indent units the line starts with. */
  function IndentLevels(line: string, unit: string): nat
    requires |unit| >= 1
    decreases |line|
  {
    if StartsWith(line, unit) then 1 + IndentLevels(line[|unit|..], unit) else 0
  }

  lemma StartsWithConcat(line: string, unit: string, rest: string)
    ensures StartsWith(line, unit + rest)
      <==> StartsWith(line, unit) && StartsWith(line[|unit|..], rest)
  {
    if StartsWith(line, unit) && StartsWith(line[|unit|..], rest) {
      assert line[..|unit + rest|] == line[..|unit|] + line[|unit|..][..|rest|];
    }
    if StartsWith(line, unit + rest) {
      assert line[..|unit|] == line[..|unit + rest|][..|unit|];
      assert line[|unit|..][..|rest|] == line[..|unit + rest|][|unit|..];
    }
  }

  /** `IndentLevels` is the largest `m` such that the line starts with the unit written
      `m` times. */
  lemma {:induction false} IndentLevelsIsLargest(line: string, unit: string, m: nat)
    requires |unit| >= 1
    ensures StartsWith(line, Repeat(unit, m)) <==> m <= IndentLevels(line, unit)
    decreases m
  {
    if m > 0 {
      StartsWithConcat(line, unit, Repeat(unit, m - 1));
      if StartsWith(line, unit) {
        IndentLevelsIsLargest(line[|unit|..], unit, m - 1);
      }
    }
  }

  /** `countIndentLevels`: counts the copies of the unit at the start of the line. An
      empty unit would never end the loop, hence the precondition. */
  method CountIndentLevels(line: string, unit: string) returns (levels: nat)
    requires |unit| >= 1
    ensures levels == IndentLevels(line, unit)
    ensures StartsWith(line, Repeat(unit, levels)) && !StartsWith(line, Repeat(unit, levels + 1))
  {
    levels := 0;
    var pos := 0;
    while pos + |unit| <= |line| && line[pos..pos + |unit|] == unit
      invariant 0 <= pos <= |line|
      invariant IndentLevels(line, unit) == levels + IndentLevels(line[pos..], unit)
      decreases |line| - pos
    {
      assert line[pos..][|unit|..] == line[pos + |unit|..];
      assert line[pos..][..|unit|] == line[pos..pos + |unit|];
      levels := levels + 1;
      pos := pos + |unit|;
    }
    assert !StartsWith(line[pos..], unit) by {
      if pos + |unit| <= |line| {
        assert line[pos..][..|unit|] == line[pos..pos + |unit|];
      }
    }
    IndentLevelsIsLargest(line, unit, levels);
    IndentLevelsIsLargest(line, unit, levels + 1);
  }

  /** `m` whole units followed by text that does not start with the unit give exactly
      `m` levels. */
  lemma {:induction false} LevelsOfRepeat(unit: string, m: nat, tail: string)
    requires |unit| >= 1 && !StartsWith(tail, unit)
    ensures IndentLevels(Repeat(unit, m) + tail, unit) == m
    decreases m
  {
    if m == 0 {
      assert Repeat(unit, m) + tail == tail;
    } else {
      var line := Repeat(unit, m) + tail;
      assert line == unit + (Repeat(unit, m - 1) + tail);
      assert line[..|unit|] == unit;
      assert line[|unit|..] == Repeat(unit, m - 1) + tail;
      LevelsOfRepeat(unit, m - 1, tail);
    }
  }

  /** A partial unit of `n < k` copies of a character does not make a level of `k`
      copies of it. */
  lemma RunStops(c: char, n: nat, k: nat, rest: string)
    requires n < k
    requires rest == [] || rest[0] != c
    ensures !StartsWith(Repeat([c], n) + rest, Repeat([c], k))
  {
    var line := Repeat([c], n) + rest;
    var unit := Repeat([c], k);
    RepeatCharAt(c, n);
    RepeatCharAt(c, k);
    if |unit| <= |line| {
      assert line[..|unit|][n] == line[n] == rest[0];
      assert unit[n] == c;
    }
  }

  lemma {:induction false} RepeatCharAt(c: char, n: nat)
    ensures |Repeat([c], n)| == n
    ensures forall i | 0 <= i < n :: Repeat([c], n)[i] == c
    decreases n
  {
    if n > 0 {
      RepeatCharAt(c, n - 1);
      assert forall i | 1 <= i < n :: Repeat([c], n)[i] == Repeat([c], n - 1)[i - 1];
    }
  }

  /** Five spaces under a three-space unit give one level; three tabs under a two-tab
      unit give one level. */
  lemma PartialUnitsFloor()
    ensures IndentLevels("     hello", "   ") == 1
    ensures IndentLevels("\t\t\thello", "\t\t") == 1
  {
    RunStops(' ', 2, 3, "hello");
    assert Repeat([' '], 3) == "   ";
    assert Repeat([' '], 2) + "hello" == "  hello";
    LevelsOfRepeat("   ", 1, "  hello");
    assert Repeat("   ", 1) + "  hello" == "     hello";
    RunStops('\t', 1, 2, "hello");
    assert Repeat(['\t'], 2) == "\t\t";
    assert Repeat(['\t'], 1) + "hello" == "\thello";
    LevelsOfRepeat("\t\t", 1, "\thello");
    assert Repeat("\t\t", 1) + "\thello" == "\t\t\thello";
  }

  // ---------------------------------------------------------------------------
  // Statistics of one file
  // ---------------------------------------------------------------------------

  predicate Sorted(s: seq<nat>) {
    forall i, j | 0 <= i < j < |s| :: s[i] <= s[j]
  }

  /** One element put into its place in a sorted list. */
  function Insert(x: nat, s: seq<nat>): (r: seq<nat>)
    requires Sorted(s)
    ensures Sorted(r) && multiset(r) == multiset(s) + multiset{x}
    ensures forall i | 0 <= i < |r| :: r[i] == x || r[i] in s
  {
    if s == [] then [x]
    else if x <= s[0] then [x] + s
    else
      var t := Insert(x, s[1..]);
      assert forall i | 0 <= i < |t| :: s[0] <= t[i];
      assert s == [s[0]] + s[1..];
      [s[0]] + t
  }

  /** `Collections.sort` of a copy of the levels: sorted, and the same levels. */
  function SortLevels(s: seq<nat>): (r: seq<nat>)
    ensures Sorted(r) && multiset(r) == multiset(s)
  {
    if s == [] then []
    else
      assert s == [s[0]] + s[1..];
      Insert(s[0], SortLevels(s[1..]))
  }

  /** `computeMedian` of a sorted list: the middle element for an odd size, the
      truncated average of the two middle elements for an even size. It lies between
      the two middle elements, which are one and the same for an odd size. */
  function Median(sorted: seq<nat>): (r: int)
    requires |sorted| >= 1
    ensures Sorted(sorted) ==> sorted[(|sorted| - 1) / 2] <= r <= sorted[|sorted| / 2]
  {
    var n := |sorted|;
    if n % 2 == 1 then sorted[n / 2] else (sorted[n / 2 - 1] + sorted[n / 2]) / 2
  }

  lemma MedianExamples()
    ensures Median([1, 2, 3]) == 2 && Median([1, 2, 3, 4]) == 2 && Median([5]) == 5
  {
  }

  lemma SumAppend(a: seq<int>, b: seq<int>)
    ensures Sum(a + b) == Sum(a) + Sum(b)
    decreases |b|
  {
    if b == [] {
      assert a + b == a;
    } else {
      assert (a + b)[..|a + b| - 1] == a + b[..|b| - 1];
      assert (a + b)[|a + b| - 1] == b[|b| - 1];
      SumAppend(a, b[..|b| - 1]);
    }
  }

  /** Reordering does not change the sum. */
  lemma {:induction false} SumOfPermutation(a: seq<nat>, b: seq<nat>)
    requires multiset(a) == multiset(b)
    ensures Sum(a) == Sum(b)
    decreases |a|
  {
    if a == [] {
      assert |b| == |multiset(b)| == 0;
    } else {
      var n := |a|;
      var x := a[n - 1];
      assert x in multiset(b) by {
        assert a == a[..n - 1] + [x];
      }
      var k :| 0 <= k < |b| && b[k] == x;
      var b' := b[..k] + b[k + 1..];
      assert b == b[..k] + [x] + b[k + 1..];
      assert a == a[..n - 1] + [x];
      assert multiset(b) == multiset(b') + multiset{x};
      assert multiset(a) == multiset(a[..n - 1]) + multiset{x};
      assert multiset(a[..n - 1]) == multiset(a) - multiset{x};
      assert multiset(b') == multiset(b) - multiset{x};
      SumOfPermutation(a[..n - 1], b');
      SumAppend(b[..k] + [x], b[k + 1..]);
      SumAppend(b[..k], [x]);
      SumAppend(b[..k], b[k + 1..]);
    }
  }

  /** `computeStats` on the levels of one file: the smallest and the largest level, the
      sum and the number of levels the mean is computed from, and the median. */
  function ComputeStats(path: string, levels: seq<nat>): (r: FileIndentationStats)
    requires |levels| >= 1
    ensures r.path == path && r.levelCount == |levels| && r.levelSum == Sum(levels)
    ensures exists i | 0 <= i < |levels| :: levels[i] == r.minIndent
    ensures exists i | 0 <= i < |levels| :: levels[i] == r.maxIndent
    ensures forall i | 0 <= i < |levels| :: r.minIndent <= levels[i] <= r.maxIndent
    ensures r.minIndent <= r.medianIndent <= r.maxIndent
  {
    var sorted := SortLevels(levels);
    assert |sorted| == |multiset(sorted)| == |levels|;
    SortedBounds(sorted, levels);
    SumOfPermutation(sorted, levels);
    FileIndentationStats(path, sorted[0], sorted[|sorted| - 1], Sum(sorted), |sorted|, Median(sorted))
  }

  lemma SortedBounds(sorted: seq<nat>, levels: seq<nat>)
    requires Sorted(sorted) && multiset(sorted) == multiset(levels) && |sorted| >= 1
    ensures exists i | 0 <= i < |levels| :: levels[i] == sorted[0]
    ensures exists i | 0 <= i < |levels| :: levels[i] == sorted[|sorted| - 1]
    ensures forall i | 0 <= i < |levels| :: sorted[0] <= levels[i] <= sorted[|sorted| - 1]
  {
    assert sorted[0] in multiset(levels);
    assert sorted[|sorted| - 1] in multiset(levels);
    forall i | 0 <= i < |levels| ensures sorted[0] <= levels[i] <= sorted[|sorted| - 1] {
      assert levels[i] in multiset(sorted);
    }
  }

  // ---------------------------------------------------------------------------
  // The whole diff
  // ---------------------------------------------------------------------------

  /** The line that opens the diff of one file and names it. */
  predicate IsHeader(line: string) {
    StartsWith(line, "+++ b/")
  }

  /** An added line whose content is measured: it starts with `+` but not with `+++`,
      and what follows the `+` is not blank. */
  predicate Counted(line: string) {
    StartsWith(line, "+") && !StartsWith(line, "+++") && !IsBlank(line[1..])
  }

  /** The diff of one file: the path its header names, and the lines up to the next
      header. */
  datatype Section = Section(path: string, body: seq<string>)

  /** The diff cut into files at the header lines; lines before the first header belong
      to no file. */
  function Sections(lines: seq<string>): seq<Section> {
    if lines == [] then []
    else
      var init := Sections(lines[..|lines| - 1]);
      var l := lines[|lines| - 1];
      if IsHeader(l) then init + [Section(l[6..], [])]
      else if init == [] then []
      else init[..|init| - 1] + [init[|init| - 1].(body := init[|init| - 1].body + [l])]
  }

  /** The levels of the measured lines of a file, in order. */
  function LevelsOf(body: seq<string>, unit: string): seq<nat>
    requires |unit| >= 1
  {
    if body == [] then []
    else
      var l := body[|body| - 1];
      LevelsOf(body[..|body| - 1], unit) + (if Counted(l) then [IndentLevels(l[1..], unit)] else [])
  }

  predicate Tracked(s: Section) {
    EndsWith(s.path, ".java")
  }

  /** The statistics of one file: present for a Java file with at least one measured
      line. */
  function Report(s: Section, unit: string): seq<FileIndentationStats>
    requires |unit| >= 1
  {
    if Tracked(s) && LevelsOf(s.body, unit) != [] then [ComputeStats(s.path, LevelsOf(s.body, unit))] else []
  }

  function Reports(ss: seq<Section>, unit: string): seq<FileIndentationStats>
    requires |unit| >= 1
  {
    if ss == [] then [] else Reports(ss[..|ss| - 1], unit) + Report(ss[|ss| - 1], unit)
  }

  /** What `parseOutput` is meant to return: one result per Java file with at least one
      measured line, in diff order. */
  function Expected(lines: seq<string>, unit: string): seq<FileIndentationStats>
    requires |unit| >= 1
  {
    Reports(Sections(lines), unit)
  }

  /** The state of the loop of `parseOutput` after a prefix of the lines: the results of
      the finished files, and the file being read with its levels so far. */
  predicate ScanState(pre: seq<string>, unit: string, results: seq<FileIndentationStats>,
                      current: Option<string>, levels: seq<nat>)
    requires |unit| >= 1
  {
    var ss := Sections(pre);
    if ss == [] then current.None? && levels == [] && results == []
    else
      var last := ss[|ss| - 1];
      results == Reports(ss[..|ss| - 1], unit)
      && current == (if Tracked(last) then Some(last.path) else None)
      && levels == (if Tracked(last) then LevelsOf(last.body, unit) else [])
  }

  /** `parseOutput`: one pass over the lines of the diff. A header flushes the file
      being read and starts the next one, which is followed only when it is a Java
      file; a measured line of a followed file adds its level. The last file is flushed
      after the loop. */
  method ParseOutput(lines: seq<string>, unit: string) returns (results: seq<FileIndentationStats>)
    requires |unit| >= 1
    ensures results == Expected(lines, unit)
  {
    results := [];
    var current: Option<string> := None;
    var levels: seq<nat> := [];
    for i := 0 to |lines|
      invariant ScanState(lines[..i], unit, results, current, levels)
    {
      var line := lines[i];
      assert lines[..i + 1] == lines[..i] + [line];
      if StartsWith(line, "+++ b/") {
        HeaderStep(lines[..i], line, unit, results, current, levels);
        if current.Some? && levels != [] {
          results := results + [ComputeStats(current.value, levels)];
        }
        current := Some(line[6..]);
        levels := [];
        if !EndsWith(current.value, ".java") {
          current := None;
        }
      } else if current.None? {
        SkipStep(lines[..i], line, unit, results, current, levels);
      } else if !StartsWith(line, "+") || StartsWith(line, "+++") {
        AddStep(lines[..i], line, unit, results, current, levels);
      } else {
        var content := line[1..];
        AddStep(lines[..i], line, unit, results, current, levels);
        if !IsBlank(content) {
          var level := CountIndentLevels(content, unit);
          levels := levels + [level];
        }
      }
    }
    assert lines[..|lines|] == lines;
    FinalStep(lines, unit, results, current, levels);
    if current.Some? && levels != [] {
      results := results + [ComputeStats(current.value, levels)];
    }
  }

  lemma HeaderStep(pre: seq<string>, line: string, unit: string, results: seq<FileIndentationStats>,
                   current: Option<string>, levels: seq<nat>)
    requires |unit| >= 1 && IsHeader(line) && ScanState(pre, unit, results, current, levels)
    ensures var flushed := results + (if current.Some? && levels != [] then [ComputeStats(current.value, levels)] else []);
      var path := line[6..];
      ScanState(pre + [line], unit, flushed, if EndsWith(path, ".java") then Some(path) else None, [])
  {
    assert (pre + [line])[..|pre|] == pre;
    var ss := Sections(pre);
    var ss' := Sections(pre + [line]);
    assert ss' == ss + [Section(line[6..], [])];
    assert ss'[..|ss'| - 1] == ss;
    if ss != [] {
      assert ss[..|ss| - 1] + [ss[|ss| - 1]] == ss;
    }
  }

  lemma SkipStep(pre: seq<string>, line: string, unit: string, results: seq<FileIndentationStats>,
                 current: Option<string>, levels: seq<nat>)
    requires |unit| >= 1 && !IsHeader(line) && current.None?
    requires ScanState(pre, unit, results, current, levels)
    ensures ScanState(pre + [line], unit, results, current, levels)
  {
    assert (pre + [line])[..|pre|] == pre;
    var ss := Sections(pre);
    if ss != [] {
      var ss' := Sections(pre + [line]);
      assert ss'[..|ss'| - 1] == ss[..|ss| - 1];
    }
  }

  lemma AddStep(pre: seq<string>, line: string, unit: string, results: seq<FileIndentationStats>,
                current: Option<string>, levels: seq<nat>)
    requires |unit| >= 1 && !IsHeader(line) && current.Some?
    requires ScanState(pre, unit, results, current, levels)
    ensures ScanState(pre + [line], unit, results, current,
      levels + (if Counted(line) then [IndentLevels(line[1..], unit)] else []))
  {
    assert (pre + [line])[..|pre|] == pre;
    var ss := Sections(pre);
    var last := ss[|ss| - 1];
    var ss' := Sections(pre + [line]);
    assert ss'[..|ss'| - 1] == ss[..|ss| - 1];
    var body' := last.body + [line];
    assert ss'[|ss'| - 1] == Section(last.path, body');
    assert body'[..|body'| - 1] == last.body;
  }

  lemma FinalStep(lines: seq<string>, unit: string, results: seq<FileIndentationStats>,
                  current: Option<string>, levels: seq<nat>)
    requires |unit| >= 1 && ScanState(lines, unit, results, current, levels)
    ensures results + (if current.Some? && levels != [] then [ComputeStats(current.value, levels)] else [])
      == Expected(lines, unit)
  {
    var ss := Sections(lines);
    if ss != [] {
      assert ss[..|ss| - 1] + [ss[|ss| - 1]] == ss;
    }
  }

  /** A result about a Java file, over at least one level, with its median between its
      minimum and its maximum. */
  predicate Plausible(r: FileIndentationStats) {
    EndsWith(r.path, ".java") && r.levelCount >= 1 && r.minIndent <= r.medianIndent <= r.maxIndent
  }

  /** Every result is plausible, and there is at most one per file. */
  lemma {:induction false} ReportsShape(ss: seq<Section>, unit: string)
    requires |unit| >= 1
    ensures |Reports(ss, unit)| <= |ss|
    ensures forall k | 0 <= k < |Reports(ss, unit)| :: Plausible(Reports(ss, unit)[k])
  {
    if ss != [] {
      var init := Reports(ss[..|ss| - 1], unit);
      var last := Report(ss[|ss| - 1], unit);
      ReportsShape(ss[..|ss| - 1], unit);
      assert forall k | 0 <= k < |last| :: Plausible(last[k]);
      AllPlausibleAppend(init, last);
    }
  }

  lemma AllPlausibleAppend(a: seq<FileIndentationStats>, b: seq<FileIndentationStats>)
    requires forall k | 0 <= k < |a| :: Plausible(a[k])
    requires forall k | 0 <= k < |b| :: Plausible(b[k])
    ensures forall k | 0 <= k < |a + b| :: Plausible((a + b)[k])
  {
    forall k | 0 <= k < |a + b| ensures Plausible((a + b)[k]) {
      if k < |a| {
        assert (a + b)[k] == a[k];
      } else {
        assert (a + b)[k] == b[k - |a|];
      }
    }
  }

  // ---------------------------------------------------------------------------
  // A diff put together from its files
  // ---------------------------------------------------------------------------

  /** The lines of a diff: a preamble, then for each file its header and its body. */
  function Render(preamble: seq<string>, ss: seq<Section>): seq<string> {
    if ss == [] then preamble
    else
      var s := ss[|ss| - 1];
      Render(preamble, ss[..|ss| - 1]) + ["+++ b/" + s.path] + s.body
  }

  predicate NoHeader(ls: seq<string>) {
    forall i | 0 <= i < |ls| :: !IsHeader(ls[i])
  }

  /** Round trip: cutting a rendered diff at its headers gives back its files, as long
      as neither the preamble nor a body holds a header line. */
  lemma {:induction false} SectionsOfRender(preamble: seq<string>, ss: seq<Section>)
    requires NoHeader(preamble)
    requires forall k | 0 <= k < |ss| :: NoHeader(ss[k].body)
    ensures Sections(Render(preamble, ss)) == ss
    decreases |ss|
  {
    if ss == [] {
      NoSectionsBeforeHeader(preamble);
    } else {
      var init := ss[..|ss| - 1];
      var s := ss[|ss| - 1];
      SectionsOfRender(preamble, init);
      assert Render(preamble, ss) == Render(preamble, init) + ["+++ b/" + s.path] + s.body;
      OneMoreSection(Render(preamble, init), init, s);
      assert ss == init + [s];
    }
  }

  /** A header and a header-free body after lines that cut into `ss` add one section. */
  lemma OneMoreSection(lines: seq<string>, ss: seq<Section>, s: Section)
    requires Sections(lines) == ss && NoHeader(s.body)
    ensures Sections(lines + ["+++ b/" + s.path] + s.body) == ss + [s]
  {
    var head := lines + ["+++ b/" + s.path];
    var h := "+++ b/" + s.path;
    assert h[..6] == "+++ b/" && h[6..] == s.path;
    assert head[..|head| - 1] == lines;
    assert Sections(head) == ss + [Section(s.path, [])];
    BodyExtends(head, ss, s.path, s.body);
  }

  lemma {:induction false} NoSectionsBeforeHeader(ls: seq<string>)
    requires NoHeader(ls)
    ensures Sections(ls) == []
  {
    if ls != [] {
      NoSectionsBeforeHeader(ls[..|ls| - 1]);
    }
  }

  /** Lines without a header extend the body of the last file. */
  lemma {:induction false} BodyExtends(head: seq<string>, init: seq<Section>, path: string, body: seq<string>)
    requires Sections(head) == init + [Section(path, [])]
    requires NoHeader(body)
    ensures Sections(head + body) == init + [Section(path, body)]
    decreases |body|
  {
    if body == [] {
      assert head + body == head;
    } else {
      var b := body[..|body| - 1];
      BodyExtends(head, init, path, b);
      var l := body[|body| - 1];
      assert !IsHeader(l);
      assert (head + body)[..|head + body| - 1] == head + b;
      assert (head + body)[|head + body| - 1] == l;
      var ss := init + [Section(path, b)];
      assert ss[..|ss| - 1] == init && ss[|ss| - 1] == Section(path, b);
      assert b + [l] == body;
      assert Sections(head + body) == ss[..|ss| - 1] + [ss[|ss| - 1].(body := b + [l])];
    }
  }

  /** Appending the diff of one more file appends its result, if any, to the results
      of the diff so far. */
  lemma ExpectedAppendFile(pre: seq<string>, path: string, body: seq<string>, unit: string)
    requires |unit| >= 1 && NoHeader(body)
    ensures Sections(pre + ["+++ b/" + path] + body) == Sections(pre) + [Section(path, body)]
    ensures Expected(pre + ["+++ b/" + path] + body, unit) == Expected(pre, unit) + Report(Section(path, body), unit)
  {
    var h := "+++ b/" + path;
    assert h[..6] == "+++ b/" && h[6..] == path;
    assert (pre + [h])[..|pre|] == pre;
    assert Sections(pre + [h]) == Sections(pre) + [Section(path, [])];
    BodyExtends(pre + [h], Sections(pre), path, body);
    ReportsSnoc(Sections(pre), Section(path, body), unit);
  }

  lemma ReportsSnoc(ss: seq<Section>, s: Section, unit: string)
    requires |unit| >= 1
    ensures Reports(ss + [s], unit) == Reports(ss, unit) + Report(s, unit)
  {
    assert (ss + [s])[..|ss|] == ss;
  }

  lemma OneLineReport(s: Section, unit: string)
    requires |unit| >= 1 && Tracked(s) && |s.body| == 1 && Counted(s.body[0])
    ensures Report(s, unit) == [ComputeStats(s.path, [IndentLevels(s.body[0][1..], unit)])]
  {
    assert s.body[..0] == [];
    assert LevelsOf(s.body, unit) == LevelsOf([], unit) + [IndentLevels(s.body[0][1..], unit)];
  }

  /** A file that is not Java gives nothing, whatever it adds. */
  lemma OtherFileIgnored(path: string, body: seq<string>, unit: string)
    requires |unit| >= 1 && !EndsWith(path, ".java") && NoHeader(body)
    ensures Expected(["+++ b/" + path] + body, unit) == []
  {
    var ss := [Section(path, body)];
    assert Render([], ss) == ["+++ b/" + path] + body by {
      assert ss[..0] == [];
    }
    SectionsOfRender([], ss);
    assert Sections(["+++ b/" + path] + body) == ss;
    assert ss[..0] == [];
    assert Reports(ss, unit) == Reports([], unit) + Report(ss[0], unit);
  }
}
