/** `ChangeReader`: reads one line of `git show --numstat` into a `FileChanges`. A line
    holding `=>` describes a rename and goes through `COMPLEX_FILE_PATTERN`; any other
    line is split on whitespace. */
module ChangeReader {
  import opened Outcomes
  import opened JavaText
  import opened Records

  /** `getCommand`. */
  function GetCommand(commit: string): seq<string> {
    ["git", "show", "--format=oneline", "--numstat", commit]
  }

  /** `parseCount`: any text holding a `-` counts as -1 (a binary file); anything else is
      read by `Integer.parseInt`. */
  function ParseCount(value: string): (r: Result<int>)
    ensures r.Ok? ==> -1 <= r.value <= INT_MAX
    ensures r == Ok(-1) <==> Contains(value, "-")
    ensures r.Err? ==> r.failure == NumberFormat(value)
  {
    if Contains(value, "-") then Ok(-1)
    else
      var r := ParseInt(value);
      assert r.Ok? ==> r.value >= 0 by {
        if |value| > 0 && value[0] == '-' {
          assert OccursAt(value, "-", 0);
          ContainsIff(value, "-");
        }
      }
      r
  }

  /** The text numstat prints for a count: `-` for a binary file, else the decimal. */
  function CountText(c: int): string {
    if c < 0 then "-" else Decimal(c)
  }

  /** What `parseCount` gives back for a count printed by `CountText`. */
  function CountValue(c: int): int {
    if c < 0 then -1 else c
  }

  lemma CountTextHasNoSpace(c: int)
    ensures CountText(c) != "" && !HasSeparator(CountText(c), IsRegexSpace)
    ensures forall k | 0 <= k < |CountText(c)| :: CountText(c)[k] == '-' || IsAsciiDigit(CountText(c)[k])
  {
  }

  /** Round trip: a printed count reads back as itself, a binary marker as -1. */
  lemma ParseCountText(c: int)
    requires c <= INT_MAX
    ensures ParseCount(CountText(c)) == Ok(CountValue(c))
  {
    var t := CountText(c);
    if c < 0 {
      assert OccursAt(t, "-", 0);
      ContainsIff(t, "-");
    } else {
      DecimalValue(c);
      assert forall i | 0 <= i < |t| :: t[i] != '-';
      ContainsIff(t, "-");
      ParseDigits(t, INT_MIN, INT_MAX);
    }
  }

  /** `parseSimpleLine`: the third whitespace-separated field is the path, the first two
      the counts. `parts[2]` is read before either count, so a short line fails on the
      index first. */
  function ParseSimpleLine(line: string): (r: Result<FileChanges>)
    ensures |SplitWhitespace(line)| < 3 <==> r == Err(IndexOutOfBounds(2, |SplitWhitespace(line)|))
    ensures r.Ok? ==> var parts := SplitWhitespace(line);
      |parts| >= 3 && r.value.filename == parts[2]
      && Ok(r.value.additions) == ParseCount(parts[0])
      && Ok(r.value.deletions) == ParseCount(parts[1])
  {
    var parts := SplitWhitespace(line);
    if |parts| < 3 then Err(IndexOutOfBounds(2, |parts|))
    else
      var adds :- ParseCount(parts[0]);
      var dels :- ParseCount(parts[1]);
      Ok(FileChanges(parts[2], adds, dels))
  }

  // ---------------------------------------------------------------------------
  // `COMPLEX_FILE_PATTERN`:
  //   ^(?<adds>-|\d+)\s+(?<dels>-|\d+)\s+(?<before>.*?)\{.*? => (?<target>.*?)}(?<after>.*)$
  // used with `matches`, so it must cover the whole line.
  // ---------------------------------------------------------------------------

  /** The boundaries of one way the pattern can cover a line: `adds` is `[0, a)`, the
      first `\s+` is `[a, w1)`, `dels` is `[w1, d)`, the second `\s+` is `[d, w2)`,
      `before` is `[w2, p)`, the `{` is at `p`, ` => ` at `q`, `target` is `[q + 4, t)`,
      the `}` is at `t` and `after` runs to the end. */
  datatype Cut = Cut(a: int, w1: int, d: int, w2: int, p: int, q: int, t: int)

  /** `-|\d+` covers `[i, e)`. */
  predicate CountAt(s: string, i: int, e: int) {
    0 <= i < e <= |s|
    && ((e == i + 1 && s[i] == '-') || forall k | i <= k < e :: IsAsciiDigit(s[k]))
  }

  /** `\s+` covers `[i, e)`. */
  predicate SpacesAt(s: string, i: int, e: int) {
    0 <= i < e <= |s| && forall k | i <= k < e :: IsRegexSpace(s[k])
  }

  /** `.*` covers `[i, e)`: no line terminator. */
  predicate DotsAt(s: string, i: int, e: int) {
    0 <= i <= e <= |s| && forall k | i <= k < e :: !IsLineTerminator(s[k])
  }

  /** The pattern covers `s` along `c`. */
  predicate IsMatch(s: string, c: Cut) {
    HeadMatch(s, c) && TailMatch(s, c)
  }

  /** `(?<adds>-|\d+)\s+(?<dels>-|\d+)\s+` covers `[0, c.w2)`. */
  predicate HeadMatch(s: string, c: Cut) {
    CountAt(s, 0, c.a) && SpacesAt(s, c.a, c.w1) && CountAt(s, c.w1, c.d) && SpacesAt(s, c.d, c.w2)
  }

  /** `(?<before>.*?)\{.*? => (?<target>.*?)}(?<after>.*)` covers `[c.w2, |s|)`. */
  predicate TailMatch(s: string, c: Cut) {
    DotsAt(s, c.w2, c.p) && c.p < |s| && s[c.p] == '{'
    && DotsAt(s, c.p + 1, c.q) && OccursAt(s, " => ", c.q)
    && DotsAt(s, c.q + 4, c.t) && c.t < |s| && s[c.t] == '}'
    && DotsAt(s, c.t + 1, |s|)
  }

  /** The end of the longest run of characters in `run` starting at `i`. */
  function RunEnd(s: string, i: nat, run: char -> bool): (e: nat)
    requires i <= |s|
    ensures i <= e <= |s|
    ensures forall k | i <= k < e :: run(s[k])
    ensures e < |s| ==> !run(s[e])
    decreases |s| - i
  {
    if i < |s| && run(s[i]) then RunEnd(s, i + 1, run) else i
  }

  /** Where `-|\d+` starting at `i` ends: the `-` alternative is tried first. */
  function CountEnd(s: string, i: nat): (e: nat)
    requires i <= |s|
    ensures i <= e <= |s|
  {
    if i < |s| && s[i] == '-' then i + 1 else RunEnd(s, i, IsAsciiDigit)
  }

  /** The match `matches` reports, if any: `\d+` and `\s+` take as much as they can,
      and each lazy group stops at the first place where the rest can follow. */
  function MatchComplex(s: string): (r: Option<Cut>)
    ensures r.Some? ==> Ordered(r.value, |s|)
  {
    var a := CountEnd(s, 0);
    var w1 := RunEnd(s, a, IsRegexSpace);
    var d := CountEnd(s, w1);
    var w2 := RunEnd(s, d, IsRegexSpace);
    if a == 0 || w1 == a || d == w1 || w2 == d then None
    else if !DotsAt(s, w2, |s|) then None
    else
      var p := CharFrom(s, '{', w2);
      if p < 0 then None
      else
        var q := IndexOfFrom(s, " => ", p + 1);
        if q < 0 then None
        else
          var t := CharFrom(s, '}', q + 4);
          if t < 0 then None
          else
            Some(Cut(a, w1, d, w2, p, q, t))
  }

  /** The first `x` at or after `i`, or -1. */
  function CharFrom(s: string, x: char, i: nat): (r: int)
    ensures r == -1 || (i <= r < |s| && s[r] == x)
    ensures r == -1 ==> forall j | i <= j < |s| :: s[j] != x
    ensures r != -1 ==> forall j | i <= j < r :: s[j] != x
    decreases |s| - i
  {
    if i >= |s| then -1
    else if s[i] == x then i
    else CharFrom(s, x, i + 1)
  }

  /** The boundaries of a cut are in order and inside the line. */
  predicate Ordered(c: Cut, n: int) {
    0 < c.a < c.w1 < c.d < c.w2 <= c.p < c.q && c.q + 4 <= c.t < n
  }

  /** The match reported covers the line. */
  lemma MatchComplexIsMatch(s: string)
    ensures MatchComplex(s).Some? ==> IsMatch(s, MatchComplex(s).value)
  {
    if MatchComplex(s).Some? {
      var c := MatchComplex(s).value;
      CountEndIsCount(s, 0);
      CountEndIsCount(s, c.w1);
      ScanIsMatch(s, c);
    }
  }

  lemma ScanIsMatch(s: string, c: Cut)
    requires CountAt(s, 0, c.a) && SpacesAt(s, c.a, c.w1) && CountAt(s, c.w1, c.d) && SpacesAt(s, c.d, c.w2)
    requires DotsAt(s, c.w2, |s|)
    requires c.w2 <= c.p < |s| && s[c.p] == '{'
    requires c.p + 1 <= c.q && OccursAt(s, " => ", c.q)
    requires c.q + 4 <= c.t < |s| && s[c.t] == '}'
    ensures IsMatch(s, c)
  {
  }

  lemma CountEndIsCount(s: string, i: nat)
    requires i <= |s| && CountEnd(s, i) > i
    ensures CountAt(s, i, CountEnd(s, i))
  {
  }

  /** A run that reaches at least to `e`. */
  lemma RunEndAtLeast(s: string, i: nat, e: nat, run: char -> bool)
    requires i <= e <= |s|
    requires forall k | i <= k < e :: run(s[k])
    ensures RunEnd(s, i, run) >= e
    decreases e - i
  {
    if i < e {
      RunEndAtLeast(s, i + 1, e, run);
    }
  }

  /** A run that stops exactly at `e`. */
  lemma RunEndAt(s: string, i: nat, e: nat, run: char -> bool)
    requires i <= e <= |s|
    requires forall k | i <= k < e :: run(s[k])
    requires e < |s| ==> !run(s[e])
    ensures RunEnd(s, i, run) == e
  {
    RunEndAtLeast(s, i, e, run);
  }

  /** Every way of covering a line agrees on the counts and the whitespace between them. */
  lemma CountIsForced(s: string, i: nat, e: nat)
    requires CountAt(s, i, e) && e < |s| && IsRegexSpace(s[e])
    ensures CountEnd(s, i) == e
  {
    if s[i] != '-' {
      RunEndAt(s, i, e, IsAsciiDigit);
    }
  }

  /** The regex semantics: the pattern matches exactly when some cut covers the line, and
      then the reported cut has the same counts, the longest second whitespace run, and
      the earliest `{`, ` => ` and `}` of all the cuts that cover it. */
  lemma MatchComplexIsLeftmost(s: string)
    ensures MatchComplex(s).Some? ==> IsMatch(s, MatchComplex(s).value)
    ensures MatchComplex(s).None? ==> forall c :: !IsMatch(s, c)
    ensures MatchComplex(s).Some? ==> forall c | IsMatch(s, c) ::
      var r := MatchComplex(s).value;
      r.a == c.a && r.w1 == c.w1 && r.d == c.d
      && c.w2 <= r.w2 && r.p <= c.p && r.q <= c.q && r.t <= c.t
  {
    MatchComplexIsMatch(s);
    forall c | IsMatch(s, c)
      ensures MatchComplex(s).Some?
      ensures var r := MatchComplex(s).value;
        r.a == c.a && r.w1 == c.w1 && r.d == c.d
        && c.w2 <= r.w2 && r.p <= c.p && r.q <= c.q && r.t <= c.t
    {
      CutIsLeftmost(s, c);
    }
  }

  lemma CutIsLeftmost(s: string, c: Cut)
    requires IsMatch(s, c)
    ensures MatchComplex(s).Some?
    ensures var r := MatchComplex(s).value;
      r.a == c.a && r.w1 == c.w1 && r.d == c.d
      && c.w2 <= r.w2 && r.p <= c.p && r.q <= c.q && r.t <= c.t
  {
    CutPrefix(s, c);
    var w2 := RunEnd(s, c.d, IsRegexSpace);
    TailHasNoTerminator(s, c, w2);
    assert c.p >= w2;
    CutTail(s, c, w2);
  }

  /** The counts and the first whitespace run are forced; the second run reaches at
      least as far as the cut's. */
  lemma CutPrefix(s: string, c: Cut)
    requires IsMatch(s, c)
    ensures CountEnd(s, 0) == c.a && RunEnd(s, c.a, IsRegexSpace) == c.w1
    ensures CountEnd(s, c.w1) == c.d && RunEnd(s, c.d, IsRegexSpace) >= c.w2
  {
    CountIsForced(s, 0, c.a);
    assert c.w1 < |s| && !IsRegexSpace(s[c.w1]);
    RunEndAt(s, c.a, c.w1, IsRegexSpace);
    CountIsForced(s, c.w1, c.d);
    RunEndAtLeast(s, c.d, c.w2, IsRegexSpace);
  }

  /** From the end of the longest whitespace run, the scan finds a `{`, a ` => ` and a
      `}` no later than the cut's. */
  lemma CutTail(s: string, c: Cut, w2: nat)
    requires w2 <= c.p < |s| && s[c.p] == '{'
    requires c.p + 1 <= c.q && OccursAt(s, " => ", c.q)
    requires c.q + 4 <= c.t < |s| && s[c.t] == '}'
    ensures w2 <= CharFrom(s, '{', w2) <= c.p
    ensures CharFrom(s, '{', w2) + 1 <= IndexOfFrom(s, " => ", CharFrom(s, '{', w2) + 1) <= c.q
    ensures var q := IndexOfFrom(s, " => ", CharFrom(s, '{', w2) + 1);
      q + 4 <= CharFrom(s, '}', q + 4) <= c.t
  {
    var p := CharFrom(s, '{', w2);
    FirstAtMost(s, " => ", p + 1, c.q);
  }

  /** The first occurrence is no later than any occurrence. */
  lemma FirstAtMost(s: string, x: string, from: nat, i: int)
    requires from <= i && OccursAt(s, x, i)
    ensures from <= IndexOfFrom(s, x, from) <= i
  {
  }

  lemma TailHasNoTerminator(s: string, c: Cut, w2: nat)
    requires IsMatch(s, c) && c.w2 <= w2 <= |s|
    ensures DotsAt(s, w2, |s|)
  {
    forall k | w2 <= k < |s| ensures !IsLineTerminator(s[k]) {
      CoveredHasNoTerminator(s, c, k);
    }
  }

  /** Past the second whitespace run, a covered line holds no line terminator: every
      character there is matched by `.` or is one of `{`, ` => `, `}`. */
  lemma CoveredHasNoTerminator(s: string, c: Cut, k: int)
    requires IsMatch(s, c) && c.w2 <= k < |s|
    ensures !IsLineTerminator(s[k])
  {
    if c.q <= k < c.q + 4 {
      assert s[k] == " => "[k - c.q];
    }
  }

  /** `parseComplexLine`: the file name is `before`, `target` and `after` put together,
      with nothing normalised; the counts are read after it. */
  function ParseComplexLine(line: string): (r: Result<FileChanges>)
    ensures MatchComplex(line).None? <==> r == Err(IllegalArgument("Cannot parse line: " + line))
    ensures r.Ok? ==> var c := MatchComplex(line).value;
      r.value.filename == line[c.w2..c.p] + line[c.q + 4..c.t] + line[c.t + 1..]
      && Ok(r.value.additions) == ParseCount(line[..c.a])
      && Ok(r.value.deletions) == ParseCount(line[c.w1..c.d])
  {
    match MatchComplex(line)
    case None => Err(IllegalArgument("Cannot parse line: " + line))
    case Some(c) => ReadGroups(line, c)
  }

  /** The groups of a matched line read into a `FileChanges`: the file name first, then
      `adds`, then `dels`; the first count that fails to parse is the error. */
  function ReadGroups(line: string, c: Cut): (r: Result<FileChanges>)
    requires Ordered(c, |line|)
    ensures r.Ok? ==> r.value.filename == line[c.w2..c.p] + line[c.q + 4..c.t] + line[c.t + 1..]
    ensures r.Ok? ==> Ok(r.value.additions) == ParseCount(line[..c.a])
    ensures r.Ok? ==> Ok(r.value.deletions) == ParseCount(line[c.w1..c.d])
    ensures r.Err? ==> r.failure == NumberFormat(line[..c.a]) || r.failure == NumberFormat(line[c.w1..c.d])
  {
    var filename := line[c.w2..c.p] + line[c.q + 4..c.t] + line[c.t + 1..];
    var adds :- ParseCount(line[..c.a]);
    var dels :- ParseCount(line[c.w1..c.d]);
    Ok(FileChanges(filename, adds, dels))
  }

  /** `parseLine`: a line holding `=>` anywhere is read as a rename. */
  function ParseLine(line: string): (r: Result<FileChanges>)
    ensures Contains(line, "=>") ==> r == ParseComplexLine(line)
    ensures !Contains(line, "=>") ==> r == ParseSimpleLine(line)
  {
    if Contains(line, "=>") then ParseComplexLine(line) else ParseSimpleLine(line)
  }

  // ---------------------------------------------------------------------------
  // Lines as numstat prints them
  // ---------------------------------------------------------------------------

  /** A numstat line: the two counts and the path, each followed by one whitespace
      character (numstat uses a tab). */
  function NumstatLine(adds: int, dels: int, sep: char, path: string): string {
    Join([CountText(adds), CountText(dels), path], sep)
  }

  /** The path numstat prints for a rename inside a directory: the common prefix, then
      `{from => target}`, then the common suffix. */
  function BracePath(before: string, from: string, target: string, after: string): string {
    before + "{" + from + " => " + target + "}" + after
  }

  predicate HasNoArrow(s: string) {
    !Contains(s, "=>")
  }

  /** Round trip for a plain line: a whitespace-free path without `=>` and its counts are
      read back as printed, `-` counts as -1. */
  lemma SimpleLineRoundTrip(line: string, adds: int, dels: int, sep: char, path: string)
    requires line == NumstatLine(adds, dels, sep, path)
    requires adds <= INT_MAX && dels <= INT_MAX && IsRegexSpace(sep)
    requires path != "" && !HasSeparator(path, IsRegexSpace) && HasNoArrow(path)
    ensures ParseLine(line) == Ok(FileChanges(path, CountValue(adds), CountValue(dels)))
  {
    var ca := CountText(adds);
    var cd := CountText(dels);
    CountTextHasNoSpace(adds);
    CountTextHasNoSpace(dels);
    JoinThree(ca, cd, path, sep);
    var fields := [ca, cd, path];
    assert forall i | 0 <= i < |fields| :: fields[i] != "" && !HasSeparator(fields[i], IsRegexSpace);
    SplitWhitespaceOfJoin(fields, sep);
    ArrowOnlyInPath(ca + [sep] + cd + [sep], path);
    ParseCountText(adds);
    ParseCountText(dels);
  }

  lemma JoinThree(x: string, y: string, z: string, sep: char)
    ensures Join([x, y, z], sep) == x + [sep] + y + [sep] + z
  {
    assert [x, y, z][1..] == [y, z];
    assert [y, z][1..] == [z];
    assert Join([y, z], sep) == y + [sep] + z;
  }

  /** A `=>` in a line whose head has no `=` lies in its tail. */
  lemma ArrowOnlyInPath(head: string, path: string)
    requires forall k | 0 <= k < |head| :: head[k] != '='
    requires HasNoArrow(path)
    ensures HasNoArrow(head + path)
  {
    var line := head + path;
    ContainsIff(line, "=>");
    ContainsIff(path, "=>");
    forall i | 0 <= i && i + 2 <= |line| ensures !OccursAt(line, "=>", i) {
      if i < |head| {
        assert line[i..i + 2][0] == head[i] != '=';
      } else {
        assert line[i..i + 2] == path[i - |head|..i - |head| + 2];
        assert !OccursAt(path, "=>", i - |head|);
      }
    }
  }

  /** The plain example: `1 2 file.txt`. */
  lemma PlainExample()
    ensures ParseLine("1 2 file.txt") == Ok(FileChanges("file.txt", 1, 2))
  {
    SmallLine("1 2 file.txt", 1, 2, "file.txt");
  }

  /** The binary example: `- - image.png` gives -1 for both counts. */
  lemma BinaryExample()
    ensures ParseLine("- - image.png") == Ok(FileChanges("image.png", -1, -1))
  {
    SmallLine("- - image.png", -1, -1, "image.png");
  }

  /** A line with one-digit (or binary) counts and a path of letters and dots. */
  lemma SmallLine(line: string, adds: int, dels: int, path: string)
    requires -1 <= adds <= 9 && -1 <= dels <= 9
    requires path != [] && forall k | 0 <= k < |path| :: 'a' <= path[k] <= 'z' || path[k] == '.'
    requires line == [if adds < 0 then '-' else ('0' as int + adds) as char, ' ', if dels < 0 then '-' else ('0' as int + dels) as char, ' '] + path
    ensures ParseLine(line) == Ok(FileChanges(path, CountValue(adds), CountValue(dels)))
  {
    NotContainsChar(path, "=>");
    JoinThree(CountText(adds), CountText(dels), path, ' ');
    SimpleLineRoundTrip(line, adds, dels, ' ', path);
  }

  predicate NoTerminator(s: string) {
    forall k | 0 <= k < |s| :: !IsLineTerminator(s[k])
  }

  predicate Lacks(s: string, x: char) {
    forall k | 0 <= k < |s| :: s[k] != x
  }

  /** Where the parts of a brace path sit. */
  lemma BracePathParts(before: string, from: string, target: string, after: string)
    ensures var path := BracePath(before, from, target, after);
      var p := |before|; var q := p + 1 + |from|; var t := q + 4 + |target|;
      |path| == t + 1 + |after|
      && path[..p] == before && path[p] == '{' && path[p + 1..q] == from
      && path[q..q + 4] == " => " && path[q + 4..t] == target && path[t] == '}'
      && path[t + 1..] == after && path[p + 1..q + 4] == from + " => "
  {
  }

  lemma BracePathNoTerminator(before: string, from: string, target: string, after: string)
    requires NoTerminator(before) && NoTerminator(from) && NoTerminator(target) && NoTerminator(after)
    ensures NoTerminator(BracePath(before, from, target, after))
  {
    var path := BracePath(before, from, target, after);
    BracePathParts(before, from, target, after);
    var p := |before|;
    var q := p + 1 + |from|;
    var t := q + 4 + |target|;
    forall k | 0 <= k < |path| ensures !IsLineTerminator(path[k]) {
      if k < p {
        assert path[k] == path[..p][k];
      } else if p < k < q {
        assert path[k] == path[p + 1..q][k - p - 1];
      } else if q <= k < q + 4 {
        assert path[k] == path[q..q + 4][k - q];
      } else if q + 4 <= k < t {
        assert path[k] == path[q + 4..t][k - q - 4];
      } else if t < k {
        assert path[k] == path[t + 1..][k - t - 1];
      }
    }
  }

  /** Where the counts sit in a numstat line. */
  lemma NumstatLineParts(adds: int, dels: int, sep: char, path: string)
    ensures var line := NumstatLine(adds, dels, sep, path);
      var a := |CountText(adds)|; var d := a + 1 + |CountText(dels)|;
      |line| == d + 1 + |path|
      && line[..a] == CountText(adds) && line[a] == sep && line[a + 1..d] == CountText(dels)
      && line[d] == sep && line[d + 1..] == path
  {
    JoinThree(CountText(adds), CountText(dels), path, sep);
  }

  /** The cut a numstat line with a brace path is made of. */
  function BraceCut(adds: int, dels: int, before: string, from: string, target: string): Cut {
    var a := |CountText(adds)|;
    var d := a + 1 + |CountText(dels)|;
    var p := d + 1 + |before|;
    var q := p + 1 + |from|;
    Cut(a, a + 1, d, d + 1, p, q, q + 4 + |target|)
  }

  /** `c` is where the parts of a brace path starting at `c.w2` sit. */
  predicate BraceAt(line: string, c: Cut, before: string, from: string, target: string, after: string) {
    0 <= c.w2 <= |line| && line[c.w2..] == BracePath(before, from, target, after)
    && c.p == c.w2 + |before| && c.q == c.p + 1 + |from| && c.t == c.q + 4 + |target|
  }

  /** A numstat line is covered by the pattern along the cut its parts give. */
  lemma BraceLineCut(line: string, adds: int, dels: int, sep: char, before: string, from: string, target: string, after: string)
    requires line == NumstatLine(adds, dels, sep, BracePath(before, from, target, after))
    requires IsRegexSpace(sep)
    requires NoTerminator(before) && NoTerminator(from) && NoTerminator(target) && NoTerminator(after)
    ensures IsMatch(line, BraceCut(adds, dels, before, from, target))
    ensures BraceAt(line, BraceCut(adds, dels, before, from, target), before, from, target, after)
  {
    var path := BracePath(before, from, target, after);
    var c := BraceCut(adds, dels, before, from, target);
    NumstatLineParts(adds, dels, sep, path);
    CountTextHasNoSpace(adds);
    CountTextHasNoSpace(dels);
    HeadFacts(line, c, CountText(adds), CountText(dels), sep);
    TailFacts(line, c, before, from, target, after);
  }

  /** The counts of a numstat line are covered by `-|\d+` and the separators by `\s+`. */
  lemma HeadFacts(line: string, c: Cut, ca: string, cd: string, sep: char)
    requires c.a == |ca| && c.w1 == c.a + 1 && c.d == c.w1 + |cd| && c.w2 == c.d + 1
    requires ca != "" && cd != "" && IsRegexSpace(sep)
    requires ca == "-" || AllDigits(ca)
    requires cd == "-" || AllDigits(cd)
    requires |line| > c.d && line[..c.a] == ca && line[c.a] == sep
    requires line[c.w1..c.d] == cd && line[c.d] == sep
    ensures HeadMatch(line, c)
  {
    forall k | 0 <= k < c.a ensures line[k] == ca[k] {
      assert line[k] == line[..c.a][k];
    }
    forall k | c.w1 <= k < c.d ensures line[k] == cd[k - c.w1] {
      assert line[k] == line[c.w1..c.d][k - c.w1];
    }
  }

  /** Past the separators, a brace path supplies the `{`, ` => ` and `}` of the pattern
      and no line terminator. */
  lemma TailFacts(line: string, c: Cut, before: string, from: string, target: string, after: string)
    requires BraceAt(line, c, before, from, target, after)
    requires NoTerminator(before) && NoTerminator(from) && NoTerminator(target) && NoTerminator(after)
    ensures TailMatch(line, c)
  {
    var off := c.w2;
    var path := BracePath(before, from, target, after);
    BracePathParts(before, from, target, after);
    BracePathNoTerminator(before, from, target, after);
    forall k | off <= k < |line| ensures !IsLineTerminator(line[k]) {
      assert line[k] == path[k - off];
    }
    assert line[c.p] == path[|before|];
    assert line[c.q..c.q + 4] == path[c.q - off..c.q - off + 4];
    assert line[c.t] == path[c.t - off];
  }

  /** The lazy groups of `c` pass no earlier place where the rest could follow, and the
      second whitespace run cannot grow. */
  predicate Earliest(s: string, c: Cut) {
    0 <= c.w2 < |s| && !IsRegexSpace(s[c.w2]) && c.p <= |s| && 0 <= c.q && c.t <= |s|
    && (forall k | c.w2 <= k < c.p :: s[k] != '{')
    && (forall i | c.p + 1 <= i < c.q :: !OccursAt(s, " => ", i))
    && (forall k | c.q + 4 <= k < c.t :: s[k] != '}')
  }

  /** A cut is the reported match when it covers the line and is the earliest. */
  lemma ReportedCutIff(s: string, c: Cut)
    requires IsMatch(s, c) && Earliest(s, c)
    ensures MatchComplex(s) == Some(c)
  {
    CutIsLeftmost(s, c);
    MatchComplexIsMatch(s);
    CutUnique(s, MatchComplex(s).value, c);
  }

  /** A covering cut that agrees with `c` on the counts, reaches no shorter in the second
      whitespace run and no further in the lazy groups is `c` itself, when `c` is the
      earliest. */
  lemma CutUnique(s: string, r: Cut, c: Cut)
    requires IsMatch(s, r) && IsMatch(s, c) && Earliest(s, c)
    requires r.a == c.a && r.w1 == c.w1 && r.d == c.d
    requires c.w2 <= r.w2 && r.p <= c.p && r.q <= c.q && r.t <= c.t
    ensures r == c
  {
  }

  /** On a numstat line with a brace path, the match reported is the cut made of the
      line's own parts, provided `before` holds no `{` and does not start with
      whitespace, ` => ` first occurs after `from`, and `target` holds no `}`. */
  lemma ReportedCut(line: string, adds: int, dels: int, sep: char, before: string, from: string, target: string, after: string)
    requires line == NumstatLine(adds, dels, sep, BracePath(before, from, target, after))
    requires IsRegexSpace(sep)
    requires NoTerminator(before) && NoTerminator(from) && NoTerminator(target) && NoTerminator(after)
    requires Lacks(before, '{') && (before == [] || !IsRegexSpace(before[0]))
    requires forall i | 0 <= i < |from| :: !OccursAt(from + " => ", " => ", i)
    requires Lacks(target, '}')
    ensures MatchComplex(line) == Some(BraceCut(adds, dels, before, from, target))
  {
    var c := BraceCut(adds, dels, before, from, target);
    BraceLineCut(line, adds, dels, sep, before, from, target, after);
    LazyStops(line, c, before, from, target, after);
    ReportedCutIff(line, c);
  }

  /** In a line ending with a brace path, nothing before the path's own `{`, ` => ` and
      `}` can stop the lazy groups. */
  lemma LazyStops(line: string, c: Cut, before: string, from: string, target: string, after: string)
    requires BraceAt(line, c, before, from, target, after)
    requires Lacks(before, '{') && (before == [] || !IsRegexSpace(before[0]))
    requires forall i | 0 <= i < |from| :: !OccursAt(from + " => ", " => ", i)
    requires Lacks(target, '}')
    ensures Earliest(line, c)
  {
    var path := BracePath(before, from, target, after);
    BracePathParts(before, from, target, after);
    SuffixSlice(line, c.w2, c.w2, c.p);
    BeforeStops(line, c.w2, before);
    SuffixSlice(line, c.w2, c.p + 1, c.q + 4);
    FromStops(line, c.p + 1, from);
    SuffixSlice(line, c.w2, c.q + 4, c.t);
    TargetStops(line, c.q + 4, target);
  }

  /** `before` holds no `{` and starts with no whitespace. */
  lemma BeforeStops(line: string, i: nat, before: string)
    requires i < |line| && i + |before| <= |line| && line[i..i + |before|] == before
    requires before == [] ==> line[i] == '{'
    requires Lacks(before, '{') && (before == [] || !IsRegexSpace(before[0]))
    ensures !IsRegexSpace(line[i]) && forall k | i <= k < i + |before| :: line[k] != '{'
  {
    forall k | i <= k < i + |before| ensures line[k] == before[k - i] {
      assert line[k] == line[i..i + |before|][k - i];
    }
  }

  /** The first ` => ` after `{` is the one after `from`. */
  lemma FromStops(line: string, i: nat, from: string)
    requires i + |from| + 4 <= |line| && line[i..i + |from| + 4] == from + " => "
    requires forall j | 0 <= j < |from| :: !OccursAt(from + " => ", " => ", j)
    ensures forall j | i <= j < i + |from| :: !OccursAt(line, " => ", j)
  {
    var tail := from + " => ";
    forall j | i <= j < i + |from| ensures !OccursAt(line, " => ", j) {
      if OccursAt(line, " => ", j) {
        SubSlice(line, i, i + |from| + 4, j - i, j - i + 4);
        assert tail[j - i..j - i + 4] == " => ";
        assert OccursAt(from + " => ", " => ", j - i);
      }
    }
  }

  /** `target` holds no `}`. */
  lemma TargetStops(line: string, i: nat, target: string)
    requires i + |target| <= |line| && line[i..i + |target|] == target
    requires Lacks(target, '}')
    ensures forall k | i <= k < i + |target| :: line[k] != '}'
  {
    forall k | i <= k < i + |target| ensures line[k] == target[k - i] {
      assert line[k] == line[i..i + |target|][k - i];
    }
  }

  /** Round trip for a rename inside a directory: the parsed file name is the new path,
      `before`, `target` and `after` put together, and the counts read back as printed. */
  lemma BraceRoundTrip(line: string, adds: int, dels: int, sep: char, before: string, from: string, target: string, after: string)
    requires line == NumstatLine(adds, dels, sep, BracePath(before, from, target, after))
    requires adds <= INT_MAX && dels <= INT_MAX && IsRegexSpace(sep)
    requires NoTerminator(before) && NoTerminator(from) && NoTerminator(target) && NoTerminator(after)
    requires Lacks(before, '{') && (before == [] || !IsRegexSpace(before[0]))
    requires forall i | 0 <= i < |from| :: !OccursAt(from + " => ", " => ", i)
    requires Lacks(target, '}')
    ensures ParseLine(line) == Ok(FileChanges(before + target + after, CountValue(adds), CountValue(dels)))
  {
    var c := BraceCut(adds, dels, before, from, target);
    ReportedCut(line, adds, dels, sep, before, from, target, after);
    BraceLineCut(line, adds, dels, sep, before, from, target, after);
    NumstatCounts(line, adds, dels, sep, before, from, target, after);
    BraceLineRead(line, c, adds, dels, before, from, target, after);
  }

  /** A line the pattern matches along `c`, whose groups read as `name`, `adds` and
      `dels`. */
  predicate ParsesAs(line: string, c: Cut, name: string, adds: int, dels: int) {
    Ordered(c, |line|) && MatchComplex(line) == Some(c) && Contains(line, "=>")
    && line[c.w2..c.p] + line[c.q + 4..c.t] + line[c.t + 1..] == name
    && ParseCount(line[..c.a]) == Ok(adds) && ParseCount(line[c.w1..c.d]) == Ok(dels)
  }

  lemma BraceLineParsed(line: string, c: Cut, name: string, adds: int, dels: int)
    requires ParsesAs(line, c, name, adds, dels)
    ensures ParseLine(line) == Ok(FileChanges(name, adds, dels))
  {
    ComplexLineOk(line, c, name, line[..c.a], line[c.w1..c.d], adds, dels);
  }

  /** A line matched along `c`, whose brace path starts at `c.w2` and whose counts are
      printed from `adds` and `dels`, is read back as the new path and the counts. */
  lemma BraceLineRead(line: string, c: Cut, adds: int, dels: int, before: string, from: string, target: string, after: string)
    requires adds <= INT_MAX && dels <= INT_MAX
    requires MatchComplex(line) == Some(c) && BraceAt(line, c, before, from, target, after)
    requires CountsAt(line, c, adds, dels)
    ensures ParseLine(line) == Ok(FileChanges(before + target + after, CountValue(adds), CountValue(dels)))
  {
    MatchComplexIsMatch(line);
    BraceGroups(line, c, before, from, target, after);
    BraceHasArrow(line, c, before, from, target, after);
    ParseCountText(adds);
    ParseCountText(dels);
    BraceLineParsed(line, c, before + target + after, CountValue(adds), CountValue(dels));
  }

  /** The counts groups of `c` hold the printed counts. */
  predicate CountsAt(line: string, c: Cut, adds: int, dels: int) {
    0 <= c.a <= c.w1 <= c.d <= |line| && line[..c.a] == CountText(adds) && line[c.w1..c.d] == CountText(dels)
  }

  lemma NumstatCounts(line: string, adds: int, dels: int, sep: char, before: string, from: string, target: string, after: string)
    requires line == NumstatLine(adds, dels, sep, BracePath(before, from, target, after))
    ensures CountsAt(line, BraceCut(adds, dels, before, from, target), adds, dels)
  {
    NumstatLineParts(adds, dels, sep, BracePath(before, from, target, after));
  }

  /** The file name groups of a brace line are its path without the braces and `from`. */
  lemma BraceGroups(line: string, c: Cut, before: string, from: string, target: string, after: string)
    requires BraceAt(line, c, before, from, target, after)
    ensures c.t < |line| && line[c.w2..c.p] + line[c.q + 4..c.t] + line[c.t + 1..] == before + target + after
  {
    BraceSlices(line, c.w2, before, from, target, after);
  }

  /** A brace line holds `=>`, so `parseLine` reads it as a rename. */
  lemma BraceHasArrow(line: string, c: Cut, before: string, from: string, target: string, after: string)
    requires BraceAt(line, c, before, from, target, after)
    ensures Contains(line, "=>")
  {
    BraceSlices(line, c.w2, before, from, target, after);
    ContainsIff(line, "=>");
  }

  lemma ComplexLineOk(line: string, c: Cut, name: string, ca: string, cd: string, adds: int, dels: int)
    requires MatchComplex(line) == Some(c) && Contains(line, "=>")
    requires Ordered(c, |line|) && line[c.w2..c.p] + line[c.q + 4..c.t] + line[c.t + 1..] == name
    requires line[..c.a] == ca && line[c.w1..c.d] == cd
    requires ParseCount(ca) == Ok(adds) && ParseCount(cd) == Ok(dels)
    ensures ParseLine(line) == Ok(FileChanges(name, adds, dels))
  {
    ComplexParsed(line, c, name, adds, dels);
  }

  lemma ComplexParsed(line: string, c: Cut, name: string, adds: int, dels: int)
    requires MatchComplex(line) == Some(c)
    requires line[c.w2..c.p] + line[c.q + 4..c.t] + line[c.t + 1..] == name
    requires ParseCount(line[..c.a]) == Ok(adds) && ParseCount(line[c.w1..c.d]) == Ok(dels)
    ensures ParseComplexLine(line) == Ok(FileChanges(name, adds, dels))
  {
    MatchedGroups(line, c);
    GroupsRead(line, c, name, adds, dels);
  }

  lemma MatchedGroups(line: string, c: Cut)
    requires MatchComplex(line) == Some(c)
    ensures Ordered(c, |line|) && ParseComplexLine(line) == ReadGroups(line, c)
  {
  }

  lemma GroupsRead(line: string, c: Cut, name: string, adds: int, dels: int)
    requires Ordered(c, |line|)
    requires line[c.w2..c.p] + line[c.q + 4..c.t] + line[c.t + 1..] == name
    requires ParseCount(line[..c.a]) == Ok(adds) && ParseCount(line[c.w1..c.d]) == Ok(dels)
    ensures ReadGroups(line, c) == Ok(FileChanges(name, adds, dels))
  {
  }

  /** The groups of a line ending with a brace path, and the `=>` it holds. */
  lemma BraceSlices(line: string, off: nat, before: string, from: string, target: string, after: string)
    requires off <= |line| && line[off..] == BracePath(before, from, target, after)
    ensures var p := off + |before|; var q := p + 1 + |from|; var t := q + 4 + |target|;
      t < |line| && line[off..p] == before && line[q + 4..t] == target && line[t + 1..] == after
      && OccursAt(line, "=>", q + 1)
  {
    var path := BracePath(before, from, target, after);
    BracePathParts(before, from, target, after);
    var p := off + |before|;
    var q := p + 1 + |from|;
    var t := q + 4 + |target|;
    assert |line| == off + |path|;
    assert line[off..p] == path[..|before|];
    SuffixSlice(line, off, q + 4, t);
    assert line[t + 1..] == path[t + 1 - off..];
    assert line[q..q + 4] == path[q - off..q - off + 4];
  }

  lemma SuffixSlice(s: string, off: nat, i: nat, j: nat)
    requires off <= i <= j <= |s|
    ensures s[i..j] == s[off..][i - off..j - off]
  {
  }

  lemma SubSlice(s: string, i: nat, e: nat, a: nat, b: nat)
    requires i <= e <= |s| && a <= b <= e - i
    ensures s[i..e][a..b] == s[i + a..i + b]
  {
    assert forall k | 0 <= k < b - a :: s[i..e][a..b][k] == s[i + a + k];
  }
}
