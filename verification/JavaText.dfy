/** The parts of `java.lang.String`, `Character`, `Integer`, `Long` and
    `java.util.regex` that the readers and writers rely on, written out once.
    Strings are sequences of Unicode code points. */
module JavaText {
  import opened Outcomes
  import opened Sequences

  // ---------------------------------------------------------------------------
  // Character classes
  // ---------------------------------------------------------------------------

  /** `Character.isWhitespace`: the Unicode space, line and paragraph separators
      except the non-breaking ones, plus U+0009..U+000D and U+001C..U+001F. */
  predicate IsWhitespace(c: char) {
    var n := c as int;
    (9 <= n <= 13) || (0x1C <= n <= 0x20) || n == 0x1680
    || (0x2000 <= n <= 0x2006) || (0x2008 <= n <= 0x200A)
    || n == 0x2028 || n == 0x2029 || n == 0x205F || n == 0x3000
  }

  /** The regular-expression class `\s` (without UNICODE_CHARACTER_CLASS):
      space, tab, newline, vertical tab, form feed, carriage return. */
  predicate IsRegexSpace(c: char) {
    c == ' ' || (9 <= c as int <= 13)
  }

  /** The characters the regular-expression `.` does not match (without DOTALL): the
      line terminators. */
  predicate IsLineTerminator(c: char) {
    var n := c as int;
    n == 10 || n == 13 || n == 0x85 || n == 0x2028 || n == 0x2029
  }

  predicate IsTab(c: char) {
    c == '\t'
  }

  /** The regular-expression class `\d`: ASCII digits only. */
  predicate IsAsciiDigit(c: char) {
    '0' <= c <= '9'
  }

  predicate AllDigits(s: string) {
    forall i | 0 <= i < |s| :: IsAsciiDigit(s[i])
  }

  /** `String.isBlank`: empty or made only of `Character.isWhitespace` code points. */
  predicate IsBlank(s: string) {
    forall i | 0 <= i < |s| :: IsWhitespace(s[i])
  }

  // ---------------------------------------------------------------------------
  // Searching
  // ---------------------------------------------------------------------------

  predicate StartsWith(s: string, prefix: string) {
    |prefix| <= |s| && s[..|prefix|] == prefix
  }

  predicate EndsWith(s: string, suffix: string) {
    |suffix| <= |s| && s[|s| - |suffix|..] == suffix
  }

  /** `p` occurs in `s` starting at index `i`. */
  predicate OccursAt(s: string, p: string, i: int) {
    0 <= i && i + |p| <= |s| && s[i..i + |p|] == p
  }

  /** `String.indexOf(p, from)`: the first occurrence at or after `from`, or -1. */
  function IndexOfFrom(s: string, p: string, from: nat): (r: int)
    ensures r == -1 || (from <= r && OccursAt(s, p, r))
    ensures r == -1 ==> forall j | from <= j :: !OccursAt(s, p, j)
    ensures r != -1 ==> forall j | from <= j < r :: !OccursAt(s, p, j)
    decreases |s| + 1 - from
  {
    if from + |p| > |s| then -1
    else if s[from..from + |p|] == p then from
    else IndexOfFrom(s, p, from + 1)
  }

  /** `String.indexOf(p)`. */
  function IndexOf(s: string, p: string): int {
    IndexOfFrom(s, p, 0)
  }

  /** `String.contains(p)`. */
  predicate Contains(s: string, p: string) {
    IndexOf(s, p) >= 0
  }

  lemma ContainsIff(s: string, p: string)
    ensures Contains(s, p) <==> exists i :: OccursAt(s, p, i)
  {
    if !Contains(s, p) {
      forall i ensures !OccursAt(s, p, i) {
        if 0 <= i {
          assert IndexOfFrom(s, p, 0) == -1;
        }
      }
    }
  }

  /** A text without the first character of `p` does not contain `p`. */
  lemma NotContainsChar(s: string, p: string)
    requires |p| >= 1 && forall k | 0 <= k < |s| :: s[k] != p[0]
    ensures !Contains(s, p)
  {
    ContainsIff(s, p);
    forall i | 0 <= i && i + |p| <= |s| ensures !OccursAt(s, p, i) {
      assert s[i..i + |p|][0] == s[i];
    }
  }

  // ---------------------------------------------------------------------------
  // Trimming
  // ---------------------------------------------------------------------------

  /** The first index from `st` on that holds a code point above U+0020, or `|s|`:
      the first scan of `String.trim`. */
  function TrimFrom(s: string, st: nat): (r: nat)
    requires st <= |s|
    ensures st <= r <= |s| && (r == |s| || s[r] > ' ')
    ensures forall k | st <= k < r :: s[k] <= ' '
    decreases |s| - st
  {
    if st < |s| && s[st] <= ' ' then TrimFrom(s, st + 1) else st
  }

  /** The end, at most `len` and at least `st`, after which `s[..len]` holds only code
      points at or below U+0020: the second scan of `String.trim`. */
  function TrimTo(s: string, st: nat, len: nat): (r: nat)
    requires st <= len <= |s|
    ensures st <= r <= len && (r == st || s[r - 1] > ' ')
    ensures forall k | r <= k < len :: s[k] <= ' '
  {
    if st < len && s[len - 1] <= ' ' then TrimTo(s, st, len - 1) else len
  }

  /** `r` is `s` without a leading run (of length `i`) and a trailing run of code
      points at or below U+0020, and neither end of `r` is such a code point. */
  predicate IsTrimOf(r: string, s: string, i: int) {
    0 <= i && i + |r| <= |s| && r == s[i..i + |r|]
    && (forall k | 0 <= k < i :: s[k] <= ' ')
    && (forall k | i + |r| <= k < |s| :: s[k] <= ' ')
    && (r == [] || (r[0] > ' ' && r[|r| - 1] > ' '))
  }

  /** `String.trim`: drops every leading and trailing code point at or below U+0020. */
  function Trim(s: string): (r: string)
  {
    var st := TrimFrom(s, 0);
    s[st..TrimTo(s, st, |s|)]
  }

  lemma TrimSpec(s: string)
    ensures IsTrimOf(Trim(s), s, TrimFrom(s, 0))
  {
    var st := TrimFrom(s, 0);
    var len := TrimTo(s, st, |s|);
    assert Trim(s) == s[st..len];
    if st < len {
      assert s[st..len][0] == s[st] && s[st..len][len - st - 1] == s[len - 1];
    }
  }

  /** The first scan stops at the first code point above U+0020. */
  lemma TrimFromAt(s: string, i: nat)
    requires i < |s| && s[i] > ' ' && forall k | 0 <= k < i :: s[k] <= ' '
    ensures TrimFrom(s, 0) == i
  {
    var r := TrimFrom(s, 0);
    if r < i {
      assert false;
    } else if r > i {
      assert false;
    }
  }

  /** The second scan stops after the last code point above U+0020. */
  lemma TrimToAt(s: string, st: nat, e: nat)
    requires st < e <= |s| && s[e - 1] > ' ' && forall k | e <= k < |s| :: s[k] <= ' '
    ensures TrimTo(s, st, |s|) == e
  {
    var r := TrimTo(s, st, |s|);
    if r < e {
      assert false;
    } else if r > e {
      assert false;
    }
  }

  /** `trim` gives back a text padded on both sides with code points at or below
      U+0020, provided neither end of the text is one. */
  lemma TrimPadded(pre: string, t: string, post: string)
    requires forall k | 0 <= k < |pre| :: pre[k] <= ' '
    requires forall k | 0 <= k < |post| :: post[k] <= ' '
    requires t != [] && t[0] > ' ' && t[|t| - 1] > ' '
    ensures Trim(pre + t + post) == t
  {
    var s := pre + t + post;
    var e := |pre| + |t|;
    assert s[|pre|] == t[0] && s[e - 1] == t[|t| - 1];
    forall k | 0 <= k < |pre| ensures s[k] <= ' ' {
      assert s[k] == pre[k];
    }
    forall k | e <= k < |s| ensures s[k] <= ' ' {
      assert s[k] == post[k - e];
    }
    TrimFromAt(s, |pre|);
    TrimToAt(s, |pre|, e);
    assert s[|pre|..e] == t;
  }

  /** Trimming twice is trimming once. */
  lemma TrimTwice(s: string)
    ensures Trim(Trim(s)) == Trim(s)
  {
    var r := Trim(s);
    TrimSpec(s);
    if r != [] {
      assert "" + r + "" == r;
      TrimPadded("", r, "");
    }
  }

  // ---------------------------------------------------------------------------
  // Splitting
  // ---------------------------------------------------------------------------

  predicate HasSeparator(s: string, isSep: char -> bool) {
    exists i | 0 <= i < |s| :: isSep(s[i])
  }

  /** The pieces of `s` between single separator characters: one more piece than
      there are separators, empty pieces included. */
  function Pieces(s: string, isSep: char -> bool): (r: seq<string>)
    ensures |r| >= 1
    ensures forall i | 0 <= i < |r| :: !HasSeparator(r[i], isSep)
  {
    if s == [] then [""]
    else
      var rest := Pieces(s[1..], isSep);
      if isSep(s[0]) then [""] + rest
      else
        assert forall i | 0 <= i < |rest[0]| :: ([s[0]] + rest[0])[i + 1] == rest[0][i];
        [[s[0]] + rest[0]] + rest[1..]
  }

  /** The non-empty strings of `p`, in order. */
  function NonEmpty(p: seq<string>): (r: seq<string>)
    ensures forall i | 0 <= i < |r| :: r[i] != "" && r[i] in p
  {
    if p == [] then []
    else if p[0] == "" then NonEmpty(p[1..])
    else [p[0]] + NonEmpty(p[1..])
  }

  /** What `String.split` does to its raw result: trailing empty strings are dropped. */
  function DropTrailingEmpty(p: seq<string>): (r: seq<string>)
    ensures |r| <= |p| && r == p[..|r|]
    ensures forall i | 0 <= i < |r| :: r[i] == p[i]
    ensures r == [] || r[|r| - 1] != ""
    ensures forall i | |r| <= i < |p| :: p[i] == ""
  {
    if |p| > 0 && p[|p| - 1] == "" then DropTrailingEmpty(p[..|p| - 1]) else p
  }

  /** `s.split("\\s+")`: without a whitespace character the result is `[s]` (even for
      the empty string); otherwise the string is cut at every maximal run of `\s`, a
      leading run giving an empty first field, and trailing empty fields are dropped. */
  function SplitWhitespace(s: string): (r: seq<string>)
    ensures forall i | 0 <= i < |r| :: !HasSeparator(r[i], IsRegexSpace)
    ensures forall i | 1 <= i < |r| :: r[i] != ""
  {
    if !HasSeparator(s, IsRegexSpace) then [s]
    else
      var p := Pieces(s, IsRegexSpace);
      var q := [p[0]] + NonEmpty(p[1..]);
      assert forall i | 0 <= i < |q| :: !HasSeparator(q[i], IsRegexSpace) by {
        forall i | 0 <= i < |q| ensures !HasSeparator(q[i], IsRegexSpace) {
          if i > 0 {
            var j :| 0 <= j < |p[1..]| && p[1..][j] == q[i];
            assert p[j + 1] == q[i];
          }
        }
      }
      DropTrailingEmpty(q)
  }

  /** `s.split("\\t")`: without a tab the result is `[s]`; otherwise the string is cut
      at every tab (consecutive tabs give empty fields) and trailing empty fields are
      dropped. */
  function SplitTab(s: string): (r: seq<string>)
    ensures forall i | 0 <= i < |r| :: !HasSeparator(r[i], IsTab)
  {
    if !HasSeparator(s, IsTab) then [s]
    else DropTrailingEmpty(Pieces(s, IsTab))
  }

  /** The fields joined with one separator character between consecutive ones. */
  function Join(fields: seq<string>, sep: char): string
    requires |fields| >= 1
  {
    if |fields| == 1 then fields[0] else fields[0] + [sep] + Join(fields[1..], sep)
  }

  lemma {:induction false} PiecesOfJoin(fields: seq<string>, sep: char, isSep: char -> bool)
    requires |fields| >= 1
    requires isSep(sep)
    requires forall i | 0 <= i < |fields| :: !HasSeparator(fields[i], isSep)
    ensures Pieces(Join(fields, sep), isSep) == fields
  {
    if |fields| == 1 {
      PiecesOfPlain(fields[0], isSep);
    } else {
      PiecesOfJoin(fields[1..], sep, isSep);
      PiecesPrefix(fields[0], [sep] + Join(fields[1..], sep), isSep);
      assert ([sep] + Join(fields[1..], sep))[1..] == Join(fields[1..], sep);
      assert fields[0] + [sep] + Join(fields[1..], sep) == fields[0] + ([sep] + Join(fields[1..], sep));
    }
  }

  lemma {:induction false} PiecesOfPlain(s: string, isSep: char -> bool)
    requires !HasSeparator(s, isSep)
    ensures Pieces(s, isSep) == [s]
  {
    if s != [] {
      assert !HasSeparator(s[1..], isSep) by {
        forall i | 0 <= i < |s[1..]| ensures !isSep(s[1..][i]) {
          assert s[1..][i] == s[i + 1];
        }
      }
      PiecesOfPlain(s[1..], isSep);
      assert [s[0]] + s[1..] == s;
    }
  }

  /** A separator-free prefix becomes the first piece. */
  lemma {:induction false} PiecesPrefix(a: string, b: string, isSep: char -> bool)
    requires !HasSeparator(a, isSep)
    requires |b| >= 1 && isSep(b[0])
    ensures Pieces(a + b, isSep) == [a] + Pieces(b[1..], isSep)
  {
    if a == [] {
      assert a + b == b;
    } else {
      assert !HasSeparator(a[1..], isSep) by {
        forall i | 0 <= i < |a[1..]| ensures !isSep(a[1..][i]) {
          assert a[1..][i] == a[i + 1];
        }
      }
      PiecesPrefix(a[1..], b, isSep);
      assert (a + b)[1..] == a[1..] + b;
      assert (a + b)[0] == a[0];
      assert [a[0]] + a[1..] == a;
    }
  }

  lemma JoinHasSeparator(fields: seq<string>, sep: char, isSep: char -> bool)
    requires |fields| >= 2 && isSep(sep)
    ensures HasSeparator(Join(fields, sep), isSep)
  {
    assert Join(fields, sep)[|fields[0]|] == sep;
  }

  lemma {:induction false} NonEmptyOfNonEmpty(p: seq<string>)
    requires forall i | 0 <= i < |p| :: p[i] != ""
    ensures NonEmpty(p) == p
  {
    if p != [] {
      NonEmptyOfNonEmpty(p[1..]);
    }
  }

  /** Round trip: splitting non-empty, whitespace-free fields joined by one `\s`
      character on `\s+` gives back the fields. */
  lemma SplitWhitespaceOfJoin(fields: seq<string>, sep: char)
    requires |fields| >= 1 && IsRegexSpace(sep)
    requires forall i | 0 <= i < |fields| :: fields[i] != "" && !HasSeparator(fields[i], IsRegexSpace)
    ensures SplitWhitespace(Join(fields, sep)) == fields
  {
    if |fields| == 1 {
    } else {
      JoinHasSeparator(fields, sep, IsRegexSpace);
      PiecesOfJoin(fields, sep, IsRegexSpace);
      NonEmptyOfNonEmpty(fields[1..]);
      assert [fields[0]] + fields[1..] == fields;
    }
  }

  /** Round trip: splitting tab-joined, tab-free fields on `\t` gives back the fields,
      empty middle fields included, provided the last field is not empty. */
  lemma SplitTabOfJoin(fields: seq<string>)
    requires |fields| >= 2
    requires forall i | 0 <= i < |fields| :: !HasSeparator(fields[i], IsTab)
    requires fields[|fields| - 1] != ""
    ensures SplitTab(Join(fields, '\t')) == fields
  {
    JoinHasSeparator(fields, '\t', IsTab);
    PiecesOfJoin(fields, '\t', IsTab);
  }

  /** Cutting at one separator: the pieces of the two sides, one after the other. */
  lemma {:induction false} PiecesAppendSep(a: string, c: char, b: string, isSep: char -> bool)
    requires isSep(c)
    ensures Pieces(a + [c] + b, isSep) == Pieces(a, isSep) + Pieces(b, isSep)
  {
    var s := a + [c] + b;
    var pb := Pieces(b, isSep);
    if a == [] {
      assert s == [c] + b;
      assert s[1..] == b;
      AppendNil(pb);
    } else {
      PiecesAppendSep(a[1..], c, b, isSep);
      assert s[1..] == a[1..] + [c] + b;
      assert s[0] == a[0];
      var pa := Pieces(a[1..], isSep);
      if isSep(a[0]) {
        AppendAssoc([""], pa, pb);
      } else {
        HeadMerge([a[0]], pa, pb);
      }
    }
  }

  /** Extending the first piece of `pa + pb` extends the first piece of `pa`. */
  /** Two separator-free texts, each followed by the separator `c`, are the first two
      pieces. */
  lemma PiecesOfTwoPlain(a: string, b: string, c: char, rest: string, isSep: char -> bool)
    requires isSep(c) && !HasSeparator(a, isSep) && !HasSeparator(b, isSep)
    ensures Pieces(a + [c] + b + [c] + rest, isSep) == [a, b] + Pieces(rest, isSep)
  {
    PiecesOfPlain(b, isSep);
    PiecesAppendSep(b, c, rest, isSep);
    PiecesOfPlain(a, isSep);
    PiecesAppendSep(a, c, b + [c] + rest, isSep);
    AppendAssoc(a + [c], b, [c]);
    AppendAssoc(a + [c], b + [c], rest);
    AppendAssoc([a], [b], Pieces(rest, isSep));
    assert [a] + [b] == [a, b];
  }

  lemma HeadMerge(h: string, pa: seq<string>, pb: seq<string>)
    requires |pa| >= 1
    ensures [h + (pa + pb)[0]] + (pa + pb)[1..] == [h + pa[0]] + pa[1..] + pb
  {
    assert (pa + pb)[1..] == pa[1..] + pb;
  }

  /** Splitting on `\s+` a text whose pieces are all non-empty gives those pieces, as
      soon as the text holds a whitespace character. */
  lemma SplitWhitespaceOfPieces(s: string, fields: seq<string>)
    requires HasSeparator(s, IsRegexSpace) && Pieces(s, IsRegexSpace) == fields
    requires forall i | 0 <= i < |fields| :: fields[i] != ""
    ensures SplitWhitespace(s) == fields
  {
    NonEmptyOfNonEmpty(fields[1..]);
    assert [fields[0]] + fields[1..] == fields;
  }

  /** A leading whitespace run gives an empty first field, as soon as some field follows. */
  lemma SplitWhitespaceLeadingRun(s: string)
    requires |s| >= 1 && IsRegexSpace(s[0])
    requires exists i | 0 <= i < |s| :: !IsRegexSpace(s[i])
    ensures |SplitWhitespace(s)| >= 2 && SplitWhitespace(s)[0] == ""
  {
    var k :| 0 <= k < |s| && !IsRegexSpace(s[k]);
    var p := Pieces(s, IsRegexSpace);
    assert p == [""] + Pieces(s[1..], IsRegexSpace);
    PieceWithChar(s, k, IsRegexSpace);
    var q := [p[0]] + NonEmpty(p[1..]);
    NonEmptyKeeps(p[1..]);
    assert |NonEmpty(p[1..])| >= 1;
    assert q[|q| - 1] != "";
  }

  /** A non-separator character ends up in some piece after the first when the string
      starts with a separator. */
  lemma {:induction false} PieceWithChar(s: string, k: nat, isSep: char -> bool)
    requires k < |s| && !isSep(s[k]) && isSep(s[0])
    ensures exists j | 1 <= j < |Pieces(s, isSep)| :: Pieces(s, isSep)[j] != ""
  {
    var rest := Pieces(s[1..], isSep);
    NonSepInSomePiece(s[1..], k - 1, isSep);
    var j :| 0 <= j < |rest| && rest[j] != "";
    assert Pieces(s, isSep)[j + 1] == rest[j];
  }

  lemma {:induction false} NonSepInSomePiece(s: string, k: nat, isSep: char -> bool)
    requires k < |s| && !isSep(s[k])
    ensures exists j | 0 <= j < |Pieces(s, isSep)| :: Pieces(s, isSep)[j] != ""
  {
    var rest := Pieces(s[1..], isSep);
    if k == 0 {
      assert Pieces(s, isSep)[0] == [s[0]] + rest[0];
    } else {
      NonSepInSomePiece(s[1..], k - 1, isSep);
      var j :| 0 <= j < |rest| && rest[j] != "";
      if isSep(s[0]) {
        assert Pieces(s, isSep)[j + 1] == rest[j];
      } else if j == 0 {
        assert Pieces(s, isSep)[0] == [s[0]] + rest[0];
      } else {
        assert Pieces(s, isSep)[j] == rest[j];
      }
    }
  }

  lemma {:induction false} NonEmptyKeeps(p: seq<string>)
    requires exists j | 0 <= j < |p| :: p[j] != ""
    ensures |NonEmpty(p)| >= 1
  {
    if p[0] == "" {
      var j :| 0 <= j < |p| && p[j] != "";
      assert p[1..][j - 1] == p[j];
      NonEmptyKeeps(p[1..]);
    }
  }

  // ---------------------------------------------------------------------------
  // Lines of a text (`String.lines`, `BufferedReader.lines`)
  // ---------------------------------------------------------------------------

  predicate IsLineBreak(c: char) {
    c == '\n' || c == '\r'
  }

  /** The index of the first `\n` or `\r` at or after `from`, or `|t|`. */
  function LineEnd(t: string, from: nat): (r: nat)
    requires from <= |t|
    ensures from <= r <= |t|
    ensures r < |t| ==> IsLineBreak(t[r])
    ensures forall j | from <= j < r :: !IsLineBreak(t[j])
    decreases |t| - from
  {
    if from == |t| || IsLineBreak(t[from]) then from else LineEnd(t, from + 1)
  }

  /** The lines of a text, as `String.lines()` and `BufferedReader.lines()` give them:
      a line ends at `\n`, `\r` or `\r\n`; the terminator is not part of the line; a
      final terminator does not start an extra empty line. */
  function Lines(t: string): (r: seq<string>)
    ensures forall i | 0 <= i < |r| :: !HasSeparator(r[i], IsLineBreak)
    ensures t == [] <==> r == []
    decreases |t|
  {
    if t == [] then []
    else
      var e := LineEnd(t, 0);
      var line := t[..e];
      assert !HasSeparator(line, IsLineBreak) by {
        forall j | 0 <= j < |line| ensures !IsLineBreak(line[j]) { assert line[j] == t[j]; }
      }
      if e == |t| then [line]
      else if t[e] == '\r' && e + 1 < |t| && t[e + 1] == '\n' then [line] + Lines(t[e + 2..])
      else [line] + Lines(t[e + 1..])
  }

  /** The text made of each line followed by `\n`. */
  function Unlines(ls: seq<string>): string {
    if ls == [] then "" else ls[0] + "\n" + Unlines(ls[1..])
  }

  /** Round trip: the lines of newline-terminated lines are those lines. */
  lemma {:induction false} LinesOfUnlines(ls: seq<string>)
    requires forall i | 0 <= i < |ls| :: !HasSeparator(ls[i], IsLineBreak)
    ensures Lines(Unlines(ls)) == ls
  {
    if ls != [] {
      var t := Unlines(ls);
      var l := ls[0];
      assert t == l + ("\n" + Unlines(ls[1..]));
      assert forall j | 0 <= j < |l| :: t[j] == l[j];
      assert t[|l|] == '\n';
      assert LineEnd(t, 0) == |l| by { LineEndAt(t, 0, |l|); }
      assert t[..|l|] == l;
      assert t[|l| + 1..] == Unlines(ls[1..]);
      LinesOfUnlines(ls[1..]);
    }
  }

  /** `Stream.skip(1)`: everything but the first element, if any. */
  function SkipFirst(lines: seq<string>): (r: seq<string>)
    ensures lines == [] ==> r == []
    ensures lines != [] ==> lines == [lines[0]] + r
  {
    if lines == [] then [] else lines[1..]
  }

  /** `filter(not(String::isBlank))` on a stream of lines. */
  function NonBlank(lines: seq<string>): (r: seq<string>)
    ensures |r| <= |lines|
    ensures forall l | l in r :: l in lines && !IsBlank(l)
    ensures forall l | l in lines && !IsBlank(l) :: l in r
  {
    if lines == [] then []
    else
      var init := NonBlank(lines[..|lines| - 1]);
      var last := lines[|lines| - 1];
      assert lines == lines[..|lines| - 1] + [last];
      if IsBlank(last) then init else init + [last]
  }

  lemma {:induction false} NonBlankAppend(a: seq<string>, b: seq<string>)
    ensures NonBlank(a + b) == NonBlank(a) + NonBlank(b)
    decreases |b|
  {
    if b == [] {
      assert a + b == a;
    } else {
      var b' := b[..|b| - 1];
      NonBlankAppend(a, b');
      assert (a + b)[..|a + b| - 1] == a + b';
      assert (a + b)[|a + b| - 1] == b[|b| - 1];
      assert b == b' + [b[|b| - 1]];
      AppendAssoc(NonBlank(a), NonBlank(b'), [b[|b| - 1]]);
    }
  }

  /** Lines without any blank one are kept as they are. */
  lemma {:induction false} NonBlankKeeps(lines: seq<string>)
    requires forall k | 0 <= k < |lines| :: !IsBlank(lines[k])
    ensures NonBlank(lines) == lines
  {
    if lines != [] {
      NonBlankKeeps(lines[..|lines| - 1]);
      assert lines == lines[..|lines| - 1] + [lines[|lines| - 1]];
    }
  }

  lemma {:induction false} LineEndAt(t: string, from: nat, e: nat)
    requires from <= e < |t| && IsLineBreak(t[e])
    requires forall j | from <= j < e :: !IsLineBreak(t[j])
    ensures LineEnd(t, from) == e
    decreases e - from
  {
    if from < e {
      LineEndAt(t, from + 1, e);
    }
  }

  // ---------------------------------------------------------------------------
  // Decimal numbers
  // ---------------------------------------------------------------------------

  const INT_MIN: int := -0x8000_0000
  const INT_MAX: int := 0x7FFF_FFFF
  const LONG_MIN: int := -0x8000_0000_0000_0000
  const LONG_MAX: int := 0x7FFF_FFFF_FFFF_FFFF

  function DigitChar(d: nat): (c: char)
    requires d < 10
    ensures IsAsciiDigit(c)
  {
    (('0' as int) + d) as char
  }

  function DigitsValue(s: string): nat
    requires AllDigits(s)
  {
    if s == [] then 0
    else DigitsValue(s[..|s| - 1]) * 10 + ((s[|s| - 1] as int) - ('0' as int))
  }

  /** The decimal digits of `n`, without leading zeros. */
  function Decimal(n: nat): (r: string)
    ensures |r| >= 1 && AllDigits(r)
  {
    if n < 10 then [DigitChar(n)] else Decimal(n / 10) + [DigitChar(n % 10)]
  }

  lemma {:induction false} DecimalValue(n: nat)
    ensures DigitsValue(Decimal(n)) == n
  {
    if n >= 10 {
      DecimalValue(n / 10);
      var d := Decimal(n);
      assert d[..|d| - 1] == Decimal(n / 10);
    }
  }

  /** `%d` of an integer. */
  function FormatInt(i: int): string {
    if i < 0 then "-" + Decimal(-i) else Decimal(i)
  }

  function Zeros(k: nat): (r: string)
    ensures |r| == k && AllDigits(r)
  {
    if k == 0 then "" else "0" + Zeros(k - 1)
  }

  /** `%0<width>d` of a non-negative integer: zero-padded to at least `width` digits. */
  function ZeroPad(n: nat, width: nat): (r: string)
    ensures AllDigits(r)
  {
    var d := Decimal(n);
    if |d| >= width then d else Zeros(width - |d|) + d
  }

  lemma {:induction false} LeadingZerosValue(k: nat, s: string)
    requires AllDigits(s)
    ensures AllDigits(Zeros(k) + s) && DigitsValue(Zeros(k) + s) == DigitsValue(s) + 0
    decreases |s|
  {
    if s == [] {
      ZerosValue(k);
      assert Zeros(k) + s == Zeros(k);
    } else {
      var t := Zeros(k) + s;
      assert t[..|t| - 1] == Zeros(k) + s[..|s| - 1];
      LeadingZerosValue(k, s[..|s| - 1]);
    }
  }

  lemma {:induction false} ZerosValue(k: nat)
    ensures DigitsValue(Zeros(k)) == 0
  {
    if k > 0 {
      assert Zeros(k)[..k - 1] == Zeros(k - 1) by {
        ZerosAllZero(k);
        ZerosAllZero(k - 1);
      }
      ZerosValue(k - 1);
    }
  }

  lemma {:induction false} ZerosAllZero(k: nat)
    ensures forall i | 0 <= i < k :: Zeros(k)[i] == '0'
  {
    if k > 0 {
      ZerosAllZero(k - 1);
      assert forall i | 1 <= i < k :: Zeros(k)[i] == Zeros(k - 1)[i - 1];
    }
  }

  /** Padding keeps the value: reading back the padded digits gives the number. */
  lemma ZeroPadValue(n: nat, width: nat)
    ensures DigitsValue(ZeroPad(n, width)) == n
  {
    DecimalValue(n);
    var d := Decimal(n);
    if |d| < width {
      assert ZeroPad(n, width) == Zeros(width - |d|) + d;
      LeadingZerosValue(width - |d|, d);
    } else {
      assert ZeroPad(n, width) == d;
    }
  }

  /** Two different numbers never pad to the same text. */
  lemma ZeroPadInjective(a: nat, b: nat, width: nat)
    requires ZeroPad(a, width) == ZeroPad(b, width)
    ensures a == b
  {
    ZeroPadValue(a, width);
    ZeroPadValue(b, width);
  }

  /** The number of hundredths `%.2f` shows for `n / d`, rounding half up. */
  function Hundredths(n: nat, d: nat): (q: nat)
    requires d > 0
    ensures 2 * q * d <= 200 * n + d < 2 * q * d + 2 * d
  {
    var q := (200 * n + d) / (2 * d);
    DivBounds(200 * n + d, 2 * d);
    q
  }

  lemma DivBounds(a: nat, b: nat)
    requires b > 0
    ensures (a / b) * b <= a < (a / b) * b + b
  {
  }

  /** A number of hundredths written with two decimals. */
  function TwoDecimals(q: nat): string {
    Decimal(q / 100) + "." + ZeroPad(q % 100, 2)
  }

  /** `%.2f` of the exact ratio `n / d`: the sign, the whole part, a point and two digits,
      rounded half away from zero. */
  function FormatFixed2(n: int, d: nat): (r: string)
    requires d > 0
  {
    if n < 0 then "-" + TwoDecimals(Hundredths(-n, d)) else TwoDecimals(Hundredths(n, d))
  }

  /** `ZeroPad` to two places of a number below 100 gives exactly two digits. */
  lemma ZeroPadTwo(x: nat)
    requires x < 100
    ensures |ZeroPad(x, 2)| == 2
  {
    if x >= 10 {
      assert Decimal(x) == Decimal(x / 10) + [DigitChar(x % 10)];
    }
  }

  /** Reading two decimals back: digits, a point and two digits, worth `q` hundredths. */
  lemma TwoDecimalsValue(q: nat)
    ensures var t := TwoDecimals(q);
      |t| >= 4 && t[|t| - 3] == '.' && IsAsciiDigit(t[0])
      && AllDigits(t[..|t| - 3]) && AllDigits(t[|t| - 2..])
      && DigitsValue(t[..|t| - 3]) * 100 + DigitsValue(t[|t| - 2..]) == q
  {
    var whole := Decimal(q / 100);
    var frac := ZeroPad(q % 100, 2);
    ZeroPadTwo(q % 100);
    var t := TwoDecimals(q);
    assert t[..|t| - 3] == whole;
    assert t[|t| - 2..] == frac;
    assert t[0] == whole[0];
    DecimalValue(q / 100);
    ZeroPadValue(q % 100, 2);
  }

  /** Reading `%.2f` back: an optional minus sign exactly for a negative ratio, then the
      hundredths nearest to `|n| / d`, ties rounded up. */
  /** `%.2f` prints only digits, a point and a leading minus sign. */
  lemma FormatFixed2Chars(n: int, d: nat)
    requires d > 0
    ensures forall k | 0 <= k < |FormatFixed2(n, d)| ::
      var c := FormatFixed2(n, d)[k];
      IsAsciiDigit(c) || c == '.' || c == '-'
  {
    var q := Hundredths(if n < 0 then -n else n, d);
    var t := TwoDecimals(q);
    TwoDecimalsValue(q);
    assert forall k | 0 <= k < |t| :: IsAsciiDigit(t[k]) || t[k] == '.' by {
      forall k | 0 <= k < |t| ensures IsAsciiDigit(t[k]) || t[k] == '.' {
        if k < |t| - 3 {
          assert t[k] == t[..|t| - 3][k];
        } else if k > |t| - 3 {
          assert t[k] == t[|t| - 2..][k - (|t| - 2)];
        }
      }
    }
    if n < 0 {
      var r := FormatFixed2(n, d);
      assert r == "-" + t;
      assert forall k | 1 <= k < |r| :: r[k] == t[k - 1];
    }
  }

  lemma FormatFixed2Value(n: int, d: nat)
    requires d > 0
    ensures var r := FormatFixed2(n, d);
      |r| >= 4 && (n < 0 <==> r[0] == '-')
      && r == (if n < 0 then "-" else "") + TwoDecimals(Hundredths(if n < 0 then -n else n, d))
  {
    var a := if n < 0 then -n else n;
    TwoDecimalsValue(Hundredths(a, d));
  }

  /** `Integer.parseInt` / `Long.parseLong` with the given range: an optional `+` or `-`
      followed by at least one ASCII digit, whose value lies in the range. Java also
      reads the other Unicode decimal digits; the model reads only `0` to `9`. */
  function ParseSigned(s: string, min: int, max: int): (r: Result<int>)
    ensures r.Ok? ==> min <= r.value <= max
    ensures r.Err? ==> r.failure == NumberFormat(s)
  {
    var signed := |s| > 0 && (s[0] == '-' || s[0] == '+');
    var digits := if signed then s[1..] else s;
    if digits == [] || !AllDigits(digits) then Err(NumberFormat(s))
    else
      var magnitude := DigitsValue(digits);
      var v: int := if signed && s[0] == '-' then -(magnitude as int) else magnitude;
      if min <= v <= max then Ok(v) else Err(NumberFormat(s))
  }

  /** `Integer.parseInt(s)`. */
  function ParseInt(s: string): (r: Result<int>)
    ensures r.Ok? ==> INT_MIN <= r.value <= INT_MAX
  {
    ParseSigned(s, INT_MIN, INT_MAX)
  }

  /** `Long.parseLong(s)`. */
  function ParseLong(s: string): (r: Result<int>)
    ensures r.Ok? ==> LONG_MIN <= r.value <= LONG_MAX
  {
    ParseSigned(s, LONG_MIN, LONG_MAX)
  }

  /** Round trip: `%d` output parses back to the same number. */
  lemma ParseFormatInt(i: int, min: int, max: int)
    requires min <= i <= max
    ensures ParseSigned(FormatInt(i), min, max) == Ok(i)
  {
    var n := if i < 0 then -i else i;
    DecimalValue(n);
    var d := Decimal(n);
    if i < 0 {
      assert FormatInt(i)[1..] == d;
    } else {
      assert d[0] != '-' && d[0] != '+';
    }
  }

  /** Digits-only text (no sign) within range parses to its value. */
  lemma ParseDigits(s: string, min: int, max: int)
    requires s != [] && AllDigits(s) && min <= DigitsValue(s) <= max
    ensures ParseSigned(s, min, max) == Ok(DigitsValue(s))
  {
    assert IsAsciiDigit(s[0]);
  }

  /** The digits of `n` grouped by threes with `,`, as `MessageFormat` renders an
      integer argument in an English locale. */
  function GroupedDecimal(n: nat): (r: string)
    ensures |r| >= 1
  {
    if n < 1000 then Decimal(n) else GroupedDecimal(n / 1000) + "," + ZeroPad(n % 1000, 3)
  }
}
