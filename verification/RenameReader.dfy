/** `RenameReader`: reads one line of `git show --raw` into a `FileRenaming`. */
module RenameReader {
  import opened Outcomes
  import opened JavaText
  import opened Records

  /** `getCommand`. */
  function GetCommand(commit: string): (r: seq<string>)
    ensures |r| == 5 && r[3] == "--raw" && r[4] == commit
  {
    ["git", "show", "--format=oneline", "--raw", commit]
  }

  /** `parseLine` as written: a line of exactly seven whitespace-separated fields gives a
      renaming whose `from` is the seventh field and whose `to` is the sixth; any other
      line gives nothing. */
  function ParseLine(line: string): (r: Option<FileRenaming>)
    ensures r.Some? <==> |SplitWhitespace(line)| == 7
    ensures r.Some? ==> r.value.from == SplitWhitespace(line)[6] && r.value.to == SplitWhitespace(line)[5]
  {
    var parts := SplitWhitespace(line);
    if |parts| == 7 then Some(FileRenaming(parts[6], parts[5])) else None
  }

  /** A field of a raw line: non-empty and without whitespace. */
  predicate IsField(f: string) {
    f != "" && !HasSeparator(f, IsRegexSpace)
  }

  /** One line of `git show --raw` for a rename or a copy: five space-separated fields
      (`:<old mode> <new mode> <old sha> <new sha> <status>`), then a tab and the source
      path, then a tab and the destination path. */
  function RawLine(head: seq<string>, src: string, dst: string): string
    requires |head| == 5
  {
    Join(head, ' ') + ['\t'] + (src + ['\t'] + dst)
  }

  /** The fields of a raw line: the five head fields, the source and the destination. */
  lemma RawLineFields(head: seq<string>, src: string, dst: string)
    requires |head| == 5 && forall i | 0 <= i < 5 :: IsField(head[i])
    requires IsField(src) && IsField(dst)
    ensures Pieces(RawLine(head, src, dst), IsRegexSpace) == head + [src, dst]
    ensures SplitWhitespace(RawLine(head, src, dst)) == head + [src, dst]
  {
    var line := RawLine(head, src, dst);
    PiecesOfJoin(head, ' ', IsRegexSpace);
    PiecesAppendSep(src, '\t', dst, IsRegexSpace);
    PiecesOfPlain(src, IsRegexSpace);
    PiecesOfPlain(dst, IsRegexSpace);
    PiecesAppendSep(Join(head, ' '), '\t', src + ['\t'] + dst, IsRegexSpace);
    assert line[|Join(head, ' ')|] == '\t';
    SplitWhitespaceOfPieces(line, head + [src, dst]);
  }

  /** On a raw rename line, the renaming read as written runs from the destination path
      to the source path: the two paths are swapped. */
  lemma ParseRawLine(head: seq<string>, src: string, dst: string)
    requires |head| == 5 && forall i | 0 <= i < 5 :: IsField(head[i])
    requires IsField(src) && IsField(dst)
    ensures ParseLine(RawLine(head, src, dst)) == Some(FileRenaming(dst, src))
  {
    RawLineFields(head, src, dst);
  }

  /** The smallest input that shows it: a rename of `a` to `b` is read as a renaming
      from `b` to `a`. */
  lemma RenameIsSwapped()
    ensures ParseLine(":100644 100644 1 2 R100\ta\tb") == Some(FileRenaming("b", "a"))
  {
    var head := [":100644", "100644", "1", "2", "R100"];
    assert forall i | 0 <= i < 5 :: IsField(head[i]);
    assert IsField("a") && IsField("b");
    SampleRawLine();
    ParseRawLine(head, "a", "b");
  }

  /** The raw line of a rename of `a` to `b`, written out. */
  lemma SampleRawLine()
    ensures RawLine([":100644", "100644", "1", "2", "R100"], "a", "b") == ":100644 100644 1 2 R100\ta\tb"
  {
    var head := [":100644", "100644", "1", "2", "R100"];
    assert Join(head[3..], ' ') == "2 R100" by {
      assert head[3..][1..] == head[4..] == ["R100"];
    }
    assert Join(head[1..], ' ') == "100644 1 2 R100" by {
      assert head[1..][1..] == head[2..] && head[2..][1..] == head[3..];
    }
    assert Join(head, ' ') == ":100644 100644 1 2 R100";
  }

  /** `parseLine` reading the raw-diff columns in their order: the sixth field is the
      source path and the seventh the destination. */
  function ParseLineInOrder(line: string): (r: Option<FileRenaming>)
    ensures r.Some? <==> |SplitWhitespace(line)| == 7
  {
    var parts := SplitWhitespace(line);
    if |parts| == 7 then Some(FileRenaming(parts[5], parts[6])) else None
  }

  /** Round trip: a raw rename line reads back as the renaming from its source to its
      destination. */
  lemma ParseRawLineInOrder(head: seq<string>, src: string, dst: string)
    requires |head| == 5 && forall i | 0 <= i < 5 :: IsField(head[i])
    requires IsField(src) && IsField(dst)
    ensures ParseLineInOrder(RawLine(head, src, dst)) == Some(FileRenaming(src, dst))
  {
    RawLineFields(head, src, dst);
  }

  /** Java `split` keeps the empty field a leading whitespace character makes: an
      indented raw line has eight fields and gives nothing. */
  lemma IndentedRawLine(head: seq<string>, src: string, dst: string)
    requires |head| == 5 && forall i | 0 <= i < 5 :: IsField(head[i])
    requires IsField(src) && IsField(dst)
    ensures SplitWhitespace(" " + RawLine(head, src, dst)) == [""] + head + [src, dst]
    ensures ParseLine(" " + RawLine(head, src, dst)) == None
  {
    RawLineFields(head, src, dst);
    Indented(RawLine(head, src, dst), head + [src, dst]);
  }

  lemma Indented(line: string, fields: seq<string>)
    requires Pieces(line, IsRegexSpace) == fields
    requires forall i | 0 <= i < |fields| :: fields[i] != ""
    ensures SplitWhitespace(" " + line) == [""] + fields
  {
    PiecesAppendSep("", ' ', line, IsRegexSpace);
    assert "" + [' '] + line == " " + line;
    var p := Pieces(" " + line, IsRegexSpace);
    assert p == [""] + fields;
    NonEmptyOfNonEmpty(fields);
    assert (" " + line)[0] == ' ';
    assert p[1..] == fields;
  }

  /** Java `split` drops trailing empty fields: trailing whitespace changes nothing. */
  lemma TrailingSpaceIgnored(head: seq<string>, src: string, dst: string)
    requires |head| == 5 && forall i | 0 <= i < 5 :: IsField(head[i])
    requires IsField(src) && IsField(dst)
    ensures SplitWhitespace(RawLine(head, src, dst) + " ") == head + [src, dst]
    ensures ParseLine(RawLine(head, src, dst) + " ") == ParseLine(RawLine(head, src, dst))
  {
    RawLineFields(head, src, dst);
    Trailing(RawLine(head, src, dst), head + [src, dst]);
  }

  lemma Trailing(line: string, fields: seq<string>)
    requires Pieces(line, IsRegexSpace) == fields
    requires forall i | 0 <= i < |fields| :: fields[i] != ""
    ensures SplitWhitespace(line + " ") == fields
  {
    PiecesAppendSep(line, ' ', "", IsRegexSpace);
    assert line + [' '] + "" == line + " ";
    var p := Pieces(line + " ", IsRegexSpace);
    assert p == fields + [""];
    assert (line + " ")[|line|] == ' ';
    NonEmptyTrailing(fields[1..]);
    TailOfSnoc(fields, "");
  }

  lemma TailOfSnoc(a: seq<string>, x: string)
    requires |a| >= 1
    ensures (a + [x])[0] == a[0] && (a + [x])[1..] == a[1..] + [x] && [a[0]] + a[1..] == a
  {
  }

  lemma {:induction false} NonEmptyTrailing(p: seq<string>)
    requires forall i | 0 <= i < |p| :: p[i] != ""
    ensures NonEmpty(p + [""]) == p
    decreases |p|
  {
    if p == [] {
      assert NonEmpty([""]) == NonEmpty([]);
    } else {
      NonEmptyTrailing(p[1..]);
      assert (p + [""])[1..] == p[1..] + [""];
    }
  }
}
