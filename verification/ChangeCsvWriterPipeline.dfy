/** `ChangeCsvWriterPipeline`: one CSV row per file change, in commit-then-change order,
    with the module and the base name derived from the path. */
module ChangeCsvWriterPipeline {
  import opened Outcomes
  import opened JavaText
  import opened Records
  import opened CsvFiles
  import opened JavaPaths
  import opened ACsvWritePipeline
  import opened WriteDispacher

  const HEADER: string := "commit,module,filename,path,additions,deletions"
  const HEADER_FIELDS: seq<string> := ["commit", "module", "filename", "path", "additions", "deletions"]

  /** `1 << 14` rows per file. */
  const LIMIT: int := 16384

  /** The header names six columns. */
  lemma HeaderColumns()
    ensures Pieces(HEADER, IsComma) == HEADER_FIELDS
  {
    HeaderIsRow();
    var f := HEADER_FIELDS;
    assert ',' !in f[0] && ',' !in f[1] && ',' !in f[2] && ',' !in f[3] && ',' !in f[4] && ',' !in f[5];
    RowOfCommaFree(f);
  }

  lemma HeaderIsRow()
    ensures HEADER == Row(HEADER_FIELDS)
  {
    var f := HEADER_FIELDS;
    assert Row(f[5..]) == "deletions";
    RowCons(f[4..]);
    assert f[4..][1..] == f[5..];
    RowCons(f[3..]);
    assert f[3..][1..] == f[4..];
    RowCons(f[2..]);
    assert f[2..][1..] == f[3..];
    RowCons(f[1..]);
    assert f[1..][1..] == f[2..];
    RowCons(f);
  }

  // ---------------------------------------------------------------------------
  // `SOURCE_PATTERN`, `^(.*)/src/(main|test|generated)/`, found from the start
  // ---------------------------------------------------------------------------


  predicate SourceMarkerAt(s: string, i: int) {
    OccursAt(s, "/src/main/", i) || OccursAt(s, "/src/test/", i) || OccursAt(s, "/src/generated/", i)
  }

  /** How far `.*` can reach from `i`: the first line terminator at or after it. */
  function FirstLineEnd(s: string, i: nat): (r: nat)
    requires i <= |s|
    ensures i <= r <= |s|
    ensures r < |s| ==> IsLineTerminator(s[r])
    ensures forall k | i <= k < r :: !IsLineTerminator(s[k])
    decreases |s| - i
  {
    if i == |s| || IsLineTerminator(s[i]) then i else FirstLineEnd(s, i + 1)
  }

  /** The last marker at or before `i`: greedy `.*` backs off from the right. */
  function LastMarkerAtOrBefore(s: string, i: nat): (r: Option<nat>)
    ensures r.Some? ==> r.value <= i && SourceMarkerAt(s, r.value)
    ensures r.Some? ==> forall k | r.value < k <= i :: !SourceMarkerAt(s, k)
    ensures r.None? ==> forall k | 0 <= k <= i :: !SourceMarkerAt(s, k)
  {
    if SourceMarkerAt(s, i) then Some(i)
    else if i == 0 then None
    else LastMarkerAtOrBefore(s, i - 1)
  }

  /** Where `(.*)` ends when `find` succeeds. */
  function SourceMatch(s: string): Option<nat> {
    LastMarkerAtOrBefore(s, FirstLineEnd(s, 0))
  }

  /** `computeModule`: the text before the last source marker of the first line; else the
      parent directory of a `pom.xml` (`<root>` when it has none); else `n/a`. */
  function ComputeModule(filename: string): string {
    match SourceMatch(filename)
    case Some(i) => filename[..i]
    case None =>
      if EndsWith(filename, "pom.xml") then
        match Parent(PathOf(filename))
        case Some(p) => PathString(p)
        case None => "<root>"
      else "n/a"
  }

  /** The three outcomes of `computeModule`, each with what it guarantees. */
  lemma ComputeModuleCases(filename: string)
    ensures var e := FirstLineEnd(filename, 0);
      (exists i | 0 <= i <= e :: SourceMarkerAt(filename, i)) ==>
        exists i | 0 <= i <= e ::
          ComputeModule(filename) == filename[..i]
          && SourceMarkerAt(filename, i)
          && (forall k | 0 <= k < i :: !IsLineTerminator(filename[k]))
          && (forall k | i < k <= e :: !SourceMarkerAt(filename, k))
    ensures var e := FirstLineEnd(filename, 0);
      (forall i | 0 <= i <= e :: !SourceMarkerAt(filename, i)) ==>
        ComputeModule(filename) ==
          if !EndsWith(filename, "pom.xml") then "n/a"
          else if Parent(PathOf(filename)).None? then "<root>"
          else PathString(Parent(PathOf(filename)).value)
  {
    var e := FirstLineEnd(filename, 0);
    if m :| 0 <= m <= e && SourceMarkerAt(filename, m) {
      var r := SourceMatch(filename);
      assert r.Some?;
      var i := r.value;
      assert ComputeModule(filename) == filename[..i];
    }
  }

  /** `computeFileName`: the last name element; a path made only of slashes has none, and
      `toString` on the `null` throws. */
  function ComputeFileName(filename: string): Result<string> {
    match FileName(PathOf(filename))
    case None => Err(NullPointer)
    case Some(name) => Ok(name)
  }

  /** `computeFileName` fails exactly on the paths made only of slashes, and otherwise
      gives a name without a slash. */
  lemma ComputeFileNameCases(filename: string)
    ensures ComputeFileName(filename).Err? <==>
      |filename| > 0 && forall k | 0 <= k < |filename| :: filename[k] == '/'
    ensures ComputeFileName(filename).Err? ==> ComputeFileName(filename).failure == NullPointer
    ensures ComputeFileName(filename).Ok? ==> !HasSeparator(ComputeFileName(filename).value, IsSlash)
  {
    NoNamesIffAllSlashes(filename);
    var p := PathOf(filename);
    if p.names != [] {
      assert ValidPath(p);
      assert !HasSeparator(p.names[|p.names| - 1], IsSlash);
    }
  }

  // ---------------------------------------------------------------------------
  // Rows
  // ---------------------------------------------------------------------------

  /** The text of the row `printf` writes for a change: sha1, full path, module, base
      name, additions, deletions. */
  function ChangeText(d: CommitDetails, c: FileChanges): string {
    Row(ChangeFields(d, c))
  }

  /** The base name, or nothing when `computeFileName` throws. */
  function BaseName(filename: string): string {
    match ComputeFileName(filename) case Ok(n) => n case Err(_) => ""
  }

  /** The six values `printf` is given, in argument order. */
  function ChangeFields(d: CommitDetails, c: FileChanges): (r: seq<string>)
    ensures |r| == 6
  {
    [d.commit.sha1, c.filename, ComputeModule(c.filename), BaseName(c.filename),
     FormatInt(c.additions), FormatInt(c.deletions)]
  }

  /** The row for a change, or the exception `computeFileName` raises first. */
  function ChangeLine(d: CommitDetails, c: FileChanges): Result<string> {
    if ComputeFileName(c.filename).Err? then Err(ComputeFileName(c.filename).failure)
    else Ok(ChangeText(d, c))
  }

  function CommitChanges(d: CommitDetails): seq<FileChanges> {
    d.fileChanges
  }

  /** The lines printed for the changes of one commit, up to the first failing one. */
  function ChangesBatch(d: CommitDetails, cs: seq<FileChanges>): Batch {
    if cs == [] then Batch([], None)
    else
      var b := ChangesBatch(d, cs[..|cs| - 1]);
      if b.failure.Some? then b
      else
        match ChangeLine(d, cs[|cs| - 1])
        case Ok(line) => Batch(b.lines + [line], None)
        case Err(f) => Batch(b.lines, Some(f))
  }

  /** The lines printed for a list of commits, up to the first failing change. */
  function ChangeBatch(ds: seq<CommitDetails>): Batch {
    if ds == [] then Batch([], None)
    else
      var b := ChangeBatch(ds[..|ds| - 1]);
      if b.failure.Some? then b
      else
        var last := ds[|ds| - 1];
        var c := ChangesBatch(last, last.fileChanges);
        Batch(b.lines + c.lines, c.failure)
  }

  /** `processCommand` as a function of the command. */
  function Process(command: WriteChangesAction): Batch {
    ChangeBatch(command.commits)
  }

  lemma ChangesBatchSnoc(d: CommitDetails, cs: seq<FileChanges>, j: nat)
    requires j < |cs| && ChangesBatch(d, cs[..j]).failure.None?
    ensures ChangesBatch(d, cs[..j + 1]) ==
      match ChangeLine(d, cs[j])
      case Ok(line) => Batch(ChangesBatch(d, cs[..j]).lines + [line], None)
      case Err(f) => Batch(ChangesBatch(d, cs[..j]).lines, Some(f))
  {
    assert cs[..j + 1][..j] == cs[..j];
  }

  lemma ChangeBatchSnoc(ds: seq<CommitDetails>, k: nat)
    requires k < |ds| && ChangeBatch(ds[..k]).failure.None?
    ensures var c := ChangesBatch(ds[k], ds[k].fileChanges);
      ChangeBatch(ds[..k + 1]) == Batch(ChangeBatch(ds[..k]).lines + c.lines, c.failure)
  {
    assert ds[..k + 1][..k] == ds[..k];
  }

  /** Once a change fails, later changes of the commit print nothing. */
  lemma {:induction false} ChangesBatchSticks(d: CommitDetails, cs: seq<FileChanges>, m: nat)
    requires m <= |cs| && ChangesBatch(d, cs[..m]).failure.Some?
    ensures ChangesBatch(d, cs) == ChangesBatch(d, cs[..m])
    decreases |cs|
  {
    if m < |cs| {
      var init := cs[..|cs| - 1];
      assert init[..m] == cs[..m];
      ChangesBatchSticks(d, init, m);
    } else {
      assert cs[..m] == cs;
    }
  }

  /** Once a commit fails, later commits print nothing. */
  lemma {:induction false} ChangeBatchSticks(ds: seq<CommitDetails>, m: nat)
    requires m <= |ds| && ChangeBatch(ds[..m]).failure.Some?
    ensures ChangeBatch(ds) == ChangeBatch(ds[..m])
    decreases |ds|
  {
    if m < |ds| {
      var init := ds[..|ds| - 1];
      assert init[..m] == ds[..m];
      ChangeBatchSticks(init, m);
    } else {
      assert ds[..m] == ds;
    }
  }

  /** No path made only of slashes among the changes of `ds`. */
  predicate AllNamed(ds: seq<CommitDetails>) {
    forall k, j | 0 <= k < |ds| && 0 <= j < |ds[k].fileChanges| ::
      ComputeFileName(ds[k].fileChanges[j].filename).Ok?
  }

  lemma {:induction false} ChangesBatchNamed(d: CommitDetails, cs: seq<FileChanges>)
    requires forall j | 0 <= j < |cs| :: ComputeFileName(cs[j].filename).Ok?
    ensures ChangesBatch(d, cs) == Batch(InnerLines(d, cs, ChangeText), None)
  {
    if cs != [] {
      var init := cs[..|cs| - 1];
      ChangesBatchNamed(d, init);
    }
  }

  /** Without a slash-only path, every change gets exactly one row, in commit-then-change
      order, and nothing fails. */
  lemma {:induction false} ChangeBatchNamed(ds: seq<CommitDetails>)
    requires AllNamed(ds)
    ensures ChangeBatch(ds) == Batch(NestedLines(ds, CommitChanges, ChangeText), None)
  {
    if ds != [] {
      var init := ds[..|ds| - 1];
      var last := ds[|ds| - 1];
      assert AllNamed(init) by {
        forall k, j | 0 <= k < |init| && 0 <= j < |init[k].fileChanges|
          ensures ComputeFileName(init[k].fileChanges[j].filename).Ok?
        {
          assert init[k] == ds[k];
        }
      }
      ChangeBatchNamed(init);
      ChangesBatchNamed(last, last.fileChanges);
    }
  }

  /** A slash-only path makes the batch fail with a `NullPointerException`. */
  lemma {:induction false} ChangeBatchFailsOnUnnamed(ds: seq<CommitDetails>, k: nat, j: nat)
    requires k < |ds| && j < |ds[k].fileChanges|
    requires ComputeFileName(ds[k].fileChanges[j].filename).Err?
    ensures ChangeBatch(ds).failure == Some(NullPointer)
  {
    var m := k + 1;
    ChangeBatchFailsWithin(ds[..m], k, j);
    if ChangeBatch(ds[..m]).failure.Some? {
      ChangeBatchSticks(ds, m);
    }
  }

  lemma {:induction false} ChangesBatchFails(d: CommitDetails, cs: seq<FileChanges>, j: nat)
    requires j < |cs| && ComputeFileName(cs[j].filename).Err?
    ensures ChangesBatch(d, cs).failure == Some(NullPointer)
    decreases |cs|
  {
    var init := cs[..|cs| - 1];
    if ChangesBatch(d, init).failure.Some? {
      ChangesBatchFailsAny(d, init);
    } else if j < |cs| - 1 {
      ChangesBatchFails(d, init, j);
    } else {
      ComputeFileNameCases(cs[j].filename);
    }
  }

  /** Any failure of a commit's changes is a `NullPointerException`. */
  lemma {:induction false} ChangesBatchFailsAny(d: CommitDetails, cs: seq<FileChanges>)
    ensures ChangesBatch(d, cs).failure.Some? ==> ChangesBatch(d, cs).failure == Some(NullPointer)
  {
    if cs != [] {
      ChangesBatchFailsAny(d, cs[..|cs| - 1]);
      ComputeFileNameCases(cs[|cs| - 1].filename);
    }
  }

  lemma {:induction false} ChangeBatchFailsAny(ds: seq<CommitDetails>)
    ensures ChangeBatch(ds).failure.Some? ==> ChangeBatch(ds).failure == Some(NullPointer)
  {
    if ds != [] {
      ChangeBatchFailsAny(ds[..|ds| - 1]);
      var last := ds[|ds| - 1];
      ChangesBatchFailsAny(last, last.fileChanges);
    }
  }

  lemma ChangeBatchFailsWithin(ds: seq<CommitDetails>, k: nat, j: nat)
    requires |ds| == k + 1 && j < |ds[k].fileChanges|
    requires ComputeFileName(ds[k].fileChanges[j].filename).Err?
    ensures ChangeBatch(ds).failure == Some(NullPointer)
  {
    ChangeBatchFailsAny(ds[..k]);
    if ChangeBatch(ds[..k]).failure.None? {
      ChangesBatchFails(ds[k], ds[k].fileChanges, j);
    }
  }

  /** The columns `printf` writes, as read back by splitting at commas: the full path
      comes second, the module third and the base name fourth. */
  lemma ChangeTextColumns(d: CommitDetails, c: FileChanges)
    requires !HasSeparator(d.commit.sha1, IsComma) && !HasSeparator(c.filename, IsComma)
    requires !HasSeparator(ComputeModule(c.filename), IsComma)
    requires !HasSeparator(BaseName(c.filename), IsComma)
    ensures Pieces(ChangeText(d, c), IsComma) == ChangeFields(d, c)
  {
    FormatIntHasNoComma(c.additions);
    FormatIntHasNoComma(c.deletions);
    var fields := ChangeFields(d, c);
    assert forall i | 0 <= i < 6 :: !HasSeparator(fields[i], IsComma) by {
      assert fields[0] == d.commit.sha1 && fields[1] == c.filename;
      assert fields[2] == ComputeModule(c.filename) && fields[3] == BaseName(c.filename);
      assert fields[4] == FormatInt(c.additions) && fields[5] == FormatInt(c.deletions);
    }
    RowFields(fields);
  }

  /** What each header column names, for a change. */
  function ColumnValue(d: CommitDetails, c: FileChanges, column: string): string {
    if column == "commit" then d.commit.sha1
    else if column == "module" then ComputeModule(c.filename)
    else if column == "filename" then BaseName(c.filename)
    else if column == "path" then c.filename
    else if column == "additions" then FormatInt(c.additions)
    else FormatInt(c.deletions)
  }

  /** As written, the row does not follow the header: read back under the header, the
      `module`, `filename` and `path` columns hold the path, the module and the base name.
      For `a/pom.xml` all three differ from what their column names. */
  lemma ColumnsDoNotFollowHeader(d: CommitDetails, c: FileChanges)
    requires !HasSeparator(d.commit.sha1, IsComma) && !HasSeparator(c.filename, IsComma)
    requires !HasSeparator(ComputeModule(c.filename), IsComma)
    requires !HasSeparator(BaseName(c.filename), IsComma)
    ensures var row := Pieces(ChangeText(d, c), IsComma);
      |row| == 6
      && HEADER_FIELDS[1] == "module" && row[1] == ColumnValue(d, c, "path")
      && HEADER_FIELDS[2] == "filename" && row[2] == ColumnValue(d, c, "module")
      && HEADER_FIELDS[3] == "path" && row[3] == ColumnValue(d, c, "filename")
  {
    ChangeTextColumns(d, c);
  }

  /** The input that shows it: for a change to `a/pom.xml`, the `module` column holds
      `a/pom.xml`, the `filename` column `a` and the `path` column `pom.xml`. */
  lemma PomRowMislabelled(d: CommitDetails, c: FileChanges)
    requires c.filename == "a/pom.xml" && !HasSeparator(d.commit.sha1, IsComma)
    ensures var row := Pieces(ChangeText(d, c), IsComma);
      |row| == 6 && row[1] == "a/pom.xml" && row[2] == "a" && row[3] == "pom.xml"
    ensures HEADER_FIELDS[1] == "module" && HEADER_FIELDS[2] == "filename" && HEADER_FIELDS[3] == "path"
  {
    PomInDirectory();
    PomHasNoComma();
    ChangeTextColumns(d, c);
  }

  lemma PomHasNoComma()
    ensures !HasSeparator("a/pom.xml", IsComma) && !HasSeparator("a", IsComma)
    ensures !HasSeparator("pom.xml", IsComma)
  {
    var s := "a/pom.xml";
    assert forall k | 0 <= k < |s| :: s[k] != ',';
  }

  /** `computeModule` and `computeFileName` of `a/pom.xml`. */
  lemma PomInDirectory()
    ensures ComputeModule("a/pom.xml") == "a" && BaseName("a/pom.xml") == "pom.xml"
  {
    var s := "a/pom.xml";
    assert SourceMatch(s).None? by {
      var e := FirstLineEnd(s, 0);
      forall k | 0 <= k <= e ensures !SourceMarkerAt(s, k) {
        assert |s| < 10;
      }
    }
    assert EndsWith(s, "pom.xml");
    PathOfPom();
    assert Parent(PathOf(s)) == Some(UnixPath(false, ["a"]));
  }

  lemma PathOfPom()
    ensures PathOf("a/pom.xml") == UnixPath(false, ["a", "pom.xml"])
  {
    var s := "a/pom.xml";
    PiecesOfPlain("a", IsSlash);
    PiecesOfPlain("pom.xml", IsSlash);
    PiecesPrefix("a", "/pom.xml", IsSlash);
    assert "a" + "/pom.xml" == s;
    assert "/pom.xml"[1..] == "pom.xml";
    NonEmptyOfNonEmpty(["a", "pom.xml"]);
  }

  /** The evidently intended row: each value under the header column that names it. */
  function HeaderOrderFields(d: CommitDetails, c: FileChanges): (r: seq<string>)
    ensures |r| == |HEADER_FIELDS|
  {
    [d.commit.sha1, ComputeModule(c.filename), BaseName(c.filename), c.filename,
     FormatInt(c.additions), FormatInt(c.deletions)]
  }

  function HeaderOrderText(d: CommitDetails, c: FileChanges): string {
    Row(HeaderOrderFields(d, c))
  }

  /** With the columns in header order, every column holds the value its header names. */
  lemma HeaderOrderColumns(d: CommitDetails, c: FileChanges)
    requires !HasSeparator(d.commit.sha1, IsComma) && !HasSeparator(c.filename, IsComma)
    requires !HasSeparator(ComputeModule(c.filename), IsComma)
    requires !HasSeparator(BaseName(c.filename), IsComma)
    ensures |Pieces(HeaderOrderText(d, c), IsComma)| == |HEADER_FIELDS|
    ensures forall i | 0 <= i < |HEADER_FIELDS| ::
      Pieces(HeaderOrderText(d, c), IsComma)[i] == ColumnValue(d, c, HEADER_FIELDS[i])
  {
    FormatIntHasNoComma(c.additions);
    FormatIntHasNoComma(c.deletions);
    var fields := HeaderOrderFields(d, c);
    assert forall i | 0 <= i < 6 :: !HasSeparator(fields[i], IsComma) by {
      assert fields[0] == d.commit.sha1 && fields[3] == c.filename;
      assert fields[1] == ComputeModule(c.filename) && fields[2] == BaseName(c.filename);
      assert fields[4] == FormatInt(c.additions) && fields[5] == FormatInt(c.deletions);
    }
    RowFields(fields);
    HeaderOrderNamed(d, c);
  }

  /** Each field of the header-order row is the value its header column names. */
  lemma HeaderOrderNamed(d: CommitDetails, c: FileChanges)
    ensures forall i | 0 <= i < |HEADER_FIELDS| ::
      HeaderOrderFields(d, c)[i] == ColumnValue(d, c, HEADER_FIELDS[i])
  {
    var h := HEADER_FIELDS;
    assert h[0] == "commit" && h[1] == "module" && h[2] == "filename";
    assert h[3] == "path" && h[4] == "additions" && h[5] == "deletions";
    assert ColumnValue(d, c, "commit") == d.commit.sha1;
    assert ColumnValue(d, c, "module") == ComputeModule(c.filename);
    assert ColumnValue(d, c, "filename") == BaseName(c.filename);
    assert ColumnValue(d, c, "path") == c.filename;
    assert ColumnValue(d, c, "additions") == FormatInt(c.additions);
    assert ColumnValue(d, c, "deletions") == FormatInt(c.deletions);
  }

  // ---------------------------------------------------------------------------
  // `processCommand` and the pipeline
  // ---------------------------------------------------------------------------

  /** The inner loop of `processCommand`: one row per change of one commit, until a
      `computeFileName` throws. */
  method PrintChanges(details: CommitDetails, file: CsvFile)
    returns (written: CsvFile, lines: int, failure: Option<Failure>)
    ensures written == PrintAll(file, ChangesBatch(details, details.fileChanges).lines)
    ensures failure == ChangesBatch(details, details.fileChanges).failure
    ensures lines == |ChangesBatch(details, details.fileChanges).lines|
  {
    var cs := details.fileChanges;
    written := file;
    lines := 0;
    failure := None;
    for j := 0 to |cs|
      invariant ChangesBatch(details, cs[..j]).failure.None?
      invariant written == PrintAll(file, ChangesBatch(details, cs[..j]).lines)
      invariant lines == |ChangesBatch(details, cs[..j]).lines|
    {
      var r := ChangeLine(details, cs[j]);
      PrintChangeStep(file, details, cs, j);
      if r.Err? {
        failure := Some(r.failure);
        return;
      }
      written := Println(written, r.value);
      lines := lines + 1;
    }
    assert cs[..|cs|] == cs;
  }

  /** One turn of the loop of `PrintChanges`: a row is printed, or the batch of the
      whole commit ends here with the failure. */
  lemma PrintChangeStep(file: CsvFile, d: CommitDetails, cs: seq<FileChanges>, j: nat)
    requires j < |cs| && ChangesBatch(d, cs[..j]).failure.None?
    ensures var b := ChangesBatch(d, cs[..j]);
      var r := ChangeLine(d, cs[j]);
      && (r.Ok? ==> ChangesBatch(d, cs[..j + 1]) == Batch(b.lines + [r.value], None)
                    && PrintAll(file, b.lines + [r.value]) == Println(PrintAll(file, b.lines), r.value))
      && (r.Err? ==> ChangesBatch(d, cs) == Batch(b.lines, Some(r.failure)))
  {
    ChangesBatchSnoc(d, cs, j);
    var b := ChangesBatch(d, cs[..j]);
    var r := ChangeLine(d, cs[j]);
    if r.Ok? {
      PrintAllSnoc(file, b.lines, r.value);
    } else {
      ChangesBatchSticks(d, cs, j + 1);
    }
  }

  /** `processCommand`: the rows of every change of every commit, in order; a throwing
      `computeFileName` ends it with the rows printed so far. */
  method ProcessCommand(command: WriteChangesAction, file: CsvFile)
    returns (written: CsvFile, lines: int, failure: Option<Failure>)
    ensures written == PrintAll(file, Process(command).lines)
    ensures failure == Process(command).failure
    ensures failure.None? ==> lines == |Process(command).lines|
  {
    var ds := command.commits;
    written := file;
    lines := 0;
    failure := None;
    for k := 0 to |ds|
      invariant ChangeBatch(ds[..k]).failure.None?
      invariant written == PrintAll(file, ChangeBatch(ds[..k]).lines)
      invariant lines == |ChangeBatch(ds[..k]).lines|
    {
      var before := ChangeBatch(ds[..k]).lines;
      var more, f;
      written, more, f := PrintChanges(ds[k], written);
      PrintAllAppend(file, before, ChangesBatch(ds[k], ds[k].fileChanges).lines);
      ChangeBatchSnoc(ds, k);
      lines := lines + more;
      if f.Some? {
        failure := f;
        ChangeBatchSticks(ds, k + 1);
        assert ds[..|ds|] == ds;
        return;
      }
    }
    assert ds[..|ds|] == ds;
  }

  /** The configuration `ChangeCsvWriterPipeline` passes to its base class. */
  function Sink(pattern: FilePattern): CsvSink<WriteChangesAction> {
    CsvSink(HEADER, Process, LIMIT, pattern)
  }

  /** The constructor. */
  method Create(pattern: FilePattern) returns (p: CsvWritePipeline<WriteChangesAction>)
    ensures fresh(p) && p.Valid() && !p.started && p.State() == FRESH
    ensures p.Sink() == Sink(pattern)
  {
    p := new CsvWritePipeline(HEADER, Process, LIMIT, pattern);
  }
}
