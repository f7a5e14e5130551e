/** `FileChangeWriter`: fills one Avro record per file change of a commit, with the
    module and the file name derived from the path of the change. */
module FileChangeWriter {
  import opened Outcomes
  import opened JavaText
  import opened JavaPaths
  import opened Records

  /** A record of the schema `Commit`: the six fields `fillRecord` sets (`moduleName` is
      the field `module`). */
  datatype ChangeRecord = ChangeRecord(
    commit: string, path: string, moduleName: string, filename: string,
    additions: int, deletions: int)

  /** `computeModule` as written. A path holding `/src/main` gives the text from the first
      occurrence on (what comes before it holds no `/src/main`); otherwise the same with
      `/src/test`; otherwise a path ending in `pom.xml` gives its parent directory, and a
      path without one (`pom.xml` alone) throws a `NullPointerException`; any other path
      gives `n/a`. */
  function ComputeModule(filename: string): (r: Result<string>)
    ensures Contains(filename, "/src/main") ==>
      r.Ok? && StartsWith(r.value, "/src/main") && EndsWith(filename, r.value)
      && !Contains(filename[..|filename| - |r.value|], "/src/main")
    ensures !Contains(filename, "/src/main") && Contains(filename, "/src/test") ==>
      r.Ok? && StartsWith(r.value, "/src/test") && EndsWith(filename, r.value)
      && !Contains(filename[..|filename| - |r.value|], "/src/test")
    ensures r.Err? <==> !Contains(filename, "/src/main") && !Contains(filename, "/src/test")
                        && EndsWith(filename, "pom.xml") && Parent(PathOf(filename)).None?
    ensures (!Contains(filename, "/src/main") && !Contains(filename, "/src/test")
             && !EndsWith(filename, "pom.xml")) ==> r == Ok("n/a")
    ensures (!Contains(filename, "/src/main") && !Contains(filename, "/src/test")
             && EndsWith(filename, "pom.xml") && Parent(PathOf(filename)).Some?) ==>
      r == Ok(PathString(Parent(PathOf(filename)).value))
    ensures r.Err? ==> r.failure == NullPointer
  {
    var mainSrcIndex := IndexOf(filename, "/src/main");
    if mainSrcIndex >= 0 then
      PrefixBeforeFirst(filename, "/src/main", mainSrcIndex);
      Ok(filename[mainSrcIndex..])
    else
      var testSrcIndex := IndexOf(filename, "/src/test");
      if testSrcIndex >= 0 then
        PrefixBeforeFirst(filename, "/src/test", testSrcIndex);
        Ok(filename[testSrcIndex..])
      else if EndsWith(filename, "pom.xml") then
        match Parent(PathOf(filename))
        case None => Err(NullPointer)
        case Some(parent) => Ok(PathString(parent))
      else Ok("n/a")
  }

  /** `computeFileName`: the last name element of the path. A path made only of slashes
      has none, and `toString` on it throws a `NullPointerException`. */
  function ComputeFileName(filename: string): (r: Result<string>)
    ensures r.Err? <==> |filename| > 0 && forall k | 0 <= k < |filename| :: filename[k] == '/'
    ensures r.Err? ==> r.failure == NullPointer
    ensures r.Ok? ==> !HasSeparator(r.value, IsSlash)
  {
    NoNamesIffAllSlashes(filename);
    match FileName(PathOf(filename))
    case None => Err(NullPointer)
    case Some(name) => Ok(name)
  }

  /** `fillRecord`: the commit given to the writer, the path as it is, the module, the
      file name, and the two counts unchanged. */
  function FillRecord(commit: string, changes: FileChanges): (r: Result<ChangeRecord>)
    ensures r.Ok? <==> ComputeModule(changes.filename).Ok? && ComputeFileName(changes.filename).Ok?
    ensures r.Err? ==> r.failure == NullPointer
    ensures r.Ok? ==>
      r.value.commit == commit && r.value.path == changes.filename
      && r.value.additions == changes.additions && r.value.deletions == changes.deletions
      && Ok(r.value.moduleName) == ComputeModule(changes.filename)
      && Ok(r.value.filename) == ComputeFileName(changes.filename)
  {
    var moduleName :- ComputeModule(changes.filename);
    var filename :- ComputeFileName(changes.filename);
    Ok(ChangeRecord(commit, changes.filename, moduleName, filename, changes.additions, changes.deletions))
  }

  /** A path without a slash holds neither marker. */
  lemma NoMarkerWithoutSlash(s: string, marker: string)
    requires !HasSeparator(s, IsSlash) && |marker| >= 1 && marker[0] == '/'
    ensures !Contains(s, marker)
  {
    NotContainsChar(s, marker);
  }

  /** A bare `pom.xml`, at the top of the repository, has no parent: filling its record
      throws. */
  lemma BarePomFails(additions: int, deletions: int)
    ensures ComputeModule("pom.xml") == Err(NullPointer)
    ensures FillRecord("c", FileChanges("pom.xml", additions, deletions)) == Err(NullPointer)
  {
    var f := "pom.xml";
    assert !HasSeparator(f, IsSlash);
    NoMarkerWithoutSlash(f, "/src/main");
    NoMarkerWithoutSlash(f, "/src/test");
    var p := UnixPath(false, [f]);
    assert PathString(p) == f;
    PathOfString(p);
  }

  /** Round trip: the file name of a relative path is its last name element. */
  lemma FileNameOfPath(p: UnixPath)
    requires ValidPath(p) && !p.absolute && p.names != []
    ensures ComputeFileName(PathString(p)) == Ok(p.names[|p.names| - 1])
  {
    PathOfString(p);
  }

  // ---------------------------------------------------------------------------
  // The module of a source file and of a build file
  // ---------------------------------------------------------------------------

  /** In `m/pom.xml`, with `m` one name element, the only slash is followed by `p`: it
      holds neither marker. */
  lemma PomHasNoMarker(m: string, marker: string)
    requires !HasSeparator(m, IsSlash)
    requires marker == "/src/main" || marker == "/src/test"
    ensures !Contains(m + "/pom.xml", marker)
  {
    var g := m + "/pom.xml";
    ContainsIff(g, marker);
    forall i ensures !OccursAt(g, marker, i) {
      if 0 <= i && i + |marker| <= |g| {
        assert g[i..i + |marker|][0] == g[i] && g[i..i + |marker|][1] == g[i + 1];
        if i < |m| {
          assert g[i] == m[i];
        }
      }
    }
  }

  /** In `m` followed by a marker, with `m` one name element, the first occurrence of the
      marker is right after `m`. */
  lemma MarkerAfterName(m: string, marker: string, rest: string)
    requires !HasSeparator(m, IsSlash) && |marker| >= 1 && marker[0] == '/'
    ensures IndexOf(m + marker + rest, marker) == |m|
  {
    var f := m + marker + rest;
    assert OccursAt(f, marker, |m|) by {
      assert f[|m|..|m| + |marker|] == marker;
    }
    forall j | 0 <= j < |m| ensures !OccursAt(f, marker, j) {
      assert f[j] == m[j];
    }
  }

  /** The path of `m/pom.xml` has the two name elements `m` and `pom.xml`. */
  lemma PomPath(m: string)
    requires m != "" && !HasSeparator(m, IsSlash)
    ensures PathOf(m + "/pom.xml") == UnixPath(false, [m, "pom.xml"])
  {
    var p := UnixPath(false, [m, "pom.xml"]);
    assert !HasSeparator("pom.xml", IsSlash);
    assert p.names[1..] == ["pom.xml"];
    assert Join(p.names, '/') == m + ['/'] + "pom.xml";
    assert "" + Join(p.names, '/') == m + "/pom.xml";
    PathOfString(p);
  }

  /** The build file of the directory `m` belongs to `m`, as written and with the fix. */
  lemma PomModule(m: string)
    requires m != "" && !HasSeparator(m, IsSlash)
    ensures ComputeModule(m + "/pom.xml") == Ok(m)
    ensures ComputeModuleFixed(m + "/pom.xml") == Ok(m)
  {
    var g := m + "/pom.xml";
    PomHasNoMarker(m, "/src/main");
    PomHasNoMarker(m, "/src/test");
    PomParent(m);
    assert g[|g| - 7..] == "pom.xml";
  }

  lemma PomParent(m: string)
    requires m != "" && !HasSeparator(m, IsSlash)
    ensures Parent(PathOf(m + "/pom.xml")) == Some(UnixPath(false, [m]))
    ensures PathString(UnixPath(false, [m])) == m
  {
    PomPath(m);
    assert "" + m == m;
  }

  /** As written, a source file of the directory `m` is put in the "module" that is its
      path from `/src/main` on, while the build file of `m` is put in `m`: the files of
      one module get two different modules. */
  lemma SourceAndPomDisagree(m: string, rest: string)
    requires m != "" && !HasSeparator(m, IsSlash)
    ensures ComputeModule(m + "/src/main" + rest) == Ok("/src/main" + rest)
    ensures ComputeModule(m + "/pom.xml") == Ok(m)
  {
    MarkerAfterName(m, "/src/main", rest);
    assert (m + "/src/main" + rest)[|m|..] == "/src/main" + rest;
    PomModule(m);
  }

  /** `computeModule` as the pom branch suggests it is meant: the path before the first
      `/src/main` (or `/src/test`), that is the directory of the module. */
  function ComputeModuleFixed(filename: string): (r: Result<string>)
    ensures Contains(filename, "/src/main") ==>
      r.Ok? && StartsWith(filename, r.value + "/src/main") && !Contains(r.value, "/src/main")
    ensures !Contains(filename, "/src/main") && Contains(filename, "/src/test") ==>
      r.Ok? && StartsWith(filename, r.value + "/src/test") && !Contains(r.value, "/src/test")
    ensures r.Err? <==> ComputeModule(filename).Err?
    ensures (!Contains(filename, "/src/main") && !Contains(filename, "/src/test")
             && !EndsWith(filename, "pom.xml")) ==> r == Ok("n/a")
    ensures (!Contains(filename, "/src/main") && !Contains(filename, "/src/test")
             && EndsWith(filename, "pom.xml") && Parent(PathOf(filename)).Some?) ==>
      r == Ok(PathString(Parent(PathOf(filename)).value))
  {
    var mainSrcIndex := IndexOf(filename, "/src/main");
    if mainSrcIndex >= 0 then
      PrefixBeforeFirst(filename, "/src/main", mainSrcIndex);
      Ok(filename[..mainSrcIndex])
    else
      var testSrcIndex := IndexOf(filename, "/src/test");
      if testSrcIndex >= 0 then
        PrefixBeforeFirst(filename, "/src/test", testSrcIndex);
        Ok(filename[..testSrcIndex])
      else if EndsWith(filename, "pom.xml") then
        match Parent(PathOf(filename))
        case None => Err(NullPointer)
        case Some(parent) => Ok(PathString(parent))
      else Ok("n/a")
  }

  /** The text before the first occurrence of `p` does not hold `p`. */
  lemma PrefixBeforeFirst(s: string, p: string, i: int)
    requires |p| >= 1 && i >= 0 && i == IndexOf(s, p)
    ensures StartsWith(s, s[..i] + p) && !Contains(s[..i], p)
  {
    assert IndexOfFrom(s, p, 0) == i;
    assert OccursAt(s, p, i);
    assert s[..i] + p == s[..i + |p|];
    ContainsIff(s[..i], p);
    forall j ensures !OccursAt(s[..i], p, j) {
      if 0 <= j && j + |p| <= i {
        assert s[..i][j..j + |p|] == s[j..j + |p|];
        assert !OccursAt(s, p, j);
      }
    }
  }

  /** With the fix, the source files and the build file of the directory `m` all belong
      to `m`. */
  lemma SourceAndPomAgree(m: string, rest: string)
    requires m != "" && !HasSeparator(m, IsSlash)
    ensures ComputeModuleFixed(m + "/src/main" + rest) == Ok(m)
    ensures ComputeModuleFixed(m + "/pom.xml") == Ok(m)
  {
    MarkerAfterName(m, "/src/main", rest);
    assert (m + "/src/main" + rest)[..|m|] == m;
    PomModule(m);
  }
}
