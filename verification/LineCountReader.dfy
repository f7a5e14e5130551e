/** `LineCountReader`: reads one line of `git diff --numstat <empty tree> <commit>`, which
    counts every line of every file as added, into the line count of a Java file. */
module LineCountReader {
  import opened Outcomes
  import opened JavaText
  import opened Records

  /** `getCommand(commit)`. The hash of the empty tree, which the program asks `git` for
      once, is a parameter. */
  function GetCommand(commit: string, emptyTree: string): (r: seq<string>)
    ensures |r| == 5 && r[2] == "--numstat" && r[3] == emptyTree && r[4] == commit
  {
    ["git", "diff", "--numstat", emptyTree, commit]
  }

  /** `getCommand(commit, paths)`: a copy of the unrestricted command, then `--`, then the
      paths, in order. */
  method GetCommandForPaths(commit: string, emptyTree: string, paths: seq<string>)
    returns (command: seq<string>)
    ensures |command| == 6 + |paths|
    ensures command[..5] == GetCommand(commit, emptyTree)
    ensures command[5] == "--" && command[6..] == paths
  {
    command := GetCommand(commit, emptyTree);
    command := command + ["--"];
    command := command + paths;
  }

  /** `parseLine`. A blank line, a line of fewer than three tab-separated fields, a path
      (third field) not ending in `.java`, and a binary file (first field `-`) give no
      count (`null`); otherwise the first field is read by `Integer.parseInt`, which
      throws on anything else than an `int`. */
  function ParseLine(line: string): (r: Result<Option<FileLineCount>>)
    ensures IsBlank(line) ==> r == Ok(None)
    ensures !IsBlank(line) ==> var parts := SplitTab(line);
      && (r == Ok(None) <==> |parts| < 3 || !EndsWith(parts[2], ".java") || parts[0] == "-")
      && (r.Err? ==> |parts| >= 3 && r == Err(NumberFormat(parts[0])))
      && (r.Ok? && r.value.Some? ==>
            |parts| >= 3 && r.value.value.path == parts[2] && EndsWith(parts[2], ".java")
            && Ok(r.value.value.lineCount) == ParseInt(parts[0]))
  {
    if IsBlank(line) then Ok(None)
    else
      var parts := SplitTab(line);
      if |parts| < 3 then Ok(None)
      else
        var path := parts[2];
        if !EndsWith(path, ".java") then Ok(None)
        else if parts[0] == "-" then Ok(None)
        else
          var count :- ParseInt(parts[0]);
          Ok(Some(FileLineCount(path, count)))
  }

  /** One numstat line: added count, deleted count and path, separated by tabs. */
  function NumstatLine(added: string, deleted: string, path: string): string {
    Join([added, deleted, path], '\t')
  }

  /** The fields of a numstat line; it is not blank as soon as its first field starts
      with a visible character. */
  lemma NumstatFields(added: string, deleted: string, path: string)
    requires !HasSeparator(added, IsTab) && !HasSeparator(deleted, IsTab) && !HasSeparator(path, IsTab)
    requires path != "" && added != "" && !IsWhitespace(added[0])
    ensures SplitTab(NumstatLine(added, deleted, path)) == [added, deleted, path]
    ensures !IsBlank(NumstatLine(added, deleted, path))
  {
    var line := NumstatLine(added, deleted, path);
    SplitTabOfJoin([added, deleted, path]);
    assert line[0] == added[0];
  }

  /** Round trip: the line numstat prints for a Java file of `n` lines reads back as
      that file with `n` lines. */
  lemma ParseJavaFile(n: nat, deleted: nat, path: string)
    requires n <= INT_MAX
    requires !HasSeparator(path, IsTab) && EndsWith(path, ".java")
    ensures ParseLine(NumstatLine(Decimal(n), Decimal(deleted), path)) == Ok(Some(FileLineCount(path, n)))
  {
    var d := Decimal(n);
    assert !HasSeparator(Decimal(deleted), IsTab) by {
      assert AllDigits(Decimal(deleted));
    }
    NumstatFields(d, Decimal(deleted), path);
    DecimalValue(n);
    ParseDigits(d, INT_MIN, INT_MAX);
  }

  /** A binary Java file (`-` for both counts) gives no count. */
  lemma BinaryFileSkipped(path: string)
    requires !HasSeparator(path, IsTab) && EndsWith(path, ".java")
    ensures ParseLine(NumstatLine("-", "-", path)) == Ok(None)
  {
    NumstatFields("-", "-", path);
  }

  /** A file whose path does not end in `.java` gives no count, whatever its counts. */
  lemma OtherFileSkipped(added: string, deleted: string, path: string)
    requires !HasSeparator(added, IsTab) && !HasSeparator(deleted, IsTab) && !HasSeparator(path, IsTab)
    requires path != "" && added != "" && !IsWhitespace(added[0])
    requires !EndsWith(path, ".java")
    ensures ParseLine(NumstatLine(added, deleted, path)) == Ok(None)
  {
    NumstatFields(added, deleted, path);
  }

  /** A Java file whose first field is neither `-` nor an `int` is a
      `NumberFormatException` naming that field. */
  lemma MalformedCountFails(added: string, deleted: string, path: string)
    requires !HasSeparator(added, IsTab) && !HasSeparator(deleted, IsTab) && !HasSeparator(path, IsTab)
    requires added != "" && !IsWhitespace(added[0]) && added != "-"
    requires EndsWith(path, ".java") && ParseInt(added).Err?
    ensures ParseLine(NumstatLine(added, deleted, path)) == Err(NumberFormat(added))
  {
    NumstatFields(added, deleted, path);
  }

  /** For instance `1.5` is not an `int`. */
  lemma FractionFails()
    ensures ParseLine(NumstatLine("1.5", "0", "A.java")) == Err(NumberFormat("1.5"))
  {
    var a := "1.5";
    assert !IsAsciiDigit(a[1]);
    assert ParseInt(a).Err?;
    assert !HasSeparator(a, IsTab) by {
      assert forall i | 0 <= i < |a| :: a[i] != '\t';
    }
    assert !HasSeparator("0", IsTab);
    var p := "A.java";
    assert !HasSeparator(p, IsTab) by {
      assert forall i | 0 <= i < |p| :: p[i] != '\t';
    }
    assert EndsWith(p, ".java") by {
      assert p[|p| - 5..] == ".java";
    }
    MalformedCountFails(a, "0", p);
  }
}
