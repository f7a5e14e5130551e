/** `java.nio.file.Path` on a Unix file system, as far as the writers use it:
    `Path.of`, `getFileName`, `getParent` and `toString`. */
module JavaPaths {
  import opened Outcomes
  import opened JavaText

  predicate IsSlash(c: char) {
    c == '/'
  }

  /** A path: whether it starts at the root, and its name elements. */
  datatype UnixPath = UnixPath(absolute: bool, names: seq<string>)

  /** Name elements are non-empty and hold no `/`. */
  predicate ValidPath(p: UnixPath) {
    forall i | 0 <= i < |p.names| :: p.names[i] != "" && !HasSeparator(p.names[i], IsSlash)
  }

  /** `Path.of(s)`: the text is normalised, so repeated and trailing slashes vanish. */
  function PathOf(s: string): (p: UnixPath)
    ensures ValidPath(p)
    ensures p.absolute <==> |s| > 0 && s[0] == '/'
  {
    var pieces := Pieces(s, IsSlash);
    var names := NonEmpty(pieces);
    assert ValidPath(UnixPath(false, names)) by {
      forall i | 0 <= i < |names| ensures !HasSeparator(names[i], IsSlash) {
        var j :| 0 <= j < |pieces| && pieces[j] == names[i];
      }
    }
    UnixPath(|s| > 0 && s[0] == '/', names)
  }

  /** `toString`. */
  function PathString(p: UnixPath): string {
    var root := if p.absolute then "/" else "";
    if p.names == [] then root else root + Join(p.names, '/')
  }

  /** `getFileName`: the last name element; the empty path is its own file name, and the
      root has none (`null`). */
  function FileName(p: UnixPath): (r: Option<string>)
    ensures r.None? <==> p.absolute && p.names == []
  {
    if p.names == [] then (if p.absolute then None else Some(""))
    else Some(p.names[|p.names| - 1])
  }

  /** `getParent`: the path without its last element; the root for a single element under
      the root; `null` for a single relative element, the root and the empty path. */
  function Parent(p: UnixPath): (r: Option<UnixPath>)
    ensures r.Some? ==> |r.value.names| + 1 == |p.names| && r.value.absolute == p.absolute
    ensures r.Some? ==> r.value.names == p.names[..|p.names| - 1]
    ensures r.None? <==> p.names == [] || (|p.names| == 1 && !p.absolute)
  {
    if |p.names| == 0 then None
    else if |p.names| == 1 then (if p.absolute then Some(UnixPath(true, [])) else None)
    else Some(UnixPath(p.absolute, p.names[..|p.names| - 1]))
  }

  /** Round trip: a path printed and read back is the same path. */
  lemma PathOfString(p: UnixPath)
    requires ValidPath(p)
    ensures PathOf(PathString(p)) == p
  {
    var s := PathString(p);
    if p.names == [] {
      if p.absolute {
        assert Pieces(s, IsSlash) == [""] + Pieces("", IsSlash);
        assert Pieces(s, IsSlash) == ["", ""];
        assert NonEmpty(["", ""]) == NonEmpty([""]) == NonEmpty([]);
      } else {
        assert Pieces(s, IsSlash) == [""];
        assert NonEmpty([""]) == NonEmpty([]);
      }
    } else {
      var j := Join(p.names, '/');
      PiecesOfJoin(p.names, '/', IsSlash);
      NonEmptyOfNonEmpty(p.names);
      assert p.names[0] != "";
      assert j[0] == p.names[0][0] by {
        JoinStarts(p.names, '/');
      }
      assert j[0] != '/' by {
        assert !HasSeparator(p.names[0], IsSlash);
      }
      if p.absolute {
        assert s == "/" + j;
        assert s[1..] == j;
        assert Pieces(s, IsSlash) == [""] + p.names;
        assert NonEmpty([""] + p.names) == NonEmpty(p.names) by {
          assert ([""] + p.names)[1..] == p.names;
        }
      } else {
        assert s == j;
      }
    }
  }

  lemma JoinStarts(fields: seq<string>, sep: char)
    requires |fields| >= 1 && |fields[0]| >= 1
    ensures |Join(fields, sep)| >= 1 && Join(fields, sep)[0] == fields[0][0]
  {
  }

  lemma JoinSnoc(fields: seq<string>, sep: char)
    requires |fields| >= 2
    ensures Join(fields, sep) == Join(fields[..|fields| - 1], sep) + [sep] + fields[|fields| - 1]
    decreases |fields|
  {
    var n := |fields|;
    var init := fields[..n - 1];
    if n == 2 {
      assert Join(fields, sep) == fields[0] + [sep] + Join(fields[1..], sep);
      assert Join(init, sep) == fields[0];
    } else {
      JoinSnoc(fields[1..], sep);
      assert fields[1..][..n - 2] == init[1..];
      assert fields[1..][n - 2] == fields[n - 1];
      var mid := Join(init[1..], sep);
      assert Join(fields[1..], sep) == mid + [sep] + fields[n - 1];
      assert Join(init, sep) == fields[0] + [sep] + mid;
      assert Join(fields, sep) == fields[0] + [sep] + (mid + [sep] + fields[n - 1]);
      Regroup(fields[0], mid, fields[n - 1], sep);
    }
  }

  lemma Regroup(a: string, b: string, c: string, sep: char)
    ensures a + [sep] + (b + [sep] + c) == a + [sep] + b + [sep] + c
  {
  }

  /** A path with at least two elements is its parent, a `/`, and its file name. */
  lemma ParentSlashFileName(p: UnixPath)
    requires |p.names| >= 2
    ensures PathString(Parent(p).value) + "/" + FileName(p).value == PathString(p)
  {
    JoinSnoc(p.names, '/');
  }

  /** A text has no name elements exactly when it is made only of slashes. */
  lemma {:induction false} NoNamesIffAllSlashes(s: string)
    ensures NonEmpty(Pieces(s, IsSlash)) == [] <==> forall k | 0 <= k < |s| :: s[k] == '/'
  {
    if s != [] {
      NoNamesIffAllSlashes(s[1..]);
      var rest := Pieces(s[1..], IsSlash);
      if s[0] == '/' {
        assert Pieces(s, IsSlash) == [""] + rest;
        assert ([""] + rest)[1..] == rest;
        assert (forall k | 0 <= k < |s| :: s[k] == '/') <==> (forall k | 0 <= k < |s[1..]| :: s[1..][k] == '/') by {
          forall k | 0 <= k < |s[1..]| ensures s[1..][k] == s[k + 1] {}
        }
      } else {
        assert Pieces(s, IsSlash)[0] == [s[0]] + rest[0];
      }
    }
  }
}
