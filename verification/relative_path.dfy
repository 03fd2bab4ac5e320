/**
 * The label shown for a directory: its path relative to the directory the
 * viewer was started in (`get_relative_path`). Both paths arrive already
 * canonicalized, as the lists of their components below the root; a path
 * that could not be canonicalized arrives as `None`.
 */
module RelativePaths {
  import opened Wrappers

  datatype PathError = CanonicalizeFailed | NotAPrefix

  /** A component of a canonical path: non-empty, no separator, not `.` or `..`. */
  predicate ValidComponent(c: string) {
    |c| > 0 && '/' !in c && c != "." && c != ".."
  }

  predicate ValidComponents(cs: seq<string>) {
    forall i :: 0 <= i < |cs| ==> ValidComponent(cs[i])
  }

  /** Components joined with the separator, as a relative path prints. */
  function Join(cs: seq<string>): (s: string)
    ensures cs == [] ==> s == ""
  {
    if cs == [] then ""
    else if |cs| == 1 then cs[0]
    else cs[0] + "/" + Join(cs[1..])
  }

  /** A string cut at every separator; the inverse of `Join`. */
  function Split(s: string): (cs: seq<string>)
    ensures |cs| >= 1
  {
    if s == [] then [""]
    else if s[0] == '/' then [""] + Split(s[1..])
    else
      var rest := Split(s[1..]);
      [[s[0]] + rest[0]] + rest[1..]
  }

  /** `Path::strip_prefix` on components: what follows `base`, when `base` is a prefix. */
  function StripPrefix(base: seq<string>, path: seq<string>): (r: Option<seq<string>>)
    ensures r.Some? <==> |base| <= |path| && path[..|base|] == base
    ensures r.Some? ==> base + r.value == path
  {
    if |base| <= |path| && path[..|base|] == base then
      assert base + path[|base|..] == path;
      Some(path[|base|..])
    else None
  }

  /**
   * `get_relative_path`: either path failing to canonicalize is an error,
   * so is a base that is not a prefix of the path; an empty remainder
   * reads `.`.
   */
  function RelativePath(base: Option<seq<string>>, path: Option<seq<string>>): (r: Result<string, PathError>)
    ensures base.None? || path.None? ==> r == Err(CanonicalizeFailed)
    ensures base.Some? && path.Some? ==>
      (r.Ok? <==> |base.value| <= |path.value| && path.value[..|base.value|] == base.value)
    ensures base.Some? && path.Some? && r.Err? ==> r.error == NotAPrefix
    ensures r.Ok? ==> r.value != ""
  {
    if base.None? || path.None? then Err(CanonicalizeFailed)
    else
      match StripPrefix(base.value, path.value)
      case None => Err(NotAPrefix)
      case Some(rest) =>
        var s := Join(rest);
        if s == "" then Ok(".") else Ok(s)
  }

  /** Splitting a separator-free prefix only extends the first piece. */
  lemma {:induction false} SplitPrefix(c: string, t: string)
    requires '/' !in c
    ensures Split(c + t) == [c + Split(t)[0]] + Split(t)[1..]
  {
    if c != [] {
      assert (c + t)[1..] == c[1..] + t;
      assert '/' !in c[1..] by {
        assert forall i :: 0 <= i < |c[1..]| ==> c[1..][i] == c[i + 1];
      }
      SplitPrefix(c[1..], t);
      assert [c[0]] + (c[1..] + Split(t)[0]) == c + Split(t)[0];
    } else {
      assert c + t == t && c + Split(t)[0] == Split(t)[0];
      assert [Split(t)[0]] + Split(t)[1..] == Split(t);
    }
  }

  /** Splitting what `Join` built gives the components back. */
  lemma {:induction false} SplitJoin(cs: seq<string>)
    requires cs != [] && ValidComponents(cs)
    ensures Split(Join(cs)) == cs
  {
    if |cs| == 1 {
      SplitPrefix(cs[0], "");
      assert cs[0] + "" == cs[0];
    } else {
      var j := Join(cs[1..]);
      SplitJoin(cs[1..]);
      assert cs[0] + "/" + j == cs[0] + ("/" + j);
      SplitPrefix(cs[0], "/" + j);
      assert ("/" + j)[1..] == j;
      assert Split("/" + j) == [""] + cs[1..];
      assert cs[0] + "" == cs[0];
    }
  }

  /** Valid components never join to the empty string. */
  lemma JoinNonEmpty(cs: seq<string>)
    requires cs != [] && ValidComponents(cs)
    ensures Join(cs) != ""
  {
    SplitJoin(cs);
    assert Split("") == [""];
  }

  /**
   * For canonical paths: the result is `.` exactly when the two paths are
   * the same, and otherwise it splits back into the components that follow
   * the base.
   */
  lemma RelativePathMeaning(base: seq<string>, path: seq<string>)
    requires ValidComponents(base) && ValidComponents(path)
    requires |base| <= |path| && path[..|base|] == base
    ensures RelativePath(Some(base), Some(path)) == Ok(".") <==> path == base
    ensures path != base ==>
      (RelativePath(Some(base), Some(path)).Ok? &&
       base + Split(RelativePath(Some(base), Some(path)).value) == path)
  {
    var rest := path[|base|..];
    assert base + rest == path;
    if rest != [] {
      assert ValidComponents(rest) by {
        assert forall i :: 0 <= i < |rest| ==> rest[i] == path[|base| + i];
      }
      SplitJoin(rest);
      JoinNonEmpty(rest);
      assert ValidComponent(rest[0]);
      assert Split(".") == ["."] by {
        assert "."[1..] == "" && Split("") == [""];
        assert ['.'] + "" == ".";
      }
    }
  }
}
