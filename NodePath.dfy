/**
  The parts of Node's POSIX `path` module the file collector relies on, for
  the base names a directory listing returns (names without '/'):
  `path.extname`, and relative paths as segments joined with '/'.
*/
module NodePath {
  import opened Wrappers
  import opened CharSearch

  /** A directory-entry name never contains the separator. */
  predicate NoSeparator(name: string) {
    '/' !in name
  }

  predicate AllNoSeparator(segments: seq<string>) {
    forall i :: 0 <= i < |segments| ==> NoSeparator(segments[i])
  }

  // ---------------------------------------------------------------------------
  // path.extname
  // ---------------------------------------------------------------------------

  /** path.extname of a base name: the text from the last '.' to the end, or
      "" when there is no '.', when the only '.' that could start it is the
      first character (".bashrc"), or when the name is "..". */
  function Extname(name: string): (r: string)
    ensures r == [] || (r[0] == '.' && '.' !in r[1..])
    ensures |r| <= |name| && r == name[|name| - |r|..]
    ensures r != [] <==> exists d :: 0 < d < |name| && name[d] == '.' && name != ".."
  {
    match LastIndexOf(name, '.')
    case None => ""
    case Some(d) =>
      assert forall j :: 0 <= j < |name| - d - 1 ==> name[d..][1..][j] == name[d + 1 + j];
      if d == 0 then
        assert forall j :: 0 < j < |name| ==> name[j] != '.';
        ""
      else if name == ".." then ""
      else name[d..]
  }

  /** A name made of a non-empty stem and an extension with a single leading
      dot has exactly that extension. */
  lemma ExtnameOfStem(stem: string, ext: string)
    requires stem != [] && stem + ext != ".."
    requires ext != [] && ext[0] == '.' && '.' !in ext[1..]
    ensures Extname(stem + ext) == ext
  {
    var name := stem + ext;
    var d := |stem|;
    assert name[d] == '.';
    forall j | d < j < |name| ensures name[j] != '.' {
      assert name[j] == ext[1..][j - d - 1];
    }
    assert LastIndexOf(name, '.') == Some(d);
    assert name[d..] == ext;
  }

  // ---------------------------------------------------------------------------
  // relative paths
  // ---------------------------------------------------------------------------

  /** The relative path string of a sequence of segments, as path.join and
      path.relative build it: the segments separated by '/'. */
  function Join(segments: seq<string>): string
  {
    if segments == [] then ""
    else if |segments| == 1 then segments[0]
    else segments[0] + "/" + Join(segments[1..])
  }

  /** The segments of a relative path string: cut at every '/'. */
  function Split(path: string): (r: seq<string>)
    ensures |r| > 0 && AllNoSeparator(r)
    decreases |path|
  {
    match FirstIndexOf(path, '/')
    case None => [path]
    case Some(i) =>
      var head := path[..i];
      assert forall j :: 0 <= j < i ==> head[j] == path[j];
      [head] + Split(path[i + 1..])
  }

  /** Splitting a joined path gives back its segments. */
  lemma {:induction false} SplitJoin(segments: seq<string>)
    requires |segments| > 0 && AllNoSeparator(segments)
    ensures Split(Join(segments)) == segments
  {
    if |segments| > 1 {
      var tail := segments[1..];
      assert NoSeparator(segments[0]);
      assert Join(segments) == segments[0] + "/" + Join(tail);
      SplitAtSeparator(segments[0], Join(tail));
      SplitJoin(tail);
      assert segments == [segments[0]] + tail;
    }
  }

  /** A '/' after a segment ends that segment. */
  lemma SplitAtSeparator(head: string, rest: string)
    requires NoSeparator(head)
    ensures Split(head + "/" + rest) == [head] + Split(rest)
  {
    var p := head + "/" + rest;
    assert p[|head|] == '/';
    forall j | 0 <= j < |head| ensures p[j] != '/' {
      assert p[j] == head[j];
    }
    assert FirstIndexOf(p, '/') == Some(|head|);
    assert p[..|head|] == head;
    assert p[|head| + 1..] == rest;
  }

  /** Joining the segments of a path gives back the path. */
  lemma {:induction false} JoinSplit(path: string)
    ensures Join(Split(path)) == path
    decreases |path|
  {
    match FirstIndexOf(path, '/')
    case None =>
    case Some(i) =>
      var tail := path[i + 1..];
      JoinSplit(tail);
      assert path == path[..i] + "/" + tail;
  }

  /** Distinct segment sequences give distinct path strings. */
  lemma JoinInjective(p: seq<string>, q: seq<string>)
    requires |p| > 0 && |q| > 0 && AllNoSeparator(p) && AllNoSeparator(q)
    requires Join(p) == Join(q)
    ensures p == q
  {
    SplitJoin(p);
    SplitJoin(q);
  }
}
