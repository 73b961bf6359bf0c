/**
  The workspace file collector of the chat command: `collectFiles(dir)` and
  its inner recursive `walk(currentPath)`, which lists each directory with
  readdirSync, recurses into subdirectories, and records the content of every
  readable file whose extension is on a fixed allow-list in a shared map, keyed
  by the file's path relative to `dir`.

  The file system is a tree of entries. A call walk(currentPath) is given the
  entry found at currentPath and that entry's path relative to the root, as a
  sequence of names.
*/
module FileCollector {
  import opened Wrappers
  import opened NodePath

  /** What a directory listing returns for one name, together with what
      reading it yields. */
  datatype Entry =
    | File(name: string, content: Option<string>)  // not a directory; None: readFileSync throws
    | Dir(name: string, children: seq<Entry>)      // a directory readdirSync can list
    | UnreadableDir(name: string)                  // a directory readdirSync throws on

  /** The extensions whose files are collected, compared case-sensitively. */
  const AllowedExt: seq<string> :=
    [".py", ".ts", ".js", ".java", ".cpp", ".cs", ".swift", ".kt", ".kts", ".dart", ".c", ".razor", ".cshtml"]

  predicate Allowed(name: string) {
    Extname(name) in AllowedExt
  }

  function Get<K, V>(m: map<K, V>, k: K): Option<V> {
    if k in m then Some(m[k]) else None
  }

  // ---------------------------------------------------------------------------
  // What the walk computes
  // ---------------------------------------------------------------------------

  /** Both steps succeeded: the later step's entries are written over the
      earlier ones, as the in-place assignments do. */
  function Then(first: Option<map<string, string>>, second: Option<map<string, string>>): Option<map<string, string>> {
    if first.Some? && second.Some? then Some(first.value + second.value) else None
  }

  /** The entries walk(currentPath) adds when currentPath holds `node`, found
      at `rel`; None when it throws. readdirSync throws on an unreadable
      directory and on anything that is not a directory. */
  function WalkSpec(rel: seq<string>, node: Entry): Option<map<string, string>>
    decreases node, 0
  {
    if node.Dir? then ListingSpec(rel, node.children) else None
  }

  /** The entries that the loop over a listing adds, for the first |entries|
      entries of it. */
  function ListingSpec(rel: seq<string>, entries: seq<Entry>): Option<map<string, string>>
    decreases entries
  {
    if entries == [] then Some(map[])
    else Then(ListingSpec(rel, entries[..|entries| - 1]), EntrySpec(rel, entries[|entries| - 1]))
  }

  /** What one iteration of the loop adds: a directory is walked, a readable
      allow-listed file adds its own entry, anything else adds nothing. */
  function EntrySpec(rel: seq<string>, e: Entry): Option<map<string, string>>
    decreases e, 1
  {
    match e
    case File(name, content) =>
      Some(if content.Some? && Allowed(name) then map[Join(rel + [name]) := content.value] else map[])
    case _ => WalkSpec(rel + [e.name], e)
  }

  // ---------------------------------------------------------------------------
  // The collector
  // ---------------------------------------------------------------------------

  class Collector {
    /** The record walk fills in, keyed by path relative to the root. */
    var fileMap: map<string, string>

    constructor ()
      ensures fileMap == map[]
    {
      fileMap := map[];
    }

    /** walk(currentPath) for the entry `node` at relative path `rel`.
        Returns false where walk throws; the exception ends every enclosing
        walk at once. */
    method Walk(rel: seq<string>, node: Entry) returns (ok: bool)
      modifies this
      ensures ok == WalkSpec(rel, node).Some?
      ensures ok ==> fileMap == old(fileMap) + WalkSpec(rel, node).value
      decreases node, 0
    {
      if !node.Dir? {
        return false;
      }
      var entries := node.children;
      for i := 0 to |entries|
        invariant ListingSpec(rel, entries[..i]).Some?
        invariant fileMap == old(fileMap) + ListingSpec(rel, entries[..i]).value
      {
        ghost var before := fileMap;
        var visited := Visit(rel, entries[i]);
        if !visited {
          ListingStep(rel, entries, i);
          ListingStopsAtFailure(rel, entries, i + 1);
          return false;
        }
        ListingAdvance(rel, entries, i, old(fileMap), before, fileMap);
      }
      assert entries[..|entries|] == entries;
      ok := true;
    }

    /** One iteration of walk's loop, for the listed entry `entry`: a
        directory is walked, an allow-listed file is read and recorded, and
        a file that cannot be read is skipped. */
    method Visit(rel: seq<string>, entry: Entry) returns (ok: bool)
      modifies this
      ensures ok == EntrySpec(rel, entry).Some?
      ensures ok ==> fileMap == old(fileMap) + EntrySpec(rel, entry).value
      decreases entry, 1
    {
      if !entry.File? {
        ok := Walk(rel + [entry.name], entry);
        return;
      }
      ok := true;
      if Allowed(entry.name) {
        match entry.content
        case Some(content) =>
          // fs.readFileSync succeeded
          AssignIsUnion(fileMap, Join(rel + [entry.name]), content);
          fileMap := fileMap[Join(rel + [entry.name]) := content];
        case None =>
          // fs.readFileSync threw; the catch block ignores it
          UnionEmpty(fileMap);
      } else {
        UnionEmpty(fileMap);
      }
    }
  }

  lemma AssignIsUnion<K, V>(m: map<K, V>, k: K, v: V)
    ensures m[k := v] == m + map[k := v]
  {
  }

  lemma UnionEmpty<K, V>(m: map<K, V>)
    ensures m + map[] == m
  {
  }

  lemma UnionAssoc<K, V>(a: map<K, V>, b: map<K, V>, c: map<K, V>)
    ensures (a + b) + c == a + (b + c)
  {
  }

  /** The listing of the first i + 1 entries is that of the first i followed by entry i. */
  lemma ListingStep(rel: seq<string>, entries: seq<Entry>, i: nat)
    requires i < |entries|
    ensures ListingSpec(rel, entries[..i + 1]) == Then(ListingSpec(rel, entries[..i]), EntrySpec(rel, entries[i]))
  {
    assert entries[..i + 1][..i] == entries[..i];
  }

  /** One more entry of the listing processed: what it adds is written over
      what the earlier entries added. */
  lemma ListingAdvance(rel: seq<string>, entries: seq<Entry>, i: nat, base: map<string, string>, before: map<string, string>, after: map<string, string>)
    requires i < |entries| && ListingSpec(rel, entries[..i]).Some?
    requires before == base + ListingSpec(rel, entries[..i]).value
    requires EntrySpec(rel, entries[i]).Some? && after == before + EntrySpec(rel, entries[i]).value
    ensures ListingSpec(rel, entries[..i + 1]).Some?
    ensures after == base + ListingSpec(rel, entries[..i + 1]).value
  {
    ListingStep(rel, entries, i);
    UnionAssoc(base, ListingSpec(rel, entries[..i]).value, EntrySpec(rel, entries[i]).value);
  }

  /** collectFiles(dir) with `root` the entry at dir: the map, or None when
      the returned promise rejects. */
  method CollectFiles(root: Entry) returns (r: Option<map<string, string>>)
    ensures r == WalkSpec([], root)
  {
    var collector := new Collector();
    var ok := collector.Walk([], root);
    if ok {
      assert map[] + WalkSpec([], root).value == WalkSpec([], root).value;
      r := Some(collector.fileMap);
    } else {
      r := None;
    }
  }

  /** Once a prefix of the listing has thrown, the whole listing has. */
  lemma {:induction false} ListingStopsAtFailure(rel: seq<string>, entries: seq<Entry>, k: nat)
    requires k <= |entries| && ListingSpec(rel, entries[..k]).None?
    ensures ListingSpec(rel, entries).None?
    decreases |entries| - k
  {
    if k < |entries| {
      var longer := entries[..k + 1];
      assert longer[..k] == entries[..k];
      ListingStopsAtFailure(rel, entries, k + 1);
    } else {
      assert entries[..k] == entries;
    }
  }

  // ---------------------------------------------------------------------------
  // The tree seen by path
  // ---------------------------------------------------------------------------

  /** What readdirSync can return as a name. */
  predicate EntryName(name: string) {
    name != "" && name != "." && name != ".." && NoSeparator(name)
  }

  /** A real directory tree: valid names, unique within each directory. */
  predicate WfEntry(e: Entry)
    decreases e, 1
  {
    EntryName(e.name) && (e.Dir? ==> WfListing(e.children))
  }

  predicate WfListing(entries: seq<Entry>)
    decreases entries
  {
    && (forall i, j :: 0 <= i < j < |entries| ==> entries[i].name != entries[j].name)
    && (forall i :: 0 <= i < |entries| ==> WfEntry(entries[i]))
  }

  /** The root is named by the caller's path; only what it contains must be a
      real tree. */
  predicate WfRoot(root: Entry) {
    root.Dir? ==> WfListing(root.children)
  }

  /** The entry of a listing with the given name (the last one, were names
      repeated). */
  function ChildNamed(entries: seq<Entry>, name: string): (r: Option<Entry>)
    ensures r.Some? ==> r.value in entries && r.value.name == name
    ensures r.None? <==> forall i :: 0 <= i < |entries| ==> entries[i].name != name
  {
    if entries == [] then None
    else if entries[|entries| - 1].name == name then Some(entries[|entries| - 1])
    else
      var r := ChildNamed(entries[..|entries| - 1], name);
      assert forall i :: 0 <= i < |entries| - 1 ==> entries[..|entries| - 1][i] == entries[i];
      r
  }

  /** The entry reached from `node` by following the names in `path`. */
  function Resolve(node: Entry, path: seq<string>): Option<Entry>
    decreases |path|, 1
  {
    if path == [] then Some(node)
    else if node.Dir? then ResolveIn(node.children, path)
    else None
  }

  /** The entry reached from a listing by following a non-empty path. */
  function ResolveIn(entries: seq<Entry>, path: seq<string>): Option<Entry>
    requires |path| > 0
    decreases |path|, 0
  {
    match ChildNamed(entries, path[0])
    case None => None
    case Some(e) => Resolve(e, path[1..])
  }

  /** The content collectFiles should record for a resolved entry: that of a
      readable file with an allowed extension, and nothing otherwise. */
  function Collectable(found: Option<Entry>): Option<string> {
    match found
    case Some(File(name, Some(content))) => if Allowed(name) then Some(content) else None
    case _ => None
  }

  predicate IsUnreadableDir(found: Option<Entry>) {
    found.Some? && found.value.UnreadableDir?
  }

  /** The number of readable, allow-listed files anywhere below a listing. */
  function CountListing(entries: seq<Entry>): nat
    decreases entries
  {
    if entries == [] then 0
    else CountListing(entries[..|entries| - 1]) + CountEntry(entries[|entries| - 1])
  }

  function CountEntry(e: Entry): nat
    decreases e
  {
    match e
    case File(name, content) => if content.Some? && Allowed(name) then 1 else 0
    case Dir(_, children) => CountListing(children)
    case UnreadableDir(_) => 0
  }

  function CountFiles(root: Entry): nat {
    if root.Dir? then CountListing(root.children) else 0
  }

  // ---------------------------------------------------------------------------
  // The walk against the path view
  // ---------------------------------------------------------------------------

  /** What an entry at `rel` should contribute for the key whose segments are
      `s`: something only below `rel + [e.name]`. */
  function EntryExpected(rel: seq<string>, e: Entry, s: seq<string>): Option<string> {
    if |s| > |rel| && s[..|rel|] == rel && s[|rel|] == e.name then Collectable(Resolve(e, s[|rel| + 1..]))
    else None
  }

  /** What a listing at `rel` should contribute for the key whose segments are
      `s`: something only below `rel`. */
  function ListingExpected(rel: seq<string>, entries: seq<Entry>, s: seq<string>): Option<string> {
    if |s| > |rel| && s[..|rel|] == rel then Collectable(ResolveIn(entries, s[|rel|..]))
    else None
  }

  /** A file entry's one key is the file's own path. */
  lemma FileKey(rel: seq<string>, name: string, content: Option<string>, k: string)
    requires AllNoSeparator(rel + [name])
    ensures Get(EntrySpec(rel, File(name, content)).value, k) == EntryExpected(rel, File(name, content), Split(k))
  {
    var path := rel + [name];
    var s := Split(k);
    var e := File(name, content);
    KeyOfPath(path, k);
    ExtendedBy(rel, name, s);
    if |s| > |rel| && s[..|rel|] == rel && s[|rel|] == name {
      var below := s[|rel| + 1..];
      if below == [] {
        assert s == path && Resolve(e, below) == Some(e);
      } else {
        assert s != path && Resolve(e, below) == None;
      }
    } else {
      assert s != path;
    }
  }

  /** A key is the path string of `path` exactly when it splits into `path`. */
  lemma KeyOfPath(path: seq<string>, k: string)
    requires |path| > 0 && AllNoSeparator(path)
    ensures k == Join(path) <==> Split(k) == path
  {
    SplitJoin(path);
    JoinSplit(k);
  }

  /** `s` is `rel` followed by `name` and then `s[|rel| + 1..]`. */
  lemma ExtendedBy(rel: seq<string>, name: string, s: seq<string>)
    ensures s == rel + [name] <==> (|s| > |rel| && s[..|rel|] == rel && s[|rel|] == name && s[|rel| + 1..] == [])
  {
    if |s| > |rel| && s[..|rel|] == rel && s[|rel|] == name && s[|rel| + 1..] == [] {
      assert s == s[..|rel|] + [s[|rel|]] + s[|rel| + 1..];
    }
  }

  /** Below a directory entry, the keys are those its listing yields. */
  lemma DirExpected(rel: seq<string>, name: string, children: seq<Entry>, s: seq<string>)
    ensures ListingExpected(rel + [name], children, s) == EntryExpected(rel, Dir(name, children), s)
  {
    var path := rel + [name];
    if |s| > |rel| && s[..|rel|] == rel && s[|rel|] == name {
      assert s[..|path|] == path;
      if |s| > |path| {
        assert s[|path|..] == s[|rel| + 1..];
      }
    } else if |s| > |path| {
      assert s[..|path|][..|rel|] == s[..|rel|];
      assert s[..|path|][|rel|] == s[|rel|];
    }
  }

  /** Adding an entry with a new name to a listing adds exactly the keys
      below that name. */
  lemma ListingExpectedStep(rel: seq<string>, entries: seq<Entry>, s: seq<string>)
    requires entries != []
    requires ChildNamed(entries[..|entries| - 1], entries[|entries| - 1].name).None?
    ensures var prefix, e := entries[..|entries| - 1], entries[|entries| - 1];
      if |s| > |rel| && s[..|rel|] == rel && s[|rel|] == e.name
      then ListingExpected(rel, entries, s) == EntryExpected(rel, e, s) && ListingExpected(rel, prefix, s).None?
      else ListingExpected(rel, entries, s) == ListingExpected(rel, prefix, s) && EntryExpected(rel, e, s).None?
  {
    if |s| > |rel| && s[..|rel|] == rel {
      var t := s[|rel|..];
      assert t[0] == s[|rel|];
      assert t[1..] == s[|rel| + 1..];
    }
  }

  lemma {:induction false} EntryContents(rel: seq<string>, e: Entry)
    requires AllNoSeparator(rel) && WfEntry(e) && EntrySpec(rel, e).Some?
    ensures forall k :: Get(EntrySpec(rel, e).value, k) == EntryExpected(rel, e, Split(k))
    decreases e, 1
  {
    assert AllNoSeparator(rel + [e.name]);
    match e
    case File(name, content) =>
      forall k ensures Get(EntrySpec(rel, e).value, k) == EntryExpected(rel, e, Split(k)) {
        FileKey(rel, name, content, k);
      }
    case Dir(name, children) =>
      ListingContents(rel + [name], children);
      forall k ensures Get(EntrySpec(rel, e).value, k) == EntryExpected(rel, e, Split(k)) {
        DirExpected(rel, name, children, Split(k));
      }
  }

  lemma {:induction false} ListingContents(rel: seq<string>, entries: seq<Entry>)
    requires AllNoSeparator(rel) && WfListing(entries) && ListingSpec(rel, entries).Some?
    ensures forall k :: Get(ListingSpec(rel, entries).value, k) == ListingExpected(rel, entries, Split(k))
    decreases entries
  {
    if entries != [] {
      var n := |entries| - 1;
      var prefix := entries[..n];
      var e := entries[n];
      assert forall i :: 0 <= i < n ==> prefix[i] == entries[i];
      assert WfListing(prefix);
      assert WfEntry(e);
      assert ChildNamed(prefix, e.name).None?;
      ListingContents(rel, prefix);
      EntryContents(rel, e);
      var mp := ListingSpec(rel, prefix).value;
      var h := EntrySpec(rel, e).value;
      forall k ensures Get(mp + h, k) == ListingExpected(rel, entries, Split(k)) {
        ListingExpectedStep(rel, entries, Split(k));
      }
    }
  }

  /** What collectFiles returns, key by key: a key is present exactly when
      its path resolves, from the root, to a readable file with an allowed
      extension, and its value is that file's content. */
  lemma CollectedIsCollectable(root: Entry, m: map<string, string>)
    requires WfRoot(root) && WalkSpec([], root) == Some(m)
    ensures forall k :: Get(m, k) == Collectable(Resolve(root, Split(k)))
  {
    ListingContents([], root.children);
    forall k ensures Get(m, k) == Collectable(Resolve(root, Split(k))) {
      var s := Split(k);
      assert s[..0] == [] && s[0..] == s;
    }
  }

  /** Every key names an allow-listed file (not a directory) and holds the
      content read for it. */
  lemma KeysNameCollectedFiles(root: Entry, m: map<string, string>, k: string)
    requires WfRoot(root) && WalkSpec([], root) == Some(m) && k in m
    ensures Resolve(root, Split(k)).Some?
    ensures Resolve(root, Split(k)).value.File?
    ensures Allowed(Resolve(root, Split(k)).value.name)
    ensures Resolve(root, Split(k)).value.content == Some(m[k])
  {
    CollectedIsCollectable(root, m);
    assert Get(m, k) == Collectable(Resolve(root, Split(k)));
  }

  /** Every readable allow-listed file, wherever it is and whatever its
      siblings are, is recorded under its relative path. */
  lemma EveryCollectableFileIsKept(root: Entry, m: map<string, string>, path: seq<string>)
    requires WfRoot(root) && WalkSpec([], root) == Some(m)
    requires |path| > 0 && AllNoSeparator(path) && Collectable(Resolve(root, path)).Some?
    ensures Join(path) in m && m[Join(path)] == Collectable(Resolve(root, path)).value
  {
    CollectedIsCollectable(root, m);
    SplitJoin(path);
    assert Get(m, Join(path)) == Collectable(Resolve(root, path));
  }

  /** A file that cannot be read leaves no key behind. */
  lemma UnreadableFileIsSkipped(root: Entry, m: map<string, string>, path: seq<string>)
    requires WfRoot(root) && WalkSpec([], root) == Some(m)
    requires |path| > 0 && AllNoSeparator(path)
    requires Resolve(root, path).Some? && Resolve(root, path).value.File?
    requires Resolve(root, path).value.content.None?
    ensures Join(path) !in m
  {
    CollectedIsCollectable(root, m);
    SplitJoin(path);
    assert Get(m, Join(path)) == Collectable(Resolve(root, path));
  }

  // ---------------------------------------------------------------------------
  // How many entries
  // ---------------------------------------------------------------------------

  lemma {:induction false} EntryCount(rel: seq<string>, e: Entry)
    requires AllNoSeparator(rel) && WfEntry(e) && EntrySpec(rel, e).Some?
    ensures |EntrySpec(rel, e).value| == CountEntry(e)
    decreases e, 1
  {
    match e
    case File(_, _) =>
    case Dir(name, children) =>
      assert AllNoSeparator(rel + [name]);
      ListingCount(rel + [name], children);
  }

  lemma {:induction false} ListingCount(rel: seq<string>, entries: seq<Entry>)
    requires AllNoSeparator(rel) && WfListing(entries) && ListingSpec(rel, entries).Some?
    ensures |ListingSpec(rel, entries).value| == CountListing(entries)
    decreases entries
  {
    if entries != [] {
      var n := |entries| - 1;
      var prefix := entries[..n];
      var e := entries[n];
      assert forall i :: 0 <= i < n ==> prefix[i] == entries[i];
      assert WfListing(prefix);
      assert WfEntry(e);
      ListingCount(rel, prefix);
      EntryCount(rel, e);
      var mp := ListingSpec(rel, prefix).value;
      var h := EntrySpec(rel, e).value;
      assert forall i :: 0 <= i < n ==> prefix[i].name != e.name;
      NewNameAddsNewKeys(rel, prefix, e);
      DisjointUnionSize(mp, h);
    }
  }

  /** The keys an entry adds are not among those of a listing that holds no
      entry of the same name. */
  lemma NewNameAddsNewKeys(rel: seq<string>, prefix: seq<Entry>, e: Entry)
    requires AllNoSeparator(rel) && WfListing(prefix) && WfEntry(e)
    requires forall i :: 0 <= i < |prefix| ==> prefix[i].name != e.name
    requires ListingSpec(rel, prefix).Some? && EntrySpec(rel, e).Some?
    ensures ListingSpec(rel, prefix).value.Keys !! EntrySpec(rel, e).value.Keys
  {
    ListingContents(rel, prefix);
    EntryContents(rel, e);
    var mp := ListingSpec(rel, prefix).value;
    var h := EntrySpec(rel, e).value;
    forall k | k in mp ensures k !in h {
      var s := Split(k);
      assert Get(mp, k).Some?;
      var t := s[|rel|..];
      assert ChildNamed(prefix, t[0]).Some?;
      assert t[0] == s[|rel|];
      assert s[|rel|] != e.name;
      assert Get(h, k) == EntryExpected(rel, e, s);
    }
  }

  lemma DisjointUnionSize<K, V>(a: map<K, V>, b: map<K, V>)
    requires a.Keys !! b.Keys
    ensures |a + b| == |a| + |b|
  {
    assert (a + b).Keys == a.Keys + b.Keys;
    assert |(a + b).Keys| == |a.Keys| + |b.Keys|;
  }

  /** The map has one entry per readable allow-listed file in the tree. */
  lemma CollectedCount(root: Entry, m: map<string, string>)
    requires WfRoot(root) && WalkSpec([], root) == Some(m)
    ensures |m| == CountFiles(root)
  {
    ListingCount([], root.children);
  }

  /** A tree without readable allow-listed files gives the empty map. */
  lemma NothingToCollect(root: Entry, m: map<string, string>)
    requires WfRoot(root) && WalkSpec([], root) == Some(m) && CountFiles(root) == 0
    ensures m == map[]
  {
    CollectedCount(root, m);
  }

  // ---------------------------------------------------------------------------
  // When the walk throws
  // ---------------------------------------------------------------------------

  /** A failing entry of a listing makes the whole listing fail. */
  lemma EntryFailureSpreads(rel: seq<string>, entries: seq<Entry>, i: nat)
    requires i < |entries| && EntrySpec(rel, entries[i]).None?
    ensures ListingSpec(rel, entries).None?
  {
    ListingStep(rel, entries, i);
    ListingStopsAtFailure(rel, entries, i + 1);
  }

  /** Reaching an unreadable directory below a listing makes it fail. */
  lemma {:induction false} ListingFailsAt(rel: seq<string>, entries: seq<Entry>, path: seq<string>)
    requires |path| > 0 && IsUnreadableDir(ResolveIn(entries, path))
    ensures ListingSpec(rel, entries).None?
    decreases |path|, 0
  {
    var e := ChildNamed(entries, path[0]).value;
    var i :| 0 <= i < |entries| && entries[i] == e;
    EntryFailsAt(rel, e, path[1..]);
    EntryFailureSpreads(rel, entries, i);
  }

  /** Reaching an unreadable directory from an entry makes it fail. */
  lemma {:induction false} EntryFailsAt(rel: seq<string>, e: Entry, path: seq<string>)
    requires IsUnreadableDir(Resolve(e, path))
    ensures EntrySpec(rel, e).None?
    decreases |path|, 1
  {
    if path != [] {
      ListingFailsAt(rel + [e.name], e.children, path);
    }
  }

  /** A listing that fails has an unreadable directory below it. */
  lemma {:induction false} ListingFailureWitness(rel: seq<string>, entries: seq<Entry>) returns (path: seq<string>)
    requires WfListing(entries) && ListingSpec(rel, entries).None?
    ensures |path| > 0 && IsUnreadableDir(ResolveIn(entries, path))
    decreases entries
  {
    var n := |entries| - 1;
    var prefix := entries[..n];
    var e := entries[n];
    assert forall i :: 0 <= i < n ==> prefix[i] == entries[i];
    assert WfListing(prefix);
    assert WfEntry(e);
    if ListingSpec(rel, prefix).None? {
      path := ListingFailureWitness(rel, prefix);
      var found := ChildNamed(prefix, path[0]).value;
      assert found in prefix;
      assert path[0] != e.name;
    } else {
      var below := EntryFailureWitness(rel, e);
      path := [e.name] + below;
      assert path[1..] == below;
    }
  }

  /** An entry that fails is, or contains, an unreadable directory. */
  lemma {:induction false} EntryFailureWitness(rel: seq<string>, e: Entry) returns (path: seq<string>)
    requires WfEntry(e) && EntrySpec(rel, e).None?
    ensures IsUnreadableDir(Resolve(e, path))
    decreases e, 1
  {
    if e.UnreadableDir? {
      path := [];
    } else {
      path := ListingFailureWitness(rel + [e.name], e.children);
    }
  }

  /** collectFiles rejects exactly when the root is not a readable directory
      or some directory below it cannot be listed; unreadable files never
      make it reject. */
  lemma CollectFailsIffUnreadableDir(root: Entry)
    requires WfRoot(root)
    ensures WalkSpec([], root).None? <==> !root.Dir? || exists p :: IsUnreadableDir(Resolve(root, p))
  {
    if root.Dir? {
      if WalkSpec([], root).None? {
        var p := ListingFailureWitness([], root.children);
        assert Resolve(root, p) == ResolveIn(root.children, p);
        assert IsUnreadableDir(Resolve(root, p));
        assert exists q :: IsUnreadableDir(Resolve(root, q));
      } else {
        forall p | IsUnreadableDir(Resolve(root, p)) ensures false {
          ListingFailsAt([], root.children, p);
        }
      }
    }
  }

  // ---------------------------------------------------------------------------
  // The extension filter
  // ---------------------------------------------------------------------------

  /** A file named with a non-empty stem and an allow-listed extension is
      collected, and the same name with the extension in upper case is not. */
  lemma ExtensionFilterIsCaseSensitive(stem: string)
    requires stem != []
    ensures Allowed(stem + ".py")
    ensures !Allowed(stem + ".PY")
  {
    ExtnameOfStem(stem, ".py");
    ExtnameOfStem(stem, ".PY");
  }

  /** Every allow-listed extension is recognised after any non-empty stem. */
  lemma AllowedExtensionsAreRecognised(stem: string, ext: string)
    requires stem != [] && ext in AllowedExt
    ensures Allowed(stem + ext)
  {
    assert ext[0] == '.' && '.' !in ext[1..];
    ExtnameOfStem(stem, ext);
  }
}
