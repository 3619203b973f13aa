/** `DirectoryTree`: a `FileNode` tree anchored at a fixed root path, with
    the four path-keyed operations `add`, `in`, `[]` and `del`. Each first
    splits the root path and the query path into segments and requires the
    root's segments to be a prefix of the query's (else `OutOfRange`); the
    remaining segments are then walked from the root. */
module DirTree {
  import opened Outcomes
  import opened Paths
  import opened Tree
  import opened FileTree

  datatype DirectoryTree = DirectoryTree(rootDir: string, root: FileNode)

  /** What every tree built by the operations below satisfies: the root
      carries the root path, every other node a proper segment, and no node
      has two children of the same name. */
  predicate Valid(t: DirectoryTree) {
    t.root.data == t.rootDir && Unique(t.root) && AllBelow(t.root, IsSegment)
  }

  /** `DirectoryTree(root_dir)`: the root node is `FileNode(root_dir)`,
      which stats the root path. */
  function NewTree(rootDir: string, stat: StatOracle): (r: Result<DirectoryTree>)
    ensures r.Ok? <==> stat(rootDir)
    ensures r.Err? ==> r.error == NotFound(rootDir)
    ensures r.Ok? ==> Valid(r.value) && r.value.rootDir == rootDir && Leaves(r.value.root) == []
  {
    if stat(rootDir) then Ok(DirectoryTree(rootDir, Node(rootDir, []))) else Err(NotFound(rootDir))
  }

  /** The prologue shared by all four operations: the segments of `path`
      below the root, or `OutOfRange` when the root's segments are not a
      prefix of the path's. */
  function Within(rootDir: string, path: string): (r: Result<seq<string>>)
    ensures r.Ok? <==> ArrayByPath(rootDir) <= ArrayByPath(path)
    ensures r.Ok? ==> ArrayByPath(path) == ArrayByPath(rootDir) + r.value
    ensures r.Ok? ==> AllSegments(r.value)
    ensures r.Err? ==> r.error == OutOfRange(path)
  {
    var pa := ArrayByPath(path);
    ArrayByPathSegmentsAreProper(path);
    match DropPrefix(ArrayByPath(rootDir), pa)
    case None => Err(OutOfRange(path))
    case Some(rest) =>
      SuffixSegments(ArrayByPath(rootDir), rest);
      Ok(rest)
  }

  lemma SuffixSegments(main: seq<string>, rest: seq<string>)
    requires AllSegments(main + rest)
    ensures AllSegments(rest)
  {
    assert forall k :: 0 <= k < |rest| ==> rest[k] == (main + rest)[|main| + k];
  }

  /** The comparison `add`, `in`, `[]` and `del` open with: the path's
      segments must be at least as many as the root's and agree with them
      one by one; what is left over is the part below the root. */
  function DropPrefix(main: seq<string>, pa: seq<string>): (r: Option<seq<string>>)
    ensures r.Some? <==> main <= pa
    ensures r.Some? ==> pa == main + r.value
  {
    if |main| > |pa| then None
    else if exists i :: 0 <= i < |main| && main[i] != pa[i] then None
    else
      assert pa == main + pa[|main|..];
      Some(pa[|main|..])
  }

  /** The result of `add`: the tree afterwards and what the call returned. */
  datatype Added = Added(tree: DirectoryTree, outcome: Result<FileNode>)

  /** `DirectoryTree.add(path)`: attach every missing segment of `path`
      below the root, each stub named after its segment, and return the
      node the path names. A path equal to the root adds nothing and
      returns the root. */
  function Add(t: DirectoryTree, path: string, stat: StatOracle): (r: Added)
    ensures r.tree.rootDir == t.rootDir
    ensures Valid(t) ==> Valid(r.tree)
    ensures Within(t.rootDir, path).Err? ==> r == Added(t, Err(OutOfRange(path)))
    ensures Within(t.rootDir, path) == Ok([]) ==> r == Added(t, Ok(t.root))
    ensures r.outcome.Ok? ==> Get(r.tree, path) == Ok(Some(r.outcome.value))
    ensures r.outcome.Err? && Within(t.rootDir, path).Ok? ==> r.outcome.error.NotFound?
  {
    match Within(t.rootDir, path)
    case Err(e) => Added(t, Err(e))
    case Ok(rest) =>
      var ins := Insert(t.root, t.rootDir, rest, stat);
      assert Valid(t) ==> Unique(ins.tree) && AllBelow(ins.tree, IsSegment) by {
        if Valid(t) {
          InsertKeepsUnique(t.root, t.rootDir, rest, stat);
          InsertKeepsSegmentNames(t.root, t.rootDir, rest, stat);
        }
      }
      Added(t.(root := ins.tree), ins.outcome)
  }

  /** `path in tree`. */
  function Contains(t: DirectoryTree, path: string): (r: Result<bool>)
    ensures r.Err? <==> Within(t.rootDir, path).Err?
    ensures r.Err? ==> r.error == OutOfRange(path)
    ensures r.Ok? ==> (r.value <==> Get(t, path).value.Some?)
  {
    match Within(t.rootDir, path)
    case Err(e) => Err(e)
    case Ok(rest) => Ok(Has(t.root, rest))
  }

  /** `tree[path]`: the node the path names, or `None`. */
  function Get(t: DirectoryTree, path: string): (r: Result<Option<FileNode>>)
    ensures r.Err? <==> Within(t.rootDir, path).Err?
    ensures r.Err? ==> r.error == OutOfRange(path)
    ensures r.Ok? && r.value.Some? ==> r.value.value.data == (if Within(t.rootDir, path).value == [] then t.root.data else ArrayByPath(path)[|ArrayByPath(path)| - 1])
  {
    match Within(t.rootDir, path)
    case Err(e) => Err(e)
    case Ok(rest) =>
      FindData(t.root, rest);
      Ok(Find(t.root, rest))
  }

  /** The node a walk reaches carries the last name walked. */
  lemma {:induction false} FindData(n: FileNode, s: seq<string>)
    ensures Has(n, s) ==> Find(n, s).value.data == (if s == [] then n.data else s[|s| - 1])
    decreases |s|
  {
    if s != [] && GetChild(n, s[0]).Some? {
      FindData(GetChild(n, s[0]).value, s[1..]);
      if |s| > 1 {
        assert s[1..][|s| - 2] == s[|s| - 1];
      }
    }
  }

  /** `del tree[path]`: unlink the node the path names. The source
      dereferences the lookup's `None` for a missing path, so the path must
      be present or out of range. */
  function Delete(t: DirectoryTree, path: string): (r: Result<DirectoryTree>)
    requires Get(t, path) != Ok(None)
    ensures r.Err? <==> Within(t.rootDir, path).Err?
    ensures r.Err? ==> r.error == OutOfRange(path)
    ensures r.Ok? ==> r.value.rootDir == t.rootDir && r.value.root.data == t.root.data
    ensures r.Ok? && Valid(t) ==> Valid(r.value)
  {
    match Within(t.rootDir, path)
    case Err(e) => Err(e)
    case Ok(rest) =>
      assert Valid(t) ==> Unique(DeleteAt(t.root, rest)) && AllBelow(DeleteAt(t.root, rest), IsSegment) by {
        if Valid(t) {
          DeleteAtUnique(t.root, rest);
          DeleteAtAllBelow(t.root, rest, IsSegment);
        }
      }
      Ok(t.(root := DeleteAt(t.root, rest)))
  }

  /** `FileNode.get_path` of the node at index path `idx`: the root returns
      its stored path, any other node joins its payload chain. */
  function GetPath(t: DirectoryTree, idx: seq<nat>): (r: string)
    requires ValidIndex(t.root, idx)
    ensures var name := DataArray(t.root, idx)[|idx|]; |name| <= |r| && r[|r| - |name|..] == name
  {
    var arr := DataArray(t.root, idx);
    if idx == [] then t.root.data else JoinAll(arr[0], arr[1..])
  }

  /** `DirectoryTree.__iter__`: the leaves below the root. */
  function Iterate(t: DirectoryTree): (r: seq<Located<string>>)
    ensures LeafEntries(r)
  {
    Leaves(t.root)
  }

  // ---------------------------------------------------------------------
  // Properties of the path-keyed operations

  /** `stat` succeeds on every path `add` creates or revisits below `base`. */
  predicate StatsSucceed(base: string, segs: seq<string>, stat: StatOracle)
    decreases |segs|
  {
    segs == [] || (stat(Join(base, segs[0])) && StatsSucceed(Join(base, segs[0]), segs[1..], stat))
  }

  /** An insertion fails with `NotFound` exactly when one of the paths it
      walks through cannot be stat'ed. */
  lemma {:induction false} InsertOkIff(n: FileNode, base: string, segs: seq<string>, stat: StatOracle)
    requires AllSegments(segs)
    ensures Insert(n, base, segs, stat).outcome.Ok? <==> StatsSucceed(base, segs, stat)
    decreases |segs|
  {
    if segs != [] {
      var path := Join(base, segs[0]);
      BasenameOfJoin(base, segs[0]);
      match AddSubdir(n, path, stat)
      case Err(_) =>
      case Ok((n1, i)) =>
        InsertOkIff(n1.children[i], path, segs[1..], stat);
    }
  }

  /** After a successful `add(P)`, `P in tree` holds and `tree[P]` is the
      node `add` returned. */
  lemma AddThenContains(t: DirectoryTree, path: string, stat: StatOracle)
    requires Add(t, path, stat).outcome.Ok?
    ensures Contains(Add(t, path, stat).tree, path) == Ok(true)
    ensures Get(Add(t, path, stat).tree, path) == Ok(Some(Add(t, path, stat).outcome.value))
  {
  }

  /** `add` fails only with `OutOfRange` for a path outside the root, or
      with `NotFound` for a path that cannot be stat'ed on the way down. */
  lemma AddFailures(t: DirectoryTree, path: string, stat: StatOracle)
    ensures Add(t, path, stat).outcome.Ok? <==>
      Within(t.rootDir, path).Ok? && StatsSucceed(t.rootDir, Within(t.rootDir, path).value, stat)
  {
    if Within(t.rootDir, path).Ok? {
      InsertOkIff(t.root, t.rootDir, Within(t.rootDir, path).value, stat);
    }
  }

  /** A successful `add` creates exactly the missing prefixes of the path's
      segments: every other path keeps its presence or absence. */
  lemma AddPresence(t: DirectoryTree, path: string, stat: StatOracle, q: seq<string>)
    requires Add(t, path, stat).outcome.Ok?
    ensures Has(Add(t, path, stat).tree.root, q) <==>
      Has(t.root, q) || q <= Within(t.rootDir, path).value
  {
    InsertPaths(t.root, t.rootDir, Within(t.rootDir, path).value, stat, q);
  }

  /** Adding a path that is already present leaves the tree unchanged, and
      a second `add` of the same path repeats the first one's answer. */
  lemma AddIdempotent(t: DirectoryTree, path: string, stat: StatOracle)
    requires Add(t, path, stat).outcome.Ok?
    ensures Add(Add(t, path, stat).tree, path, stat) == Add(t, path, stat)
  {
    var rest := Within(t.rootDir, path).value;
    var a := Add(t, path, stat);
    AddPresence(t, path, stat, rest);
    InsertExisting(a.tree.root, t.rootDir, rest, stat);
    InsertOkIff(t.root, t.rootDir, rest, stat);
    InsertOkIff(a.tree.root, t.rootDir, rest, stat);
  }

  /** `add` only appends children: at every node that existed before, the
      old names come first, in their old order. */
  lemma AddAppends(t: DirectoryTree, path: string, stat: StatOracle, q: seq<string>)
    requires Has(t.root, q)
    ensures Has(Add(t, path, stat).tree.root, q)
    ensures ChildNames(Find(t.root, q).value) <= ChildNames(Find(Add(t, path, stat).tree.root, q).value)
  {
    if Within(t.rootDir, path).Ok? {
      InsertAppendsChildren(t.root, t.rootDir, Within(t.rootDir, path).value, stat, q);
    }
  }

  /** After `del tree[P]` for a `P` strictly below the root, `P in tree` is
      false, as is every path through the deleted node; every other path
      is as before. */
  lemma DeleteThenAbsent(t: DirectoryTree, path: string, q: seq<string>)
    requires Valid(t) && Get(t, path) != Ok(None)
    requires Within(t.rootDir, path).Ok? && Within(t.rootDir, path).value != []
    ensures Contains(Delete(t, path).value, path) == Ok(false)
    ensures Has(Delete(t, path).value.root, q) <==>
      Has(t.root, q) && !(Within(t.rootDir, path).value <= q)
  {
    var rest := Within(t.rootDir, path).value;
    DeleteAtPaths(t.root, rest, rest);
    DeleteAtPaths(t.root, rest, q);
  }

  /** Deleting the root is a no-op: it has no parent to be unlinked from. */
  lemma DeleteRootIsNoop(t: DirectoryTree, path: string)
    requires Within(t.rootDir, path) == Ok([])
    ensures Get(t, path) == Ok(Some(t.root))
    ensures Delete(t, path) == Ok(t)
  {
  }

  /** The path of a node reached by segments `s` is the root path joined
      with `s`; its payload chain is the root path followed by `s`. */
  lemma GetPathOfFound(t: DirectoryTree, s: seq<string>)
    requires Valid(t) && Has(t.root, s)
    ensures IndexPath(t.root, s).Some?
    ensures var idx := IndexPath(t.root, s).value;
      ValidIndex(t.root, idx) && DataArray(t.root, idx) == [t.rootDir] + s &&
      GetPath(t, idx) == JoinAll(t.rootDir, s)
  {
    IndexPathLocates(t.root, s);
    var idx := IndexPath(t.root, s).value;
    assert ([t.rootDir] + s)[1..] == s;
    if idx == [] {
      assert |DataArray(t.root, idx)| == 1;
    }
  }

  /** For a root path that is not a directory name ending in a separator,
      the path of the node at segments `s` splits back into the root's
      segments followed by `s`, so looking it up finds the same node. */
  lemma GetPathRoundTrip(t: DirectoryTree, s: seq<string>)
    requires Anchored(t.rootDir) && AllSegments(s)
    ensures ArrayByPath(JoinAll(t.rootDir, s)) == ArrayByPath(t.rootDir) + s
    ensures Within(t.rootDir, JoinAll(t.rootDir, s)) == Ok(s)
    ensures Get(t, JoinAll(t.rootDir, s)) == Ok(Find(t.root, s))
  {
    var p := JoinAll(t.rootDir, s);
    SegmentsOfJoinAll(t.rootDir, s);
    ArrayByPathIsSegments(p);
    ArrayByPathIsSegments(t.rootDir);
    WithinExtension(t.rootDir, p, s);
  }

  /** A path whose segments extend the root's by `s` lies `s` below it. */
  lemma WithinExtension(rootDir: string, path: string, s: seq<string>)
    requires ArrayByPath(path) == ArrayByPath(rootDir) + s
    ensures Within(rootDir, path) == Ok(s)
  {
    var main := ArrayByPath(rootDir);
    assert main <= main + s;
  }

  /** Every node the iteration yields is a leaf, and the path built from
      its name chain looks it up again. */
  lemma IterateYieldsFoundLeaves(t: DirectoryTree, l: Located<string>)
    requires Valid(t) && Anchored(t.rootDir) && l in Iterate(t)
    ensures l.node.children == []
    ensures Get(t, JoinAll(t.rootDir, l.path)) == Ok(Some(l.node))
  {
    LeavesAreFound(t.root, l);
    FindFollowsPayloads(t.root, l.path, IsSegment);
    GetPathRoundTrip(t, l.path);
  }

  /** Every leaf below the root is yielded by the iteration. */
  lemma IterateIsComplete(t: DirectoryTree, path: string)
    requires Get(t, path).Ok? && Get(t, path).value.Some?
    requires Get(t, path).value.value.children == [] && Within(t.rootDir, path).value != []
    ensures Located(Within(t.rootDir, path).value, Get(t, path).value.value) in Iterate(t)
  {
    LeavesAreComplete(t.root, Within(t.rootDir, path).value);
  }

  // ---------------------------------------------------------------------
  // The final segment of `add`, as written and as intended

  /** The value of the loop variable `i` when `add` reads `i + 1` for the
      final segment: the last index of the second loop if that loop ran,
      else the last index of the first loop; with neither loop run, `i` is
      unbound. */
  function LoopIndexAsWritten(lenMain: nat, lenPath: nat): (r: Option<int>)
    requires lenMain < lenPath
    ensures r.Some? ==> r.value + 1 == lenPath - 1
    ensures r.None? <==> lenMain == 0 && lenPath == 1
  {
    if lenMain < lenPath - 1 then Some(lenPath - 2)
    else if lenMain > 0 then Some(lenMain - 1)
    else None
  }

  /** The segments `DirectoryTree.add` as written inserts below the root,
      for a path whose segments are `main + rest`: the intermediate ones
      walked by the second loop, then the one read at `i + 1`. `None`
      stands for the failure on the unbound loop variable. */
  function SegmentsAsWritten(main: seq<string>, rest: seq<string>): (r: Option<seq<string>>)
    requires rest != []
    ensures r.Some? ==> r.value == rest
    ensures r.None? <==> main == [] && |rest| == 1
  {
    var pa := main + rest;
    match LoopIndexAsWritten(|main|, |pa|)
    case None => None
    case Some(i) =>
      var segs := pa[|main|..|pa| - 1] + [pa[i + 1]];
      assert segs == rest;
      Some(segs)
  }

  /** `DirectoryTree.add` as written. */
  function AddAsWritten(t: DirectoryTree, path: string, stat: StatOracle): (r: Option<Added>)
    ensures r.Some? ==> r.value.tree.rootDir == t.rootDir
    ensures Within(t.rootDir, path).Err? ==> r == Some(Added(t, Err(OutOfRange(path))))
    ensures Within(t.rootDir, path) == Ok([]) ==> r == Some(Added(t, Ok(t.root)))
    ensures r.None? ==> Within(t.rootDir, path).Ok? && ArrayByPath(t.rootDir) == []
  {
    match Within(t.rootDir, path)
    case Err(e) => Some(Added(t, Err(e)))
    case Ok(rest) =>
      if rest == [] then Some(Added(t, Ok(t.root)))
      else match SegmentsAsWritten(ArrayByPath(t.rootDir), rest)
        case None => None
        case Some(segs) =>
          var ins := Insert(t.root, t.rootDir, segs, stat);
          Some(Added(t.(root := ins.tree), ins.outcome))
  }

  /** `add` as written fails exactly when the root has no segments (the
      file-system root) and the path has one; otherwise it is `Add`. */
  lemma AddAsWrittenDiffers(t: DirectoryTree, path: string, stat: StatOracle)
    ensures AddAsWritten(t, path, stat).None? <==>
      Within(t.rootDir, path).Ok? && ArrayByPath(t.rootDir) == [] && |ArrayByPath(path)| == 1
    ensures AddAsWritten(t, path, stat).Some? ==> AddAsWritten(t, path, stat).value == Add(t, path, stat)
  {
    match Within(t.rootDir, path)
    case Err(_) =>
    case Ok(rest) =>
      var main := ArrayByPath(t.rootDir);
      assert ArrayByPath(path) == main + rest;
      if rest != [] {
        assert SegmentsAsWritten(main, rest).Some? ==> SegmentsAsWritten(main, rest).value == rest;
      }
  }

  /** The input that shows it: a tree rooted at `/` cannot take `/a` as
      written, while the intended `add` inserts it. */
  lemma AddAtFileSystemRoot()
    ensures AddAsWritten(DirectoryTree("/", Node("/", [])), "/a", p => true).None?
    ensures Contains(Add(DirectoryTree("/", Node("/", [])), "/a", p => true).tree, "/a") == Ok(true)
  {
    RootAndChildSegments();
    AddBelowBareRoot(DirectoryTree("/", Node("/", [])), "/a", "a", p => true);
  }

  /** Any root without segments and any path with one segment below it make
      the unbound index show. */
  lemma AddBelowBareRoot(t: DirectoryTree, path: string, a: string, stat: StatOracle)
    requires ArrayByPath(t.rootDir) == [] && ArrayByPath(path) == [a]
    requires stat(Join(t.rootDir, a))
    ensures AddAsWritten(t, path, stat).None?
    ensures Contains(Add(t, path, stat).tree, path) == Ok(true)
  {
    WithinExtension(t.rootDir, path, [a]);
    AddAsWrittenDiffers(t, path, stat);
    AddFailures(t, path, stat);
    StatsOfOne(t.rootDir, a, stat);
    AddThenContains(t, path, stat);
  }

  lemma StatsOfOne(base: string, a: string, stat: StatOracle)
    requires stat(Join(base, a))
    ensures StatsSucceed(base, [a], stat)
  {
    assert [a][1..] == [];
  }

  /** `/` has no segments and `/a` has the one segment `a`. */
  lemma RootAndChildSegments()
    ensures ArrayByPath("/") == []
    ensures ArrayByPath("/a") == ArrayByPath("/") + ["a"]
  {
    var root: string := [Sep];
    var child: string := [Sep, 'a'];
    assert HeadLen(root) == 1;
    assert child[..1] == root;
    assert HeadLen(child) == HeadLen(root);
    assert AllSeps(root);
    assert Split(root).1 == [];
    assert Split(child) == (root, child[1..]);
    assert child[1..] == "a";
  }
}
