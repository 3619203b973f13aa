/** `FileNode`: a tree node whose payload is a path segment (the root's is
    the whole root path), with sibling-name uniqueness enforced when a child
    is attached, and the insertion walk that `DirectoryTree.add` performs
    below the root.

    `os.stat` is an oracle: `stat(path)` says whether the path can be
    stat'ed. The file mode it returns is not kept, because it only decides
    the recursive expansion from a directory listing, which this model does
    not perform. */
module FileTree {
  import opened Outcomes
  import opened Paths
  import opened Tree

  type FileNode = Node<string>

  /** Whether `os.stat(path)` succeeds. */
  type StatOracle = string -> bool

  /** `FileNode.get_children_data`: the children's names in order. */
  function ChildNames(n: FileNode): (r: seq<string>)
    ensures |r| == |n.children|
    ensures forall x :: x in r <==> GetChild(n, x).Some?
  {
    var r := seq(|n.children|, k requires 0 <= k < |n.children| => n.children[k].data);
    assert forall k :: 0 <= k < |r| ==> r[k] == n.children[k].data;
    r
  }

  /** `FileNode.add_subdir(path)` on `n`: stat the path (a failure is
      `NotFound`), then name the child after the path's basename; if a
      sibling already has that name (`AlreadyExists`) it is returned
      instead, otherwise the new child is appended. The result is the
      updated node and the child's position. */
  function AddSubdir(n: FileNode, path: string, stat: StatOracle): (r: Result<(FileNode, nat)>)
    ensures r.Err? <==> !stat(path)
    ensures r.Err? ==> r.error == NotFound(path)
    ensures r.Ok? ==>
      var (n', i) := r.value;
      && n'.data == n.data
      && ChildIndex(n'.children, Basename(path)) == Some(i)
      && (GetChild(n, Basename(path)).Some? ==> n' == n)
      && (GetChild(n, Basename(path)).None? ==> ChildNames(n') == ChildNames(n) + [Basename(path)])
  {
    var name := Basename(path);
    if !stat(path) then Err(NotFound(path))
    else match ChildIndex(n.children, name)
      case Some(i) => Ok((n, i))
      case None =>
        ChildIndexAppend(n.children, Node(name, []), name);
        assert ChildNames(AddChild(n, name)) == ChildNames(n) + [name];
        Ok((AddChild(n, name), |n.children|))
  }

  /** What an insertion leaves behind: the updated node, and either the node
      reached or the condition that stopped the walk. A `NotFound` part way
      down keeps the levels already created, as the source does when the
      exception unwinds. */
  datatype Insertion = Insertion(tree: FileNode, outcome: Result<FileNode>)

  /** The insertion loop of `DirectoryTree.add` below a node whose full path
      is `base`: each segment in turn is attached with `add_subdir` at the
      path `join(base, segment)` and the walk moves into that child. */
  function Insert(n: FileNode, base: string, segs: seq<string>, stat: StatOracle): (r: Insertion)
    requires AllSegments(segs)
    ensures r.tree.data == n.data
    ensures r.outcome.Ok? ==> Find(r.tree, segs) == Some(r.outcome.value)
    ensures r.outcome.Err? ==> r.outcome.error.NotFound?
    decreases |segs|
  {
    if segs == [] then Insertion(n, Ok(n))
    else
      var path := Join(base, segs[0]);
      BasenameOfJoin(base, segs[0]);
      match AddSubdir(n, path, stat)
      case Err(e) => Insertion(n, Err(e))
      case Ok((n1, i)) =>
        var sub := Insert(n1.children[i], path, segs[1..], stat);
        ChildIndexUpdate(n1.children, i, sub.tree, segs[0]);
        Insertion(n1.(children := n1.children[i := sub.tree]), sub.outcome)
  }

  // ---------------------------------------------------------------------
  // What an insertion does to the tree

  /** Only new names are attached, so siblings stay uniquely named. */
  lemma {:induction false} InsertKeepsUnique(n: FileNode, base: string, segs: seq<string>, stat: StatOracle)
    requires AllSegments(segs) && Unique(n)
    ensures Unique(Insert(n, base, segs, stat).tree)
    decreases |segs|
  {
    if segs != [] {
      var path := Join(base, segs[0]);
      BasenameOfJoin(base, segs[0]);
      match AddSubdir(n, path, stat)
      case Err(_) =>
      case Ok((n1, i)) =>
        AddSubdirUnique(n, path, stat);
        var sub := Insert(n1.children[i], path, segs[1..], stat);
        InsertKeepsUnique(n1.children[i], path, segs[1..], stat);
        ReplaceChildUnique(n1, i, sub.tree);
        assert Insert(n, base, segs, stat).tree == n1.(children := n1.children[i := sub.tree]);
    }
  }

  /** `add_subdir` keeps sibling names unique. */
  lemma AddSubdirUnique(n: FileNode, path: string, stat: StatOracle)
    requires Unique(n)
    ensures AddSubdir(n, path, stat).Ok? ==> Unique(AddSubdir(n, path, stat).value.0)
  {
    if AddSubdir(n, path, stat).Ok? && GetChild(n, Basename(path)).None? {
      assert AddSubdir(n, path, stat).value.0.children == n.children + [Node(Basename(path), [])];
    }
  }

  /** Replacing a child by a node with the same name and unique names below
      keeps the parent's names unique. */
  lemma ReplaceChildUnique(n: FileNode, i: nat, c: FileNode)
    requires Unique(n) && i < |n.children| && n.children[i].data == c.data && Unique(c)
    ensures Unique(n.(children := n.children[i := c]))
  {
  }

  /** Every name attached is one of the inserted segments, so the names
      below the start stay proper segments. */
  lemma {:induction false} InsertKeepsSegmentNames(n: FileNode, base: string, segs: seq<string>, stat: StatOracle)
    requires AllSegments(segs) && AllBelow(n, IsSegment)
    ensures AllBelow(Insert(n, base, segs, stat).tree, IsSegment)
    decreases |segs|
  {
    if segs != [] {
      var path := Join(base, segs[0]);
      BasenameOfJoin(base, segs[0]);
      match AddSubdir(n, path, stat)
      case Err(_) =>
      case Ok((n1, i)) =>
        assert AllBelow(n1, IsSegment) by {
          if GetChild(n, segs[0]).None? {
            assert n1.children == n.children + [Node(segs[0], [])];
          }
        }
        InsertKeepsSegmentNames(n1.children[i], path, segs[1..], stat);
        var r := Insert(n, base, segs, stat).tree;
        assert r.children == n1.children[i := Insert(n1.children[i], path, segs[1..], stat).tree];
    }
  }

  /** A successful insertion adds exactly the prefixes of the inserted path:
      a path is present afterwards iff it was present before or leads to
      the inserted node. */
  lemma {:induction false} InsertPaths(n: FileNode, base: string, segs: seq<string>, stat: StatOracle, q: seq<string>)
    requires AllSegments(segs) && Insert(n, base, segs, stat).outcome.Ok?
    ensures Has(Insert(n, base, segs, stat).tree, q) <==> Has(n, q) || q <= segs
    decreases |segs|
  {
    if segs == [] || q == [] {
      return;
    }
    var path := Join(base, segs[0]);
    BasenameOfJoin(base, segs[0]);
    var (n1, i) := AddSubdir(n, path, stat).value;
    var sub := Insert(n1.children[i], path, segs[1..], stat);
    assert Insert(n, base, segs, stat).tree == n1.(children := n1.children[i := sub.tree]);
    HasAfterReplace(n1, i, sub.tree, q);
    AddSubdirHas(n, path, stat, q);
    if q[0] == segs[0] {
      InsertPaths(n1.children[i], path, segs[1..], stat, q[1..]);
      PrefixCons(q, segs);
    } else {
      assert !(q <= segs);
    }
  }

  lemma PrefixCons(q: seq<string>, segs: seq<string>)
    requires q != [] && segs != [] && q[0] == segs[0]
    ensures q <= segs <==> q[1..] <= segs[1..]
  {
    if q[1..] <= segs[1..] {
      assert q == [q[0]] + q[1..];
      assert segs == [segs[0]] + segs[1..];
    }
  }

  /** Replacing a child by a node of the same name changes the walks
      through that child only. */
  lemma HasAfterReplace(n: FileNode, i: nat, c: FileNode, q: seq<string>)
    requires i < |n.children| && n.children[i].data == c.data && q != []
    ensures Has(n.(children := n.children[i := c]), q) <==>
      if ChildIndex(n.children, q[0]) == Some(i) then Has(c, q[1..]) else Has(n, q)
  {
    ChildIndexUpdate(n.children, i, c, q[0]);
  }

  /** What `add_subdir` changes about the walks from `n`: a walk through the
      child it returns starts at that child, any other walk is unchanged. */
  lemma AddSubdirHas(n: FileNode, path: string, stat: StatOracle, q: seq<string>)
    requires AddSubdir(n, path, stat).Ok? && q != []
    ensures var (n1, i) := AddSubdir(n, path, stat).value;
      && (q[0] == Basename(path) ==> (Has(n1.children[i], q[1..]) <==> Has(n, q) || q[1..] == []))
      && (q[0] != Basename(path) ==> (Has(n1, q) <==> Has(n, q)))
  {
    var e := Basename(path);
    if GetChild(n, e).None? {
      AddChildThenGetChild(n, e, q[0]);
      var n1 := AddSubdir(n, path, stat).value.0;
      assert n1 == AddChild(n, e);
    }
  }

  /** Inserting a path that is already present changes nothing and reaches
      the node already there. */
  lemma {:induction false} InsertExisting(n: FileNode, base: string, segs: seq<string>, stat: StatOracle)
    requires AllSegments(segs) && Has(n, segs)
    ensures Insert(n, base, segs, stat).tree == n
    ensures Insert(n, base, segs, stat).outcome.Ok? ==>
      Insert(n, base, segs, stat).outcome.value == Find(n, segs).value
    decreases |segs|
  {
    if segs != [] {
      var path := Join(base, segs[0]);
      BasenameOfJoin(base, segs[0]);
      match AddSubdir(n, path, stat)
      case Err(_) =>
      case Ok((n1, i)) =>
        assert n1 == n;
        InsertExisting(n.children[i], path, segs[1..], stat);
        assert n.children[i := n.children[i]] == n.children;
    }
  }

  /** Insertion only appends: at every node present before, the old child
      names are a prefix of the new ones, and at most one name is added. */
  lemma {:induction false} InsertAppendsChildren(n: FileNode, base: string, segs: seq<string>, stat: StatOracle, q: seq<string>)
    requires AllSegments(segs) && Has(n, q)
    ensures Has(Insert(n, base, segs, stat).tree, q)
    ensures var before := ChildNames(Find(n, q).value);
      var after := ChildNames(Find(Insert(n, base, segs, stat).tree, q).value);
      before <= after && |after| <= |before| + 1
    decreases |segs|
  {
    var r := Insert(n, base, segs, stat);
    if segs == [] {
      return;
    }
    var path := Join(base, segs[0]);
    BasenameOfJoin(base, segs[0]);
    match AddSubdir(n, path, stat)
    case Err(_) =>
    case Ok((n1, i)) =>
      var sub := Insert(n1.children[i], path, segs[1..], stat);
      assert r.tree.children == n1.children[i := sub.tree];
      if q == [] {
        assert ChildNames(r.tree) == ChildNames(n1);
      } else {
        var e := q[0];
        ChildIndexUpdate(n1.children, i, sub.tree, e);
        ChildIndexAppend(n.children, Node(segs[0], []), e);
        var j := ChildIndex(n.children, e).value;
        assert n1.children[j] == n.children[j];
        if e == segs[0] {
          assert j == i;
          InsertAppendsChildren(n.children[i], path, segs[1..], stat, q[1..]);
        } else {
          assert r.tree.children[j] == n.children[j];
        }
      }
  }

  /** At the top level, a successful insertion appends the first segment's
      name exactly when no child had that name: names keep first-seen order. */
  lemma InsertTopNames(n: FileNode, base: string, segs: seq<string>, stat: StatOracle)
    requires AllSegments(segs) && Insert(n, base, segs, stat).outcome.Ok?
    ensures ChildNames(Insert(n, base, segs, stat).tree) ==
      ChildNames(n) + (if segs != [] && segs[0] !in ChildNames(n) then [segs[0]] else [])
  {
    if segs != [] {
      var path := Join(base, segs[0]);
      BasenameOfJoin(base, segs[0]);
      var (n1, i) := AddSubdir(n, path, stat).value;
      var sub := Insert(n1.children[i], path, segs[1..], stat);
      assert ChildNames(Insert(n, base, segs, stat).tree) == ChildNames(n1);
    }
  }
}
