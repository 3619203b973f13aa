/** The containers the browser navigates: archive containers (`Tar`, `Zip`)
    that fold the archive's flat member-name list into a `DirectoryTree` and
    answer `listdir`, `isenterable` and `abspath` by tree lookup, the canned
    `Dummy` container, member selection for extraction, case-insensitive
    `samefile`, and the first-match registry of archive formats.

    The archive codecs are parameters: the member-name list the codec
    reports, and each format's `isarchive` answer for the path at hand. */
module Containers {
  import opened Outcomes
  import opened Paths
  import opened Tree
  import opened FileTree
  import opened DirTree

  /** The archive formats, in the order the registry tries them (class
      names sorted: `Tar` before `Zip`). */
  datatype ArchiveKind = Tar | Zip

  datatype Container =
    | Dummy
    | Archive(kind: ArchiveKind, path: string, tree: DirectoryTree)

  // ---------------------------------------------------------------------
  // Building an archive's tree

  /** No member name is empty (the zip constructor reads each name's last
      character). */
  predicate NoEmptyName(names: seq<string>) {
    forall k :: 0 <= k < |names| ==> names[k] != []
  }

  /** The names the `Zip` constructor inserts: those not ending in the
      separator, which mark directories. */
  function ZipKept(names: seq<string>): (r: seq<string>)
    requires NoEmptyName(names)
    ensures forall x :: x in r <==> x in names && !EndsWithSep(x)
    decreases |names|
  {
    if names == [] then []
    else if names[0][|names[0]| - 1] == Sep then ZipKept(names[1..])
    else [names[0]] + ZipKept(names[1..])
  }

  /** The filter works name by name: filtering a concatenation filters each
      part, so kept names keep their order and their repeats. */
  lemma {:induction false} ZipKeptConcat(a: seq<string>, b: seq<string>)
    requires NoEmptyName(a) && NoEmptyName(b)
    ensures NoEmptyName(a + b)
    ensures ZipKept(a + b) == ZipKept(a) + ZipKept(b)
    decreases |a|
  {
    NoEmptyNameConcat(a, b);
    if a == [] {
      assert a + b == b;
    } else {
      var h := if EndsWithSep(a[0]) then [] else [a[0]];
      assert (a + b)[0] == a[0] && (a + b)[1..] == a[1..] + b;
      ZipKeptStep(a + b);
      ZipKeptStep(a);
      ZipKeptConcat(a[1..], b);
      ConcatAssoc(h, ZipKept(a[1..]), ZipKept(b));
    }
  }

  lemma NoEmptyNameConcat(a: seq<string>, b: seq<string>)
    requires NoEmptyName(a) && NoEmptyName(b)
    ensures NoEmptyName(a + b)
    ensures a != [] ==> NoEmptyName(a[1..])
  {
    assert forall k :: 0 <= k < |a| ==> (a + b)[k] == a[k];
    assert forall k :: |a| <= k < |a + b| ==> (a + b)[k] == b[k - |a|];
    if a != [] {
      assert forall k :: 0 <= k < |a[1..]| ==> a[1..][k] == a[k + 1];
    }
  }

  /** One step of the filter: the first name, if kept, then the rest's. */
  lemma ZipKeptStep(names: seq<string>)
    requires names != [] && NoEmptyName(names)
    ensures NoEmptyName(names[1..])
    ensures ZipKept(names) == (if EndsWithSep(names[0]) then [] else [names[0]]) + ZipKept(names[1..])
  {
    assert forall k :: 0 <= k < |names[1..]| ==> names[1..][k] == names[k + 1];
  }

  /** A single name is kept unless it marks a directory. */
  lemma ZipKeptOne(x: string)
    requires x != []
    ensures NoEmptyName([x])
    ensures ZipKept([x]) == if EndsWithSep(x) then [] else [x]
  {
    assert [x][1..] == [];
  }

  /** The names a constructor of the given format inserts. */
  function Kept(kind: ArchiveKind, names: seq<string>): (r: seq<string>)
    requires kind == Zip ==> NoEmptyName(names)
    ensures forall x :: x in r <==> x in names && (kind == Zip ==> !EndsWithSep(x))
  {
    if kind == Tar then names else ZipKept(names)
  }

  /** The constructor's loop: `tree.add(join(root, n))` for each name in
      order, where `root` is the archive path the tree is rooted at; a
      condition raised by `add` aborts the construction. */
  function AddAll(t: DirectoryTree, names: seq<string>, stat: StatOracle): (r: Result<DirectoryTree>)
    ensures r.Ok? ==> r.value.rootDir == t.rootDir
    ensures r.Ok? && Valid(t) ==> Valid(r.value)
    ensures r.Ok? ==> forall k :: 0 <= k < |names| ==> Within(t.rootDir, Join(t.rootDir, names[k])).Ok?
    decreases |names|
  {
    if names == [] then Ok(t)
    else
      var a := Add(t, Join(t.rootDir, names[0]), stat);
      match a.outcome
      case Err(e) => Err(e)
      case Ok(_) =>
        var r := AddAll(a.tree, names[1..], stat);
        if r.Ok? then
          EveryName(names, n => Within(t.rootDir, Join(t.rootDir, n)).Ok?);
          r
        else
          r
  }

  /** A property of the first name and of every later one holds of all. */
  lemma EveryName(names: seq<string>, ok: string -> bool)
    requires names != [] && ok(names[0])
    requires forall k :: 0 <= k < |names[1..]| ==> ok(names[1..][k])
    ensures forall k :: 0 <= k < |names| ==> ok(names[k])
  {
    forall k | 0 <= k < |names|
      ensures ok(names[k])
    {
      if k > 0 {
        assert names[k] == names[1..][k - 1];
      }
    }
  }

  /** `Tar(path)` / `Zip(path)`: a fresh tree rooted at the archive's path,
      then every kept member name added below it. `path` is the archive's
      absolute path. */
  function Open(kind: ArchiveKind, path: string, names: seq<string>, stat: StatOracle): (r: Result<Container>)
    requires kind == Zip ==> NoEmptyName(names)
    ensures r.Ok? ==> r.value.Archive? && r.value.kind == kind && r.value.path == path
    ensures r.Ok? ==> Valid(r.value.tree) && r.value.tree.rootDir == path
  {
    match NewTree(path, stat)
    case Err(e) => Err(e)
    case Ok(t) =>
      match AddAll(t, Kept(kind, names), stat)
      case Err(e) => Err(e)
      case Ok(t') => Ok(Archive(kind, path, t'))
  }

  /** The segments below the archive root at which member `n` is added. */
  function MemberSegments(root: string, n: string): seq<string> {
    match Within(root, Join(root, n))
    case Ok(rest) => rest
    case Err(_) => []
  }

  /** Whether adding member `n` below `root` succeeds: the joined path is
      inside the root and every path on the way down can be stat'ed. */
  predicate Admitted(root: string, n: string, stat: StatOracle) {
    Within(root, Join(root, n)).Ok? && StatsSucceed(root, MemberSegments(root, n), stat)
  }

  /** The first segment of each member that lies strictly below the root,
      in member order, repeats included. */
  function Heads(root: string, names: seq<string>): seq<string>
    decreases |names|
  {
    if names == [] then []
    else
      var segs := MemberSegments(root, names[0]);
      (if segs == [] then [] else [segs[0]]) + Heads(root, names[1..])
  }

  /** Appends each element of `ys` that is not yet present, in order. */
  function AppendNew(acc: seq<string>, ys: seq<string>): (r: seq<string>)
    decreases |ys|
  {
    if ys == [] then acc
    else AppendNew(if ys[0] in acc then acc else acc + [ys[0]], ys[1..])
  }

  predicate NoDups(xs: seq<string>) {
    forall i, j :: 0 <= i < j < |xs| ==> xs[i] != xs[j]
  }

  /** `AppendNew` keeps what it starts from as a prefix, adds each new
      element once, and adds nothing else: the result lists the elements
      of both in first-seen order. */
  lemma {:induction false} AppendNewSpec(acc: seq<string>, ys: seq<string>)
    requires NoDups(acc)
    ensures acc <= AppendNew(acc, ys)
    ensures NoDups(AppendNew(acc, ys))
    ensures forall x :: x in AppendNew(acc, ys) <==> x in acc || x in ys
    decreases |ys|
  {
    if ys != [] {
      var acc' := if ys[0] in acc then acc else acc + [ys[0]];
      AppendNewSpec(acc', ys[1..]);
      assert forall x :: x in ys <==> x == ys[0] || x in ys[1..];
    }
  }

  // ---------------------------------------------------------------------
  // What construction puts in the tree

  /** The constructor gets through the member list exactly when every
      member is admitted; whether one is does not depend on the others. */
  lemma {:induction false} AddAllOkIff(t: DirectoryTree, names: seq<string>, stat: StatOracle)
    ensures AddAll(t, names, stat).Ok? <==> forall k :: 0 <= k < |names| ==> Admitted(t.rootDir, names[k], stat)
    decreases |names|
  {
    if names != [] {
      var p := Join(t.rootDir, names[0]);
      AddFailures(t, p, stat);
      var a := Add(t, p, stat);
      assert a.outcome.Ok? <==> Admitted(t.rootDir, names[0], stat);
      AdmittedCons(t.rootDir, names, stat);
      if a.outcome.Ok? {
        assert AddAll(t, names, stat) == AddAll(a.tree, names[1..], stat);
        AddAllOkIff(a.tree, names[1..], stat);
      }
    }
  }

  lemma AdmittedCons(root: string, names: seq<string>, stat: StatOracle)
    requires names != []
    ensures (forall k :: 0 <= k < |names| ==> Admitted(root, names[k], stat)) <==>
      Admitted(root, names[0], stat) && forall k :: 0 <= k < |names[1..]| ==> Admitted(root, names[1..][k], stat)
  {
    assert forall k :: 1 <= k < |names| ==> names[k] == names[1..][k - 1];
  }

  /** Path `q` leads to one of the members. */
  predicate Reaches(root: string, names: seq<string>, q: seq<string>) {
    exists n :: n in names && q <= MemberSegments(root, n)
  }

  lemma ReachesCons(root: string, names: seq<string>, q: seq<string>)
    requires names != []
    ensures Reaches(root, names, q) <==> q <= MemberSegments(root, names[0]) || Reaches(root, names[1..], q)
  {
    assert forall n :: n in names <==> n == names[0] || n in names[1..];
  }

  /** One step of the constructor's loop. */
  lemma AddAllStep(t: DirectoryTree, names: seq<string>, stat: StatOracle)
    requires names != [] && AddAll(t, names, stat).Ok?
    ensures Add(t, Join(t.rootDir, names[0]), stat).outcome.Ok?
    ensures AddAll(t, names, stat) == AddAll(Add(t, Join(t.rootDir, names[0]), stat).tree, names[1..], stat)
    ensures Within(t.rootDir, Join(t.rootDir, names[0])) == Ok(MemberSegments(t.rootDir, names[0]))
  {
  }

  /** After construction, a path below the root is present exactly when it
      was present before or leads to one of the members. */
  lemma {:induction false} AddAllPresence(t: DirectoryTree, names: seq<string>, stat: StatOracle, q: seq<string>)
    requires AddAll(t, names, stat).Ok?
    ensures Has(AddAll(t, names, stat).value.root, q) <==> Has(t.root, q) || Reaches(t.rootDir, names, q)
    decreases |names|
  {
    if names != [] {
      var p := Join(t.rootDir, names[0]);
      AddAllStep(t, names, stat);
      var a := Add(t, p, stat);
      AddPresence(t, p, stat, q);
      AddAllPresence(a.tree, names[1..], stat, q);
      ReachesCons(t.rootDir, names, q);
    }
  }

  /** One member's contribution to `AppendNew` over the heads. */
  lemma AppendNewHeads(acc: seq<string>, root: string, names: seq<string>)
    requires names != []
    ensures var segs := MemberSegments(root, names[0]);
      AppendNew(acc, Heads(root, names)) ==
      AppendNew(acc + (if segs != [] && segs[0] !in acc then [segs[0]] else []), Heads(root, names[1..]))
  {
    var segs := MemberSegments(root, names[0]);
    var hs := Heads(root, names);
    if segs == [] {
      assert hs == Heads(root, names[1..]);
      assert acc + [] == acc;
    } else {
      assert hs == [segs[0]] + Heads(root, names[1..]);
      assert hs[0] == segs[0] && hs[1..] == Heads(root, names[1..]);
      var acc' := if segs[0] in acc then acc else acc + [segs[0]];
      assert AppendNew(acc, hs) == AppendNew(acc', hs[1..]);
      assert segs[0] in acc ==> acc + [] == acc;
    }
  }

  /** The root's child names after construction: the old ones, then each
      member's first segment the first time it is seen. */
  lemma {:induction false} AddAllTopNames(t: DirectoryTree, names: seq<string>, stat: StatOracle)
    requires AddAll(t, names, stat).Ok?
    ensures ChildNames(AddAll(t, names, stat).value.root) == AppendNew(ChildNames(t.root), Heads(t.rootDir, names))
    decreases |names|
  {
    if names != [] {
      var p := Join(t.rootDir, names[0]);
      AddAllStep(t, names, stat);
      var a := Add(t, p, stat);
      var rest := MemberSegments(t.rootDir, names[0]);
      assert a.tree.root == Insert(t.root, t.rootDir, rest, stat).tree;
      InsertTopNames(t.root, t.rootDir, rest, stat);
      AddAllTopNames(a.tree, names[1..], stat);
      AppendNewHeads(ChildNames(t.root), t.rootDir, names);
    }
  }

  /** Opening succeeds exactly when the archive path can be stat'ed and
      every kept member is admitted. */
  lemma OpenOkIff(kind: ArchiveKind, path: string, names: seq<string>, stat: StatOracle)
    requires kind == Zip ==> NoEmptyName(names)
    ensures Open(kind, path, names, stat).Ok? <==>
      stat(path) && forall k :: 0 <= k < |Kept(kind, names)| ==> Admitted(path, Kept(kind, names)[k], stat)
  {
    if stat(path) {
      AddAllOkIff(NewTree(path, stat).value, Kept(kind, names), stat);
    }
  }

  /** After opening, the paths in the tree are the root and the paths that
      lead to a kept member. */
  lemma OpenPresence(kind: ArchiveKind, path: string, names: seq<string>, stat: StatOracle, q: seq<string>)
    requires kind == Zip ==> NoEmptyName(names)
    requires Open(kind, path, names, stat).Ok?
    ensures Has(Open(kind, path, names, stat).value.tree.root, q) <==> q == [] || Reaches(path, Kept(kind, names), q)
  {
    var t := NewTree(path, stat).value;
    AddAllPresence(t, Kept(kind, names), stat, q);
    assert Has(t.root, q) <==> q == [];
  }

  /** Every kept member name, joined onto the archive path, is in the tree
      after opening. */
  lemma OpenContainsMembers(kind: ArchiveKind, path: string, names: seq<string>, stat: StatOracle, n: string)
    requires kind == Zip ==> NoEmptyName(names)
    requires Open(kind, path, names, stat).Ok? && n in Kept(kind, names)
    ensures Contains(Open(kind, path, names, stat).value.tree, Join(path, n)) == Ok(true)
  {
    var kept := Kept(kind, names);
    var k :| 0 <= k < |kept| && kept[k] == n;
    assert AddAll(NewTree(path, stat).value, kept, stat).Ok?;
    assert Within(path, Join(path, n)).Ok?;
    OpenPresence(kind, path, names, stat, MemberSegments(path, n));
  }

  /** A zip archive's tree holds a directory exactly when some member that
      is not a directory marker lies beneath it: marker names alone create
      nothing. */
  lemma ZipPresence(path: string, names: seq<string>, stat: StatOracle, q: seq<string>)
    requires NoEmptyName(names) && Open(Zip, path, names, stat).Ok?
    ensures Has(Open(Zip, path, names, stat).value.tree.root, q) <==>
      q == [] || exists n :: n in names && !EndsWithSep(n) && q <= MemberSegments(path, n)
  {
    OpenPresence(Zip, path, names, stat, q);
  }

  /** Listing the archive's root gives the members' first segments in the
      order they were first seen, each once. */
  lemma ListDirOfRoot(kind: ArchiveKind, path: string, names: seq<string>, stat: StatOracle)
    requires kind == Zip ==> NoEmptyName(names)
    requires Open(kind, path, names, stat).Ok?
    ensures Navigable(Open(kind, path, names, stat).value, path)
    ensures ListDir(Open(kind, path, names, stat).value, path) == Ok(AppendNew([], Heads(path, Kept(kind, names))))
  {
    var t := NewTree(path, stat).value;
    var c := Open(kind, path, names, stat).value;
    AddAllTopNames(t, Kept(kind, names), stat);
    assert ChildNames(t.root) == [];
    var w := Within(path, path);
    assert |ArrayByPath(path)| == |ArrayByPath(path)| + |w.value|;
    assert w == Ok([]);
  }

  // ---------------------------------------------------------------------
  // Navigation

  /** `Dummy.isenterable`: the path ends with `three`. */
  function DummyIsEnterable(p: string): bool {
    |p| >= 5 && p[|p| - 5..] == "three"
  }

  /** `Dummy.listdir`. */
  function DummyListDir(p: string): (r: seq<string>)
    ensures |r| == 5 && AllSegments(r)
    ensures forall i, j :: 0 <= i < j < |r| ==> r[i] != r[j]
  {
    if DummyIsEnterable(p) then ["three1", "three2", "three3", "three4", "three5"]
    else ["one", "two", "three", "four", "five"]
  }

  /** Lookups on an archive container dereference the node found, so the
      path must name a node or lie outside the archive root. */
  predicate Navigable(c: Container, p: string) {
    c.Archive? ==> Get(c.tree, p) != Ok(None)
  }

  /** `listdir(p)`: the names of the children of `tree[p]`, in order. */
  function ListDir(c: Container, p: string): (r: Result<seq<string>>)
    requires Navigable(c, p)
    ensures c.Dummy? ==> r == Ok(DummyListDir(p))
    ensures c.Archive? ==> (r.Err? <==> Within(c.tree.rootDir, p).Err?)
    ensures r.Err? ==> r.error == OutOfRange(p)
    ensures c.Archive? && r.Ok? ==>
      r.value == ChildNames(Find(c.tree.root, Within(c.tree.rootDir, p).value).value)
    ensures c.Archive? && r.Ok? ==>
      forall x :: x in r.value <==> Has(c.tree.root, Within(c.tree.rootDir, p).value + [x])
  {
    match c
    case Dummy => Ok(DummyListDir(p))
    case Archive(_, _, t) =>
      match Get(t, p)
      case Err(e) => Err(e)
      case Ok(n) =>
        var rest := Within(t.rootDir, p).value;
        forall x ensures Has(t.root, rest + [x]) <==> GetChild(n.value, x).Some? {
          FindAppend(t.root, rest, x);
        }
        Ok(ChildNames(n.value))
  }

  /** Walking one more name is a child lookup at the end of the walk. */
  lemma {:induction false} FindAppend(n: FileNode, s: seq<string>, x: string)
    ensures Find(n, s + [x]) == match Find(n, s) case None => None case Some(m) => GetChild(m, x)
    decreases |s|
  {
    if s == [] {
      assert s + [x] == [x];
    } else {
      assert (s + [x])[0] == s[0] && (s + [x])[1..] == s[1..] + [x];
      match GetChild(n, s[0])
      case None =>
      case Some(c) => FindAppend(c, s[1..], x);
    }
  }

  /** `isenterable(p)`: `tree[p]` has children. */
  function IsEnterable(c: Container, p: string): (r: Result<bool>)
    requires Navigable(c, p)
    ensures c.Dummy? ==> r == Ok(DummyIsEnterable(p))
    ensures c.Archive? ==> (r.Ok? <==> ListDir(c, p).Ok?)
    ensures c.Archive? && r.Ok? ==> (r.value <==> ListDir(c, p).value != [])
  {
    match c
    case Dummy => Ok(DummyIsEnterable(p))
    case Archive(_, _, t) =>
      match Get(t, p)
      case Err(e) => Err(e)
      case Ok(n) => Ok(n.value.children != [])
  }

  /** `abspath(p)`: `tree[p].get_path()`; the `Dummy` returns `p`. */
  function AbsPath(c: Container, p: string): (r: Result<string>)
    requires Navigable(c, p)
    ensures c.Dummy? ==> r == Ok(p)
    ensures c.Archive? ==> (r.Err? <==> Within(c.tree.rootDir, p).Err?)
    ensures r.Err? ==> r.error == OutOfRange(p)
  {
    match c
    case Dummy => Ok(p)
    case Archive(_, _, t) =>
      match Within(t.rootDir, p)
      case Err(e) => Err(e)
      case Ok(rest) =>
        IndexPathLocates(t.root, rest);
        Ok(GetPath(t, IndexPath(t.root, rest).value))
  }

  /** Adding a path to an archive's tree keeps every directory listing in
      order: what was listed before is a prefix of what is listed after. */
  lemma ListDirAfterAdd(kind: ArchiveKind, path: string, t: DirectoryTree, q: string, stat: StatOracle, p: string)
    requires Navigable(Archive(kind, path, t), p) && Within(t.rootDir, p).Ok?
    ensures Navigable(Archive(kind, path, Add(t, q, stat).tree), p)
    ensures ListDir(Archive(kind, path, t), p).value <= ListDir(Archive(kind, path, Add(t, q, stat).tree), p).value
  {
    var rest := Within(t.rootDir, p).value;
    var t' := Add(t, q, stat).tree;
    assert Has(t.root, rest);
    AddAppends(t, q, stat, rest);
    assert Within(t'.rootDir, p) == Within(t.rootDir, p);
  }

  /** On an archive, `isenterable(p)` holds exactly when `listdir(p)` is
      not empty, so an empty directory entry cannot be entered. */
  lemma EnterableIffListed(c: Container, p: string)
    requires c.Archive? && Navigable(c, p) && Within(c.tree.rootDir, p).Ok?
    ensures IsEnterable(c, p).Ok? && ListDir(c, p).Ok?
    ensures IsEnterable(c, p).value <==> ListDir(c, p).value != []
  {
  }

  /** `abspath` of a path in the tree spells a path with the same segments
      that looks up the same node, provided the archive path is anchored. */
  lemma AbsPathRoundTrip(c: Container, p: string)
    requires c.Archive? && Valid(c.tree) && Anchored(c.tree.rootDir)
    requires Get(c.tree, p).Ok? && Get(c.tree, p).value.Some?
    ensures Navigable(c, p) && AbsPath(c, p).Ok?
    ensures ArrayByPath(AbsPath(c, p).value) == ArrayByPath(p)
    ensures Get(c.tree, AbsPath(c, p).value) == Get(c.tree, p)
  {
    var t := c.tree;
    var rest := Within(t.rootDir, p).value;
    assert Get(t, p) == Ok(Find(t.root, rest));
    GetPathOfFound(t, rest);
    var q := JoinAll(t.rootDir, rest);
    assert AbsPath(c, p) == Ok(q);
    GetPathRoundTrip(t, rest);
    assert ArrayByPath(p) == ArrayByPath(t.rootDir) + rest;
  }

  /** The `Dummy` can be walked one level: in its top listing only `three`
      is enterable, and none of `three`'s entries is. */
  lemma DummyNavigation(p: string, x: string)
    requires x in DummyListDir(p)
    ensures DummyIsEnterable(Join(p, x)) <==> !DummyIsEnterable(p) && x == "three"
  {
    var a := if p == [] || EndsWithSep(p) then p else p + [Sep];
    assert x[0] != Sep;
    assert Join(p, x) == a + x;
    if DummyIsEnterable(p) {
      InnerNamesNotEnterable(a, x);
    } else {
      TopNamesEnterable(a, x);
    }
  }

  /** None of the entries listed under `three` ends with `three`. */
  lemma InnerNamesNotEnterable(a: string, x: string)
    requires x in ["three1", "three2", "three3", "three4", "three5"]
    ensures !DummyIsEnterable(a + x)
  {
    EnterableEndsWith(a, x);
    assert |x| == 6 && x[1] == 'h';
    assert x[|x| - 5..][0] == 'h';
  }

  /** Of the top entries, only `three` ends with `three`. */
  lemma TopNamesEnterable(a: string, x: string)
    requires x in ["one", "two", "three", "four", "five"]
    ensures DummyIsEnterable(a + x) <==> x == "three"
  {
    EnterableEndsWith(a, x);
    if x == "three" {
      assert x[|x| - 5..] == x;
    } else {
      assert |x| < 5 && (x[|x| - 1] != 'e' || x[0] != "three"[5 - |x|]);
    }
  }

  /** Whether `a + x` ends with `three` depends on `x` alone: on its own
      ending when it is long enough, and otherwise `x` must be a suffix of
      `three`. */
  lemma EnterableEndsWith(a: string, x: string)
    ensures |x| >= 5 ==> (DummyIsEnterable(a + x) <==> DummyIsEnterable(x))
    ensures |x| < 5 && DummyIsEnterable(a + x) ==> x == "three"[5 - |x|..]
  {
    var j := a + x;
    assert j[|a|..] == x;
    if |x| >= 5 {
      assert j[|j| - 5..] == x[|x| - 5..];
    } else if DummyIsEnterable(j) {
      assert x == j[|j| - 5..][5 - |x|..];
    }
  }

  // ---------------------------------------------------------------------
  // Extraction

  /** What `extractall` is asked for: the whole archive (`members=None`) or
      the listed member names. */
  datatype Members = Everything | Listed(names: seq<string>)

  /** Every selected node is a node of the tree other than its root. */
  predicate SelectionOk(t: DirectoryTree, checked: seq<seq<nat>>) {
    forall k :: 0 <= k < |checked| ==> ValidIndex(t.root, checked[k]) && checked[k] != []
  }

  /** The names of a selected node below the root: its payload chain
      without the root's. */
  function Chain(t: DirectoryTree, idx: seq<nat>): (r: seq<string>)
    requires ValidIndex(t.root, idx) && idx != []
    ensures |r| == |idx| && r != []
  {
    DataArray(t.root, idx)[1..]
  }

  /** `Tar.extract` / `Zip.extract` member selection: with a selection,
      each node's chain joined with the separator, in selection order,
      skipping chains that start with `..`; without one, everything. */
  function ExtractMembers(t: DirectoryTree, checked: seq<seq<nat>>): (r: Members)
    requires SelectionOk(t, checked)
    ensures checked == [] <==> r.Everything?
  {
    if checked == [] then Everything else Listed(SelectedNames(t, checked))
  }

  function SelectedNames(t: DirectoryTree, checked: seq<seq<nat>>): (r: seq<string>)
    requires SelectionOk(t, checked)
    ensures (forall k :: 0 <= k < |checked| ==> Chain(t, checked[k])[0] != "..") ==> |r| == |checked|
    decreases |checked|
  {
    if checked == [] then []
    else
      var arr := Chain(t, checked[0]);
      (if arr[0] == ".." then [] else [SepJoin(arr)]) + SelectedNames(t, checked[1..])
  }

  /** Whether the selected node at `idx` yields a member name: its chain
      does not start with `..`. */
  predicate Named(t: DirectoryTree, idx: seq<nat>)
    requires ValidIndex(t.root, idx) && idx != []
  {
    Chain(t, idx)[0] != ".."
  }

  /** The member names are the joined chains of the selected nodes that
      are not skipped, and nothing else. */
  lemma {:induction false} SelectedNamesMembers(t: DirectoryTree, checked: seq<seq<nat>>, x: string)
    requires SelectionOk(t, checked)
    ensures x in SelectedNames(t, checked) <==>
      exists k :: 0 <= k < |checked| && Named(t, checked[k]) && x == SepJoin(Chain(t, checked[k]))
    decreases |checked|
  {
    if checked != [] {
      SelectedNamesMembers(t, checked[1..], x);
      assert forall k :: 1 <= k < |checked| ==> checked[k] == checked[1..][k - 1];
      if exists k :: 0 <= k < |checked| && Named(t, checked[k]) && x == SepJoin(Chain(t, checked[k])) {
        var k :| 0 <= k < |checked| && Named(t, checked[k]) && x == SepJoin(Chain(t, checked[k]));
        if k > 0 {
          assert checked[1..][k - 1] == checked[k];
        }
      }
    }
  }

  /** Selections are handled one node at a time, in order: the names for a
      concatenated selection are the names for each part, concatenated. */
  lemma {:induction false} SelectedNamesConcat(t: DirectoryTree, a: seq<seq<nat>>, b: seq<seq<nat>>)
    requires SelectionOk(t, a) && SelectionOk(t, b)
    ensures SelectionOk(t, a + b)
    ensures SelectedNames(t, a + b) == SelectedNames(t, a) + SelectedNames(t, b)
    decreases |a|
  {
    var ab := a + b;
    assert SelectionOk(t, ab) by {
      assert forall k :: 0 <= k < |ab| ==> ab[k] == if k < |a| then a[k] else b[k - |a|];
    }
    if a != [] {
      assert ab[0] == a[0] && ab[1..] == a[1..] + b;
      assert SelectionOk(t, a[1..]) by {
        assert forall k :: 0 <= k < |a[1..]| ==> a[1..][k] == a[k + 1];
      }
      SelectedNamesConcat(t, a[1..], b);
      var h := Chain(t, a[0]);
      var x: seq<string> := if h[0] == ".." then [] else [SepJoin(h)];
      assert SelectedNames(t, ab) == x + SelectedNames(t, ab[1..]);
      assert SelectedNames(t, a) == x + SelectedNames(t, a[1..]);
      ConcatAssoc(x, SelectedNames(t, a[1..]), SelectedNames(t, b));
    } else {
      assert ab == b;
    }
  }

  /** Walking the names of a valid index path reaches the node at that
      index path, when sibling names are unique. */
  lemma {:induction false} FindAlongIndex(n: FileNode, idx: seq<nat>)
    requires Unique(n) && ValidIndex(n, idx)
    ensures Find(n, DataArray(n, idx)[1..]) == Some(At(n, idx))
    decreases |idx|
  {
    if idx != [] {
      var c := n.children[idx[0]];
      UniqueChildIndex(n, idx[0]);
      FindAlongIndex(c, idx[1..]);
      var s := DataArray(n, idx)[1..];
      assert s == DataArray(c, idx[1..]);
      assert s[0] == c.data && s[1..] == DataArray(c, idx[1..])[1..];
    }
  }

  /** The payloads below the root along a valid index path satisfy
      whatever every payload below the root does. */
  lemma {:induction false} ChainBelow(n: FileNode, idx: seq<nat>, ok: string -> bool)
    requires AllBelow(n, ok) && ValidIndex(n, idx)
    ensures forall k :: 1 <= k < |DataArray(n, idx)| ==> ok(DataArray(n, idx)[k])
    decreases |idx|
  {
    if idx != [] {
      var c := n.children[idx[0]];
      ChainBelow(c, idx[1..], ok);
      assert DataArray(n, idx) == [n.data] + DataArray(c, idx[1..]);
    }
  }

  /** Joining a relative name that is extended on the right extends the
      join on the right. */
  lemma JoinAppend(a: string, b: string, c: string)
    requires b != [] && b[0] != Sep
    ensures Join(a, b + c) == Join(a, b) + c
  {
    assert (b + c)[0] == b[0];
  }

  /** `join(a, sep.join(segs))` is `join(a, *segs)` for an anchored `a`. */
  lemma {:induction false} JoinSepJoin(a: string, segs: seq<string>)
    requires Anchored(a) && segs != [] && AllSegments(segs)
    ensures Join(a, SepJoin(segs)) == JoinAll(a, segs)
    decreases |segs|
  {
    var a' := Join(a, segs[0]);
    JoinAllCons(a, segs);
    if |segs| == 1 {
      SepJoinOne(segs);
      assert segs[1..] == [];
      assert JoinAll(a', segs[1..]) == a';
    } else {
      var rest := SepJoin(segs[1..]);
      JoinSepJoin(a', segs[1..]);
      SepJoinStart(segs[1..]);
      SepJoinCons(segs);
      JoinThroughSep(a, segs[0], rest);
    }
  }

  /** Joining `seg/rest` onto `a` is joining `rest` onto `join(a, seg)`. */
  lemma JoinThroughSep(a: string, seg: string, rest: string)
    requires IsSegment(seg) && rest != [] && rest[0] != Sep
    ensures Join(a, seg + ([Sep] + rest)) == Join(Join(a, seg), rest)
  {
    var a' := Join(a, seg);
    assert a' != [] && !EndsWithSep(a') by {
      JoinLast(a, seg);
    }
    JoinAppend(a, seg, [Sep] + rest);
    assert Join(a', rest) == a' + [Sep] + rest;
  }

  /** `sep.join` of proper segments starts with the first one. */
  lemma SepJoinStart(segs: seq<string>)
    requires segs != [] && AllSegments(segs)
    ensures SepJoin(segs) != [] && SepJoin(segs)[0] == segs[0][0]
  {
  }

  /** A member name produced for a selected node is a proper relative name:
      it splits back into the node's chain, and joined onto the archive
      path, as construction joins member names, it looks up that node. */
  lemma ExtractNameLocates(t: DirectoryTree, idx: seq<nat>)
    requires Valid(t) && Anchored(t.rootDir) && ValidIndex(t.root, idx) && idx != []
    ensures ArrayByPath(SepJoin(Chain(t, idx))) == Chain(t, idx)
    ensures Get(t, Join(t.rootDir, SepJoin(Chain(t, idx)))) == Ok(Some(At(t.root, idx)))
  {
    var chain := Chain(t, idx);
    ChainBelow(t.root, idx, IsSegment);
    assert AllSegments(chain) by {
      assert forall k :: 0 <= k < |chain| ==> chain[k] == DataArray(t.root, idx)[k + 1];
    }
    SepJoinRoundTrip(chain);
    JoinSepJoin(t.rootDir, chain);
    FindAlongIndex(t.root, idx);
    GetPathRoundTrip(t, chain);
  }

  // ---------------------------------------------------------------------
  // Path comparison and the format registry

  /** ASCII lower-casing of one character. */
  function Lower(ch: char): char {
    if 'A' <= ch <= 'Z' then (ch as int - 'A' as int + 'a' as int) as char else ch
  }

  /** A path lower-cased character by character. */
  function LowerAll(f: string): (r: string)
    ensures |r| == |f| && forall i :: 0 <= i < |f| ==> r[i] == Lower(f[i])
  {
    seq(|f|, i requires 0 <= i < |f| => Lower(f[i]))
  }

  /** `Container.samefile`: equality after lower-casing both paths. */
  function SameFile(f1: string, f2: string): (r: bool)
    ensures r <==> |f1| == |f2| && forall i :: 0 <= i < |f1| ==> Lower(f1[i]) == Lower(f2[i])
  {
    var l1, l2 := LowerAll(f1), LowerAll(f2);
    assert |f1| == |f2| && (forall i :: 0 <= i < |f1| ==> Lower(f1[i]) == Lower(f2[i])) ==> l1 == l2;
    l1 == l2
  }

  /** `samefile` is an equivalence on paths, and a path and its
      lower-cased spelling name the same file. */
  lemma SameFileIsEquivalence(f1: string, f2: string, f3: string)
    ensures SameFile(f1, f1)
    ensures SameFile(f1, f2) ==> SameFile(f2, f1)
    ensures SameFile(f1, f2) && SameFile(f2, f3) ==> SameFile(f1, f3)
    ensures SameFile(f1, LowerAll(f1))
  {
  }

  /** The registry of archive formats, in the order they are tried. */
  const Registry: seq<ArchiveKind> := [Tar, Zip]

  /** The first kind in `kinds` whose predicate holds. */
  function FirstMatch(kinds: seq<ArchiveKind>, isArchive: ArchiveKind -> bool): (r: Option<nat>)
    ensures r.Some? ==> r.value < |kinds| && isArchive(kinds[r.value])
    ensures r.Some? ==> forall j :: 0 <= j < r.value ==> !isArchive(kinds[j])
    ensures r.None? <==> forall j :: 0 <= j < |kinds| ==> !isArchive(kinds[j])
  {
    if kinds == [] then None
    else if isArchive(kinds[0]) then Some(0)
    else match FirstMatch(kinds[1..], isArchive)
      case None => None
      case Some(i) => Some(i + 1)
  }

  /** `get_archive_class(path)`: `isArchive(k)` is format `k`'s `isarchive`
      answer for `path`. */
  function GetArchiveClass(isArchive: ArchiveKind -> bool): (r: Option<ArchiveKind>)
    ensures r == Some(Tar) <==> isArchive(Tar)
    ensures r == Some(Zip) <==> !isArchive(Tar) && isArchive(Zip)
    ensures r == None <==> !isArchive(Tar) && !isArchive(Zip)
  {
    match FirstMatch(Registry, isArchive)
    case None => None
    case Some(i) => Some(Registry[i])
  }

  /** `container(path)`: an instance of the matched format, or `None`;
      `names` is the member list that format's codec reports. */
  function OpenContainer(path: string, isArchive: ArchiveKind -> bool, names: seq<string>, stat: StatOracle): (r: Result<Option<Container>>)
    requires GetArchiveClass(isArchive) == Some(Zip) ==> NoEmptyName(names)
    ensures r == Ok(None) <==> !isArchive(Tar) && !isArchive(Zip)
    ensures r.Err? ==> isArchive(Tar) || isArchive(Zip)
    ensures r.Ok? && r.value.Some? ==>
      var c := r.value.value;
      && c.Archive? && c.path == path && c.tree.rootDir == path && Valid(c.tree)
      && (c.kind == Tar <==> isArchive(Tar))
  {
    match GetArchiveClass(isArchive)
    case None => Ok(None)
    case Some(kind) =>
      match Open(kind, path, names, stat)
      case Ok(c) => Ok(Some(c))
      case Err(e) => Err(e)
  }

  /** `container(path)` fails only for a recognised archive that cannot be
      built: its path or one of its kept members cannot be stat'ed or lies
      outside the root. */
  lemma OpenContainerOkIff(path: string, isArchive: ArchiveKind -> bool, names: seq<string>, stat: StatOracle)
    requires GetArchiveClass(isArchive) == Some(Zip) ==> NoEmptyName(names)
    ensures OpenContainer(path, isArchive, names, stat).Ok? <==>
      || (!isArchive(Tar) && !isArchive(Zip))
      || (var kind := if isArchive(Tar) then Tar else Zip;
          stat(path) && forall k :: 0 <= k < |Kept(kind, names)| ==> Admitted(path, Kept(kind, names)[k], stat))
  {
    if isArchive(Tar) || isArchive(Zip) {
      var kind := if isArchive(Tar) then Tar else Zip;
      OpenOkIff(kind, path, names, stat);
    }
  }

  // ---------------------------------------------------------------------
  // Worked examples

  /** A member given as `sep.join(segs)` is added at `segs`, below an
      anchored archive path. */
  lemma MemberSegmentsOfSepJoin(root: string, segs: seq<string>)
    requires Anchored(root) && segs != [] && AllSegments(segs)
    ensures Within(root, Join(root, SepJoin(segs))) == Ok(segs)
    ensures MemberSegments(root, SepJoin(segs)) == segs
  {
    JoinSepJoin(root, segs);
    GetPathRoundTrip(DirectoryTree(root, Node(root, [])), segs);
  }

  /** In a list without repeats, the first two elements differ. */
  lemma FirstTwoDiffer(xs: seq<string>)
    ensures NoDups(xs) && |xs| >= 2 ==> xs[0] != xs[1]
  {
  }

  /** A list without repeats whose only element is `x` is `[x]`. */
  lemma OnlyElement(xs: seq<string>, x: string)
    requires NoDups(xs) && x in xs && forall y :: y in xs ==> y == x
    ensures xs == [x]
  {
    assert xs[0] in xs;
    forall i | 0 <= i < |xs| ensures xs[i] == x {
      assert xs[i] in xs;
    }
    FirstTwoDiffer(xs);
    assert |xs| == 1;
  }

  /** Child names are listed without repeats under unique sibling names. */
  lemma UniqueChildNames(n: FileNode)
    requires Unique(n)
    ensures NoDups(ChildNames(n))
  {
  }

  /** The member list of a zip archive holding a directory marker `d/`,
      a file `d/f` below it and a top-level file `t`. */
  function MarkerNames(d: string, f: string, t: string): seq<string> {
    [d + [Sep], d + [Sep] + f, t]
  }

  ghost predicate MarkerExample(root: string, d: string, f: string, t: string, stat: StatOracle) {
    && Anchored(root) && IsSegment(d) && IsSegment(f) && IsSegment(t) && d != t
    && forall p :: stat(p)
  }

  /** The example's directory marker is skipped. */
  lemma MarkerKept(d: string, f: string, t: string)
    requires IsSegment(d) && IsSegment(f) && IsSegment(t)
    ensures NoEmptyName(MarkerNames(d, f, t))
    ensures ZipKept(MarkerNames(d, f, t)) == [d + [Sep] + f, t]
  {
    var names := MarkerNames(d, f, t);
    var df := d + [Sep] + f;
    assert names[0][|names[0]| - 1] == Sep;
    assert df[|df| - 1] == f[|f| - 1] != Sep;
    assert names[1..] == [df, t] && names[1..][1..] == [t] && [t][1..] == [];
    assert ZipKept([t]) == [t];
    assert ZipKept(names[1..]) == [df] + ZipKept([t]);
    assert ZipKept(names) == ZipKept(names[1..]);
  }

  /** Where the example's kept members are added. */
  lemma MarkerSegments(root: string, d: string, f: string, t: string)
    requires Anchored(root) && IsSegment(d) && IsSegment(f) && IsSegment(t)
    ensures MemberSegments(root, d + [Sep] + f) == [d, f]
    ensures MemberSegments(root, t) == [t]
  {
    ShortSepJoins(d, f, t);
    MemberSegmentsOfSepJoin(root, [d, f]);
    MemberSegmentsOfSepJoin(root, [t]);
  }

  /** Both kept members of the example are admitted. */
  lemma MarkerAdmitted(root: string, d: string, f: string, t: string, stat: StatOracle)
    requires MarkerExample(root, d, f, t, stat)
    ensures Admitted(root, d + [Sep] + f, stat) && Admitted(root, t, stat)
  {
    ShortSepJoins(d, f, t);
    AdmittedEverywhere(root, [d, f], stat);
    AdmittedEverywhere(root, [t], stat);
  }

  lemma ShortSepJoins(d: string, f: string, t: string)
    ensures SepJoin([d, f]) == d + [Sep] + f
    ensures SepJoin([t]) == t
  {
    assert [d, f][1..] == [f];
  }

  /** Under an oracle that stats every path, every member below the root
      is admitted. */
  lemma AdmittedEverywhere(root: string, segs: seq<string>, stat: StatOracle)
    requires Anchored(root) && segs != [] && AllSegments(segs) && forall p :: stat(p)
    ensures Admitted(root, SepJoin(segs), stat)
  {
    MemberSegmentsOfSepJoin(root, segs);
    StatsEverywhere(root, segs, stat);
  }

  lemma {:induction false} StatsEverywhere(base: string, segs: seq<string>, stat: StatOracle)
    requires forall p :: stat(p)
    ensures StatsSucceed(base, segs, stat)
    decreases |segs|
  {
    if segs != [] {
      StatsEverywhere(Join(base, segs[0]), segs[1..], stat);
    }
  }

  /** The root names the example's kept members contribute, in order. */
  lemma MarkerHeads(root: string, d: string, f: string, t: string)
    requires Anchored(root) && IsSegment(d) && IsSegment(f) && IsSegment(t) && d != t
    ensures AppendNew([], Heads(root, [d + [Sep] + f, t])) == [d, t]
  {
    MarkerSegments(root, d, f, t);
    HeadsOfTwo(root, d + [Sep] + f, t, [d, f], [t]);
    AppendNewOfTwo(d, t);
  }

  /** The heads of two members whose segments are known. */
  lemma HeadsOfTwo(root: string, a: string, b: string, sa: seq<string>, sb: seq<string>)
    requires MemberSegments(root, a) == sa && sa != []
    requires MemberSegments(root, b) == sb && sb != []
    ensures Heads(root, [a, b]) == [sa[0], sb[0]]
  {
    var names := [a, b];
    HeadsCons(root, names, sa);
    assert names[1..] == [b];
    HeadsCons(root, names[1..], sb);
    assert names[1..][1..] == [];
  }

  /** A first member with segments puts its first segment before the rest's. */
  lemma HeadsCons(root: string, names: seq<string>, sx: seq<string>)
    requires names != [] && MemberSegments(root, names[0]) == sx && sx != []
    ensures Heads(root, names) == [sx[0]] + Heads(root, names[1..])
  {
  }

  /** Two different names are both new. */
  lemma AppendNewOfTwo(d: string, t: string)
    requires d != t
    ensures AppendNew([], [d, t]) == [d, t]
  {
    var e: seq<string> := [];
    var ys := [d, t];
    assert ys[1..] == [t] && [t][1..] == [];
    assert d !in e && e + [d] == [d];
    assert AppendNew(e, ys) == AppendNew([d], [t]);
    assert t !in [d] && [d] + [t] == [d, t];
    assert AppendNew([d], [t]) == AppendNew([d, t], []);
  }

  /** The example archive opens. */
  lemma MarkerOpens(root: string, d: string, f: string, t: string, stat: StatOracle)
    requires MarkerExample(root, d, f, t, stat)
    ensures NoEmptyName(MarkerNames(d, f, t)) && Open(Zip, root, MarkerNames(d, f, t), stat).Ok?
  {
    var names := MarkerNames(d, f, t);
    var kept := [d + [Sep] + f, t];
    MarkerKept(d, f, t);
    MarkerAdmitted(root, d, f, t, stat);
    TwoAdmitted(root, d + [Sep] + f, t, stat);
    OpenOfAdmitted(Zip, root, names, kept, stat);
  }

  /** An archive opens once its root and every kept member can be stat'ed. */
  lemma OpenOfAdmitted(kind: ArchiveKind, path: string, names: seq<string>, kept: seq<string>, stat: StatOracle)
    requires kind == Zip ==> NoEmptyName(names)
    requires Kept(kind, names) == kept && stat(path)
    requires forall k :: 0 <= k < |kept| ==> Admitted(path, kept[k], stat)
    ensures Open(kind, path, names, stat).Ok?
  {
    OpenOkIff(kind, path, names, stat);
  }

  lemma TwoAdmitted(root: string, a: string, b: string, stat: StatOracle)
    requires Admitted(root, a, stat) && Admitted(root, b, stat)
    ensures forall k :: 0 <= k < |[a, b]| ==> Admitted(root, [a, b][k], stat)
  {
  }

  /** The example archive's root lists `d` then `t`. */
  lemma MarkerExampleRoot(root: string, d: string, f: string, t: string, stat: StatOracle)
    requires MarkerExample(root, d, f, t, stat)
    ensures NoEmptyName(MarkerNames(d, f, t)) && Open(Zip, root, MarkerNames(d, f, t), stat).Ok?
    ensures var c := Open(Zip, root, MarkerNames(d, f, t), stat).value;
      Navigable(c, root) && ListDir(c, root) == Ok([d, t])
  {
    var names := MarkerNames(d, f, t);
    MarkerOpens(root, d, f, t, stat);
    MarkerKept(d, f, t);
    ListDirOfRoot(Zip, root, names, stat);
    assert Kept(Zip, names) == [d + [Sep] + f, t];
    MarkerHeads(root, d, f, t);
  }

  /** The paths through `d` in the example archive: `d` itself and `d/f`. */
  lemma MarkerDirPaths(root: string, d: string, f: string, t: string, stat: StatOracle, x: string)
    requires MarkerExample(root, d, f, t, stat)
    ensures NoEmptyName(MarkerNames(d, f, t)) && Open(Zip, root, MarkerNames(d, f, t), stat).Ok?
    ensures var c := Open(Zip, root, MarkerNames(d, f, t), stat).value;
      Has(c.tree.root, [d]) && (Has(c.tree.root, [d, x]) <==> x == f)
  {
    MarkerPresence(root, d, f, t, stat, []);
    var n := Open(Zip, root, MarkerNames(d, f, t), stat).value.tree.root;
    assert Has(n, [d]) by {
      MarkerPresence(root, d, f, t, stat, [d]);
      assert [d] <= [d, f];
    }
    assert Has(n, [d, x]) <==> x == f by {
      MarkerPresence(root, d, f, t, stat, [d, x]);
      PairPrefix(d, x, f, t);
    }
  }

  lemma PairPrefix(d: string, x: string, f: string, t: string)
    ensures [d, x] <= [d, f] <==> x == f
    ensures !([d, x] <= [t])
  {
    if [d, x] <= [d, f] {
      assert [d, x][1] == [d, f][1];
    }
  }

  /** The paths present in the example archive: the prefixes of `d/f` and
      of `t`. */
  lemma MarkerPresence(root: string, d: string, f: string, t: string, stat: StatOracle, q: seq<string>)
    requires MarkerExample(root, d, f, t, stat)
    ensures NoEmptyName(MarkerNames(d, f, t)) && Open(Zip, root, MarkerNames(d, f, t), stat).Ok?
    ensures Has(Open(Zip, root, MarkerNames(d, f, t), stat).value.tree.root, q) <==>
      q == [] || q <= [d, f] || q <= [t]
  {
    var names := MarkerNames(d, f, t);
    var df := d + [Sep] + f;
    MarkerOpens(root, d, f, t, stat);
    MarkerKept(d, f, t);
    MarkerSegments(root, d, f, t);
    assert Kept(Zip, names) == [df, t];
    OpenPresence(Zip, root, names, stat, q);
    ReachesTwo(root, df, t, q);
    assert Reaches(root, [df, t], q) <==> q <= [d, f] || q <= [t];
  }

  /** Reaching one of two members is reaching the first or the second. */
  lemma ReachesTwo(root: string, a: string, b: string, q: seq<string>)
    ensures Reaches(root, [a, b], q) <==> q <= MemberSegments(root, a) || q <= MemberSegments(root, b)
  {
    var names := [a, b];
    if q <= MemberSegments(root, a) {
      assert names[0] in names;
    }
    if q <= MemberSegments(root, b) {
      assert names[1] in names;
    }
  }

  /** In the example archive, `d` lists only `f`: the marker `d/` adds no
      node of its own. */
  lemma MarkerExampleDir(root: string, d: string, f: string, t: string, stat: StatOracle)
    requires MarkerExample(root, d, f, t, stat)
    ensures NoEmptyName(MarkerNames(d, f, t)) && Open(Zip, root, MarkerNames(d, f, t), stat).Ok?
    ensures var c := Open(Zip, root, MarkerNames(d, f, t), stat).value;
      Navigable(c, Join(root, d)) && ListDir(c, Join(root, d)) == Ok([f])
  {
    var names := MarkerNames(d, f, t);
    MarkerDirMembers(root, d, f, t, stat, f);
    var c := Open(Zip, root, names, stat).value;
    var p := Join(root, d);
    var ls := ListDir(c, p).value;
    assert ListDir(c, p) == Ok(ls) && Valid(c.tree);
    assert forall x :: x in ls ==> x == f by {
      forall x | x in ls
        ensures x == f
      {
        MarkerDirMembers(root, d, f, t, stat, x);
      }
    }
    ListingOfOne(c, p, ls, f);
  }

  /** What `d` lists in the example archive: `f` and nothing else. */
  lemma MarkerDirMembers(root: string, d: string, f: string, t: string, stat: StatOracle, x: string)
    requires MarkerExample(root, d, f, t, stat)
    ensures NoEmptyName(MarkerNames(d, f, t)) && Open(Zip, root, MarkerNames(d, f, t), stat).Ok?
    ensures var c := Open(Zip, root, MarkerNames(d, f, t), stat).value;
      Navigable(c, Join(root, d)) && ListDir(c, Join(root, d)).Ok? &&
      (x in ListDir(c, Join(root, d)).value <==> x == f)
  {
    MarkerDirLookup(root, d, f, t, stat);
    MarkerDirPaths(root, d, f, t, stat, x);
    PairDisplay(d, x);
  }

  lemma PairDisplay(d: string, x: string)
    ensures [d] + [x] == [d, x]
  {
  }

  /** In the example archive, `d` is looked up at the root path joined
      with `d`. */
  lemma MarkerDirLookup(root: string, d: string, f: string, t: string, stat: StatOracle)
    requires MarkerExample(root, d, f, t, stat)
    ensures NoEmptyName(MarkerNames(d, f, t)) && Open(Zip, root, MarkerNames(d, f, t), stat).Ok?
    ensures var c := Open(Zip, root, MarkerNames(d, f, t), stat).value;
      Within(c.tree.rootDir, Join(root, d)) == Ok([d]) && Navigable(c, Join(root, d))
  {
    var names := MarkerNames(d, f, t);
    MarkerDirPaths(root, d, f, t, stat, f);
    var c := Open(Zip, root, names, stat).value;
    assert JoinAll(root, [d]) == Join(root, d);
    GetPathRoundTrip(c.tree, [d]);
  }

  /** Extracting with a selection of just the node for `d/f` asks for
      exactly the member `d/f`, and so never for `t`. */
  lemma MarkerExtract(root: string, d: string, f: string, t: string, stat: StatOracle)
    requires MarkerExample(root, d, f, t, stat) && d != ".."
    ensures NoEmptyName(MarkerNames(d, f, t)) && Open(Zip, root, MarkerNames(d, f, t), stat).Ok?
    ensures var c := Open(Zip, root, MarkerNames(d, f, t), stat).value;
      && IndexPath(c.tree.root, [d, f]).Some?
      && SelectionOk(c.tree, [IndexPath(c.tree.root, [d, f]).value])
      && ExtractMembers(c.tree, [IndexPath(c.tree.root, [d, f]).value]) == Listed([d + [Sep] + f])
  {
    MarkerDirPaths(root, d, f, t, stat, f);
    var c := Open(Zip, root, MarkerNames(d, f, t), stat).value;
    ExtractOne(c.tree, [d, f]);
    assert SepJoin([d, f]) == d + [Sep] + f;
  }

  /** Selecting only the node at names `s` asks for the one member
      `sep.join(s)`, unless `s` starts with `..`. */
  lemma ExtractOne(t: DirectoryTree, s: seq<string>)
    requires Has(t.root, s) && s != []
    ensures IndexPath(t.root, s).Some?
    ensures SelectionOk(t, [IndexPath(t.root, s).value])
    ensures ExtractMembers(t, [IndexPath(t.root, s).value]) == Listed(if s[0] == ".." then [] else [SepJoin(s)])
  {
    IndexPathLocates(t.root, s);
    var idx := IndexPath(t.root, s).value;
    assert ([t.root.data] + s)[1..] == s;
    assert Chain(t, idx) == s;
    var sel := [idx];
    assert SelectedNames(t, sel[1..]) == [];
  }

  /** A listing of a unique tree that holds `x` and nothing else is `[x]`. */
  lemma ListingOfOne(c: Container, p: string, ls: seq<string>, x: string)
    requires c.Archive? && Valid(c.tree) && Navigable(c, p) && ListDir(c, p) == Ok(ls)
    requires x in ls && forall y :: y in ls ==> y == x
    ensures ls == [x]
  {
    var n := Get(c.tree, p).value.value;
    FindUnique(c.tree.root, Within(c.tree.rootDir, p).value);
    UniqueChildNames(n);
    OnlyElement(ls, x);
  }
}
