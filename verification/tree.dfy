/** The generic ordered tree (`Node`): children in insertion order, lookup of
    a child by payload, unlinking, the payload chain from the root, and the
    depth-first walk over the leaves.

    Nodes are values. A node is identified by where it sits below the root:
    either by the payloads met on the way down (a name path, `seq<T>`) or by
    the child positions taken (an index path, `seq<nat>`). The parent link
    of the source becomes the prefix of such a path. */
module Tree {
  import opened Outcomes

  datatype Node<T> = Node(data: T, children: seq<Node<T>>)

  // ---------------------------------------------------------------------
  // Children

  /** The position of the first child carrying `d`, if there is one. */
  function ChildIndex<T(==)>(cs: seq<Node<T>>, d: T): (r: Option<nat>)
    ensures r.Some? ==> r.value < |cs| && cs[r.value].data == d
    ensures r.Some? ==> forall j :: 0 <= j < r.value ==> cs[j].data != d
    ensures r.None? ==> forall j :: 0 <= j < |cs| ==> cs[j].data != d
  {
    if cs == [] then None
    else if cs[0].data == d then Some(0)
    else match ChildIndex(cs[1..], d)
      case None => None
      case Some(i) => Some(i + 1)
  }

  /** `Node.get_child`: linear search of the children by payload. */
  function GetChild<T(==)>(n: Node<T>, d: T): (r: Option<Node<T>>)
    ensures r.Some? <==> exists k :: 0 <= k < |n.children| && n.children[k].data == d
    ensures r.Some? ==> r.value.data == d && r.value in n.children
    ensures r.Some? ==>
      exists k :: 0 <= k < |n.children| && n.children[k] == r.value && (forall j :: 0 <= j < k ==> n.children[j].data != d)
  {
    match ChildIndex(n.children, d)
    case None => None
    case Some(i) =>
      assert forall j :: 0 <= j < i ==> n.children[j].data != d;
      Some(n.children[i])
  }

  /** `Node.add_child`: a new leaf carrying `d` after the existing children. */
  function AddChild<T>(n: Node<T>, d: T): (r: Node<T>)
    ensures r.data == n.data && n.children < r.children && |r.children| == |n.children| + 1
    ensures r.children[|n.children|] == Node(d, [])
  {
    n.(children := n.children + [Node(d, [])])
  }

  /** Appending a child leaves the first match of every payload where it was,
      and makes the new leaf the match for a payload nobody carried before. */
  lemma {:induction false} ChildIndexAppend<T>(cs: seq<Node<T>>, c: Node<T>, d: T)
    ensures ChildIndex(cs + [c], d) ==
      if ChildIndex(cs, d).Some? then ChildIndex(cs, d)
      else if c.data == d then Some(|cs|)
      else None
  {
    if cs == [] {
      assert cs + [c] == [c];
    } else {
      assert (cs + [c])[0] == cs[0];
      assert (cs + [c])[1..] == cs[1..] + [c];
      ChildIndexAppend(cs[1..], c, d);
    }
  }

  /** After `add_child(d)`, `get_child(d)` finds the new leaf unless a child
      carrying `d` was already there; lookups of other payloads are as before. */
  lemma AddChildThenGetChild<T>(n: Node<T>, d: T, e: T)
    ensures GetChild(AddChild(n, d), e) ==
      if e == d && GetChild(n, d).None? then Some(Node(d, [])) else GetChild(n, e)
    ensures AddChild(n, d).data == n.data
  {
    ChildIndexAppend(n.children, Node(d, []), e);
    var i := ChildIndex(n.children, e);
    if i.Some? {
      assert (n.children + [Node(d, [])])[i.value] == n.children[i.value];
    }
  }

  /** Replacing a child by one with the same payload changes no first match. */
  lemma {:induction false} ChildIndexUpdate<T>(cs: seq<Node<T>>, i: nat, c: Node<T>, d: T)
    requires i < |cs| && cs[i].data == c.data
    ensures ChildIndex(cs[i := c], d) == ChildIndex(cs, d)
  {
    if i == 0 {
      assert cs[i := c][1..] == cs[1..];
    } else {
      assert cs[i := c][0] == cs[0];
      assert cs[i := c][1..] == cs[1..][i - 1 := c];
      ChildIndexUpdate(cs[1..], i - 1, c, d);
    }
  }

  /** The parent's side of `Node.del_self`: the first child carrying `d` is
      dropped and the others keep their order. */
  function RemoveChild<T(==)>(cs: seq<Node<T>>, d: T): (r: seq<Node<T>>)
    ensures ChildIndex(cs, d).None? ==> r == cs
    ensures ChildIndex(cs, d).Some? ==>
      var i := ChildIndex(cs, d).value; r == cs[..i] + cs[i + 1..]
  {
    if cs == [] then []
    else if cs[0].data == d then cs[1..]
    else
      RemovalBehindHead(cs, d);
      [cs[0]] + RemoveChild(cs[1..], d)
  }

  /** A removal behind the head, seen from the whole list. */
  lemma RemovalBehindHead<T>(cs: seq<Node<T>>, d: T)
    requires cs != []
    ensures ChildIndex(cs[1..], d).Some? ==>
      var i := ChildIndex(cs[1..], d).value;
      [cs[0]] + (cs[1..][..i] + cs[1..][i + 1..]) == cs[..i + 1] + cs[i + 2..]
  {
    if ChildIndex(cs[1..], d).Some? {
      ConsSlices(cs, ChildIndex(cs[1..], d).value);
    }
  }

  /** Putting the head back in front of a tail with one element cut out. */
  lemma ConsSlices<X>(cs: seq<X>, i: nat)
    requires i + 1 < |cs|
    ensures [cs[0]] + (cs[1..][..i] + cs[1..][i + 1..]) == cs[..i + 1] + cs[i + 2..]
  {
    assert cs[1..][..i] == cs[1..i + 1];
    assert cs[1..][i + 1..] == cs[i + 2..];
    assert [cs[0]] + cs[1..i + 1] == cs[..i + 1];
  }

  // ---------------------------------------------------------------------
  // Walking by name path

  /** The node reached from `n` by following, level by level, the first
      child carrying each payload of `s`. */
  function Find<T(==)>(n: Node<T>, s: seq<T>): Option<Node<T>>
    decreases |s|
  {
    if s == [] then Some(n)
    else match GetChild(n, s[0])
      case None => None
      case Some(c) => Find(c, s[1..])
  }

  predicate Has<T(==)>(n: Node<T>, s: seq<T>) {
    Find(n, s).Some?
  }

  /** No node has two children with the same payload. */
  predicate Unique<T(==)>(n: Node<T>)
    decreases n
  {
    && (forall i, j :: 0 <= i < j < |n.children| ==> n.children[i].data != n.children[j].data)
    && (forall k :: 0 <= k < |n.children| ==> Unique(n.children[k]))
  }

  /** Every payload below `n` (not `n`'s own) satisfies `ok`. */
  predicate AllBelow<T>(n: Node<T>, ok: T -> bool)
    decreases n
  {
    forall k :: 0 <= k < |n.children| ==> ok(n.children[k].data) && AllBelow(n.children[k], ok)
  }

  /** A walk that succeeds follows payloads found below the start. */
  lemma {:induction false} FindFollowsPayloads<T>(n: Node<T>, s: seq<T>, ok: T -> bool)
    requires Has(n, s) && AllBelow(n, ok)
    ensures forall k :: 0 <= k < |s| ==> ok(s[k])
    decreases |s|
  {
    if s != [] {
      var i := ChildIndex(n.children, s[0]).value;
      FindFollowsPayloads(n.children[i], s[1..], ok);
      assert forall k :: 1 <= k < |s| ==> s[k] == s[1..][k - 1];
    }
  }

  /** `Node.del_self` applied to the node reached by `s`: its parent drops
      the first child with that node's payload; the root has no parent, so
      unlinking it changes nothing. */
  function DeleteAt<T(==)>(n: Node<T>, s: seq<T>): (r: Node<T>)
    requires Has(n, s)
    ensures r.data == n.data
    decreases |s|
  {
    if s == [] then n
    else
      var i := ChildIndex(n.children, s[0]).value;
      if |s| == 1 then n.(children := RemoveChild(n.children, s[0]))
      else n.(children := n.children[i := DeleteAt(n.children[i], s[1..])])
  }

  // ---------------------------------------------------------------------
  // Positions and the payload chain

  predicate ValidIndex<T>(n: Node<T>, idx: seq<nat>)
    decreases |idx|
  {
    idx == [] || (idx[0] < |n.children| && ValidIndex(n.children[idx[0]], idx[1..]))
  }

  /** The node at an index path. */
  function At<T>(n: Node<T>, idx: seq<nat>): Node<T>
    requires ValidIndex(n, idx)
    decreases |idx|
  {
    if idx == [] then n else At(n.children[idx[0]], idx[1..])
  }

  /** `Node.get_data_array`: the payloads from the root down to the node at
      `idx`, both ends included. */
  function DataArray<T>(n: Node<T>, idx: seq<nat>): (r: seq<T>)
    requires ValidIndex(n, idx)
    ensures |r| == |idx| + 1 && r[0] == n.data
    decreases |idx|
  {
    [n.data] + if idx == [] then [] else DataArray(n.children[idx[0]], idx[1..])
  }

  /** The positions taken by `Find` along a name path. */
  function IndexPath<T(==)>(n: Node<T>, s: seq<T>): Option<seq<nat>>
    decreases |s|
  {
    if s == [] then Some([])
    else match ChildIndex(n.children, s[0])
      case None => None
      case Some(i) =>
        match IndexPath(n.children[i], s[1..])
        case None => None
        case Some(rest) => Some([i] + rest)
  }

  /** Walking by names and by positions reach the same node, and the node's
      payload chain is the root's payload followed by the names walked. */
  lemma {:induction false} IndexPathLocates<T>(n: Node<T>, s: seq<T>)
    ensures IndexPath(n, s).Some? <==> Has(n, s)
    ensures IndexPath(n, s).Some? ==>
      var idx := IndexPath(n, s).value;
      && ValidIndex(n, idx)
      && At(n, idx) == Find(n, s).value
      && DataArray(n, idx) == [n.data] + s
    decreases |s|
  {
    if s != [] {
      match ChildIndex(n.children, s[0])
      case None =>
      case Some(i) =>
        var c := n.children[i];
        IndexPathLocates(c, s[1..]);
        assert Find(n, s) == Find(c, s[1..]);
        if IndexPath(c, s[1..]).Some? {
          IndexPathStep(n, s, i, IndexPath(c, s[1..]).value);
        }
    }
  }

  /** One step of the walk by names, seen as a walk by positions. */
  lemma IndexPathStep<T>(n: Node<T>, s: seq<T>, i: nat, rest: seq<nat>)
    requires s != [] && ChildIndex(n.children, s[0]) == Some(i)
    requires IndexPath(n.children[i], s[1..]) == Some(rest) && Has(n.children[i], s[1..])
    requires ValidIndex(n.children[i], rest)
    requires At(n.children[i], rest) == Find(n.children[i], s[1..]).value
    requires DataArray(n.children[i], rest) == [n.children[i].data] + s[1..]
    ensures IndexPath(n, s) == Some([i] + rest) && Has(n, s)
    ensures ValidIndex(n, [i] + rest) && At(n, [i] + rest) == Find(n, s).value
    ensures DataArray(n, [i] + rest) == [n.data] + s
  {
    var c := n.children[i];
    FindStep(n, s, i);
    IndexCons(n, i, rest);
    PutBackHead(n.data, c.data, s);
  }

  lemma PutBackHead<X>(x: X, y: X, s: seq<X>)
    requires s != [] && y == s[0]
    ensures [x] + ([y] + s[1..]) == [x] + s
  {
    assert [y] + s[1..] == s;
  }

  /** Walking by names: the first name picks the child, the rest walk on
      from it. */
  lemma FindStep<T>(n: Node<T>, s: seq<T>, i: nat)
    requires s != [] && ChildIndex(n.children, s[0]) == Some(i)
    ensures Find(n, s) == Find(n.children[i], s[1..])
    ensures IndexPath(n, s) == match IndexPath(n.children[i], s[1..])
      case None => None
      case Some(rest) => Some([i] + rest)
  {
  }

  /** Walking by positions: the first position picks the child. */
  lemma IndexCons<T>(n: Node<T>, i: nat, rest: seq<nat>)
    requires i < |n.children| && ValidIndex(n.children[i], rest)
    ensures ValidIndex(n, [i] + rest)
    ensures At(n, [i] + rest) == At(n.children[i], rest)
    ensures DataArray(n, [i] + rest) == [n.data] + DataArray(n.children[i], rest)
  {
    var idx := [i] + rest;
    assert idx[0] == i && idx[1..] == rest;
  }

  // ---------------------------------------------------------------------
  // Depth-first iteration

  /** A node yielded by the iteration, together with the names leading to it
      from the iteration's start (its payload chain without the root). */
  datatype Located<T> = Located(path: seq<T>, node: Node<T>)

  /** `Node.__iter__`: each child that has children is walked in turn, each
      childless child is yielded; the start node itself is never yielded. */
  function Leaves<T>(n: Node<T>): (r: seq<Located<T>>)
    ensures LeafEntries(r)
  {
    LeavesOf(n.children)
  }

  /** The leaves under a list of siblings, left to right: a childless
      sibling is itself a leaf, any other contributes the leaves below it. */
  function LeavesOf<T>(cs: seq<Node<T>>): (r: seq<Located<T>>)
    ensures LeafEntries(r)
    decreases cs
  {
    if cs == [] then []
    else
      var c := cs[0];
      var below := LeavesOf(c.children);
      var h := if c.children == [] then [Located([c.data], c)] else Below(c.data, below);
      var t := LeavesOf(cs[1..]);
      HeadLeafEntries(c, below);
      LeafEntriesConcat(h, t);
      h + t
  }

  /** What one sibling adds is made of leaf entries. */
  lemma HeadLeafEntries<T>(c: Node<T>, below: seq<Located<T>>)
    requires LeafEntries(below)
    ensures LeafEntries(if c.children == [] then [Located([c.data], c)] else Below(c.data, below))
  {
    if c.children != [] {
      BelowLeafEntries(c.data, below);
    }
  }

  /** Every entry is a childless node whose path ends with its payload. */
  ghost predicate LeafEntries<T>(r: seq<Located<T>>) {
    forall k :: 0 <= k < |r| ==>
      r[k].node.children == [] && r[k].path != [] && r[k].path[|r[k].path| - 1] == r[k].node.data
  }

  lemma LeafEntriesConcat<T>(h: seq<Located<T>>, t: seq<Located<T>>)
    requires LeafEntries(h) && LeafEntries(t)
    ensures LeafEntries(h + t)
  {
    forall k | 0 <= k < |h + t|
      ensures (h + t)[k] == if k < |h| then h[k] else t[k - |h|]
    {
    }
  }

  lemma BelowLeafEntries<T>(d: T, ls: seq<Located<T>>)
    requires LeafEntries(ls)
    ensures LeafEntries(Below(d, ls))
  {
    var r := Below(d, ls);
    forall k | 0 <= k < |r|
      ensures r[k].path[|r[k].path| - 1] == r[k].node.data
    {
      assert r[k].path == [d] + ls[k].path;
    }
  }

  /** Leaves found under a child carrying `d`, seen from that child's parent. */
  function Below<T>(d: T, ls: seq<Located<T>>): (r: seq<Located<T>>)
    ensures |r| == |ls|
    ensures forall k :: 0 <= k < |r| ==> r[k] == Located([d] + ls[k].path, ls[k].node)
  {
    seq(|ls|, k requires 0 <= k < |ls| => Located([d] + ls[k].path, ls[k].node))
  }

  /** Whether the leaf `l` is yielded on account of the child `c`. */
  ghost predicate Contributes<T>(c: Node<T>, l: Located<T>) {
    if c.children == [] then l == Located([c.data], c)
    else l.path != [] && l.path[0] == c.data && Located(l.path[1..], l.node) in LeavesOf(c.children)
  }

  lemma BelowMember<T>(d: T, ls: seq<Located<T>>, l: Located<T>)
    ensures l in Below(d, ls) <==>
      l.path != [] && l.path[0] == d && Located(l.path[1..], l.node) in ls
  {
    var r := Below(d, ls);
    if l in r {
      var k :| 0 <= k < |r| && r[k] == l;
      assert ([d] + ls[k].path)[1..] == ls[k].path;
    }
    if l.path != [] && l.path[0] == d && Located(l.path[1..], l.node) in ls {
      var k :| 0 <= k < |ls| && ls[k] == Located(l.path[1..], l.node);
      assert [d] + l.path[1..] == l.path;
      assert r[k] == l;
    }
  }

  lemma {:induction false} LeavesOfMember<T>(cs: seq<Node<T>>, l: Located<T>)
    ensures l in LeavesOf(cs) <==> exists m :: 0 <= m < |cs| && Contributes(cs[m], l)
    decreases |cs|
  {
    if cs != [] {
      LeavesOfMember(cs[1..], l);
      ContributionOf(cs[0], l);
      LeavesOfCons(cs, l);
      ContributorsCons(cs, l);
    }
  }

  /** Some sibling contributes `l` iff the first does or one of the rest. */
  lemma ContributorsCons<T>(cs: seq<Node<T>>, l: Located<T>)
    requires cs != []
    ensures (exists m :: 0 <= m < |cs| && Contributes(cs[m], l)) <==>
      Contributes(cs[0], l) || exists m :: 0 <= m < |cs[1..]| && Contributes(cs[1..][m], l)
  {
    if exists m :: 0 <= m < |cs| && Contributes(cs[m], l) {
      var m :| 0 <= m < |cs| && Contributes(cs[m], l);
      if m > 0 {
        assert cs[1..][m - 1] == cs[m];
      }
    }
    if exists m :: 0 <= m < |cs[1..]| && Contributes(cs[1..][m], l) {
      var m :| 0 <= m < |cs[1..]| && Contributes(cs[1..][m], l);
      assert cs[m + 1] == cs[1..][m];
    }
  }

  lemma LeavesOfCons<T>(cs: seq<Node<T>>, l: Located<T>)
    requires cs != []
    ensures var c := cs[0];
      l in LeavesOf(cs) <==>
        l in (if c.children == [] then [Located([c.data], c)] else Below(c.data, LeavesOf(c.children)))
        || l in LeavesOf(cs[1..])
  {
  }

  /** What one sibling adds to the leaves is what it contributes. */
  lemma ContributionOf<T>(c: Node<T>, l: Located<T>)
    ensures l in (if c.children == [] then [Located([c.data], c)] else Below(c.data, LeavesOf(c.children)))
      <==> Contributes(c, l)
  {
    if c.children != [] {
      BelowMember(c.data, LeavesOf(c.children), l);
    }
  }

  /** Under unique sibling payloads, the first child carrying a payload is
      the only one. */
  lemma UniqueChildIndex<T>(n: Node<T>, m: nat)
    requires Unique(n) && m < |n.children|
    ensures ChildIndex(n.children, n.children[m].data) == Some(m)
    ensures GetChild(n, n.children[m].data) == Some(n.children[m])
  {
  }

  /** Every node reached in a tree with unique sibling payloads has unique
      sibling payloads below it. */
  lemma {:induction false} FindUnique<T>(n: Node<T>, s: seq<T>)
    requires Unique(n) && Has(n, s)
    ensures Unique(Find(n, s).value)
    decreases |s|
  {
    if s != [] {
      var i := ChildIndex(n.children, s[0]).value;
      FindUnique(n.children[i], s[1..]);
    }
  }

  /** Every yielded leaf is found again by walking its names from the start,
      provided sibling payloads are unique. */
  lemma {:induction false} LeavesAreFound<T>(n: Node<T>, l: Located<T>)
    requires Unique(n) && l in Leaves(n)
    ensures Find(n, l.path) == Some(l.node)
    decreases n
  {
    LeavesOfMember(n.children, l);
    var m :| 0 <= m < |n.children| && Contributes(n.children[m], l);
    var c := n.children[m];
    UniqueChildIndex(n, m);
    assert l.path != [] && l.path[0] == c.data;
    assert Find(n, l.path) == Find(c, l.path[1..]);
    if c.children == [] {
      assert l.path[1..] == [];
    } else {
      assert Unique(c);
      LeavesAreFound(c, Located(l.path[1..], l.node));
    }
  }

  /** Every childless node below the start is yielded, with its names. */
  lemma {:induction false} LeavesAreComplete<T>(n: Node<T>, s: seq<T>)
    requires s != [] && Has(n, s) && Find(n, s).value.children == []
    ensures Located(s, Find(n, s).value) in Leaves(n)
    decreases |s|
  {
    var i := ChildIndex(n.children, s[0]).value;
    var c := n.children[i];
    var l := Located(s, Find(n, s).value);
    if |s| == 1 {
      assert Find(c, s[1..]) == Some(c);
      assert [s[0]] == s;
      assert Contributes(c, l);
    } else {
      assert c.children != [];
      LeavesAreComplete(c, s[1..]);
      assert Contributes(c, l);
    }
    LeavesOfMember(n.children, l);
  }

  // ---------------------------------------------------------------------
  // Unlinking

  /** Dropping the first child carrying `d` leaves every other payload's
      lookup as it was. */
  lemma {:induction false} RemoveChildKeepsOthers<T>(x: T, cs: seq<Node<T>>, d: T, e: T)
    requires e != d
    ensures GetChild(Node(x, RemoveChild(cs, d)), e) == GetChild(Node(x, cs), e)
  {
    if cs != [] {
      assert cs == [cs[0]] + cs[1..];
      GetChildCons(x, cs[0], cs[1..], e);
      if cs[0].data != d {
        var r := RemoveChild(cs[1..], d);
        assert RemoveChild(cs, d) == [cs[0]] + r;
        RemoveChildKeepsOthers(x, cs[1..], d, e);
        GetChildCons(x, cs[0], r, e);
      }
    }
  }

  /** Looking up a payload among children: the first child, else the rest. */
  lemma GetChildCons<T>(x: T, c: Node<T>, rest: seq<Node<T>>, e: T)
    ensures GetChild(Node(x, [c] + rest), e) ==
      if c.data == e then Some(c) else GetChild(Node(x, rest), e)
  {
    assert ([c] + rest)[0] == c && ([c] + rest)[1..] == rest;
  }

  /** The children left after the drop are the old ones minus one, in order. */
  lemma RemoveChildSurvivors<T>(cs: seq<Node<T>>, d: T)
    requires ChildIndex(cs, d).Some?
    ensures var i := ChildIndex(cs, d).value; var r := RemoveChild(cs, d);
      |r| == |cs| - 1 && forall k :: 0 <= k < |r| ==> r[k] == cs[if k < i then k else k + 1]
  {
    var i := ChildIndex(cs, d).value;
    var r := RemoveChild(cs, d);
    assert r == cs[..i] + cs[i + 1..];
    forall k | 0 <= k < |r|
      ensures r[k] == cs[if k < i then k else k + 1]
    {
      if k < i {
        assert r[k] == cs[..i][k];
      } else {
        assert r[k] == cs[i + 1..][k - i];
      }
    }
  }

  lemma RemoveChildUnique<T>(n: Node<T>, d: T)
    requires Unique(n)
    ensures Unique(n.(children := RemoveChild(n.children, d)))
  {
    var cs := n.children;
    var r := RemoveChild(cs, d);
    if ChildIndex(cs, d).Some? {
      var i := ChildIndex(cs, d).value;
      RemoveChildSurvivors(cs, d);
      forall a, b | 0 <= a < b < |r|
        ensures r[a].data != r[b].data
      {
        assert r[a] == cs[if a < i then a else a + 1];
        assert r[b] == cs[if b < i then b else b + 1];
      }
      forall k | 0 <= k < |r|
        ensures Unique(r[k])
      {
        assert r[k] == cs[if k < i then k else k + 1];
      }
    }
  }

  lemma RemoveChildRemoves<T>(n: Node<T>, d: T)
    requires Unique(n)
    ensures GetChild(n.(children := RemoveChild(n.children, d)), d).None?
  {
    var cs := n.children;
    var r := RemoveChild(cs, d);
    if ChildIndex(cs, d).Some? {
      var i := ChildIndex(cs, d).value;
      RemoveChildSurvivors(cs, d);
      forall k | 0 <= k < |r|
        ensures r[k].data != d
      {
        var k' := if k < i then k else k + 1;
        assert r[k] == cs[k'] && k' != i;
      }
    }
  }

  lemma {:induction false} DeleteAtUnique<T>(n: Node<T>, s: seq<T>)
    requires Unique(n) && Has(n, s)
    ensures Unique(DeleteAt(n, s))
    decreases |s|
  {
    if |s| == 1 {
      RemoveChildUnique(n, s[0]);
    } else if |s| > 1 {
      var i := ChildIndex(n.children, s[0]).value;
      DeleteAtUnique(n.children[i], s[1..]);
      var r := DeleteAt(n, s);
      assert forall k :: 0 <= k < |r.children| ==> r.children[k].data == n.children[k].data;
    }
  }

  lemma {:induction false} DeleteAtAllBelow<T>(n: Node<T>, s: seq<T>, ok: T -> bool)
    requires AllBelow(n, ok) && Has(n, s)
    ensures AllBelow(DeleteAt(n, s), ok)
    decreases |s|
  {
    if |s| == 1 {
      if ChildIndex(n.children, s[0]).Some? {
        RemoveChildSurvivors(n.children, s[0]);
      }
    } else if |s| > 1 {
      var i := ChildIndex(n.children, s[0]).value;
      DeleteAtAllBelow(n.children[i], s[1..], ok);
    }
  }

  /** After unlinking the node at `s`, exactly the paths that do not pass
      through it are still present: the node and everything below it are
      gone, everything else is untouched. */
  lemma {:induction false} DeleteAtPaths<T>(n: Node<T>, s: seq<T>, q: seq<T>)
    requires Unique(n) && Has(n, s) && s != []
    ensures Has(DeleteAt(n, s), q) <==> Has(n, q) && !(s <= q)
    decreases |s|
  {
    var r := DeleteAt(n, s);
    var i := ChildIndex(n.children, s[0]).value;
    if q != [] {
      var e := q[0];
      if |s| == 1 {
        if e == s[0] {
          RemoveChildRemoves(n, s[0]);
        } else {
          RemoveChildKeepsOthers(n.data, n.children, s[0], e);
          assert s[0] == q[0] ==> s <= q;
        }
      } else {
        var c' := DeleteAt(n.children[i], s[1..]);
        ChildIndexUpdate(n.children, i, c', e);
        if e == s[0] {
          DeleteAtPaths(n.children[i], s[1..], q[1..]);
          assert s <= q <==> s[1..] <= q[1..];
        } else {
          assert !(s <= q);
          var j := ChildIndex(n.children, e);
          if j.Some? {
            assert j.value != i;
          }
        }
      }
    }
  }
}
