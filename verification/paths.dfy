/** POSIX path-string operations: `os.path.split`, `basename`, `join`,
    `os.sep.join`, and the segment splitter the tree uses to index paths. */
module Paths {

  /** The separator, `os.sep` on POSIX. */
  const Sep: char := '/'

  /** A path segment as the tree stores it: non-empty and free of separators. */
  predicate IsSegment(s: string) {
    s != [] && NoSep(s)
  }

  predicate NoSep(s: string) {
    forall k :: 0 <= k < |s| ==> s[k] != Sep
  }

  predicate AllSegments(ss: seq<string>) {
    forall k :: 0 <= k < |ss| ==> IsSegment(ss[k])
  }

  predicate AllSeps(s: string) {
    forall k :: 0 <= k < |s| ==> s[k] == Sep
  }

  predicate EndsWithSep(s: string) {
    s != [] && s[|s| - 1] == Sep
  }

  /** `p.rfind(sep) + 1`: the length of the head that `os.path.split` keeps. */
  function HeadLen(p: string): (i: nat)
    ensures i <= |p|
    ensures 0 < i ==> p[i - 1] == Sep
    ensures forall k :: i <= k < |p| ==> p[k] != Sep
  {
    if p == [] then 0
    else if p[|p| - 1] == Sep then |p|
    else
      HeadLen(p[..|p| - 1])
  }

  /** `s.rstrip(sep)`. */
  function RStrip(s: string): (r: string)
    ensures r <= s
    ensures !EndsWithSep(r)
    ensures AllSeps(s[|r|..])
  {
    if EndsWithSep(s) then RStrip(s[..|s| - 1]) else s
  }

  /** `os.path.split(p)`: the tail after the last separator, and the head
      before it with trailing separators removed unless it is all separators. */
  function Split(p: string): (r: (string, string))
    ensures NoSep(r.1)
    ensures |r.1| <= |p| && r.1 == p[|p| - |r.1|..]
    ensures |r.0| + |r.1| <= |p|
  {
    var i := HeadLen(p);
    var head := p[..i];
    (if head != [] && !AllSeps(head) then RStrip(head) else head, p[i..])
  }

  /** What `os.path.split` returns, stated without its algorithm: the tail
      is the longest separator-free suffix; the head is the rest, kept whole
      when it is all separators, and otherwise cut back to its last
      non-separator character. */
  lemma SplitHeadTail(p: string)
    ensures var (head, tail) := Split(p); var rest := p[..|p| - |tail|];
      && NoSep(tail) && p == rest + tail
      && (rest != [] ==> rest[|rest| - 1] == Sep)
      && head <= rest
      && (AllSeps(rest) ==> head == rest)
      && (!AllSeps(rest) ==> !EndsWithSep(head) && AllSeps(rest[|head|..]))
  {
    var i := HeadLen(p);
    assert p[..|p| - |Split(p).1|] == p[..i];
  }

  /** `basename` is the tail `split` returns. */
  lemma BasenameIsSplitTail(p: string)
    ensures Basename(p) == Split(p).1
  {
  }

  /** `join(a, b)` ends with `b`, and starts with `a` unless `b` is absolute. */
  lemma JoinEnds(a: string, b: string)
    ensures |b| <= |Join(a, b)| && Join(a, b)[|Join(a, b)| - |b|..] == b
    ensures b == [] || b[0] != Sep ==> a <= Join(a, b)
  {
  }

  /** A join ends with the last character of a non-empty name joined on. */
  lemma JoinLast(a: string, b: string)
    requires b != []
    ensures Join(a, b) != [] && Join(a, b)[|Join(a, b)| - 1] == b[|b| - 1]
  {
  }

  /** One step of `join(a, *bs)`. */
  lemma JoinAllCons(a: string, bs: seq<string>)
    requires bs != []
    ensures JoinAll(a, bs) == JoinAll(Join(a, bs[0]), bs[1..])
  {
  }

  /** `sep.join` of one name is that name. */
  lemma SepJoinOne(ss: seq<string>)
    requires |ss| == 1
    ensures SepJoin(ss) == ss[0]
  {
  }

  /** One step of `sep.join` over two or more names. */
  lemma SepJoinCons(ss: seq<string>)
    requires |ss| > 1
    ensures SepJoin(ss) == ss[0] + ([Sep] + SepJoin(ss[1..]))
  {
  }

  /** `os.path.basename(p)`. */
  function Basename(p: string): (r: string)
    ensures NoSep(r) && |r| <= |p| && r == p[|p| - |r|..]
  {
    p[HeadLen(p)..]
  }

  /** `os.path.join(a, b)` for two arguments. */
  function Join(a: string, b: string): (r: string)
  {
    if b != [] && b[0] == Sep then b
    else if a == [] || EndsWithSep(a) then a + b
    else a + [Sep] + b
  }

  /** `os.path.join(a, *bs)`: joins left to right. */
  function JoinAll(a: string, bs: seq<string>): (r: string)
    ensures bs != [] ==> var last := bs[|bs| - 1]; |last| <= |r| && r[|r| - |last|..] == last
    decreases |bs|
  {
    if bs == [] then a
    else
      JoinEnds(a, bs[0]);
      JoinAll(Join(a, bs[0]), bs[1..])
  }

  /** `os.sep.join(ss)`. */
  function SepJoin(ss: seq<string>): (r: string)
    ensures ss != [] ==> ss[0] <= r
    ensures ss != [] ==> var last := ss[|ss| - 1]; |last| <= |r| && r[|r| - |last|..] == last
    decreases |ss|
  {
    if ss == [] then []
    else if |ss| == 1 then ss[0]
    else ss[0] + [Sep] + SepJoin(ss[1..])
  }

  /** `FileNode._get_array_by_path`: split off trailing names until the name
      part comes back empty, collecting them in order. */
  function ArrayByPath(path: string): (r: seq<string>)
    decreases |path|
  {
    var (prefix, name) := Split(path);
    if name == [] then [] else ArrayByPath(prefix) + [name]
  }

  // ---------------------------------------------------------------------
  // An independent description of the segments: `str.split(sep)` with the
  // empty fields dropped.

  /** The index of the first separator in `s`. */
  function FirstSep(s: string): (j: nat)
    requires !NoSep(s)
    ensures j < |s| && s[j] == Sep
    ensures forall k :: 0 <= k < j ==> s[k] != Sep
  {
    if s[0] == Sep then 0 else FirstSep(s[1..]) + 1
  }

  /** `s.split(sep)`: the text between consecutive separators, always at
      least one field. */
  function Fields(s: string): (r: seq<string>)
    ensures |r| >= 1
    decreases |s|
  {
    if NoSep(s) then [s]
    else
      var j := FirstSep(s);
      [s[..j]] + Fields(s[j + 1..])
  }

  /** The fields that are not empty, in order. */
  function NonEmpty(fs: seq<string>): (r: seq<string>)
    ensures forall k :: 0 <= k < |r| ==> r[k] != [] && r[k] in fs
  {
    if fs == [] then []
    else if fs[0] == [] then NonEmpty(fs[1..])
    else [fs[0]] + NonEmpty(fs[1..])
  }

  /** The path's components, or none at all if the path is empty or ends
      with a separator. */
  function Segments(p: string): seq<string> {
    if p == [] || EndsWithSep(p) then [] else NonEmpty(Fields(p))
  }

  // ---------------------------------------------------------------------
  // Lemmas about fields.

  /** The first separator is the one with no separator before it. */
  lemma FirstSepIs(s: string, j: nat)
    requires j < |s| && s[j] == Sep
    requires forall k :: 0 <= k < j ==> s[k] != Sep
    ensures FirstSep(s) == j
  {
  }

  /** Text after a prefix keeps the prefix's first separator. */
  lemma FirstSepOfPrefix(a: string, b: string)
    requires !NoSep(a)
    ensures !NoSep(a + b) && FirstSep(a + b) == FirstSep(a)
  {
    var j := FirstSep(a);
    assert (a + b)[j] == Sep;
    assert forall k :: 0 <= k < j ==> (a + b)[k] == a[k];
    FirstSepIs(a + b, j);
  }

  /** A prefix with no separator ends at the first separator. */
  lemma FirstSepAfterNoSep(a: string, b: string)
    requires NoSep(a)
    ensures !NoSep(a + [Sep] + b) && FirstSep(a + [Sep] + b) == |a|
  {
    var s := a + [Sep] + b;
    assert s[|a|] == Sep;
    assert forall k :: 0 <= k < |a| ==> s[k] == a[k];
    FirstSepIs(s, |a|);
  }

  /** Splitting at a separator concatenates the fields of both sides. */
  lemma {:induction false} FieldsAtSep(a: string, b: string)
    ensures Fields(a + [Sep] + b) == Fields(a) + Fields(b)
    decreases |a|
  {
    var s := a + [Sep] + b;
    if NoSep(a) {
      FirstSepAfterNoSep(a, b);
      FieldsAtFirstSep(s);
      assert s[..|a|] == a;
      assert s[|a| + 1..] == b;
    } else {
      var j := FirstSep(a);
      FieldsAtSepStep(a, b);
      FieldsAtSep(a[j + 1..], b);
      FieldsAtFirstSep(a);
      ConcatAssoc([a[..j]], Fields(a[j + 1..]), Fields(b));
    }
  }

  /** Before the joining separator, the first field of `a` comes first. */
  lemma FieldsAtSepStep(a: string, b: string)
    requires !NoSep(a)
    ensures var j := FirstSep(a);
      Fields(a + [Sep] + b) == [a[..j]] + Fields(a[j + 1..] + [Sep] + b)
  {
    var s := a + [Sep] + b;
    var j := FirstSep(a);
    FirstSepOfPrefix(a, [Sep] + b);
    assert s == a + ([Sep] + b);
    assert FirstSep(s) == j;
    FieldsAtFirstSep(s);
    assert s[..j] == a[..j];
    assert s[j + 1..] == a[j + 1..] + [Sep] + b;
  }

  /** One step of `Fields`: the text before the first separator, then the
      fields of the rest. */
  lemma FieldsAtFirstSep(s: string)
    requires !NoSep(s)
    ensures Fields(s) == [s[..FirstSep(s)]] + Fields(s[FirstSep(s) + 1..])
  {
  }

  lemma {:induction false} NonEmptyConcat(xs: seq<string>, ys: seq<string>)
    ensures NonEmpty(xs + ys) == NonEmpty(xs) + NonEmpty(ys)
  {
    if xs != [] {
      var zs := xs + ys;
      var h, a, b := if xs[0] == [] then [] else [xs[0]], NonEmpty(xs[1..]), NonEmpty(ys);
      assert zs[0] == xs[0] && zs[1..] == xs[1..] + ys;
      assert NonEmpty(zs[1..]) == a + b by {
        NonEmptyConcat(xs[1..], ys);
      }
      assert NonEmpty(zs) == h + (a + b) by {
        NonEmptyStep(zs);
      }
      assert NonEmpty(xs) == h + a by {
        NonEmptyStep(xs);
      }
      ConcatAssoc(h, a, b);
    } else {
      assert xs + ys == ys;
    }
  }

  /** One step of the filter. */
  lemma NonEmptyStep(fs: seq<string>)
    requires fs != []
    ensures NonEmpty(fs) == (if fs[0] == [] then [] else [fs[0]]) + NonEmpty(fs[1..])
  {
  }

  lemma {:induction false} NonEmptyOfSegments(ss: seq<string>)
    requires forall k :: 0 <= k < |ss| ==> ss[k] != []
    ensures NonEmpty(ss) == ss
  {
    if ss != [] {
      NonEmptyOfSegments(ss[1..]);
    }
  }

  lemma {:induction false} AllSepsHaveNoSegments(s: string)
    requires AllSeps(s)
    ensures NonEmpty(Fields(s)) == []
  {
    if s != [] {
      assert s[0] == Sep && FirstSep(s) == 0;
      assert Fields(s) == [[]] + Fields(s[1..]);
      AllSepsHaveNoSegments(s[1..]);
    }
  }

  /** Trailing separators add only empty fields. */
  lemma {:induction false} TrailingSeps(s: string, t: string)
    requires AllSeps(t)
    ensures NonEmpty(Fields(s + t)) == NonEmpty(Fields(s))
    decreases |t|
  {
    if t != [] {
      var t' := t[..|t| - 1];
      TrailingSeps(s, t');
      assert s + t == (s + t') + [Sep] + [];
      FieldsAtSep(s + t', []);
      NonEmptyConcat(Fields(s + t'), [[]]);
    } else {
      assert s + t == s;
    }
  }

  // ---------------------------------------------------------------------
  // The splitter agrees with the independent description.

  /** `_get_array_by_path` yields exactly the non-empty components of the
      path, and nothing when the path is empty or ends with a separator. */
  lemma {:induction false} ArrayByPathIsSegments(p: string)
    ensures ArrayByPath(p) == Segments(p)
    decreases |p|
  {
    var i := HeadLen(p);
    var name := p[i..];
    if p == [] || EndsWithSep(p) {
      assert name == [];
    } else if i == 0 {
      assert name == p;
      assert ArrayByPath(p) == ArrayByPath([]) + [p];
      assert Fields(p) == [p];
      assert NonEmpty([p]) == [p] + NonEmpty([]);
    } else {
      var a := p[..i - 1];
      assert p == a + [Sep] + name;
      SegmentsAtLastSep(a, name);
      var prefix := Split(p).0;
      assert ArrayByPath(p) == ArrayByPath(prefix) + [name];
      HeadSegments(p[..i]);
      if !AllSeps(p[..i]) {
        ArrayByPathIsSegments(prefix);
      }
    }
  }

  /** The last component sits after the last separator. */
  lemma SegmentsAtLastSep(a: string, name: string)
    requires IsSegment(name)
    ensures Segments(a + [Sep] + name) == NonEmpty(Fields(a)) + [name]
  {
    var p := a + [Sep] + name;
    assert p[|p| - 1] == name[|name| - 1];
    assert Segments(p) == NonEmpty(Fields(p));
    FieldsAtSep(a, name);
    FieldsOfNoSep(name);
    NonEmptyConcat(Fields(a), [name]);
    NonEmptyOne(name);
  }

  lemma NonEmptyOne(name: string)
    requires name != []
    ensures NonEmpty([name]) == [name]
  {
    assert NonEmpty([name]) == [name] + NonEmpty([]);
  }

  /** The splitter yields nothing exactly for an empty path or one ending in
      the separator, and otherwise ends with the path's basename. */
  lemma ArrayByPathLast(p: string)
    ensures ArrayByPath(p) == [] <==> p == [] || EndsWithSep(p)
    ensures ArrayByPath(p) != [] ==> ArrayByPath(p)[|ArrayByPath(p)| - 1] == Basename(p)
  {
  }

  /** The head that `os.path.split` works from: a non-empty prefix ending in
      a separator. What it keeps has the components of the head without its
      final separator. */
  lemma HeadSegments(head: string)
    requires EndsWithSep(head)
    ensures AllSeps(head) ==> NonEmpty(Fields(head[..|head| - 1])) == [] && ArrayByPath(head) == []
    ensures !AllSeps(head) ==>
      var h := RStrip(head);
      |h| < |head| && NonEmpty(Fields(head[..|head| - 1])) == Segments(h)
  {
    var a := head[..|head| - 1];
    if AllSeps(head) {
      assert AllSeps(a);
      AllSepsHaveNoSegments(a);
      assert Split(head).1 == [];
    } else {
      var h := RStrip(head);
      assert h != [];
      assert a == h + head[|h|..|head| - 1];
      TrailingSeps(h, head[|h|..|head| - 1]);
    }
  }

  lemma ArrayByPathSegmentsAreProper(p: string)
    ensures AllSegments(ArrayByPath(p))
    decreases |p|
  {
    var (prefix, name) := Split(p);
    if name != [] {
      ArrayByPathSegmentsAreProper(prefix);
    }
  }

  // ---------------------------------------------------------------------
  // Joining and splitting are inverse on proper segments.

  /** A base path to which `Join` appends exactly one segment: empty, not
      ending with a separator, or the file-system root (all separators). */
  predicate Anchored(base: string) {
    !EndsWithSep(base) || AllSeps(base)
  }

  /** `basename(join(b, seg))` gives back the segment. */
  lemma BasenameOfJoin(b: string, seg: string)
    requires IsSegment(seg)
    ensures Basename(Join(b, seg)) == seg
  {
    var p := Join(b, seg);
    var n := |p| - |seg|;
    assert p == p[..n] + seg;
    assert n > 0 ==> p[n - 1] == Sep;
  }

  /** Joining a segment onto an anchored base adds exactly that segment. */
  lemma SegmentsOfJoin(base: string, seg: string)
    requires Anchored(base) && IsSegment(seg)
    ensures Segments(Join(base, seg)) == Segments(base) + [seg]
    ensures Anchored(Join(base, seg))
  {
    var p := Join(base, seg);
    assert p[|p| - 1] == seg[|seg| - 1];
    if base == [] {
      assert p == seg;
      SegmentsOfSegment(seg);
    } else if EndsWithSep(base) {
      var b' := base[..|base| - 1];
      assert p == b' + [Sep] + seg;
      SegmentsAtLastSep(b', seg);
      AllSepsHaveNoSegments(b');
    } else {
      assert p == base + [Sep] + seg;
      SegmentsAtLastSep(base, seg);
    }
  }

  /** A lone segment is its own only component. */
  lemma SegmentsOfSegment(seg: string)
    requires IsSegment(seg)
    ensures Segments(seg) == [seg]
  {
    assert seg[|seg| - 1] != Sep;
    assert Fields(seg) == [seg];
    assert NonEmpty([seg]) == [seg] + NonEmpty([]);
  }

  lemma AllSegmentsTail(segs: seq<string>)
    requires segs != [] && AllSegments(segs)
    ensures IsSegment(segs[0]) && AllSegments(segs[1..])
  {
  }

  /** `os.path.join(base, *segs)` has the base's segments followed by `segs`. */
  lemma {:induction false} SegmentsOfJoinAll(base: string, segs: seq<string>)
    requires Anchored(base) && AllSegments(segs)
    ensures Segments(JoinAll(base, segs)) == Segments(base) + segs
    decreases |segs|
  {
    if segs != [] {
      var b' := Join(base, segs[0]);
      var rest := segs[1..];
      AllSegmentsTail(segs);
      SegmentsOfJoin(base, segs[0]);
      SegmentsOfJoinAll(b', rest);
      ConsAssoc(Segments(base), segs);
    }
  }

  lemma ConcatAssoc(x: seq<string>, y: seq<string>, z: seq<string>)
    ensures x + (y + z) == (x + y) + z
  {
  }

  lemma ConsAssoc(xs: seq<string>, ys: seq<string>)
    requires ys != []
    ensures xs + [ys[0]] + ys[1..] == xs + ys
  {
  }

  lemma {:induction false} FieldsOfSepJoin(segs: seq<string>)
    requires segs != [] && forall k :: 0 <= k < |segs| ==> NoSep(segs[k])
    ensures Fields(SepJoin(segs)) == segs
    decreases |segs|
  {
    if |segs| == 1 {
      FieldsOfNoSep(segs[0]);
    } else {
      var rest := segs[1..];
      SepJoinCons(segs);
      FieldsAfterName(segs[0], SepJoin(rest));
      NoSepTail(segs);
      FieldsOfSepJoin(rest);
      ConsAssoc([], segs);
    }
  }

  /** Fields of `a/b` for a name `a` without separators. */
  lemma FieldsAfterName(a: string, b: string)
    requires NoSep(a)
    ensures Fields(a + ([Sep] + b)) == [a] + Fields(b)
  {
    assert a + ([Sep] + b) == a + [Sep] + b;
    FieldsAtSep(a, b);
    FieldsOfNoSep(a);
  }

  /** The names after the first are free of separators too. */
  lemma NoSepTail(segs: seq<string>)
    requires segs != [] && forall k :: 0 <= k < |segs| ==> NoSep(segs[k])
    ensures forall k :: 0 <= k < |segs[1..]| ==> NoSep(segs[1..][k])
  {
    forall k | 0 <= k < |segs[1..]|
      ensures NoSep(segs[1..][k])
    {
      assert segs[1..][k] == segs[k + 1];
    }
  }

  /** Text without a separator is a single field. */
  lemma FieldsOfNoSep(s: string)
    requires NoSep(s)
    ensures Fields(s) == [s]
  {
  }

  lemma {:induction false} SepJoinEnds(segs: seq<string>)
    requires segs != [] && IsSegment(segs[|segs| - 1])
    ensures !EndsWithSep(SepJoin(segs)) && SepJoin(segs) != []
    decreases |segs|
  {
    if |segs| > 1 {
      SepJoinEnds(segs[1..]);
    }
  }

  /** `os.sep.join` of proper segments splits back into the same segments. */
  lemma SepJoinRoundTrip(segs: seq<string>)
    requires segs != [] && AllSegments(segs)
    ensures ArrayByPath(SepJoin(segs)) == segs
  {
    SepJoinEnds(segs);
    FieldsOfSepJoin(segs);
    NonEmptyOfSegments(segs);
    ArrayByPathIsSegments(SepJoin(segs));
  }
}
