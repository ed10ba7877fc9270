/**
 * Category paths and the tree the plugin derives from them: the ancestor
 * chain of a path, the node set of a list of categories, the shape every
 * built tree has, and the default fold value a newly seen node receives.
 */
module CategoryTree {
  import opened Text

  /** Path -> the paths one segment below it. */
  type Tree = map<string, seq<string>>

  /** `a` is `c` itself, or `c` cut just before one of its '/'. */
  predicate CutPrefix(c: string, a: string)
  {
    a == c || (|a| < |c| && c[..|a|] == a && c[|a|] == '/')
  }

  /** `x` is `p` followed by '/' and one segment without '/'. */
  predicate IsChildPath(p: string, x: string)
  {
    |p| < |x| && x[..|p|] == p && x[|p|] == '/' && '/' !in x[|p| + 1..]
  }

  /** A path that contains '/'. */
  predicate HasParent(x: string)
  {
    LastIndexOf(x, '/') >= 0
  }

  /** The path with its last "/segment" cut off. */
  function Parent(x: string): (p: string)
    requires HasParent(x)
    ensures IsChildPath(p, x)
  {
    x[..LastIndexOf(x, '/')]
  }

  /**
   * The paths the ancestor walk visits: `c`, then the path cut at its last
   * '/', and so on until no '/' is left.
   */
  function Chain(c: string): (r: seq<string>)
    ensures r != [] && r[0] == c
    decreases |c|
  {
    var k := LastIndexOf(c, '/');
    if k < 0 then [c] else [c] + Chain(c[..k])
  }

  ghost function ChainSet(c: string): set<string>
  {
    set a | a in Chain(c)
  }

  /** The ancestor walk visits exactly the cut prefixes of `c`. */
  lemma {:induction false} ChainIsCutPrefixes(c: string, a: string)
    ensures a in Chain(c) <==> CutPrefix(c, a)
    decreases |c|
  {
    var k := LastIndexOf(c, '/');
    if k >= 0 {
      var q := c[..k];
      ChainIsCutPrefixes(q, a);
      if a in Chain(c) && a != c {
        assert a in Chain(q);
        if a != q {
          assert c[..|a|] == q[..|a|];
        }
      }
      if CutPrefix(c, a) && a != c {
        assert |a| <= k;
        if |a| < k {
          assert q[..|a|] == a;
          assert CutPrefix(q, a);
        } else {
          assert a == q;
        }
      }
    }
  }

  /** A child path has exactly one parent: the path it extends. */
  lemma ChildPathParent(p: string, x: string)
    requires IsChildPath(p, x)
    ensures HasParent(x) && Parent(x) == p
  {
    forall j | |p| < j < |x| ensures x[j] != '/' {
      assert x[j] == x[|p| + 1..][j - |p| - 1];
    }
    LastIndexOfAt(x, '/', |p|);
  }

  /** Appending '/' and a segment without '/' makes a child path. */
  lemma ChildOfJoin(p: string, seg: string)
    requires '/' !in seg
    ensures IsChildPath(p, p + ['/'] + seg)
  {
    var x := p + ['/'] + seg;
    assert x[..|p|] == p;
    assert x[|p| + 1..] == seg;
  }

  /** The path the build loop has built after `i + 1` parts: `Join(parts[..i + 1], '/')`. */
  function PathAt(parts: seq<string>, i: nat): string
    requires i < |parts|
  {
    Join(parts[..i + 1], '/')
  }

  /** The paths built for the first `i` parts. */
  ghost function PathsUpTo(parts: seq<string>, i: nat): set<string>
    requires i <= |parts|
  {
    if i == 0 then {} else PathsUpTo(parts, i - 1) + {PathAt(parts, i - 1)}
  }

  /** Each built path extends the previous one by '/' and the next part. */
  lemma PathAtStep(parts: seq<string>, i: nat)
    requires 0 < i < |parts|
    ensures PathAt(parts, i) == PathAt(parts, i - 1) + ['/'] + parts[i]
  {
    assert parts[..i + 1][..i] == parts[..i];
  }

  /** The last path the build loop builds is the category itself. */
  lemma LastPathIsWhole(c: string)
    ensures PathAt(Split(c, '/'), |Split(c, '/')| - 1) == c
  {
    var s := Split(c, '/');
    JoinSplit(c, '/');
    assert s[..|s|] == s;
  }

  /** The build loop visits exactly the ancestor chain of the category. */
  lemma {:induction false} SplitPathsAreChain(c: string)
    ensures PathsUpTo(Split(c, '/'), |Split(c, '/')|) == ChainSet(c)
    decreases |c|
  {
    var s := Split(c, '/');
    var k := LastIndexOf(c, '/');
    LastPathIsWhole(c);
    if k >= 0 {
      var q := c[..k];
      var p := Split(q, '/');
      assert s == p + [c[k + 1..]];
      SplitPathsAreChain(q);
      PrefixPaths(p, s, |p|);
      assert PathsUpTo(s, |s|) == PathsUpTo(p, |p|) + {c};
      ChainSetStep(c);
    }
  }

  /** One step of the ancestor walk adds the path itself to its parent's chain. */
  lemma ChainSetStep(c: string)
    requires LastIndexOf(c, '/') >= 0
    ensures ChainSet(c) == {c} + ChainSet(c[..LastIndexOf(c, '/')])
  {
    assert Chain(c) == [c] + Chain(c[..LastIndexOf(c, '/')]);
  }

  /** Paths built from a prefix of the parts are the same in the longer list. */
  lemma {:induction false} PrefixPaths(p: seq<string>, s: seq<string>, i: nat)
    requires i <= |p| < |s| && p == s[..|p|]
    ensures PathsUpTo(p, i) == PathsUpTo(s, i)
  {
    if i > 0 {
      PrefixPaths(p, s, i - 1);
      assert p[..i] == s[..i];
    }
  }

  /** All nodes the build creates for categories `cats`. */
  ghost function NodeSet(cats: seq<string>): set<string>
  {
    if cats == [] then {} else NodeSet(cats[..|cats| - 1]) + ChainSet(cats[|cats| - 1])
  }

  /** Every cut prefix of every category is a node: the tree is prefix closed. */
  lemma {:induction false} NodeSetPrefixClosed(cats: seq<string>, i: nat, a: string)
    requires i < |cats| && CutPrefix(cats[i], a)
    ensures a in NodeSet(cats)
  {
    var n := |cats| - 1;
    if i == n {
      ChainIsCutPrefixes(cats[i], a);
    } else {
      assert cats[..n][i] == cats[i];
      NodeSetPrefixClosed(cats[..n], i, a);
    }
  }

  /** Every node is a cut prefix of some category. */
  lemma {:induction false} NodeSetOnlyPrefixes(cats: seq<string>, a: string)
    requires a in NodeSet(cats)
    ensures exists i :: 0 <= i < |cats| && CutPrefix(cats[i], a)
  {
    var n := |cats| - 1;
    if a in NodeSet(cats[..n]) {
      NodeSetOnlyPrefixes(cats[..n], a);
      var i :| 0 <= i < n && CutPrefix(cats[..n][i], a);
      assert cats[i] == cats[..n][i];
    } else {
      ChainIsCutPrefixes(cats[n], a);
    }
  }

  /**
   * The fold value the build gives node `k` when it was missing: closed when
   * the first category that brings `k` in is `k` itself, open when `k` first
   * appears as an intermediate prefix of a longer category.
   */
  ghost function DefaultOpen(cats: seq<string>, k: string): bool
    requires k in NodeSet(cats)
    decreases |cats|
  {
    var n := |cats| - 1;
    if k in NodeSet(cats[..n]) then DefaultOpen(cats[..n], k) else k != cats[n]
  }

  /**
   * The default of a new node is decided by the first category whose
   * ancestor chain holds it: closed when that category is the node itself,
   * open otherwise.
   */
  lemma {:induction false} DefaultOpenByFirstBringer(cats: seq<string>, k: string)
    requires k in NodeSet(cats)
    ensures exists j :: FirstBringer(cats, k, j) && (DefaultOpen(cats, k) <==> k != cats[j])
    decreases |cats|
  {
    var n := |cats| - 1;
    if k in NodeSet(cats[..n]) {
      DefaultOpenByFirstBringer(cats[..n], k);
      var j :| FirstBringer(cats[..n], k, j) && (DefaultOpen(cats[..n], k) <==> k != cats[..n][j]);
      assert FirstBringer(cats, k, j);
    } else {
      forall i | 0 <= i < n ensures k in ChainSet(cats[i]) ==> k in NodeSet(cats[..n]) {
        assert cats[..n][i] == cats[i];
        ChainInNodeSet(cats[..n], i, k);
      }
      assert FirstBringer(cats, k, n);
    }
  }

  /** `cats[j]` is the first category whose ancestor chain holds `k`. */
  ghost predicate FirstBringer(cats: seq<string>, k: string, j: int)
  {
    && 0 <= j < |cats| && k in ChainSet(cats[j])
    && forall i :: 0 <= i < j ==> k !in ChainSet(cats[i])
  }

  /** The chain of every category is part of the node set. */
  lemma ChainInNodeSet(cats: seq<string>, i: nat, k: string)
    requires i < |cats|
    ensures k in ChainSet(cats[i]) ==> k in NodeSet(cats)
  {
    if k in ChainSet(cats[i]) {
      ChainIsCutPrefixes(cats[i], k);
      NodeSetPrefixClosed(cats, i, k);
    }
  }

  /** A node that is not itself a category always defaults to open. */
  lemma {:induction false} IntermediateDefaultsOpen(cats: seq<string>, k: string)
    requires k in NodeSet(cats) && k !in cats
    ensures DefaultOpen(cats, k)
    decreases |cats|
  {
    var n := |cats| - 1;
    if k in NodeSet(cats[..n]) {
      assert k !in cats[..n];
      IntermediateDefaultsOpen(cats[..n], k);
    }
  }

  /** A category not below any earlier category defaults to closed. */
  lemma {:induction false} FirstFullCategoryDefaultsClosed(cats: seq<string>, j: nat)
    requires j < |cats| && cats[j] !in NodeSet(cats[..j])
    ensures cats[j] in NodeSet(cats)
    ensures !DefaultOpen(cats, cats[j])
    decreases |cats|
  {
    var n := |cats| - 1;
    NodeSetPrefixClosed(cats, j, cats[j]);
    if j < n {
      assert cats[..n][..j] == cats[..j];
      assert cats[..n][j] == cats[j];
      FirstFullCategoryDefaultsClosed(cats[..n], j);
    } else {
      assert cats[..n] == cats[..j];
    }
  }

  /**
   * The shape of a built tree: children are one-segment extensions of their
   * parent and are nodes themselves, nothing hangs under "", no child list
   * repeats, every node with a '/' has its parent as a node, and sits in the
   * parent's child list unless the parent is "".
   */
  ghost predicate TreeInv(t: Tree)
  {
    ChildrenOk(t) && ListsDistinct(t) && (forall x :: Linked(t, x))
  }

  /** Every child is a node one segment below a non-empty parent. */
  ghost predicate ChildrenOk(t: Tree)
  {
    forall p :: p in t ==> forall x :: x in t[p] ==> p != "" && IsChildPath(p, x) && x in t
  }

  ghost predicate ListsDistinct(t: Tree)
  {
    forall p :: p in t ==> NoDuplicates(t[p])
  }

  /** Node `x`, when it has a '/', has its parent as a node and is listed there unless the parent is "". */
  ghost predicate Linked(t: Tree, x: string)
  {
    x in t && HasParent(x) ==> Parent(x) in t && (Parent(x) != "" ==> x in t[Parent(x)])
  }

  /**
   * Two built trees over the same nodes have the same child sets: rebuilding
   * from the same categories changes neither nodes nor children.
   */
  lemma TreeChildrenDetermined(t1: Tree, t2: Tree, p: string, x: string)
    requires TreeInv(t1) && TreeInv(t2) && t1.Keys == t2.Keys && p in t1
    ensures x in t1[p] <==> x in t2[p]
  {
    if x in t1[p] {
      ChildPathParent(p, x);
      assert Linked(t2, x);
    }
    if x in t2[p] {
      ChildPathParent(p, x);
      assert Linked(t1, x);
    }
  }

  /** Two trees with the same nodes and the same child list members. */
  ghost predicate SameChildren(t1: Tree, t2: Tree)
  {
    t1.Keys == t2.Keys && forall p, x :: p in t1 && x in t1[p] <==> p in t2 && x in t2[p]
  }

  /** A well-formed tree is fixed, up to the order of its child lists, by its nodes. */
  lemma TreeDeterminedByNodes(t1: Tree, t2: Tree)
    requires TreeInv(t1) && TreeInv(t2) && t1.Keys == t2.Keys
    ensures SameChildren(t1, t2)
  {
    forall p, x | p in t1 ensures x in t1[p] <==> x in t2[p] {
      TreeChildrenDetermined(t1, t2, p, x);
    }
  }

  /** Cut prefixes compose: a cut prefix of a cut prefix is a cut prefix. */
  lemma CutPrefixTransitive(d: string, x: string, c: string)
    requires CutPrefix(d, x) && CutPrefix(x, c)
    ensures CutPrefix(d, c)
  {
    if x != d && c != x {
      assert d[..|c|] == x[..|c|];
    }
  }

  /** The cut prefixes of one path are ordered by length. */
  lemma CutPrefixLinear(d: string, a: string, b: string)
    requires CutPrefix(d, a) && CutPrefix(d, b) && |b| <= |a|
    ensures CutPrefix(a, b)
  {
    if a != d && b != a {
      assert |b| < |a|;
      assert a[..|b|] == d[..|b|];
    }
  }

  /** Nothing lies strictly between a path and its child. */
  lemma ChildNothingBetween(c: string, x: string, a: string)
    requires IsChildPath(c, x) && CutPrefix(x, a) && CutPrefix(a, c)
    ensures a == c || a == x
  {
  }

  /** A child is one level deeper than its parent. */
  lemma ChildChainLength(c: string, x: string)
    requires IsChildPath(c, x)
    ensures CutPrefix(x, c)
    ensures |Chain(x)| == |Chain(c)| + 1
  {
    ChildPathParent(c, x);
  }

  /** A path has one root: any two of its cut prefixes without '/' coincide. */
  lemma OneRoot(d: string, r1: string, r2: string)
    requires CutPrefix(d, r1) && CutPrefix(d, r2) && '/' !in r1 && '/' !in r2
    ensures r1 == r2
  {
    if |r2| <= |r1| {
      CutPrefixLinear(d, r1, r2);
    } else {
      CutPrefixLinear(d, r2, r1);
    }
  }

  /**
   * The fold default of a path depends on the order the categories come in:
   * "A" is a full category closed by default when it comes first, but an
   * intermediate prefix open by default when "A/B" comes first.
   */
  lemma DefaultDependsOnOrder()
    ensures "A" in NodeSet(["A", "A/B"]) && !DefaultOpen(["A", "A/B"], "A")
    ensures "A" in NodeSet(["A/B", "A"]) && DefaultOpen(["A/B", "A"], "A")
  {
    var ab: seq<string> := ["A", "A/B"];
    var ba: seq<string> := ["A/B", "A"];
    var a: seq<string> := ["A"];
    var b: seq<string> := ["A/B"];
    assert ab[..1] == a && ba[..1] == b && a[..0] == [] && b[..0] == [];
    NodeSetPrefixClosed(["A"], 0, "A");
    NodeSetPrefixClosed(["A/B"], 0, "A");
    NodeSetPrefixClosed(ab, 0, "A");
    NodeSetPrefixClosed(ba, 1, "A");
  }
}
