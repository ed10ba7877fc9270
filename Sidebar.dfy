/**
 * The sidebar walk of the wiki window: which rows it shows, in which order
 * and at which indentation. Drawing itself is left to the GUI; the walk is
 * a function from the tree, the fold state and the pages to the rows.
 */
module Sidebar {
  import opened Wrappers
  import opened Text
  import opened Ordering
  import opened CategoryTree
  import opened Registry

  /** One row of the sidebar. */
  datatype Row =
    | Header(path: string, title: string, open: bool, indent: nat)   // a fold toggle
    | PageButton(page: nat, indent: nat)                             // a page button; `page` is the page's identity
    | NotInitialised                                                 // the notice shown before the first build

  /** The fold value the walk uses: an unseen category reads as closed. */
  predicate IsOpen(f: map<string, bool>, c: string)
    ensures c !in f ==> !IsOpen(f, c)
  {
    c in f && f[c]
  }

  /** Some listing of a set: the unspecified order of a dictionary's keys. */
  ghost function KeyList(s: set<string>): (r: seq<string>)
    ensures NoDuplicates(r)
    ensures forall k :: k in r <==> k in s
  {
    if s == {} then []
    else
      var k :| k in s;
      [k] + KeyList(s - {k})
  }

  lemma {:induction false} NoDuplicatesCount(s: seq<string>, x: string)
    requires NoDuplicates(s)
    ensures multiset(s)[x] <= 1
  {
    if s != [] {
      assert s == [s[0]] + s[1..];
      NoDuplicatesCount(s[1..], x);
    }
  }

  /** A permutation of a sequence without duplicates has none either. */
  lemma PermutationNoDuplicates(s: seq<string>, t: seq<string>)
    requires NoDuplicates(t) && multiset(s) == multiset(t)
    ensures NoDuplicates(s)
  {
    forall i, j | 0 <= i < j < |s| ensures s[i] != s[j] {
      if s[i] == s[j] {
        assert s == s[..j] + s[j..];
        assert s[i] in multiset(s[..j]);
        assert s[j] in multiset(s[j..]);
        NoDuplicatesCount(t, s[i]);
        assert false;
      }
    }
  }

  /** The root categories: the tree's keys without '/', sorted, each once. */
  ghost function Roots(t: Tree): (r: seq<string>)
    ensures Sorted(r) && NoDuplicates(r)
    ensures forall k :: k in r <==> k in t && '/' !in k
  {
    var roots := set k | k in t && '/' !in k;
    var ks := KeyList(roots);
    var r := SortSeq(ks);
    assert forall k :: k in roots <==> k in t && '/' !in k;
    PermutationNoDuplicates(r, ks);
    assert forall k :: k in r <==> k in multiset(ks);
    r
  }

  /** An upper bound on the lengths of a set of paths. */
  ghost function MaxLen(s: set<string>): (m: nat)
    ensures forall x :: x in s ==> |x| <= m
  {
    if s == {} then 0
    else
      var x :| x in s;
      var m := MaxLen(s - {x});
      if |x| > m then |x| else m
  }

  /** The measure the walk descends on: children are longer than their parent. */
  ghost function Rank(t: Tree, c: string): nat
  {
    if c in t then MaxLen(t.Keys) - |c| + 1 else 0
  }

  ghost predicate ChildrenLonger(t: Tree)
  {
    forall p, x :: p in t && x in t[p] ==> |p| < |x|
  }

  /**
   * A well-formed tree satisfies what the walk needs to terminate. The walk
   * lemmas still require `ChildrenLonger` beside `TreeInv`, because the walk
   * functions in their contracts need it, and stating it keeps those proofs cheap.
   */
  lemma TreeInvChildrenLonger(t: Tree)
    requires TreeInv(t)
    ensures ChildrenLonger(t)
  {
  }

  /** The child list of `c`, sorted (`OrderBy(c => c)`); none when `c` is not a node. */
  ghost function SortedChildren(t: Tree, c: string): (r: seq<string>)
    ensures Sorted(r)
    ensures c in t ==> multiset(r) == multiset(t[c])
    ensures forall x :: x in r <==> c in t && x in t[c]
  {
    if c in t then
      var r := SortSeq(t[c]);
      assert forall x :: x in r <==> x in multiset(t[c]);
      r
    else []
  }

  /** In a built tree the sorted child list names each child once. */
  lemma ChildrenListedOnce(t: Tree, c: string)
    requires TreeInv(t) && c in t
    ensures NoDuplicates(SortedChildren(t, c))
  {
    PermutationNoDuplicates(SortedChildren(t, c), t[c]);
  }

  /** One button per page of the category, at the given indentation. */
  function PageRows(ids: seq<nat>, indent: nat): (r: seq<Row>)
    ensures |r| == |ids|
    ensures forall i :: 0 <= i < |ids| ==> r[i] == PageButton(ids[i], indent)
  {
    if ids == [] then [] else [PageButton(ids[0], indent)] + PageRows(ids[1..], indent)
  }

  /**
   * The rows of one category: its header; then, when open, its own pages and
   * the rows of its children in sorted order, one level deeper.
   */
  ghost function DrawCategory(t: Tree, f: map<string, bool>, pages: seq<PageInfo>, c: string, indent: nat): (r: seq<Row>)
    requires ChildrenLonger(t)
    ensures r != [] && r[0] == Header(c, LastSegment(c, '/'), IsOpen(f, c), indent)
    ensures !IsOpen(f, c) ==> |r| == 1
    decreases Rank(t, c), 1
  {
    var open := IsOpen(f, c);
    var header := Header(c, LastSegment(c, '/'), open, indent);
    if open then
      var own := PageRows(PagesOf(pages, c), indent + 1);
      [header] + own + DrawChildren(t, f, pages, c, SortedChildren(t, c), indent + 1)
    else [header]
  }

  /** The rows of the categories `kids`, all children of `parent`, one after the other. */
  ghost function DrawChildren(t: Tree, f: map<string, bool>, pages: seq<PageInfo>, parent: string, kids: seq<string>, indent: nat): (r: seq<Row>)
    requires ChildrenLonger(t)
    requires forall x :: x in kids ==> parent in t && x in t[parent]
    ensures |r| >= |kids|
    decreases Rank(t, parent), 0, |kids|
  {
    if kids == [] then []
    else
      assert kids[0] in kids;
      assert parent in t && kids[0] in t[parent] && |parent| < |kids[0]|;
      assert Rank(t, kids[0]) < Rank(t, parent);
      DrawCategory(t, f, pages, kids[0], indent) + DrawChildren(t, f, pages, parent, kids[1..], indent)
  }

  /** The rows of the root categories, at indentation 0. */
  ghost function DrawRoots(t: Tree, f: map<string, bool>, pages: seq<PageInfo>, roots: seq<string>): (r: seq<Row>)
    requires ChildrenLonger(t)
    ensures |r| >= |roots|
  {
    if roots == [] then []
    else DrawCategory(t, f, pages, roots[0], 0) + DrawRoots(t, f, pages, roots[1..])
  }

  /** The whole sidebar: a notice before the first build, else the roots' rows. */
  ghost function DrawSidebar(tree: Option<Tree>, f: map<string, bool>, pages: seq<PageInfo>): (r: seq<Row>)
    requires tree.Some? ==> ChildrenLonger(tree.value)
    ensures tree.None? ==> r == [NotInitialised]
    ensures tree.Some? ==> |r| >= |Roots(tree.value)|
  {
    match tree
    case None => [NotInitialised]
    case Some(t) => DrawRoots(t, f, pages, Roots(t))
  }

  /** Every category between `c` (included) and `d` (excluded) is open. */
  ghost predicate OpenBetween(f: map<string, bool>, c: string, d: string)
  {
    forall a :: CutPrefix(d, a) && CutPrefix(a, c) && a != d ==> IsOpen(f, a)
  }

  /**
   * What a row of the walk started at `c` with indentation `indent` shows:
   * a header for a node `d` at or below `c`, or a button for a page of an
   * open such node; every category on the way from `c` is open, the
   * indentation grows by one per level, and nothing is reached below "".
   */
  ghost predicate RowUnder(t: Tree, pages: seq<PageInfo>, f: map<string, bool>, row: Row, c: string, indent: nat)
  {
    match row
    case Header(d, title, open, ind) =>
      && d in t && CutPrefix(d, c) && (d != c ==> c != "")
      && title == LastSegment(d, '/') && open == IsOpen(f, d)
      && OpenBetween(f, c, d)
      && ind == indent + |Chain(d)| - |Chain(c)|
    case PageButton(id, ind) =>
      && id < |pages| && pages[id].category in t
      && CutPrefix(pages[id].category, c) && (pages[id].category != c ==> c != "")
      && IsOpen(f, pages[id].category) && OpenBetween(f, c, pages[id].category)
      && ind == indent + |Chain(pages[id].category)| - |Chain(c)| + 1
    case NotInitialised => false
  }

  /** A row of a child's walk is a row of the parent's walk when the parent is open. */
  lemma RowUnderParent(t: Tree, pages: seq<PageInfo>, f: map<string, bool>, row: Row, c: string, x: string, indent: nat)
    requires TreeInv(t) && c in t && x in t[c] && IsOpen(f, c)
    requires RowUnder(t, pages, f, row, x, indent + 1)
    ensures RowUnder(t, pages, f, row, c, indent)
  {
    assert IsChildPath(c, x) && c != "";
    ChildChainLength(c, x);
    var d := if row.Header? then row.path else pages[row.page].category;
    CutPrefixTransitive(d, x, c);
    forall a | CutPrefix(d, a) && CutPrefix(a, c) && a != d ensures IsOpen(f, a) {
      if |a| >= |x| {
        CutPrefixLinear(d, a, x);
      } else {
        CutPrefixLinear(d, x, a);
        ChildNothingBetween(c, x, a);
      }
    }
  }

  /** A category's own header lies under it. */
  lemma HeaderRowUnder(t: Tree, pages: seq<PageInfo>, f: map<string, bool>, c: string, indent: nat)
    requires c in t
    ensures RowUnder(t, pages, f, Header(c, LastSegment(c, '/'), IsOpen(f, c), indent), c, indent)
  {
  }

  /** The buttons of an open category's own pages lie under it. */
  lemma PageRowUnder(t: Tree, pages: seq<PageInfo>, f: map<string, bool>, c: string, indent: nat, row: Row)
    requires c in t && IsOpen(f, c) && row in PageRows(PagesOf(pages, c), indent + 1)
    ensures RowUnder(t, pages, f, row, c, indent)
  {
    var ids := PagesOf(pages, c);
    var i :| 0 <= i < |ids| && PageRows(ids, indent + 1)[i] == row;
    assert row == PageButton(ids[i], indent + 1);
  }

  /** Where a row of a category's walk comes from. */
  lemma DrawCategoryParts(t: Tree, f: map<string, bool>, pages: seq<PageInfo>, c: string, indent: nat, row: Row)
    requires ChildrenLonger(t)
    requires row in DrawCategory(t, f, pages, c, indent)
    ensures || row == Header(c, LastSegment(c, '/'), IsOpen(f, c), indent)
            || (IsOpen(f, c) && row in PageRows(PagesOf(pages, c), indent + 1))
            || (IsOpen(f, c) && row in DrawChildren(t, f, pages, c, SortedChildren(t, c), indent + 1))
  {
  }

  lemma {:induction false} DrawCategoryRows(t: Tree, f: map<string, bool>, pages: seq<PageInfo>, c: string, indent: nat, row: Row)
    requires TreeInv(t) && ChildrenLonger(t) && c in t
    requires row in DrawCategory(t, f, pages, c, indent)
    ensures RowUnder(t, pages, f, row, c, indent)
    decreases Rank(t, c), 1
  {
    DrawCategoryParts(t, f, pages, c, indent, row);
    if row == Header(c, LastSegment(c, '/'), IsOpen(f, c), indent) {
      HeaderRowUnder(t, pages, f, c, indent);
    } else if row in PageRows(PagesOf(pages, c), indent + 1) {
      PageRowUnder(t, pages, f, c, indent, row);
    } else {
      DrawChildrenRows(t, f, pages, c, SortedChildren(t, c), indent + 1, row);
      var x :| x in t[c] && RowUnder(t, pages, f, row, x, indent + 1);
      RowUnderParent(t, pages, f, row, c, x, indent);
    }
  }

  lemma {:induction false} DrawChildrenRows(t: Tree, f: map<string, bool>, pages: seq<PageInfo>, parent: string, kids: seq<string>, indent: nat, row: Row)
    requires TreeInv(t) && ChildrenLonger(t)
    requires forall x :: x in kids ==> parent in t && x in t[parent]
    requires row in DrawChildren(t, f, pages, parent, kids, indent)
    ensures parent in t && exists x :: x in t[parent] && RowUnder(t, pages, f, row, x, indent)
    decreases Rank(t, parent), 0, |kids|
  {
    assert kids[0] in kids;
    assert Rank(t, kids[0]) < Rank(t, parent);
    assert kids[0] in t;
    if row in DrawCategory(t, f, pages, kids[0], indent) {
      DrawCategoryRows(t, f, pages, kids[0], indent, row);
    } else {
      DrawChildrenRows(t, f, pages, parent, kids[1..], indent, row);
    }
  }

  lemma {:induction false} DrawRootsRows(t: Tree, f: map<string, bool>, pages: seq<PageInfo>, roots: seq<string>, row: Row)
    requires TreeInv(t) && ChildrenLonger(t) && forall r :: r in roots ==> r in t
    requires row in DrawRoots(t, f, pages, roots)
    ensures exists r :: r in roots && RowUnder(t, pages, f, row, r, 0)
  {
    if row in DrawCategory(t, f, pages, roots[0], 0) {
      DrawCategoryRows(t, f, pages, roots[0], 0, row);
    } else {
      DrawRootsRows(t, f, pages, roots[1..], row);
      var r :| r in roots[1..] && RowUnder(t, pages, f, row, r, 0);
    }
  }

  /**
   * Every row of a built sidebar lies under a root category (a node without
   * '/'), every category between that root and the row is open, and the
   * indentation is the row's depth below its root.
   */
  lemma SidebarRows(t: Tree, f: map<string, bool>, pages: seq<PageInfo>, row: Row)
    requires TreeInv(t) && ChildrenLonger(t)
    requires row in DrawSidebar(Some(t), f, pages)
    ensures exists r :: r in t && '/' !in r && RowUnder(t, pages, f, row, r, 0)
  {
    DrawRootsRows(t, f, pages, Roots(t), row);
  }

  /** A root a path that starts with '/' descends from is "". */
  lemma RootOfPath(d: string, r: string)
    requires CutPrefix(d, r) && '/' !in r
    ensures |d| > 0 && d[0] == '/' ==> r == ""
  {
    assert r != "" ==> r[0] == d[0] && r[0] in r;
  }

  /** The category a header or page-button row belongs to. */
  ghost function RowCategory(pages: seq<PageInfo>, row: Row): string
    requires row.Header? || (row.PageButton? && row.page < |pages|)
  {
    if row.Header? then row.path else pages[row.page].category
  }

  lemma RowUnderCategory(t: Tree, pages: seq<PageInfo>, f: map<string, bool>, row: Row, c: string, indent: nat, a: string)
    requires RowUnder(t, pages, f, row, c, indent)
    ensures row.Header? || (row.PageButton? && row.page < |pages|)
    ensures RowCategory(pages, row) in t
    ensures CutPrefix(RowCategory(pages, row), c)
    ensures RowCategory(pages, row) != c ==> c != ""
    ensures OpenBetween(f, c, RowCategory(pages, row))
    ensures row.PageButton? ==> IsOpen(f, RowCategory(pages, row))
    ensures '/' !in c && CutPrefix(RowCategory(pages, row), a) && a != RowCategory(pages, row) ==> IsOpen(f, a)
  {
    if '/' !in c {
      RootAncestorsOpen(f, RowCategory(pages, row), c, a);
    }
  }

  /** A path that starts with '/', such as "/B". */
  predicate LeadingSlash(d: string)
  {
    |d| > 0 && d[0] == '/'
  }

  /** Every category strictly above `d` (a proper cut prefix of it) is open. */
  ghost predicate AncestorsOpen(f: map<string, bool>, d: string)
  {
    forall a :: CutPrefix(d, a) && a != d ==> IsOpen(f, a)
  }

  /** A path that starts with '/' is never shown, nor are its pages. */
  lemma LeadingSlashNeverShown(t: Tree, f: map<string, bool>, pages: seq<PageInfo>, row: Row)
    requires TreeInv(t) && ChildrenLonger(t)
    requires row in DrawSidebar(Some(t), f, pages)
    ensures row.Header? || (row.PageButton? && row.page < |pages|)
    ensures !LeadingSlash(RowCategory(pages, row))
  {
    SidebarRows(t, f, pages, row);
    var r :| r in t && '/' !in r && RowUnder(t, pages, f, row, r, 0);
    RootedRowNoLeadingSlash(t, pages, f, row, r);
  }

  /** A row under a root category does not belong to a path that starts with '/'. */
  lemma RootedRowNoLeadingSlash(t: Tree, pages: seq<PageInfo>, f: map<string, bool>, row: Row, r: string)
    requires '/' !in r && RowUnder(t, pages, f, row, r, 0)
    ensures row.Header? || (row.PageButton? && row.page < |pages|)
    ensures !LeadingSlash(RowCategory(pages, row))
  {
    RowUnderCategory(t, pages, f, row, r, 0, "");
    RootOfPath(RowCategory(pages, row), r);
  }

  /** Below a root, every proper cut prefix of a category is open when the way down is. */
  lemma RootAncestorsOpen(f: map<string, bool>, d: string, r: string, a: string)
    requires '/' !in r && CutPrefix(d, r) && OpenBetween(f, r, d)
    ensures CutPrefix(d, a) && a != d ==> IsOpen(f, a)
  {
    if CutPrefix(d, a) && a != d {
      if |r| <= |a| {
        CutPrefixLinear(d, a, r);
      } else {
        CutPrefixLinear(d, r, a);
        OneRoot(d, r, a);
      }
    }
  }

  /**
   * The draw walk meets only tree nodes, and shows nothing below a closed
   * category: every proper cut prefix of a row's category is open, and so
   * is the category of a page button.
   */
  lemma RowAncestorsOpen(t: Tree, f: map<string, bool>, pages: seq<PageInfo>, row: Row, a: string)
    requires TreeInv(t) && ChildrenLonger(t)
    requires row in DrawSidebar(Some(t), f, pages)
    ensures row.Header? || (row.PageButton? && row.page < |pages|)
    ensures RowCategory(pages, row) in t
    ensures row.PageButton? ==> IsOpen(f, RowCategory(pages, row))
    ensures CutPrefix(RowCategory(pages, row), a) && a != RowCategory(pages, row) ==> IsOpen(f, a)
  {
    SidebarRows(t, f, pages, row);
    var r :| r in t && '/' !in r && RowUnder(t, pages, f, row, r, 0);
    RowUnderCategory(t, pages, f, row, r, 0, a);
  }

  /** With the categories "A", "A/B" and "A/B/C" the only root is "A". */
  lemma RootsExample(t: Tree)
    requires t.Keys == NodeSet(["A", "A/B", "A/B/C"])
    ensures forall k :: k in Roots(t) <==> k == "A"
  {
    var cats: seq<string> := ["A", "A/B", "A/B/C"];
    forall i | 0 <= i < |cats| ensures CutPrefix(cats[i], "A") {
      assert cats[i][..1] == "A";
    }
    NodeSetPrefixClosed(cats, 0, "A");
    forall k | k in Roots(t) ensures k == "A" {
      NodeSetOnlyPrefixes(cats, k);
      var i :| 0 <= i < |cats| && CutPrefix(cats[i], k);
      OneRoot(cats[i], k, "A");
    }
  }

  /** How many levels a path lies below its root: its ancestor chain, less itself. */
  ghost function Depth(d: string): nat
  {
    |Chain(d)| - 1
  }

  /** The rows of each child's walk are rows of the walk over the children. */
  lemma {:induction false} ChildRowsInDrawChildren(t: Tree, f: map<string, bool>, pages: seq<PageInfo>, parent: string, kids: seq<string>, indent: nat, x: string, row: Row)
    requires ChildrenLonger(t)
    requires forall y :: y in kids ==> parent in t && y in t[parent]
    requires x in kids && row in DrawCategory(t, f, pages, x, indent)
    ensures row in DrawChildren(t, f, pages, parent, kids, indent)
    decreases |kids|
  {
    if kids[0] != x {
      ChildRowsInDrawChildren(t, f, pages, parent, kids[1..], indent, x, row);
    }
  }

  /** The rows of each root's walk are rows of the walk over the roots. */
  lemma {:induction false} RootRowsInDrawRoots(t: Tree, f: map<string, bool>, pages: seq<PageInfo>, roots: seq<string>, x: string, row: Row)
    requires ChildrenLonger(t)
    requires x in roots && row in DrawCategory(t, f, pages, x, 0)
    ensures row in DrawRoots(t, f, pages, roots)
  {
    if roots[0] != x {
      RootRowsInDrawRoots(t, f, pages, roots[1..], x, row);
    }
  }

  /** The rows of an open category's children are rows of the category's walk. */
  lemma OpenCategoryRows(t: Tree, f: map<string, bool>, pages: seq<PageInfo>, c: string, indent: nat, row: Row)
    requires ChildrenLonger(t) && IsOpen(f, c)
    requires row in DrawChildren(t, f, pages, c, SortedChildren(t, c), indent + 1)
    ensures row in DrawCategory(t, f, pages, c, indent)
  {
  }

  /** The parent of a shown node is a shown node one level up, and open. */
  lemma ParentShown(t: Tree, f: map<string, bool>, d: string)
    requires TreeInv(t) && d in t && !LeadingSlash(d) && AncestorsOpen(f, d) && HasParent(d)
    ensures Parent(d) in t && d in t[Parent(d)]
    ensures !LeadingSlash(Parent(d)) && AncestorsOpen(f, Parent(d)) && IsOpen(f, Parent(d))
    ensures Depth(d) == Depth(Parent(d)) + 1
  {
    var p := Parent(d);
    assert Linked(t, d);
    assert LastIndexOf(d, '/') != 0;
    ChildChainLength(p, d);
    forall a | CutPrefix(p, a) && a != p ensures IsOpen(f, a) {
      CutPrefixTransitive(d, p, a);
    }
  }

  /**
   * The walk of a node that does not start with '/' and whose ancestors
   * are all open is part of the sidebar, at the node's depth below its root.
   */
  lemma {:induction false} ShownCategoryRows(t: Tree, f: map<string, bool>, pages: seq<PageInfo>, d: string, row: Row)
    requires TreeInv(t) && ChildrenLonger(t)
    requires d in t && !LeadingSlash(d) && AncestorsOpen(f, d)
    requires row in DrawCategory(t, f, pages, d, Depth(d))
    ensures row in DrawSidebar(Some(t), f, pages)
    decreases |d|
  {
    if !HasParent(d) {
      RootRowsShown(t, f, pages, d, row);
    } else {
      var p := Parent(d);
      ParentShown(t, f, d);
      ChildRowsInParent(t, f, pages, p, d, Depth(p), row);
      ShownCategoryRows(t, f, pages, p, row);
    }
  }

  /** The walk of a root category is part of the sidebar. */
  lemma RootRowsShown(t: Tree, f: map<string, bool>, pages: seq<PageInfo>, d: string, row: Row)
    requires ChildrenLonger(t) && d in t && !HasParent(d)
    requires row in DrawCategory(t, f, pages, d, Depth(d))
    ensures row in DrawSidebar(Some(t), f, pages)
  {
    assert Chain(d) == [d];
    assert d in Roots(t) && Depth(d) == 0;
    RootRowsInDrawRoots(t, f, pages, Roots(t), d, row);
  }

  /** The walk of a child of an open category is part of the category's walk. */
  lemma ChildRowsInParent(t: Tree, f: map<string, bool>, pages: seq<PageInfo>, p: string, d: string, indent: nat, row: Row)
    requires ChildrenLonger(t) && p in t && d in t[p] && IsOpen(f, p)
    requires row in DrawCategory(t, f, pages, d, indent + 1)
    ensures row in DrawCategory(t, f, pages, p, indent)
  {
    ChildRowsInDrawChildren(t, f, pages, p, SortedChildren(t, p), indent + 1, d, row);
    OpenCategoryRows(t, f, pages, p, indent, row);
  }

  /** An open category's walk has a button for each of its own pages, one level deeper. */
  lemma OwnPageRow(t: Tree, f: map<string, bool>, pages: seq<PageInfo>, c: string, indent: nat, id: nat)
    requires ChildrenLonger(t) && IsOpen(f, c) && id < |pages| && pages[id].category == c
    ensures PageButton(id, indent + 1) in DrawCategory(t, f, pages, c, indent)
  {
    var ids := PagesOf(pages, c);
    var i :| 0 <= i < |ids| && ids[i] == id;
    assert PageRows(ids, indent + 1)[i] == PageButton(id, indent + 1);
  }

  /**
   * A node that does not start with '/' and whose ancestors are all open
   * has its header in the sidebar at its depth; when it is open as well, so
   * has each of its pages a button one level deeper.
   */
  lemma {:induction false} ShownWhenAncestorsOpen(t: Tree, f: map<string, bool>, pages: seq<PageInfo>, d: string)
    requires TreeInv(t) && ChildrenLonger(t)
    requires d in t && !LeadingSlash(d) && AncestorsOpen(f, d)
    ensures Header(d, LastSegment(d, '/'), IsOpen(f, d), Depth(d)) in DrawSidebar(Some(t), f, pages)
    ensures IsOpen(f, d) ==> forall id :: id in PagesOf(pages, d) ==> PageButton(id, Depth(d) + 1) in DrawSidebar(Some(t), f, pages)
  {
    ShownCategoryRows(t, f, pages, d, Header(d, LastSegment(d, '/'), IsOpen(f, d), Depth(d)));
    if IsOpen(f, d) {
      forall id | id in PagesOf(pages, d) ensures PageButton(id, Depth(d) + 1) in DrawSidebar(Some(t), f, pages) {
        OwnPageRow(t, f, pages, d, Depth(d), id);
        ShownCategoryRows(t, f, pages, d, PageButton(id, Depth(d) + 1));
      }
    }
  }

  /** What a shown row's category satisfies, gathered from the lemmas above. */
  lemma ShownRowFacts(t: Tree, f: map<string, bool>, pages: seq<PageInfo>, row: Row)
    requires TreeInv(t) && ChildrenLonger(t)
    requires row in DrawSidebar(Some(t), f, pages)
    ensures row.Header? || (row.PageButton? && row.page < |pages|)
    ensures RowCategory(pages, row) in t && !LeadingSlash(RowCategory(pages, row))
    ensures AncestorsOpen(f, RowCategory(pages, row))
    ensures row.PageButton? ==> IsOpen(f, RowCategory(pages, row))
  {
    LeadingSlashNeverShown(t, f, pages, row);
    var c := RowCategory(pages, row);
    RowAncestorsOpen(t, f, pages, row, c);
    forall a | CutPrefix(c, a) && a != c ensures IsOpen(f, a) {
      RowAncestorsOpen(t, f, pages, row, a);
    }
  }

  /**
   * A category's header is in a built sidebar exactly when the category is a
   * node, does not start with '/' and every category above it is open.
   */
  lemma {:induction false} HeaderShownIff(t: Tree, f: map<string, bool>, pages: seq<PageInfo>, d: string)
    requires TreeInv(t) && ChildrenLonger(t)
    ensures Header(d, LastSegment(d, '/'), IsOpen(f, d), Depth(d)) in DrawSidebar(Some(t), f, pages)
            <==> d in t && !LeadingSlash(d) && AncestorsOpen(f, d)
  {
    var row := Header(d, LastSegment(d, '/'), IsOpen(f, d), Depth(d));
    if row in DrawSidebar(Some(t), f, pages) {
      ShownRowFacts(t, f, pages, row);
    }
    if d in t && !LeadingSlash(d) && AncestorsOpen(f, d) {
      ShownWhenAncestorsOpen(t, f, pages, d);
      assert row in DrawSidebar(Some(t), f, pages);
    }
  }

  /**
   * A page has its button in a built sidebar exactly when its category is a
   * node that does not start with '/', which is open, and every category
   * above which is open.
   */
  lemma {:induction false} PageShownIff(t: Tree, f: map<string, bool>, pages: seq<PageInfo>, id: nat)
    requires TreeInv(t) && ChildrenLonger(t) && id < |pages|
    ensures var c := pages[id].category;
            PageButton(id, Depth(c) + 1) in DrawSidebar(Some(t), f, pages)
            <==> c in t && !LeadingSlash(c) && AncestorsOpen(f, c) && IsOpen(f, c)
  {
    var c := pages[id].category;
    if PageButton(id, Depth(c) + 1) in DrawSidebar(Some(t), f, pages) {
      PageShownOnlyWhenOpen(t, f, pages, c, id);
    }
    if c in t && !LeadingSlash(c) && AncestorsOpen(f, c) && IsOpen(f, c) {
      PageShownWhenOpen(t, f, pages, c, id);
    }
  }

  /** A page button in the sidebar belongs to an open node reached through open categories. */
  lemma PageShownOnlyWhenOpen(t: Tree, f: map<string, bool>, pages: seq<PageInfo>, c: string, id: nat)
    requires TreeInv(t) && ChildrenLonger(t) && id < |pages| && pages[id].category == c
    requires PageButton(id, Depth(c) + 1) in DrawSidebar(Some(t), f, pages)
    ensures c in t && !LeadingSlash(c) && AncestorsOpen(f, c) && IsOpen(f, c)
  {
    ShownRowFacts(t, f, pages, PageButton(id, Depth(c) + 1));
  }

  /** The page button of an open node reached through open categories is in the sidebar. */
  lemma PageShownWhenOpen(t: Tree, f: map<string, bool>, pages: seq<PageInfo>, c: string, id: nat)
    requires TreeInv(t) && ChildrenLonger(t) && id < |pages| && pages[id].category == c
    requires c in t && !LeadingSlash(c) && AncestorsOpen(f, c) && IsOpen(f, c)
    ensures PageButton(id, Depth(c) + 1) in DrawSidebar(Some(t), f, pages)
  {
    OwnPageRow(t, f, pages, c, Depth(c), id);
    ShownCategoryRows(t, f, pages, c, PageButton(id, Depth(c) + 1));
  }
}
