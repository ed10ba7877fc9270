/**
 * A worked session of the plugin: three pages are registered under "A",
 * "A/B" and "C", the tree is rebuilt, and the page under "A/B" is opened.
 */
module Scenario {
  import opened Wrappers
  import opened Text
  import opened CategoryTree
  import opened FoldState
  import opened Registry
  import opened Sidebar
  import opened Plugin

  /** The nodes the build creates for the categories "A", "A/B" and "C". */
  lemma ExampleNodes()
    ensures NodeSet(["A", "A/B"]) == {"A", "A/B"}
    ensures NodeSet(["A", "A/B", "C"]) == {"A", "A/B", "C"}
  {
    var cats: seq<string> := ["A", "A/B", "C"];
    var two := cats[..2];
    assert two == ["A", "A/B"];
    assert CutPrefix("A/B", "A") by { assert "A/B"[..1] == "A"; }
    forall a | CutPrefix("A/B", a) ensures a == "A" || a == "A/B" {
      if a != "A/B" {
        assert |a| == 1 && a == "A/B"[..1];
      }
    }
    NodeSetPrefixClosed(two, 0, "A");
    NodeSetPrefixClosed(two, 1, "A/B");
    forall a | a in NodeSet(two) ensures a == "A" || a == "A/B" {
      NodeSetOnlyPrefixes(two, a);
    }
    NodeSetPrefixClosed(cats, 0, "A");
    NodeSetPrefixClosed(cats, 1, "A/B");
    NodeSetPrefixClosed(cats, 2, "C");
    forall a | a in NodeSet(cats) ensures a == "A" || a == "A/B" || a == "C" {
      NodeSetOnlyPrefixes(cats, a);
    }
  }

  /** The tree built for "A", "A/B" and "C": roots "A" and "C", and "A/B" under "A". */
  lemma ExampleTree(t: Tree)
    requires TreeInv(t) && t.Keys == {"A", "A/B", "C"}
    ensures forall k :: k in Roots(t) <==> k == "A" || k == "C"
    ensures "A" in t && forall x :: x in t["A"] <==> x == "A/B"
  {
    assert '/' in "A/B" by { assert "A/B"[1] == '/'; }
    ChildPathParent("A", "A/B");
    assert Linked(t, "A/B");
    forall x | x in t["A"] ensures x == "A/B" {
      assert IsChildPath("A", x) && x in t;
    }
  }

  /** Opening "A/B" over the built folds, where "C" is closed, leaves exactly "A" and "A/B" open. */
  lemma ExampleOpened(f1: Folds, f2: Folds)
    requires f1.Keys == {"A", "A/B", "C"} && !f1["C"]
    requires f2.Keys == f1.Keys + ChainSet("A/B")
    requires forall a :: CutPrefix("A/B", a) ==> a in f2 && f2[a]
    requires forall k :: k in f1 && !CutPrefix("A/B", k) ==> f2[k] == f1[k]
    ensures OpenKeys(f2) == {"A", "A/B"}
  {
    assert CutPrefix("A/B", "A") by { assert "A/B"[..1] == "A"; }
    assert !CutPrefix("A/B", "C") by { assert "A/B"[..1] != "C"; }
    forall a | a in ChainSet("A/B") ensures a in f1 {
      ChainIsCutPrefixes("A/B", a);
      if a != "A/B" {
        assert |a| == 1 && a == "A/B"[..1];
      }
    }
  }

  /** The pages of the session, in registration order. */
  function ExamplePages(): (pages: seq<PageInfo>)
    ensures GroupKeys(pages) == ["A", "A/B", "C"]
  {
    var p0, p1, p2 := PageInfo("A", "P1", Callback(1)), PageInfo("A/B", "P2", Callback(2)), PageInfo("C", "P3", Callback(3));
    assert [p0, p1, p2][..2] == [p0, p1] && [p0, p1][..1] == [p0] && [p0][..0] == [];
    assert GroupKeys([p0]) == ["A"];
    assert GroupKeys([p0, p1]) == ["A", "A/B"];
    [p0, p1, p2]
  }

  /** The folds the first build leaves, starting from none: one entry per node, "C" closed. */
  lemma ExampleBuiltFolds(f: Folds)
    requires f.Keys == NodeSet(["A", "A/B", "C"])
    requires forall k :: k in f ==> f[k] == DefaultOpen(["A", "A/B", "C"], k)
    ensures f.Keys == {"A", "A/B", "C"} && !f["C"]
  {
    ExampleNodes();
    var cats: seq<string> := ["A", "A/B", "C"];
    assert cats[..2] == ["A", "A/B"];
    FirstFullCategoryDefaultsClosed(cats, 2);
  }

  /** Registers the three pages. */
  method RegisterExamplePages() returns (api: WikiApi)
    ensures api.pages == ExamplePages()
  {
    api := new WikiApi();
    api.RegisterPage("A", "P1", Callback(1));
    api.RegisterPage("A/B", "P2", Callback(2));
    api.RegisterPage("C", "P3", Callback(3));
  }

  /** A fresh plugin with nothing saved, rebuilt over the three pages. */
  method BuildExample() returns (plugin: WikiPlugin, pages: seq<PageInfo>)
    ensures fresh(plugin) && plugin.Valid() && plugin.selected == None
    ensures pages == ExamplePages()
    ensures plugin.categoryTree.Some? && plugin.categoryTree.value.Keys == {"A", "A/B", "C"}
    ensures plugin.foldouts.Keys == {"A", "A/B", "C"} && !plugin.foldouts["C"]
  {
    var api := RegisterExamplePages();
    plugin := new WikiPlugin("");
    plugin.RebuildCategoryTree(api);
    pages := api.pages;
    ExampleBuiltFolds(plugin.foldouts);
    ExampleNodes();
  }

  /** Registers the three pages, rebuilds, and opens the page under "A/B". */
  method ExampleSession() returns (plugin: WikiPlugin)
    ensures plugin.categoryTree.Some?
    ensures forall k :: k in Roots(plugin.categoryTree.value) <==> k == "A" || k == "C"
    ensures "A" in plugin.categoryTree.value
    ensures forall x :: x in plugin.categoryTree.value["A"] <==> x == "A/B"
    ensures OpenKeys(plugin.foldouts) == {"A", "A/B"}
    ensures SavedForm(plugin.savedConfig, plugin.foldouts)
  {
    var pages;
    plugin, pages := BuildExample();
    ghost var built := plugin.foldouts;
    plugin.OpenPage(PageRef(1, pages[1]));
    ExampleTree(plugin.categoryTree.value);
    ExampleOpened(built, plugin.foldouts);
  }

  /**
   * The empty category has no '/', so in any well-formed tree that holds it
   * (such as the one `EmptyCategoryTree` gives) it is a root of its own and
   * its header is drawn like any other root's.
   */
  lemma EmptyCategoryShown(t: Tree, f: Folds, pages: seq<PageInfo>)
    requires TreeInv(t) && ChildrenLonger(t) && "" in t
    ensures "" in Roots(t)
    ensures Header("", "", IsOpen(f, ""), 0) in DrawSidebar(Some(t), f, pages)
  {
    EmptyCategoryTop(f);
    HeaderShownIff(t, f, pages, "");
  }

  /** The tree holding only the empty category is well formed. */
  lemma EmptyCategoryTree()
    ensures TreeInv(map["" := []])
  {
    var t: Tree := map["" := []];
    assert ChildrenOk(t) && ListsDistinct(t);
    assert !HasParent("");
    assert forall x :: Linked(t, x) by {
      forall x | x in t ensures !HasParent(x) {
        assert x == "";
      }
    }
  }

  /** The empty category is at depth 0, is its own label, and has nothing above it. */
  lemma EmptyCategoryTop(f: Folds)
    ensures Depth("") == 0 && LastSegment("", '/') == ""
    ensures AncestorsOpen(f, "")
  {
    assert Chain("") == [""];
    assert AncestorsOpen(f, "") by {
      forall a | CutPrefix("", a) ensures a == "" { }
    }
  }
}
