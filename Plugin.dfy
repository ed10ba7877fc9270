/**
 * The wiki plugin's navigation state: the category tree, the fold state,
 * the selected page and the content scroll position, and the operations
 * that change them.
 */
module Plugin {
  import opened Wrappers
  import opened Text
  import opened CategoryTree
  import opened FoldState
  import opened Registry
  import opened Sidebar

  /** The content pane's scroll position; only its origin matters to the core. */
  datatype Scroll = Origin | Offset(token: nat)

  /** A page as the plugin receives it: its identity (registry index) and its record. */
  datatype PageRef = PageRef(id: nat, info: PageInfo)

  /** `saved` is the comma-join of the open paths of `f`, in some order. */
  ghost predicate SavedForm(saved: string, f: Folds)
  {
    exists ks :: Listing(ks, OpenKeys(f)) && saved == Join(ks, ',')
  }

  /**
   * Whatever order the save wrote the open paths in, loading the saved
   * string back into the same fold map changes nothing, when no path
   * contains ','.
   */
  lemma SaveThenLoadKeepsFolds(saved: string, f: Folds)
    requires SavedForm(saved, f)
    requires forall k :: k in f ==> ',' !in k
    ensures Loaded(f, saved) == f
  {
    var ks :| Listing(ks, OpenKeys(f)) && saved == Join(ks, ',');
    LoadSaveRoundTrip(f, ks);
  }

  /** The path the build loop builds from the next part, and how it extends the previous one. */
  lemma NextPath(parts: seq<string>, i: nat)
    requires i < |parts|
    requires forall j :: 0 <= j < |parts| ==> '/' !in parts[j]
    ensures i == 0 ==> PathAt(parts, 0) == parts[0] && !HasParent(parts[0])
    ensures i > 0 ==> PathAt(parts, i) == PathAt(parts, i - 1) + "/" + parts[i]
    ensures i > 0 ==> IsChildPath(PathAt(parts, i - 1), PathAt(parts, i))
    ensures PathsUpTo(parts, i + 1) == PathsUpTo(parts, i) + {PathAt(parts, i)}
    ensures i > 0 ==> PathAt(parts, i - 1) in PathsUpTo(parts, i)
  {
    if i == 0 {
      assert parts[..1] == [parts[0]];
      LastIndexOfAt(parts[0], '/', -1);
    } else {
      PathAtStep(parts, i);
      ChildOfJoin(PathAt(parts, i - 1), parts[i]);
    }
  }

  /** The first half of the build loop's tree step: make the current path a node. */
  lemma AddNodeShape(t: Tree, currentPath: string)
    requires TreeInv(t)
    ensures var t1 := if currentPath !in t then t[currentPath := []] else t;
            && ChildrenOk(t1) && ListsDistinct(t1) && t1.Keys == t.Keys + {currentPath}
            && (forall x :: x != currentPath ==> Linked(t1, x))
            && (currentPath in t ==> Linked(t1, currentPath))
            && (forall p :: p in t ==> t1[p] == t[p])
  {
    var t1 := if currentPath !in t then t[currentPath := []] else t;
    forall p | p in t1 ensures forall x :: x in t1[p] ==> p != "" && IsChildPath(p, x) && x in t1 {
      if p in t {
        assert t1[p] == t[p];
      } else {
        assert t1[p] == [];
      }
    }
    forall x | x != currentPath ensures Linked(t1, x) {
      assert Linked(t, x);
    }
    assert currentPath in t ==> Linked(t, currentPath);
  }

  /** The second half: attach the current path to its parent, unless the parent is "". */
  lemma AttachShape(t1: Tree, parentPath: string, currentPath: string, first: bool)
    requires ChildrenOk(t1) && ListsDistinct(t1) && currentPath in t1
    requires forall x :: x != currentPath ==> Linked(t1, x)
    requires first ==> !HasParent(currentPath)
    requires !first ==> parentPath in t1 && IsChildPath(parentPath, currentPath)
    ensures var t2 := if !first && parentPath != "" && currentPath !in t1[parentPath]
                      then t1[parentPath := t1[parentPath] + [currentPath]] else t1;
            TreeInv(t2) && t2.Keys == t1.Keys
  {
    if !first {
      ChildPathParent(parentPath, currentPath);
    }
    if !first && parentPath != "" && currentPath !in t1[parentPath] {
      var t2 := t1[parentPath := t1[parentPath] + [currentPath]];
      forall p | p in t2 ensures forall x :: x in t2[p] ==> p != "" && IsChildPath(p, x) && x in t2 {
        if p != parentPath {
          assert t2[p] == t1[p];
        }
      }
      forall x ensures Linked(t2, x) {
        if x != currentPath {
          assert Linked(t1, x);
        }
      }
    }
  }

  /**
   * `f` is `f0` with entries added for exactly the paths in `added`: old
   * entries keep their value, new ones are closed for `full` and open otherwise.
   */
  ghost predicate Grown(f0: Folds, f: Folds, full: string, added: set<string>)
  {
    && f.Keys == f0.Keys + added
    && (forall k :: k in f0 ==> f[k] == f0[k])
    && (forall k :: k in f && k !in f0 ==> f[k] == (k != full))
  }

  /** Filling a missing entry for a prefix other than `full` (open) keeps the shape. */
  lemma GrownStep(f0: Folds, f: Folds, f': Folds, full: string, built: set<string>, c: string)
    requires Grown(f0, f, full, {full} + built)
    requires f' == if c !in f then f[c := true] else f
    ensures Grown(f0, f', full, {full} + (built + {c}))
  {
    assert {full} + (built + {c}) == {full} + built + {c};
  }

  /** At the end of the build's walk over `full`, the added entries are its ancestor chain. */
  lemma GrownChain(f0: Folds, f: Folds, full: string, built: set<string>)
    requires built == PathsUpTo(Split(full, '/'), |Split(full, '/')|)
    requires Grown(f0, f, full, {full} + built)
    ensures f.Keys == f0.Keys + ChainSet(full)
    ensures forall k :: k in f0 ==> f[k] == f0[k]
    ensures forall k :: k in f && k !in f0 ==> f[k] == (k != full)
  {
    SplitPathsAreChain(full);
    assert full in ChainSet(full);
  }

  /**
   * The draw walk of a built tree only meets categories that have a fold
   * entry when every node has one, so its "enter unseen categories closed"
   * step never fires.
   */
  lemma DrawnCategoriesHaveFolds(t: Tree, f: Folds, pages: seq<PageInfo>, row: Row)
    requires TreeInv(t) && ChildrenLonger(t) && t.Keys <= f.Keys
    requires row in DrawSidebar(Some(t), f, pages)
    ensures row.Header? || (row.PageButton? && row.page < |pages|)
    ensures RowCategory(pages, row) in f
  {
    RowAncestorsOpen(t, f, pages, row, "");
  }

  /** `f` is `f0` with exactly the paths of `paths` added or set open. */
  ghost predicate Opened(f0: Folds, f: Folds, paths: set<string>)
  {
    && f.Keys == f0.Keys + paths
    && (forall a :: a in paths ==> f[a])
    && (forall k :: k in f0 && k !in paths ==> f[k] == f0[k])
  }

  /** Opening one more path keeps the shape. */
  lemma OpenedStep(f0: Folds, f: Folds, f': Folds, paths: set<string>, c: string)
    requires Opened(f0, f, paths) && f' == f[c := true]
    ensures Opened(f0, f', paths + {c})
  {
  }

  /** Opening the ancestor chain of `c` opens exactly its cut prefixes. */
  lemma ChainOpened(f0: Folds, f: Folds, c: string)
    requires Opened(f0, f, ChainSet(c))
    ensures f.Keys == f0.Keys + ChainSet(c)
    ensures forall a :: CutPrefix(c, a) ==> a in f && f[a]
    ensures forall k :: k in f0 && !CutPrefix(c, k) ==> f[k] == f0[k]
  {
    forall a ensures a in ChainSet(c) <==> CutPrefix(c, a) {
      ChainIsCutPrefixes(c, a);
    }
  }

  class WikiPlugin {
    var foldouts: Folds                 // category path -> open
    var categoryTree: Option<Tree>      // None until the first build
    var selected: Option<nat>           // identity of the selected page
    var scroll: Scroll                  // content scroll position
    var savedConfig: string             // the persisted fold-state string

    /** A built tree has the shape of CategoryTree.TreeInv, and every node has a fold entry. */
    ghost predicate Valid()
      reads this
    {
      categoryTree.Some? ==> TreeInv(categoryTree.value) && categoryTree.value.Keys <= foldouts.Keys
    }

    /** The plugin after start-up: nothing built or selected, the saved folds loaded. */
    constructor (saved: string)
      ensures Valid()
      ensures categoryTree == None && selected == None && scroll == Origin
      ensures savedConfig == saved && foldouts == Loaded(map[], saved)
    {
      categoryTree := None;
      selected := None;
      scroll := Origin;
      savedConfig := saved;
      foldouts := map[];
      new;
      LoadFoldoutConfig();
    }

    /** Opens every path named in the saved string; closes nothing. */
    method LoadFoldoutConfig()
      requires Valid()
      modifies this`foldouts
      ensures Valid()
      ensures foldouts == Loaded(old(foldouts), savedConfig)
    {
      if savedConfig != "" {
        var openFoldouts := Split(savedConfig, ',');
        for i := 0 to |openFoldouts|
          invariant forall k :: k in foldouts <==> k in old(foldouts) || k in openFoldouts[..i]
          invariant forall k :: k in openFoldouts[..i] ==> foldouts[k]
          invariant forall k :: k in old(foldouts) && k !in openFoldouts[..i] ==> foldouts[k] == old(foldouts)[k]
        {
          assert openFoldouts[..i + 1] == openFoldouts[..i] + [openFoldouts[i]];
          foldouts := foldouts[openFoldouts[i] := true];
        }
        assert openFoldouts[..|openFoldouts|] == openFoldouts;
      }
    }

    /** Writes the open paths, comma-joined, to the saved string. */
    method SaveFoldoutConfig()
      modifies this`savedConfig
      ensures SavedForm(savedConfig, foldouts)
    {
      var rest := foldouts.Keys;
      var openFoldouts: seq<string> := [];
      while rest != {}
        invariant rest <= foldouts.Keys
        invariant NoDuplicates(openFoldouts)
        invariant forall k :: k in openFoldouts <==> k in OpenKeys(foldouts) && k !in rest
        decreases rest
      {
        var k :| k in rest;
        if foldouts[k] {
          openFoldouts := openFoldouts + [k];
        }
        rest := rest - {k};
      }
      savedConfig := Join(openFoldouts, ',');
    }

    /**
     * A save followed by the reload that the saved setting's change hook
     * runs: the folds come back as they were.
     */
    method SaveAndReload()
      requires Valid()
      requires forall k :: k in foldouts ==> ',' !in k
      modifies this`foldouts, this`savedConfig
      ensures Valid()
      ensures foldouts == old(foldouts) && SavedForm(savedConfig, foldouts)
    {
      SaveFoldoutConfig();
      SaveThenLoadKeepsFolds(savedConfig, foldouts);
      LoadFoldoutConfig();
    }

    /**
     * Opens the category and every path obtained by cutting it at a '/',
     * walking up one level per pass; nothing is closed, nothing else changes.
     */
    method OpenFoldoutsToPage(category: string)
      requires Valid()
      modifies this`foldouts, this`savedConfig
      ensures Valid()
      ensures foldouts.Keys == old(foldouts).Keys + ChainSet(category)
      ensures forall a :: CutPrefix(category, a) ==> a in foldouts && foldouts[a]
      ensures forall k :: k in old(foldouts) && !CutPrefix(category, k) ==> foldouts[k] == old(foldouts)[k]
      ensures SavedForm(savedConfig, foldouts)
    {
      var currentCategory := category;
      ghost var visited := {category};
      foldouts := foldouts[currentCategory := true];
      while true
        invariant currentCategory in visited && visited + ChainSet(currentCategory) == ChainSet(category)
        invariant Opened(old(foldouts), foldouts, visited)
        decreases |currentCategory|
      {
        var lastSlashIndex := LastIndexOf(currentCategory, '/');
        if lastSlashIndex >= 0 {
          ChainSetStep(currentCategory);
          ghost var before := foldouts;
          currentCategory := currentCategory[..lastSlashIndex];
          foldouts := foldouts[currentCategory := true];
          OpenedStep(old(foldouts), before, foldouts, visited, currentCategory);
          visited := visited + {currentCategory};
        } else {
          break;
        }
      }
      ChainOpened(old(foldouts), foldouts, category);
      SaveFoldoutConfig();
    }

    /**
     * Selects `page`, resets the scroll position and opens the page's
     * category chain; nothing at all changes when `page` is already selected.
     */
    method OpenPage(page: PageRef)
      requires Valid()
      modifies this`foldouts, this`savedConfig, this`selected, this`scroll
      ensures Valid()
      ensures old(selected) == Some(page.id) ==>
        foldouts == old(foldouts) && savedConfig == old(savedConfig) && selected == old(selected) && scroll == old(scroll)
      ensures old(selected) != Some(page.id) ==>
        && selected == Some(page.id) && scroll == Origin
        && foldouts.Keys == old(foldouts).Keys + ChainSet(page.info.category)
        && (forall a :: CutPrefix(page.info.category, a) ==> a in foldouts && foldouts[a])
        && (forall k :: k in old(foldouts) && !CutPrefix(page.info.category, k) ==> foldouts[k] == old(foldouts)[k])
        && SavedForm(savedConfig, foldouts)
    {
      if selected != Some(page.id) {
        OpenFoldoutsToPage(page.info.category);
        selected := Some(page.id);
        scroll := Origin;
      }
    }

    /** A click on a page button: selects it and resets the scroll, without touching folds. */
    method SelectFromSidebar(page: PageRef)
      requires Valid()
      modifies this`selected, this`scroll
      ensures Valid()
      ensures old(selected) == Some(page.id) ==> selected == old(selected) && scroll == old(scroll)
      ensures old(selected) != Some(page.id) ==> selected == Some(page.id) && scroll == Origin
    {
      if selected != Some(page.id) {
        selected := Some(page.id);
        scroll := Origin;
      }
    }

    /** The content scroll view reports a new position. */
    method ScrollContent(s: Scroll)
      requires Valid()
      modifies this`scroll
      ensures Valid()
      ensures scroll == s
    {
      scroll := s;
    }

    /** Sets every known path open; adds and removes no path. */
    method OpenAllFoldouts()
      requires Valid()
      modifies this`foldouts
      ensures Valid()
      ensures foldouts.Keys == old(foldouts).Keys
      ensures forall k :: k in foldouts ==> foldouts[k]
    {
      var keys := foldouts.Keys;
      while keys != {}
        invariant keys <= foldouts.Keys == old(foldouts).Keys
        invariant forall k :: k in foldouts && k !in keys ==> foldouts[k]
        decreases keys
      {
        var category :| category in keys;
        foldouts := foldouts[category := true];
        keys := keys - {category};
      }
    }

    /** Sets every known path closed; adds and removes no path. */
    method CloseAllFoldouts()
      requires Valid()
      modifies this`foldouts
      ensures Valid()
      ensures foldouts.Keys == old(foldouts).Keys
      ensures forall k :: k in foldouts ==> !foldouts[k]
    {
      var keys := foldouts.Keys;
      while keys != {}
        invariant keys <= foldouts.Keys == old(foldouts).Keys
        invariant forall k :: k in foldouts && k !in keys ==> !foldouts[k]
        decreases keys
      {
        var category :| category in keys;
        foldouts := foldouts[category := false];
        keys := keys - {category};
      }
    }

    /**
     * The header toggle of a category in the sidebar: an unseen category is
     * first entered closed, then takes the toggle's value; the folds are
     * saved only when the value changed.
     */
    method ToggleFoldout(category: string, value: bool)
      requires Valid()
      modifies this`foldouts, this`savedConfig
      ensures Valid()
      ensures foldouts == old(foldouts)[category := value]
      ensures value != IsOpen(old(foldouts), category) ==> SavedForm(savedConfig, foldouts)
      ensures value == IsOpen(old(foldouts), category) ==> savedConfig == old(savedConfig)
    {
      if category !in foldouts {
        foldouts := foldouts[category := false];
      }
      var isFoldoutOpen := foldouts[category];
      foldouts := foldouts[category := value];
      if isFoldoutOpen != foldouts[category] {
        SaveFoldoutConfig();
      }
    }

    /**
     * One pass of the build over one full category: every prefix of it cut
     * at a '/' becomes a node and is attached to its parent (unless the
     * parent is ""); a missing fold entry is filled in, closed for the full
     * category and open for an intermediate prefix.
     */
    method AddCategory(t: Tree, fullCategory: string) returns (t': Tree)
      requires TreeInv(t)
      modifies this`foldouts
      ensures TreeInv(t') && t'.Keys == t.Keys + ChainSet(fullCategory)
      ensures foldouts.Keys == old(foldouts).Keys + ChainSet(fullCategory)
      ensures forall k :: k in old(foldouts) ==> foldouts[k] == old(foldouts)[k]
      ensures forall k :: k in foldouts && k !in old(foldouts) ==> foldouts[k] == (k != fullCategory)
    {
      ghost var f0 := foldouts;
      var folds := foldouts;
      if fullCategory !in folds {
        folds := folds[fullCategory := false];
      }
      var currentPath := "";
      var parts := Split(fullCategory, '/');
      t' := t;
      for i := 0 to |parts|
        invariant i > 0 ==> currentPath == PathAt(parts, i - 1) && currentPath in PathsUpTo(parts, i)
        invariant TreeInv(t') && t'.Keys == t.Keys + PathsUpTo(parts, i)
        invariant Grown(f0, folds, fullCategory, {fullCategory} + PathsUpTo(parts, i))
      {
        t', folds, currentPath := BuildStep(t', folds, fullCategory, parts, i, currentPath, f0, t.Keys);
      }
      SplitPathsAreChain(fullCategory);
      GrownChain(f0, folds, fullCategory, PathsUpTo(parts, |parts|));
      foldouts := folds;
    }

    /**
     * One turn of the build's walk over the parts of `full`: extend the
     * current path by the next part, make it a node attached to its parent,
     * and fill in its fold entry (open) if it has none.
     */
    static method BuildStep(t: Tree, folds: Folds, full: string, parts: seq<string>, i: nat, currentPath: string,
                            ghost f0: Folds, ghost keys0: set<string>)
        returns (t2: Tree, folds2: Folds, path2: string)
      requires i < |parts| && parts == Split(full, '/')
      requires i > 0 ==> currentPath == PathAt(parts, i - 1) && currentPath in PathsUpTo(parts, i)
      requires TreeInv(t) && t.Keys == keys0 + PathsUpTo(parts, i)
      requires Grown(f0, folds, full, {full} + PathsUpTo(parts, i))
      ensures path2 == PathAt(parts, i) && path2 in PathsUpTo(parts, i + 1)
      ensures TreeInv(t2) && t2.Keys == keys0 + PathsUpTo(parts, i + 1)
      ensures Grown(f0, folds2, full, {full} + PathsUpTo(parts, i + 1))
    {
      var parentPath := currentPath;
      NextPath(parts, i);
      if i == 0 {
        path2 := parts[i];
      } else {
        path2 := currentPath + "/" + parts[i];
      }
      t2 := EnsureNode(t, parentPath, path2, i == 0);
      folds2 := folds;
      if path2 !in folds2 {
        folds2 := folds2[path2 := true];
      }
      GrownStep(f0, folds, folds2, full, PathsUpTo(parts, i), path2);
    }

    /**
     * The tree part of one step of the build loop: the current path becomes a
     * node, and, past the first segment, is listed once under its parent
     * unless the parent is "".
     */
    static method EnsureNode(t: Tree, parentPath: string, currentPath: string, first: bool) returns (t': Tree)
      requires TreeInv(t)
      requires first ==> !HasParent(currentPath)
      requires !first ==> parentPath in t && IsChildPath(parentPath, currentPath)
      ensures TreeInv(t') && t'.Keys == t.Keys + {currentPath}
      ensures !first && parentPath != "" ==> currentPath in t'[parentPath]
    {
      AddNodeShape(t, currentPath);
      t' := t;
      if currentPath !in t' {
        t' := t'[currentPath := []];
      }
      AttachShape(t', parentPath, currentPath, first);
      if !first && parentPath != "" && currentPath !in t'[parentPath] {
        t' := t'[parentPath := t'[parentPath] + [currentPath]];
      }
    }

    /**
     * Rebuilds the tree from scratch from the category keys (in the order
     * the page dictionary yields them) and fills in missing fold entries,
     * never overwriting an existing one.
     */
    method BuildCategoryTree(categories: seq<string>)
      requires Valid()
      modifies this`categoryTree, this`foldouts
      ensures Valid()
      ensures categoryTree.Some? && categoryTree.value.Keys == NodeSet(categories)
      ensures foldouts.Keys == old(foldouts).Keys + NodeSet(categories)
      ensures forall k :: k in old(foldouts) ==> foldouts[k] == old(foldouts)[k]
      ensures forall k :: k in foldouts && k !in old(foldouts) ==> foldouts[k] == DefaultOpen(categories, k)
      ensures NodeSet(categories) <= old(foldouts).Keys ==> foldouts == old(foldouts)
      ensures old(categoryTree).Some? && old(categoryTree).value.Keys == NodeSet(categories) ==>
        SameChildren(old(categoryTree).value, categoryTree.value)
    {
      var t: Tree := map[];
      for ci := 0 to |categories|
        invariant TreeInv(t) && t.Keys == NodeSet(categories[..ci])
        invariant foldouts.Keys == old(foldouts).Keys + NodeSet(categories[..ci])
        invariant forall k :: k in old(foldouts) ==> foldouts[k] == old(foldouts)[k]
        invariant forall k :: k in foldouts && k !in old(foldouts) ==> foldouts[k] == DefaultOpen(categories[..ci], k)
        invariant categoryTree == old(categoryTree)
      {
        assert categories[..ci + 1][..ci] == categories[..ci];
        t := AddCategory(t, categories[ci]);
      }
      assert categories[..|categories|] == categories;
      if categoryTree.Some? && categoryTree.value.Keys == t.Keys {
        TreeDeterminedByNodes(categoryTree.value, t);
      }
      categoryTree := Some(t);
    }

    /** Groups the registered pages by category and rebuilds the tree from the groups' keys. */
    method RebuildCategoryTree(api: WikiApi)
      requires Valid()
      modifies this`categoryTree, this`foldouts
      ensures Valid()
      ensures categoryTree.Some? && categoryTree.value.Keys == NodeSet(GroupKeys(api.pages))
      ensures foldouts.Keys == old(foldouts).Keys + NodeSet(GroupKeys(api.pages))
      ensures forall k :: k in old(foldouts) ==> foldouts[k] == old(foldouts)[k]
      ensures forall k :: k in foldouts && k !in old(foldouts) ==> foldouts[k] == DefaultOpen(GroupKeys(api.pages), k)
    {
      var pages := api.GetPages();
      BuildCategoryTree(GroupKeys(pages));
    }
  }
}
