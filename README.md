# HS2 Wiki navigation core in Dafny

HS2 Wiki is an in-game documentation overlay for StudioNEOV2. Other plugins
register pages with the wiki API. Each page has a slash-separated category
path, a title and a content callback. The wiki window shows the pages in a
sidebar of collapsible categories. This project models the part of the
plugin with real logic in it:

- the page registry (`WikiAPI`), an append-only list of pages;
- the category tree, built from the page categories (`BuildCategoryTree`,
  `RebuildCategoryTree`): a map from every category path prefix to the list
  of its child paths;
- the fold state, a map from category path to open/closed, and how each
  operation changes it: the build's defaults, opening a page and its
  ancestor categories (`OpenPage`, `OpenFoldoutsToPage`), Open All / Close
  All, the header toggle;
- the saved form of the fold state, a comma-joined list of the open paths
  (`SaveFoldoutConfig`, `LoadFoldoutConfig`);
- the sidebar walk (`DrawWindow`'s root selection and
  `DrawCategoryWithSubcategories`), modelled as a function from the tree,
  the fold state and the pages to the list of rows it shows. Both halves
  are proved: every row shown is a node, or a page of an open node, with
  every category above it open; and every such node that does not start
  with '/' is shown, with its pages when it is open itself.

Layout, one module per file:

- `Wrappers.dfy`: `Option`.
- `Text.dfy`: the .NET string operations used: `LastIndexOf`, `Split`
  (empty pieces kept), `Join`, and the last path segment.
- `Ordering.dfy`: the order `OrderBy(k => k)` sorts paths in, and a sort.
- `Registry.dfy`: `PageInfo`, the `WikiApi` class, and the category
  grouping the plugin does.
- `CategoryTree.dfy`: paths, cut prefixes, the ancestor walk, the node set
  a build produces, the fold defaults, and the tree's shape invariant.
- `FoldState.dfy`: the fold map and the effect of loading a saved string.
- `Sidebar.dfy`: the rows of the sidebar and what every row satisfies.
- `Plugin.dfy`: the `WikiPlugin` class with its fields and the operations
  that change them.
- `Scenario.dfy`: a worked session (register three pages, rebuild, open one), and the empty category drawn as a root.

Modelling choices:

- A page's identity is its index in the registry (`PageRef.id`). The plugin
  compares pages by reference, so two pages with equal fields are still two
  pages. The selected page is an `Option<nat>`.
- The scroll position is an abstract value with a distinguished `Origin`.
- The content callback is an uninterpreted token.
- The .NET dictionaries become Dafny maps. Where the code depends on a
  dictionary's enumeration order, the model takes that order as an input
  or leaves it open:
  - `BuildCategoryTree` takes the category keys as a sequence in any order;
  - `RebuildCategoryTree` passes them in first-registration order;
  - `SaveFoldoutConfig` lists the open paths in an unspecified order.
- The model has no null fold map; an absent map is the empty map. The
  source re-creates a null map as empty in `LoadFoldoutConfig`,
  `OpenFoldoutsToPage`, `BuildCategoryTree` and the draw walk
  (WikiPlugin.cs:74, 179, 378, 430). `OpenAllFoldouts` and
  `CloseAllFoldouts` have no such guard (WikiPlugin.cs:199-213), and
  `SaveFoldoutConfig` skips the save on a null map instead
  (WikiPlugin.cs:95). The map is never null when they run only because
  `Init` calls `LoadFoldoutConfig` first (WikiPlugin.cs:50, 64). The
  constructor stands for the plugin after that call.
- The sidebar walk is a ghost function that returns rows. A header row
  carries the path, the label, the open flag and the indentation. A page
  row carries the page identity and the indentation. The walk reads an
  unseen category as closed. The source inserts `false` for such a
  category; `DrawnCategoriesHaveFolds` proves that, once a tree is built,
  the walk never meets one.

Behaviour a reader might not expect, which the model follows:

- `RegisterPage` only appends to the page list (api/WikiAPI.cs:20-28). The
  tree changes only in `RebuildCategoryTree` (WikiPlugin.cs:103-111).
- `OpenPage` does nothing, not even to the fold state, when the page is
  already selected (WikiPlugin.cs:168).
- A new full category is stored as `false`, although the comment beside it
  at WikiPlugin.cs:386 says "expanded by default". A new prefix gets `true`
  (WikiPlugin.cs:412). When a path is both, the category order decides
  (`DefaultDependsOnOrder`).
- `OpenPage` takes the page object itself (WikiPlugin.cs:166).

## Model

| member | source | states |
|---|---|---|
| Registry.WikiApi.constructor | api/WikiAPI.cs:18 | the registry starts with no pages |
| Registry.WikiApi.RegisterPage | api/WikiAPI.cs:20-28 | appends exactly one page, at the end, with the given category, name and callback; earlier pages are kept in order; there is no uniqueness check, so registering the same pair twice gives two entries |
| Registry.WikiApi.GetPages | api/WikiAPI.cs:30 | returns every registered page, in registration order |
| Registry.GroupKeys | WikiPlugin.cs:106-108 | the group keys are exactly the categories of the pages, each once |
| Registry.PagesOf | WikiPlugin.cs:106-108 | a category's group holds exactly the pages of that category, in registration order |
| Text.LastIndexOf | WikiPlugin.cs:185 | -1 when the character is absent, else the position of its last occurrence |
| Text.JoinSeparatorCount | WikiPlugin.cs:98 | joining one or more parts without the separator gives a string that contains exactly `|parts| - 1` separators |
| Text.Split | WikiPlugin.cs:391 | at least one piece, and no piece contains the separator |
| Text.JoinSplit | WikiPlugin.cs:391-401 | joining the split pieces with the separator gives the string back |
| Text.SplitJoin | WikiPlugin.cs:76-98 | splitting the join of one or more separator-free pieces gives the pieces back |
| Text.LastSegment | WikiPlugin.cs:439-440 | the label is the text after the last '/' (the whole path when there is none) and has no '/' |
| Ordering.BelowTotal | WikiPlugin.cs:281 | any two paths are comparable |
| Ordering.BelowAntisymmetric | WikiPlugin.cs:281 | paths that sort both ways are equal |
| Ordering.BelowTransitive | WikiPlugin.cs:281 | the order is transitive |
| Ordering.BelowReflexive | WikiPlugin.cs:281 | every path sorts at or before itself |
| Ordering.SortSeq | WikiPlugin.cs:281 | the result is sorted and a permutation of the input |
| Ordering.SortedUnique | WikiPlugin.cs:281 | two sorted permutations of the same paths are equal, so the sorted order is fully determined |
| CategoryTree.Parent | WikiPlugin.cs:185-188 | cutting a path at its last '/' gives the path it is one segment below |
| CategoryTree.Chain | WikiPlugin.cs:181-195 | the ancestor walk starts at the category itself; `ChainIsCutPrefixes` states everything else it visits |
| CategoryTree.ChainIsCutPrefixes | WikiPlugin.cs:181-195 | the ancestor walk from `c` visits exactly `c` and the paths obtained by cutting `c` at a '/' |
| CategoryTree.ChainSetStep | WikiPlugin.cs:185-189 | one pass of the walk adds the path and continues from its parent |
| CategoryTree.SplitPathsAreChain | WikiPlugin.cs:390-401 | the paths the build loop makes from the split parts are exactly the ancestor chain of the category |
| CategoryTree.LastPathIsWhole | WikiPlugin.cs:390-401 | the last path the build loop makes is the full category |
| CategoryTree.NodeSetPrefixClosed | WikiPlugin.cs:381-407 | every prefix of every category cut at a '/' is a node of the built tree |
| CategoryTree.NodeSetOnlyPrefixes | WikiPlugin.cs:381-407 | every node of the built tree is such a prefix of some category |
| CategoryTree.IntermediateDefaultsOpen | WikiPlugin.cs:409-413 | a new node that is not itself a category defaults to open |
| CategoryTree.FirstFullCategoryDefaultsClosed | WikiPlugin.cs:383-387 | a category not met before as a prefix defaults to closed |
| CategoryTree.DefaultOpenByFirstBringer | WikiPlugin.cs:381-413 | the default `DefaultOpen` gives a new node is decided by the first category whose ancestor chain holds the node: closed when that category is the node itself, open otherwise |
| CategoryTree.DefaultDependsOnOrder | WikiPlugin.cs:381-413 | "A" before "A/B" leaves "A" closed; "A/B" before "A" leaves it open |
| CategoryTree.TreeChildrenDetermined | WikiPlugin.cs:415-419 | in a well-formed tree, the children of a node are fixed by the node set |
| CategoryTree.TreeDeterminedByNodes | WikiPlugin.cs:415-419 | two well-formed trees with the same nodes have the same child lists up to order |
| CategoryTree.ChildChainLength | WikiPlugin.cs:415-419 | a child is one level deeper than its parent |
| CategoryTree.OneRoot | WikiPlugin.cs:279-280 | a path has a single root: its only cut prefix without '/' |
| FoldState.Tokens | WikiPlugin.cs:76-78 | an empty saved string gives no tokens; otherwise the comma-separated pieces, none containing ',', which join back into the saved string |
| FoldState.Loaded | WikiPlugin.cs:76-89 | loading an empty string changes nothing; each token becomes open; no entry is closed; other entries keep their value |
| FoldState.LoadSaveRoundTrip | WikiPlugin.cs:72-100 | loading the join of a listing of the open paths gives the same fold map, when no path contains ',' |
| Sidebar.Roots | WikiPlugin.cs:279-282 | the roots are exactly the nodes without '/', sorted, each once |
| Sidebar.RootsExample | WikiPlugin.cs:279-282 | with categories "A", "A/B" and "A/B/C" the only root is "A" |
| Sidebar.IsOpen | WikiPlugin.cs:433-448 | a category without a fold entry reads as closed, as the `false` the source inserts for it |
| Sidebar.SortedChildren | WikiPlugin.cs:491 | the children are listed sorted, as a permutation of the node's child list |
| Sidebar.ChildrenListedOnce | WikiPlugin.cs:489-495 | in a built tree each child is listed, and so walked, once |
| Sidebar.PageRows | WikiPlugin.cs:467-482 | one button per page of the category, in order, one level deeper |
| Sidebar.TreeInvChildrenLonger | WikiPlugin.cs:489-495 | a child path is longer than its parent, so the walk terminates |
| Sidebar.DrawCategory | WikiPlugin.cs:425-504 | a category's rows start with its header, which carries the label, the fold value and the indentation; a closed category shows nothing else |
| Sidebar.DrawChildren | WikiPlugin.cs:489-495 | the children's walk has at least as many rows as there are children |
| Sidebar.DrawRoots | WikiPlugin.cs:284-287 | the roots' walk has at least as many rows as there are roots |
| Sidebar.DrawSidebar | WikiPlugin.cs:277-293 | before the first build only the notice is shown; after it, at least one row per root |
| Sidebar.DrawCategoryParts | WikiPlugin.cs:443-496 | every row of a category's walk is its header, a button of its own pages, or a row of its children's walk; the last two only when it is open |
| Sidebar.DrawCategoryRows | WikiPlugin.cs:425-504 | every row under a category is a node at or below it; every category in between is open; the indentation grows by one per level |
| Sidebar.DrawChildrenRows | WikiPlugin.cs:489-495 | every row of the children's walk lies under one of the children |
| Sidebar.DrawRootsRows | WikiPlugin.cs:284-287 | every row of the roots' walk lies under one of the roots at indentation 0 |
| Sidebar.SidebarRows | WikiPlugin.cs:277-293 | every row of a built sidebar lies under a root node |
| Sidebar.RowAncestorsOpen | WikiPlugin.cs:448-496 | rows show only tree nodes and pages of open ones; nothing below a closed category is shown |
| Sidebar.LeadingSlashNeverShown | WikiPlugin.cs:279-280 | a category that starts with '/', such as "/B", never appears, nor do its pages |
| Sidebar.ShownCategoryRows | WikiPlugin.cs:279-495 | the whole walk of a node reached through open categories from a root, and not starting with '/', is in the sidebar, at the node's depth |
| Sidebar.ShownWhenAncestorsOpen | WikiPlugin.cs:443-496 | such a node's header is shown at its depth, and, when it is open, a button for each of its pages one level deeper |
| Sidebar.HeaderShownIff | WikiPlugin.cs:279-496 | a category's header is shown exactly when it is a node, does not start with '/' and every category above it is open |
| Sidebar.PageShownIff | WikiPlugin.cs:279-496 | a page's button is shown exactly when its category is such a node and is open itself |
| Plugin.SaveThenLoadKeepsFolds | WikiPlugin.cs:72-100 | whatever order the save used, loading what it wrote back into the same map changes nothing |
| Plugin.DrawnCategoriesHaveFolds | WikiPlugin.cs:429-436 | once every node has a fold entry, the walk never meets a category without one |
| Plugin.ChainOpened | WikiPlugin.cs:176-197 | opening the ancestor chain opens exactly the cut prefixes and leaves other entries alone |
| Plugin.WikiPlugin.constructor | WikiPlugin.cs:58-64 | nothing is built or selected, the scroll is at the origin, and the saved string has been loaded into an empty map |
| Plugin.WikiPlugin.LoadFoldoutConfig | WikiPlugin.cs:72-91 | the new fold map is the old one with every token of the saved string opened |
| Plugin.WikiPlugin.SaveFoldoutConfig | WikiPlugin.cs:93-100 | the saved string is the comma-join of the open paths, each once, in some order |
| Plugin.WikiPlugin.SaveAndReload | WikiPlugin.cs:63 | a save followed by the reload of the change hook leaves the fold map unchanged |
| Plugin.WikiPlugin.OpenFoldoutsToPage | WikiPlugin.cs:176-197 | the category and every cut prefix of it are open afterwards; no entry is closed; other entries are unchanged; the new state is saved |
| Plugin.WikiPlugin.OpenPage | WikiPlugin.cs:166-174 | the selected page changes nothing; otherwise the page is selected, the scroll is at the origin and its category chain is open |
| Plugin.WikiPlugin.SelectFromSidebar | WikiPlugin.cs:474-480 | a click on a page button selects it and resets the scroll unless it is already selected; the folds are untouched |
| Plugin.WikiPlugin.ScrollContent | WikiPlugin.cs:304 | the content scroll view sets the scroll position |
| Plugin.WikiPlugin.OpenAllFoldouts | WikiPlugin.cs:199-205 | every known path is open; no path is added or removed |
| Plugin.WikiPlugin.CloseAllFoldouts | WikiPlugin.cs:207-213 | every known path is closed; no path is added or removed |
| Plugin.WikiPlugin.ToggleFoldout | WikiPlugin.cs:433-453 | the header toggle sets the category's value, and the folds are saved exactly when the value changed |
| Plugin.WikiPlugin.AddCategory | WikiPlugin.cs:383-420 | one category adds its ancestor chain as nodes, keeps the tree well formed, and fills in only missing fold entries (closed for the category, open for its prefixes) |
| Plugin.WikiPlugin.BuildStep | WikiPlugin.cs:393-420 | one pass of the inner loop makes the next path a node attached to its parent and gives it a fold entry if missing |
| Plugin.WikiPlugin.EnsureNode | WikiPlugin.cs:403-419 | the path becomes a node; past the first segment it is in its parent's child list once, unless the parent is "" |
| Plugin.WikiPlugin.BuildCategoryTree | WikiPlugin.cs:373-422 | the tree's nodes are exactly the cut prefixes of the categories, in a well-formed tree; existing fold entries are never overwritten; new ones get the order-dependent default; a second build over the same categories changes neither the fold map nor the child lists' members |
| Plugin.WikiPlugin.RebuildCategoryTree | WikiPlugin.cs:103-111 | builds the tree from the categories of all registered pages |
| Scenario.ExampleNodes | WikiPlugin.cs:381-407 | the categories "A", "A/B" and "C" give exactly those three nodes |
| Scenario.ExampleTree | WikiPlugin.cs:279-282 | over those nodes the roots are "A" and "C", and "A" has the single child "A/B" |
| Scenario.ExampleOpened | WikiPlugin.cs:176-197 | opening "A/B" leaves exactly "A" and "A/B" open |
| Scenario.ExampleSession | WikiPlugin.cs:166-197 | after registering three pages, a rebuild and opening the page under "A/B", the roots are "A" and "C", "A/B" is the only child of "A", and the saved string lists exactly "A" and "A/B" |
| Scenario.EmptyCategoryShown | WikiPlugin.cs:279-287 | in any well-formed tree that holds the empty category, it has no '/', so it is a root and its header is drawn at indentation 0 |

## Left out

- Window and UI chrome are not modelled: `OnGUI`, the layout, styles and buttons of `DrawWindow`, and `DrawImageWindow`. They are Unity IMGUI presentation. The Open All / Close All buttons are modelled as the two methods they call; the header toggle is `ToggleFoldout`; a page button click is `SelectFromSidebar`.
- `OpenImage` is not modelled. It does file I/O, texture decoding and float scaling.
- `HandleResizeButton` is not modelled. It handles float mouse geometry and Unity events.
- `Update` is not modelled. It polls the keyboard to show or hide the window.
- `Awake`/`Init` configuration binding and logging are not modelled. The constructor stands for the plugin after `Init`'s load. The setting's change hook (WikiPlugin.cs:63) reloads the folds after every save that changes the string. The model runs that reload only in `SaveAndReload`. Its effect is nil when no path contains ','; when one does, the reload also opens the comma-separated pieces of that path.
- The content callback is a token, and invoking it for the selected page is not modelled.
- The sidebar's own scroll position is not modelled. The content scroll is an abstract value.
- The culture-sensitive comparer of `OrderBy` is replaced by the ordinal order on character codes. The two orders can differ: a culture comparer puts "a" before "B", the ordinal order puts "B" first. So the model's row order for roots and siblings can differ from the source's. What is proved about which rows appear holds for any total order, and so does the fact that the root list and each child list name every path once (`Roots`, `ChildrenListedOnce`). No lemma states that a row occurs only once in the whole sidebar.
- `OpenAllFoldouts`, `CloseAllFoldouts`: they assign to the dictionary while enumerating its keys, which can throw on some .NET runtimes. The model gives the intended effect, a loop over a snapshot of the keys.
- `BuildCategoryTree`: states the members of each child list and that it has no duplicates, not their order. The order follows the dictionary's enumeration order.
- `SaveFoldoutConfig`: states which paths the saved string lists, not their order. The order follows the dictionary's enumeration order.
- `AddCategory`: gathers one category's fold updates in a local map and stores it into the field when that category is done. The source writes the field at each step. Nothing reads the field in between.
- The null checks on strings and pages are not modelled: Dafny strings and values are never null. The `currentCategory != null` test of the ancestor walk is therefore always true.
- `OpenPage`: does not require the page identity to match a registry entry. The source takes any page object. Its fold effect is that of `OpenFoldoutsToPage`, with the same caveat.
- `OpenFoldoutsToPage`: its `foldouts.Keys == old(foldouts).Keys + ChainSet(category)` and the untouched rest hold of the source only when no fold key contains ','. The source's save (WikiPlugin.cs:196) fires the change hook's reload (WikiPlugin.cs:63), which would also open the comma-separated pieces of such a key.
- `ToggleFoldout`: its `foldouts == old(foldouts)[category := value]` holds of the source only when no fold key contains ','. The save on a change (WikiPlugin.cs:452) fires the same reload.
