/**
 * The page registry of the wiki API: an append-only list of pages, and the
 * grouping of that list by category that the plugin does before it builds
 * the category tree.
 */
module Registry {
  import opened Text

  /** The page's content callback: an opaque action, kept as an uninterpreted token. */
  datatype Callback = Callback(token: nat)

  /** One registered page. Its identity is its index in the registry. */
  datatype PageInfo = PageInfo(category: string, pageName: string, content: Callback)

  /** The registry object; `pages` is the private page list. */
  class WikiApi {
    var pages: seq<PageInfo>

    constructor ()
      ensures pages == []
    {
      pages := [];
    }

    /** Appends one page; there is no uniqueness check and no rebuild of the tree. */
    method RegisterPage(category: string, name: string, contentCallback: Callback)
      modifies this
      ensures pages == old(pages) + [PageInfo(category, name, contentCallback)]
    {
      pages := pages + [PageInfo(category, name, contentCallback)];
    }

    /** All registered pages, in registration order. */
    method GetPages() returns (r: seq<PageInfo>)
      ensures r == pages
    {
      r := pages;
    }
  }

  /**
   * The keys of `GroupBy(p => p.Category)`: every category of a page exactly
   * once, in the order of first registration.
   */
  function GroupKeys(pages: seq<PageInfo>): (keys: seq<string>)
    ensures NoDuplicates(keys)
    ensures forall c :: c in keys <==> exists i :: 0 <= i < |pages| && pages[i].category == c
  {
    if pages == [] then []
    else
      var n := |pages| - 1;
      var ks := GroupKeys(pages[..n]);
      assert forall i :: 0 <= i < n ==> pages[..n][i] == pages[i];
      if pages[n].category in ks then ks else ks + [pages[n].category]
  }

  /**
   * The group of category `c`: the identities (registry indices) of its pages,
   * in registration order.
   */
  function PagesOf(pages: seq<PageInfo>, c: string): (ids: seq<nat>)
    ensures forall k :: 0 <= k < |ids| ==> ids[k] < |pages| && pages[ids[k]].category == c
    ensures forall i :: 0 <= i < |pages| && pages[i].category == c ==> i in ids
    ensures forall k, l :: 0 <= k < l < |ids| ==> ids[k] < ids[l]
  {
    if pages == [] then []
    else
      var n := |pages| - 1;
      var ids := PagesOf(pages[..n], c);
      assert forall i :: 0 <= i < n ==> pages[..n][i] == pages[i];
      if pages[n].category == c then ids + [n] else ids
  }
}
