/**
 * Highlighting the navigation link of the current page when a page loads:
 * the page is the last `/`-separated segment of the location's pathname, or
 * `index.html` when that segment is empty, and a link is `active` exactly
 * when its `href` attribute equals that page.
 */
module Navigation {
  import opened Wrappers
  import opened Text

  const DefaultPage := "index.html"

  /** `pathname.split('/').pop() || 'index.html'`. */
  function CurrentPage(pathname: string): (page: string)
    ensures page != "" && '/' !in page
    ensures page == DefaultPage || (|page| <= |pathname| && page == pathname[|pathname| - |page|..])
  {
    LastPieceIsSuffix(pathname, '/');
    assert '/' !in DefaultPage by { assert forall i | 0 <= i < |DefaultPage| :: DefaultPage[i] != '/'; }
    var segments := Split(pathname, '/');
    var last := segments[|segments| - 1];
    if last == "" then DefaultPage else last
  }

  /** For a pathname that is empty or ends in `/`, the current page is `index.html`. */
  lemma CurrentPageOfDirectory(pathname: string)
    requires pathname == "" || pathname[|pathname| - 1] == '/'
    ensures CurrentPage(pathname) == DefaultPage
  {
    LastOfSplit(pathname, '/');
  }

  /**
   * For any other pathname, the current page is its longest `/`-free
   * suffix: what follows the last `/`, or the whole pathname if it has none.
   */
  lemma CurrentPageOfFile(pathname: string)
    requires pathname != "" && pathname[|pathname| - 1] != '/'
    ensures var page := CurrentPage(pathname);
      && page != "" && '/' !in page
      && |page| <= |pathname| && page == pathname[|pathname| - |page|..]
      && (|page| == |pathname| || pathname[|pathname| - |page| - 1] == '/')
  {
    var r := AfterLast(pathname, '/');
    AfterLastSpec(pathname, '/');
    assert r != [] by {
      assert r == AfterLast(pathname[..|pathname| - 1], '/') + [pathname[|pathname| - 1]];
    }
    assert CurrentPage(pathname) == r by {
      LastOfSplit(pathname, '/');
    }
  }

  /** The indices of the links whose `href` is `page`. */
  function ActiveLinks(hrefs: seq<Option<string>>, page: string): set<nat>
  {
    set i | 0 <= i < |hrefs| && hrefs[i] == Some(page)
  }

  /** No two links that have an `href` share it. */
  predicate DistinctHrefs(hrefs: seq<Option<string>>)
  {
    forall i, j | 0 <= i < j < |hrefs| && hrefs[i].Some? :: hrefs[i] != hrefs[j]
  }

  /**
   * The loop over the navigation links: each link gets `active` when its
   * `href` equals the current page and loses it otherwise. `active[i]` is
   * whether link `i` carries the class; `hrefs[i]` is its `href` attribute,
   * `None` when it has none.
   */
  method MarkActive(hrefs: seq<Option<string>>, active: array<bool>, page: string)
    requires active.Length == |hrefs|
    modifies active
    ensures forall i | 0 <= i < |hrefs| :: active[i] == (hrefs[i] == Some(page))
  {
    for i := 0 to |hrefs|
      invariant forall j | 0 <= j < i :: active[j] == (hrefs[j] == Some(page))
    {
      if hrefs[i] == Some(page) {
        active[i] := true;
      } else {
        active[i] := false;
      }
    }
  }

  /** On page load: work out the current page from the pathname and highlight its links. */
  method HighlightCurrentPage(pathname: string, hrefs: seq<Option<string>>, active: array<bool>)
    returns (page: string)
    requires active.Length == |hrefs|
    modifies active
    ensures page == CurrentPage(pathname)
    ensures forall i | 0 <= i < |hrefs| :: active[i] == (i in ActiveLinks(hrefs, page))
  {
    page := CurrentPage(pathname);
    MarkActive(hrefs, active, page);
  }

  /**
   * With distinct `href`s and a link to the current page, exactly that one
   * link is active; with no link to it, none is.
   */
  lemma ActiveLinkIsUnique(hrefs: seq<Option<string>>, page: string)
    requires DistinctHrefs(hrefs)
    ensures Some(page) in hrefs ==> exists k :: ActiveLinks(hrefs, page) == {k}
    ensures Some(page) !in hrefs ==> ActiveLinks(hrefs, page) == {}
  {
    if Some(page) in hrefs {
      var k :| 0 <= k < |hrefs| && hrefs[k] == Some(page);
      forall i | i in ActiveLinks(hrefs, page) ensures i == k {
      }
      assert ActiveLinks(hrefs, page) == {k};
    }
  }
}
