/** The paging rule of src/hooks/existing-product-list.ts: which page the
    infinite query asks for first, which one next, and the request URL. */
module ProductQuery {
  import opened Collections
  import opened Text
  import opened Products

  /** One page of search results. */
  type Page = seq<Product>

  /** `initialPageParam`. */
  const InitialPageParam: nat := 1

  /** `getNextPageParam(lastPage, pages)`: no further page after an empty
      one, otherwise one more than the number of pages loaded. */
  function GetNextPageParam(pages: seq<Page>): (next: Option<nat>)
    requires |pages| > 0
    ensures next.None? <==> pages[|pages| - 1] == []
    ensures next.Some? ==> next.value == |pages| + 1
  {
    if pages[|pages| - 1] == [] then None else Some(|pages| + 1)
  }

  /** `hasNextPage` as the query reports it. */
  predicate HasNextPage(pages: seq<Page>)
    requires |pages| > 0
    ensures HasNextPage(pages) <==> pages[|pages| - 1] != []
  {
    GetNextPageParam(pages).Some?
  }

  /** The query fetches another page only after a page that was not empty,
      so in any history it can reach every page but the last is non-empty. */
  predicate Reachable(pages: seq<Page>)
  {
    |pages| > 0 && forall j :: 0 <= j < |pages| - 1 ==> pages[j] != []
  }

  /** The page numbers requested to load `pages`: the initial one, then each
      next page number computed from the pages loaded so far. They are
      exactly 1, 2, ..., |pages|, with no gap and no repeat. */
  function RequestedPages(pages: seq<Page>): (params: seq<nat>)
    requires Reachable(pages)
    ensures |params| == |pages|
    ensures forall i :: 0 <= i < |params| ==> params[i] == i + 1
    decreases |pages|
  {
    if |pages| == 1 then [InitialPageParam]
    else
      var before := pages[..|pages| - 1];
      assert Reachable(before);
      assert before[|before| - 1] == pages[|pages| - 2];
      RequestedPages(before) + [GetNextPageParam(before).value]
  }

  /** Scenario: the second page comes back empty, so there is no third. */
  lemma EmptySecondPageStops(first: Page)
    requires first != []
    ensures Reachable([first, []])
    ensures RequestedPages([first, []]) == [1, 2]
    ensures !HasNextPage([first, []])
  {
  }

  const UrlPrefix: string := "https://stageapi.monkcommerce.app/task/products/search?search=&page="
  const UrlSuffix: string := "&limit=10"

  /** The request URL for page `page`: an empty search, that page number and
      a fixed limit of ten. */
  function PageUrl(page: nat): (url: string)
    ensures |url| >= |UrlPrefix| + |UrlSuffix|
    ensures url[..|UrlPrefix|] == UrlPrefix
    ensures url[|url| - |UrlSuffix|..] == UrlSuffix
    ensures url[|UrlPrefix|..|url| - |UrlSuffix|] == NatToString(page)
  {
    var url := UrlPrefix + NatToString(page) + UrlSuffix;
    assert url[..|UrlPrefix|] == UrlPrefix;
    assert url[|url| - |UrlSuffix|..] == UrlSuffix;
    assert url[|UrlPrefix|..|url| - |UrlSuffix|] == NatToString(page);
    url
  }

  /** The page number is recovered from the URL: different pages are
      requested at different URLs. */
  lemma PageUrlDeterminesPage(a: nat, b: nat)
    ensures PageUrl(a) == PageUrl(b) <==> a == b
  {
    if PageUrl(a) == PageUrl(b) {
      ParseIntRoundTrip(a);
      ParseIntRoundTrip(b);
    }
  }
}
