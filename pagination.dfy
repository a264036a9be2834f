/** The paging arithmetic shared by the search, host history, host
    screenshot and screenshot browsing pages, and the choice of search
    index. `page` is the requested page number (1 when the query argument
    is absent), `rpp` the user's results-per-page setting and `count` the
    total number of matches the index reports. */
module Pagination {
  import opened Wrappers

  /** The links a results page shows: the offset of its first result, and the
      page numbers its "next" and "previous" links point to, if any. */
  datatype Links = Links(offset: int, next: Option<int>, prev: Option<int>)

  /** Index of the first result shown on `page`. */
  function Offset(rpp: int, page: int): int
  {
    rpp * (page - 1)
  }

  function PageLinks(count: int, page: int, rpp: int): Links
  {
    Links(Offset(rpp, page),
          if count > page * rpp then Some(page + 1) else None,
          if page > 1 then Some(page - 1) else None)
  }

  /** The next link exists exactly when there are results past the end of
      this page, and the page it names starts where this one ends. */
  lemma NextIffMoreResults(count: int, page: int, rpp: int)
    ensures var l := PageLinks(count, page, rpp);
      && (l.next.Some? <==> count > l.offset + rpp)
      && (l.next.Some? ==> l.next.value == page + 1 && Offset(rpp, page + 1) == l.offset + rpp)
  {
  }

  /** For a positive page size, the previous link exists exactly when this
      page starts past the first result (page 0 and negative pages, which
      the `page` argument admits, have none), and the page it names ends
      where this one starts. */
  lemma PrevIffNotFirst(count: int, page: int, rpp: int)
    requires rpp > 0
    ensures var l := PageLinks(count, page, rpp);
      && (l.prev.Some? <==> l.offset > 0)
      && (l.prev.Some? ==> Offset(rpp, l.prev.value) + rpp == l.offset)
  {
    if page > 1 {
      assert rpp * (page - 1) >= rpp * 1;
    } else {
      assert rpp * (page - 1) <= 0;
    }
  }

  /** Following next links from page 1 reaches every result: result `k` is
      shown on page `k / rpp + 1`, and every earlier page has a next link. */
  lemma {:induction false} EveryResultReachable(count: int, rpp: int, k: int)
    requires rpp > 0 && 0 <= k < count
    ensures var p := k / rpp + 1;
      && Offset(rpp, p) <= k < Offset(rpp, p) + rpp
      && forall q :: 1 <= q < p ==> PageLinks(count, q, rpp).next == Some(q + 1)
  {
    var p := k / rpp + 1;
    assert Offset(rpp, p) == rpp * (k / rpp);
    assert k == rpp * (k / rpp) + k % rpp;
    forall q | 1 <= q < p ensures q * rpp < count {
      assert q <= k / rpp;
      assert q * rpp <= (k / rpp) * rpp;
    }
  }

  /** The last non-empty page has no next link. */
  lemma LastPageEnds(count: int, rpp: int)
    requires rpp > 0 && count > 0
    ensures var p := (count - 1) / rpp + 1;
      && Offset(rpp, p) < count
      && PageLinks(count, p, rpp).next == None
  {
    var p := (count - 1) / rpp + 1;
    assert count - 1 == rpp * ((count - 1) / rpp) + (count - 1) % rpp;
    assert p * rpp == rpp * ((count - 1) / rpp) + rpp;
  }

  const HistoryIndex := "nmap_history"
  const LatestIndex := "nmap"

  /** Python truthiness of a query argument read with a default of `False`:
      present and not the empty string. */
  predicate Truthy(arg: Option<string>)
  {
    arg.Some? && arg.value != ""
  }

  /** The index `search` queries. */
  function SearchIndex(includeHistory: Option<string>): (index: string)
    ensures index == HistoryIndex <==> Truthy(includeHistory)
    ensures index == LatestIndex <==> !Truthy(includeHistory)
  {
    if Truthy(includeHistory) then HistoryIndex else LatestIndex
  }

  /** What `search` asks of the index and which links it renders; `hostlist`
      is whether the plain-text host list is returned instead of the page. */
  datatype SearchPlan = SearchPlan(index: string, links: Links, hostlist: bool)

  function Search(includeHistory: Option<string>, format: string, page: int, rpp: int, count: int): (r: SearchPlan)
    ensures r.index == SearchIndex(includeHistory)
    ensures r.links == PageLinks(count, page, rpp)
    ensures r.hostlist <==> format == "hostlist"
  {
    // both arms of the includeHistory test compute the same links; they
    // differ only in the URL they carry
    SearchPlan(SearchIndex(includeHistory), PageLinks(count, page, rpp), format == "hostlist")
  }

  /** `host_history`: not found when the host has no history, otherwise the
      shared paging rule over the history count. The source spells the rule
      out again in each route; here each route goes through `PageLinks`. */
  function HostHistory(page: int, rpp: int, count: int): (r: Option<Links>)
    ensures r.None? <==> count == 0
    ensures r.Some? ==> r.value == PageLinks(count, page, rpp)
  {
    if count == 0 then None else Some(PageLinks(count, page, rpp))
  }

  /** `host_screenshots`: the shared paging rule over the host's screenshot
      entries. */
  function HostScreenshots(page: int, rpp: int, totalEntries: int): (r: Links)
    ensures r.next.Some? <==> totalEntries > page * rpp
    ensures r == PageLinks(totalEntries, page, rpp)
  {
    PageLinks(totalEntries, page, rpp)
  }

  /** `browseScreenshots`: the shared paging rule over the number of hosts
      with screenshots (not the number of screenshots). */
  function BrowseScreenshots(page: int, rpp: int, totalHosts: int): (r: Links)
    ensures r.next.Some? <==> totalHosts > page * rpp
    ensures r == PageLinks(totalHosts, page, rpp)
  {
    PageLinks(totalHosts, page, rpp)
  }
}
