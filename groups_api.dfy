/**
 * The mocked server-side groups endpoint: search by name, then cut one page
 * out of the matches and report the page bookkeeping with it.
 */
module GroupsApi {
  import opened Text
  import opened Lists
  import opened Pagination

  datatype ApiGroup = ApiGroup(id: string, name: string, sectionCount: nat)

  datatype GroupsApiResponse = GroupsApiResponse(
    groups: seq<ApiGroup>,
    totalCount: nat,
    currentPage: int,
    totalPages: nat,
    hasNextPage: bool,
    hasPreviousPage: bool)

  /** The search: an empty term matches every group, else the lowercased name must contain it. */
  predicate NameMatches(g: ApiGroup, term: string) {
    term == "" || Contains(Lower(g.name), Lower(term))
  }

  function Matching(all: seq<ApiGroup>, term: string): (r: seq<ApiGroup>)
    ensures forall g :: g in r <==> g in all && NameMatches(g, term)
    ensures forall g :: Count(r, g) == if NameMatches(g, term) then Count(all, g) else 0
    ensures IsSubseq(r, all)
    ensures term == "" ==> r == all
  {
    Filter(all, g => NameMatches(g, term))
  }

  /** One response of the endpoint for `page`, `pageSize` and `searchTerm`. */
  function FetchGroups(all: seq<ApiGroup>, page: int, pageSize: nat, term: string): (r: GroupsApiResponse)
    requires pageSize > 0
    ensures r.totalCount == |Matching(all, term)|
    ensures r.totalCount <= r.totalPages * pageSize
    ensures r.totalPages > 0 ==> (r.totalPages - 1) * pageSize < r.totalCount
    ensures r.currentPage == page
    ensures r.hasNextPage <==> page < r.totalPages
    ensures r.hasPreviousPage <==> page > 1
    ensures forall g :: g in r.groups ==> g in all && NameMatches(g, term)
    ensures page >= 1 ==> |r.groups| <= pageSize
    ensures page >= 1 ==> r.groups == Page(Matching(all, term), page, pageSize)
  {
    var filtered := Matching(all, term);
    var total := TotalPages(|filtered|, pageSize);
    var groups := Page(filtered, page, pageSize);
    assert forall g :: g in groups ==> g in filtered by {
      var s := PageStart(page, pageSize);
      assert groups == JsSlice(filtered, s, s + pageSize);
      JsSliceIn(filtered, s, s + pageSize);
    }
    GroupsApiResponse(groups, |filtered|, page, total, page < total, page > 1)
  }

  /** Every item of a slice is an item of the list. */
  lemma JsSliceIn<T>(s: seq<T>, start: int, end: int)
    ensures forall x :: x in JsSlice(s, start, end) ==> x in s
  {
    var a := SliceIndex(start, |s|);
    var b := SliceIndex(end, |s|);
    forall x | x in JsSlice(s, start, end) ensures x in s {
      if a < b {
        assert JsSlice(s, start, end) == s[a..b];
        var k :| a <= k < b && s[k] == x;
      }
    }
  }

  /** Whenever a response says there is a next page, that page holds at least one group. */
  lemma NextPageNonEmpty(all: seq<ApiGroup>, page: int, pageSize: nat, term: string)
    requires pageSize > 0 && page >= 1
    requires FetchGroups(all, page, pageSize, term).hasNextPage
    ensures |FetchGroups(all, page + 1, pageSize, term).groups| > 0
  {
    PageNonEmpty(Matching(all, term), page + 1, pageSize);
  }

  /** Fetching pages 1 to `k` and joining them gives the first `k * pageSize` matches. */
  function Fetched(all: seq<ApiGroup>, pageSize: nat, term: string, k: nat): seq<ApiGroup>
    requires pageSize > 0
  {
    if k == 0 then [] else Fetched(all, pageSize, term, k - 1) + FetchGroups(all, k, pageSize, term).groups
  }

  /** Walking every page the endpoint reports yields each match exactly once, in order. */
  lemma {:induction false} FetchAllPages(all: seq<ApiGroup>, pageSize: nat, term: string)
    requires pageSize > 0
    ensures Fetched(all, pageSize, term, FetchGroups(all, 1, pageSize, term).totalPages) == Matching(all, term)
  {
    var m := Matching(all, term);
    var n := TotalPages(|m|, pageSize);
    FetchedIsPages(all, pageSize, term, n);
    PagesReassemble(m, pageSize);
  }

  lemma {:induction false} FetchedIsPages(all: seq<ApiGroup>, pageSize: nat, term: string, k: nat)
    requires pageSize > 0
    ensures Fetched(all, pageSize, term, k) == PagesUpTo(Matching(all, term), pageSize, k)
  {
    if k > 0 {
      FetchedIsPages(all, pageSize, term, k - 1);
    }
  }
}
