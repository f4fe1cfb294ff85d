/**
 * The placeholders page: a searchable table of every placeholder, shown a
 * page at a time with a "Showing a-b of n" summary.
 */
module Placeholders {
  import opened Options
  import opened Text
  import opened Lists
  import opened Pagination
  import opened PlaceholderTypes

  /** `id.split('.')[0]`: the id up to its first dot, or the whole id when it has none. */
  function IdPrefix(id: string): (r: string)
    ensures |r| <= |id| && r == id[..|r|]
    ensures '.' !in r
    ensures |r| < |id| ==> id[|r|] == '.'
  {
    if id == [] || id[0] == '.' then [] else [id[0]] + IdPrefix(id[1..])
  }

  lemma IdPrefixOfQualified(group: string, field: string)
    requires '.' !in group
    ensures IdPrefix(group + "." + field) == group
  {
    var id := group + "." + field;
    var r := IdPrefix(id);
    assert id[|group|] == '.';
    assert forall k :: 0 <= k < |group| ==> id[k] == group[k] && id[k] != '.';
    assert forall k :: 0 <= k < |r| ==> r[k] == id[k] && r[k] != '.';
    assert r == id[..|group|] == group;
  }

  /** Whether some enum value contains the (already lowercased) term. */
  predicate SomeEnumValueContains(vals: seq<string>, lowered: string)
    ensures SomeEnumValueContains(vals, lowered) <==> exists v :: v in vals && Contains(Lower(v), lowered)
  {
    if vals == [] then false
    else Contains(Lower(vals[0]), lowered) || SomeEnumValueContains(vals[1..], lowered)
  }

  /** The search over name, display name, value, description, type, id prefix and enum values. */
  predicate PlaceholderMatches(p: Placeholder, term: string) {
    var t := Lower(term);
    Contains(Lower(p.name), t)
    || Contains(Lower(p.displayName), t)
    || Contains(Lower(p.value), t)
    || (p.description.Some? && Contains(Lower(p.description.value), t))
    || Contains(Lower(p.ptype.Tag()), t)
    || Contains(Lower(IdPrefix(p.id)), t)
    || (p.enumValues.Some? && SomeEnumValueContains(p.enumValues.value, t))
  }

  /** Without a description or enum values, only the five other fields can match. */
  lemma MissingOptionalFieldsNeverMatch(p: Placeholder, term: string)
    requires p.description.None? && p.enumValues.None?
    ensures PlaceholderMatches(p, term) <==>
              var t := Lower(term);
              Contains(Lower(p.name), t) || Contains(Lower(p.displayName), t) || Contains(Lower(p.value), t)
              || Contains(Lower(p.ptype.Tag()), t) || Contains(Lower(IdPrefix(p.id)), t)
  {
  }

  /** `filteredPlaceholders`: an empty term shows everything, otherwise the matches in order. */
  function FilteredPlaceholders(all: seq<Placeholder>, term: string): (r: seq<Placeholder>)
    ensures term == "" ==> r == all
    ensures term != "" ==> forall p :: p in r <==> p in all && PlaceholderMatches(p, term)
    ensures term != "" ==> forall p :: Count(r, p) == if PlaceholderMatches(p, term) then Count(all, p) else 0
    ensures IsSubseq(r, all)
  {
    if term == "" then
      assert IsSubseq(all, all) by { SubseqRefl(all); }
      all
    else Filter(all, p => PlaceholderMatches(p, term))
  }

  lemma {:induction false} SubseqRefl<T>(s: seq<T>)
    ensures IsSubseq(s, s)
  {
    if s != [] {
      SubseqRefl(s[1..]);
    }
  }

  /** Every placeholder is found by searching for its own group prefix. */
  lemma FoundByOwnPrefix(all: seq<Placeholder>, p: Placeholder)
    requires p in all && IdPrefix(p.id) != ""
    ensures p in FilteredPlaceholders(all, IdPrefix(p.id))
  {
    var t := IdPrefix(p.id);
    LowerIdempotent(t);
    ContainsSelf(Lower(t));
  }

  lemma LowerIdempotent(s: string)
    ensures Lower(Lower(s)) == Lower(s)
  {
  }

  lemma ContainsSelf(s: string)
    ensures Contains(s, s)
  {
    assert OccursAt(s, s, 0);
    OccursContains(s, s, 0);
  }

  /**
   * The summary line's range as written, `startIndex + 1` to
   * `Math.min(startIndex + pageSize, totalItems)`: with no items it reads 1-0.
   */
  function SummaryRangeAsWritten(start: int, pageSize: nat, total: nat): (r: (int, int))
    ensures 0 <= start < total ==> r.1 - r.0 + 1 == Min(pageSize, total - start)
    ensures 0 <= start && total == 0 ==> r.1 < r.0
  {
    (start + 1, Min(start + pageSize, total))
  }

  lemma EmptySummaryReadsOneToZero(pageSize: nat)
    requires pageSize > 0
    ensures SummaryRangeAsWritten(PageStart(1, pageSize), pageSize, 0) == (1, 0)
  {
  }

  /** The summary's range: the 1-based positions of the first and last rows shown, 0-0 when none are. */
  function SummaryRange(start: int, pageSize: nat, total: nat): (r: (int, int))
    ensures total == 0 ==> r == (0, 0)
    ensures total > 0 ==> r == SummaryRangeAsWritten(start, pageSize, total)
  {
    if total == 0 then (0, 0) else (start + 1, Min(start + pageSize, total))
  }

  /** On every existing page, the summary counts exactly the rows shown. */
  lemma SummaryMatchesPage(items: seq<Placeholder>, page: int, pageSize: nat)
    requires pageSize > 0 && 1 <= page <= TotalPages(|items|, pageSize)
    ensures var r := SummaryRange(PageStart(page, pageSize), pageSize, |items|);
            r.1 - r.0 + 1 == |Page(items, page, pageSize)| && 1 <= r.0 <= r.1 <= |items|
  {
    PageNonEmpty(items, page, pageSize);
    var start := PageStart(page, pageSize);
    assert |Page(items, page, pageSize)| == Min(start + pageSize, |items|) - start;
  }

  class PlaceholdersPage {
    const catalogue: seq<Placeholder>
    var searchTerm: string
    var currentPage: int
    var pageSize: nat

    /** The page size starts at 20 and is always positive. */
    ghost predicate Valid()
      reads this
    {
      pageSize > 0
    }

    constructor (all: seq<Placeholder>)
      ensures Valid()
      ensures catalogue == all && searchTerm == "" && currentPage == 1 && pageSize == 20
    {
      catalogue := all;
      searchTerm := "";
      currentPage := 1;
      pageSize := 20;
    }

    function Filtered(): seq<Placeholder>
      reads this
    {
      FilteredPlaceholders(catalogue, searchTerm)
    }

    /** `paginatedPlaceholders`: the rows of the current page. */
    function Rows(): (r: seq<Placeholder>)
      reads this
      ensures currentPage >= 1 ==> |r| <= pageSize
    {
      Page(Filtered(), currentPage, pageSize)
    }

    /**
     * The results summary as the page renders it: on an existing page it
     * counts exactly the rows shown, and with no match on page 1 it reads
     * 1-0 (see `SummaryRange` for the intended 0-0).
     */
    function Summary(): (r: (int, int))
      reads this
      ensures pageSize > 0 && 1 <= currentPage <= TotalPages(|Filtered()|, pageSize) ==>
                r.1 - r.0 + 1 == |Rows()| && 1 <= r.0 <= r.1 <= |Filtered()|
      ensures |Filtered()| == 0 && currentPage == 1 ==> r == (1, 0)
    {
      var r := SummaryRangeAsWritten(PageStart(currentPage, pageSize), pageSize, |Filtered()|);
      assert pageSize > 0 && 1 <= currentPage <= TotalPages(|Filtered()|, pageSize) ==>
               r.1 - r.0 + 1 == |Rows()| && 1 <= r.0 <= r.1 <= |Filtered()| by {
        if pageSize > 0 && 1 <= currentPage <= TotalPages(|Filtered()|, pageSize) {
          SummaryMatchesPage(Filtered(), currentPage, pageSize);
        }
      }
      r
    }

    /** Typing in the search box; the effect on `searchTerm` goes back to page 1 when the term changed. */
    method SetSearchTerm(term: string)
      requires Valid()
      modifies this
      ensures Valid()
      ensures searchTerm == term && pageSize == old(pageSize)
      ensures term != old(searchTerm) ==> currentPage == 1
      ensures term == old(searchTerm) ==> currentPage == old(currentPage)
    {
      if term != searchTerm {
        currentPage := 1;
      }
      searchTerm := term;
    }

    /** `handlePageSizeChange`: a new page size goes back to page 1. */
    method HandlePageSizeChange(newPageSize: nat)
      requires Valid() && newPageSize > 0
      modifies this
      ensures Valid()
      ensures pageSize == newPageSize && currentPage == 1 && searchTerm == old(searchTerm)
    {
      pageSize := newPageSize;
      currentPage := 1;
    }

    /** Choosing a page in the pager. */
    method SetCurrentPage(page: int)
      requires Valid()
      modifies this
      ensures Valid()
      ensures currentPage == page && pageSize == old(pageSize) && searchTerm == old(searchTerm)
    {
      currentPage := page;
    }
  }
}
