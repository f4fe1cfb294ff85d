/** The group selection page: the active groups, narrowed by a search. */
module GroupSelection {
  import opened Text
  import opened Lists

  datatype Status = Active | Inactive

  datatype Group = Group(id: string, name: string, description: string, status: Status,
                         sectionsCount: nat, createdAt: string)

  predicate MatchesSearch(g: Group, term: string) {
    Contains(Lower(g.name), Lower(term)) || Contains(Lower(g.description), Lower(term))
  }

  /** `filteredGroups`: only active groups are offered, and only those that match the search. */
  function FilteredGroups(gs: seq<Group>, term: string): (r: seq<Group>)
    ensures forall g :: g in r <==> g in gs && g.status == Active && MatchesSearch(g, term)
    ensures forall g :: Count(r, g) == if g.status == Active && MatchesSearch(g, term) then Count(gs, g) else 0
    ensures IsSubseq(r, gs)
  {
    Filter(gs, (g: Group) => g.status == Active && MatchesSearch(g, term))
  }

  /** With no search term, exactly the active groups are offered. */
  lemma EmptySearchOffersActive(gs: seq<Group>)
    ensures FilteredGroups(gs, "") == Filter(gs, (g: Group) => g.status == Active)
  {
    forall g: Group ensures MatchesSearch(g, "") {
      ContainsEmpty(Lower(g.name));
    }
    FilterExt(gs, (g: Group) => g.status == Active && MatchesSearch(g, ""), (g: Group) => g.status == Active);
  }
}
