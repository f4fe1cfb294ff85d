/**
 * The placeholder picker dialog: placeholder groups that can be expanded and
 * collapsed, narrowed by a search over display names and values.
 */
module PlaceholderPicker {
  import opened Options
  import opened Text
  import opened Lists
  import opened PlaceholderTypes

  /** The picker's search: display name or value contains the term; an empty term matches all. */
  predicate PickerMatches(p: Placeholder, term: string) {
    term == "" || Contains(Lower(p.displayName), Lower(term)) || Contains(Lower(p.value), Lower(term))
  }

  /** A group keeping only its matching placeholders. */
  function Narrow(g: PlaceholderGroup, term: string): (r: PlaceholderGroup)
    ensures r.id == g.id && r.name == g.name
    ensures forall p :: p in r.placeholders <==> p in g.placeholders && PickerMatches(p, term)
    ensures IsSubseq(r.placeholders, g.placeholders)
    ensures forall p :: Count(r.placeholders, p) == if PickerMatches(p, term) then Count(g.placeholders, p) else 0
    ensures term == "" ==> r == g
  {
    g.(placeholders := Filter(g.placeholders, p => PickerMatches(p, term)))
  }

  predicate HasPlaceholders(g: PlaceholderGroup) {
    |g.placeholders| > 0
  }

  /** Every group narrowed to its matches, in the original order. */
  function NarrowAll(gs: seq<PlaceholderGroup>, term: string): (r: seq<PlaceholderGroup>)
    ensures |r| == |gs| && forall i :: 0 <= i < |gs| ==> r[i] == Narrow(gs[i], term)
  {
    seq(|gs|, i requires 0 <= i < |gs| => Narrow(gs[i], term))
  }

  /** `filteredGroups`: every group narrowed to its matches, then the groups left empty dropped. */
  function FilteredGroups(gs: seq<PlaceholderGroup>, term: string): (r: seq<PlaceholderGroup>)
    ensures forall g :: g in r ==> HasPlaceholders(g)
    ensures forall g :: g in gs ==> (Narrow(g, term) in r <==> exists p :: p in g.placeholders && PickerMatches(p, term))
    ensures forall g :: g in r ==> exists h :: h in gs && g == Narrow(h, term)
    ensures IsSubseq(r, NarrowAll(gs, term))
  {
    var narrowed := NarrowAll(gs, term);
    assert forall g :: g in gs ==> Narrow(g, term) in narrowed by {
      forall g | g in gs ensures Narrow(g, term) in narrowed {
        var i :| 0 <= i < |gs| && gs[i] == g;
        assert narrowed[i] == Narrow(g, term);
      }
    }
    forall g | g in gs ensures HasPlaceholders(Narrow(g, term)) <==> exists p :: p in g.placeholders && PickerMatches(p, term) {
      var n := Narrow(g, term);
      if HasPlaceholders(n) {
        assert n.placeholders[0] in n.placeholders;
      }
    }
    Filter(narrowed, HasPlaceholders)
  }

  /** With no search term the picker lists the non-empty groups unchanged. */
  lemma NoSearchKeepsGroups(gs: seq<PlaceholderGroup>)
    ensures FilteredGroups(gs, "") == Filter(gs, HasPlaceholders)
  {
    assert NarrowAll(gs, "") == gs;
  }

  class PlaceholderPickerState {
    var open: bool
    var searchTerm: string
    var expandedGroups: seq<string>

    constructor ()
      ensures !open && searchTerm == "" && expandedGroups == []
    {
      open := false;
      searchTerm := "";
      expandedGroups := [];
    }

    /** `toggleGroup`: collapse an expanded group, expand a collapsed one. */
    method ToggleGroup(groupId: string)
      modifies this
      ensures expandedGroups == Toggle(old(expandedGroups), groupId)
      ensures groupId in expandedGroups <==> groupId !in old(expandedGroups)
      ensures open == old(open) && searchTerm == old(searchTerm)
    {
      expandedGroups := Toggle(expandedGroups, groupId);
    }

    /** `handleSelect`: hand the placeholder to the caller and close the dialog. */
    method HandleSelect(p: Placeholder) returns (selected: Placeholder)
      modifies this
      ensures selected == p && !open
      ensures searchTerm == old(searchTerm) && expandedGroups == old(expandedGroups)
    {
      selected := p;
      open := false;
    }
  }
}
