/** The sidebar list of placeholder groups, each of which can be expanded. */
module PlaceholderList {
  import opened Lists

  class PlaceholderListState {
    var expandedGroups: seq<string>

    constructor ()
      ensures expandedGroups == []
    {
      expandedGroups := [];
    }

    /** `toggleGroup`: collapse an expanded group, expand a collapsed one. */
    method ToggleGroup(groupId: string)
      modifies this
      ensures expandedGroups == Toggle(old(expandedGroups), groupId)
      ensures groupId in expandedGroups <==> groupId !in old(expandedGroups)
      ensures forall g :: g != groupId ==> (g in expandedGroups <==> g in old(expandedGroups))
    {
      expandedGroups := Toggle(expandedGroups, groupId);
    }
  }

  /** Expanding a collapsed group and collapsing it again leaves the list of expanded groups as it was. */
  method ToggleTwiceRestores(state: PlaceholderListState, groupId: string)
    requires groupId !in state.expandedGroups
    modifies state
    ensures state.expandedGroups == old(state.expandedGroups)
  {
    ToggleTwice(state.expandedGroups, groupId);
    state.ToggleGroup(groupId);
    state.ToggleGroup(groupId);
  }
}
