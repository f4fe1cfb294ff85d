/**
 * The groups page: a grid of user groups, filtered by a search term and a
 * status filter, shown twelve per page with a window of at most five page
 * links, and a dialog to create or edit a group.
 */
module Groups {
  import opened Options
  import opened Text
  import opened Lists
  import opened Pagination

  datatype Status = Active | Deactivated {
    function Tag(): string {
      match this
      case Active => "active"
      case Deactivated => "deactivated"
    }
  }

  datatype Group = Group(id: string, name: string, description: string, createdAt: string,
                         memberCount: nat, status: Status)

  /** The dialog's form: the status is a switch, on for active. */
  datatype GroupForm = GroupForm(name: string, description: string, status: bool)

  const EmptyForm: GroupForm := GroupForm("", "", true)

  /** Twelve cards per page (a 3 by 4 grid). */
  const ItemsPerPage: nat := 12

  /** At most this many page links are shown. */
  const WindowSize: nat := 5

  predicate MatchesSearch(g: Group, term: string) {
    Contains(Lower(g.name), Lower(term)) || Contains(Lower(g.description), Lower(term))
  }

  /** The status filter is a select whose values are "all", "active" and "deactivated". */
  predicate MatchesStatus(g: Group, filter: string) {
    filter == "all" || g.status.Tag() == filter
  }

  lemma StatusFilterCases(g: Group, filter: string)
    ensures MatchesStatus(g, "all")
    ensures MatchesStatus(g, "active") <==> g.status == Active
    ensures MatchesStatus(g, "deactivated") <==> g.status == Deactivated
    ensures filter != "all" && filter != "active" && filter != "deactivated" ==> !MatchesStatus(g, filter)
  {
  }

  /** `filteredGroups`: the groups matching both the search and the status filter, in order. */
  function FilteredGroups(gs: seq<Group>, term: string, filter: string): (r: seq<Group>)
    ensures forall g :: g in r <==> g in gs && MatchesSearch(g, term) && MatchesStatus(g, filter)
    ensures forall g :: Count(r, g) == if MatchesSearch(g, term) && MatchesStatus(g, filter) then Count(gs, g) else 0
    ensures IsSubseq(r, gs)
  {
    Filter(gs, g => MatchesSearch(g, term) && MatchesStatus(g, filter))
  }

  lemma NoFilterKeepsAll(gs: seq<Group>)
    ensures FilteredGroups(gs, "", "all") == gs
  {
    forall g: Group ensures MatchesSearch(g, "") {
      ContainsEmpty(Lower(g.name));
    }
  }

  /** The "previous" link: one page back, never below the first page. */
  function PrevPage(p: int): (r: int)
    ensures r >= 1
    ensures p > 1 ==> r == p - 1
    ensures p <= 1 ==> r == 1
  {
    Max(1, p - 1)
  }

  /** The "next" link: one page on, never past the last page. */
  function NextPage(p: int, total: nat): (r: int)
    ensures 1 <= p <= total ==> 1 <= r <= total
    ensures p < total ==> r == p + 1
    ensures p >= total ==> r == total
  {
    Min(total, p + 1)
  }

  /** The `i`-th page link of the window, as the page-number branches compute it. */
  function PageNumber(p: int, total: nat, i: nat): int {
    if total <= WindowSize then i + 1
    else if p <= 3 then i + 1
    else if p >= total - 2 then total - 4 + i
    else p - 2 + i
  }

  /** The page links shown: `Math.min(5, totalPages)` of them. */
  function PageWindow(p: int, total: nat): (r: seq<int>)
    ensures |r| == Min(WindowSize, total)
    ensures forall i :: 0 <= i < |r| ==> r[i] == PageNumber(p, total, i)
    ensures forall i :: 0 <= i < |r| ==> 1 <= r[i] <= total
    ensures forall i :: 0 < i < |r| ==> r[i] == r[i - 1] + 1
  {
    seq(Min(WindowSize, total), i requires 0 <= i => PageNumber(p, total, i))
  }

  /** The current page, when it exists, is always among the links. */
  lemma WindowHoldsCurrent(p: int, total: nat)
    requires 1 <= p <= total
    ensures p in PageWindow(p, total)
  {
    var w := PageWindow(p, total);
    var i := if total <= WindowSize || p <= 3 then p - 1
             else if p >= total - 2 then p - total + 4
             else 2;
    assert 0 <= i < |w| && w[i] == p;
  }

  /** The ellipsis after the links. */
  predicate ShowEllipsis(p: int, total: nat) {
    total > WindowSize && p < total - 2
  }

  /** The ellipsis appears exactly when the last link stops short of the last page. */
  lemma EllipsisMeansMorePages(p: int, total: nat)
    requires 1 <= p <= total
    ensures ShowEllipsis(p, total) <==> PageWindow(p, total)[|PageWindow(p, total)| - 1] < total
  {
  }

  /** The switch and the status are two views of one fact. */
  function StatusOf(active: bool): (r: Status)
    ensures r == Active <==> active
  {
    if active then Active else Deactivated
  }

  /** `openDialog(group)`: the form shows the group's fields. */
  function FormOf(g: Group): (r: GroupForm)
    ensures StatusOf(r.status) == g.status
    ensures r.name == g.name && r.description == g.description
  {
    GroupForm(g.name, g.description, g.status == Active)
  }

  /** Edit mode of `handleSubmit`: the groups with the edited id take the form's fields. */
  function EditGroups(gs: seq<Group>, editingId: string, form: GroupForm): (r: seq<Group>)
    ensures |r| == |gs|
    ensures forall i :: 0 <= i < |gs| && gs[i].id != editingId ==> r[i] == gs[i]
    ensures forall i :: 0 <= i < |gs| && gs[i].id == editingId ==>
              r[i] == gs[i].(name := form.name, description := form.description, status := StatusOf(form.status))
  {
    seq(|gs|, i requires 0 <= i < |gs| =>
      if gs[i].id == editingId
      then gs[i].(name := form.name, description := form.description, status := StatusOf(form.status))
      else gs[i])
  }

  /** Opening a group and submitting the form untouched changes nothing. */
  lemma OpenThenSubmitUnchanged(gs: seq<Group>, g: Group)
    requires forall h :: h in gs && h.id == g.id ==> h == g
    ensures EditGroups(gs, g.id, FormOf(g)) == gs
  {
    var r := EditGroups(gs, g.id, FormOf(g));
    forall i | 0 <= i < |gs| ensures r[i] == gs[i] {
      if gs[i].id == g.id {
        assert gs[i] in gs;
      }
    }
  }

  /** Create mode of `handleSubmit`: a new group has no members yet. */
  function NewGroup(form: GroupForm, id: string, today: string): (r: Group)
    ensures r.memberCount == 0 && r.status == StatusOf(form.status)
  {
    Group(id, form.name, form.description, today, 0, StatusOf(form.status))
  }

  class GroupsPage {
    var groups: seq<Group>
    var searchTerm: string
    var statusFilter: string
    var isDialogOpen: bool
    var editingGroup: Option<Group>
    var formData: GroupForm
    var currentPage: int

    constructor (initial: seq<Group>)
      ensures groups == initial && searchTerm == "" && statusFilter == "all"
      ensures !isDialogOpen && editingGroup == None && formData == EmptyForm && currentPage == 1
    {
      groups := initial;
      searchTerm := "";
      statusFilter := "all";
      isDialogOpen := false;
      editingGroup := None;
      formData := EmptyForm;
      currentPage := 1;
    }

    function Filtered(): seq<Group>
      reads this
    {
      FilteredGroups(groups, searchTerm, statusFilter)
    }

    function PageCount(): nat
      reads this
    {
      TotalPages(|Filtered()|, ItemsPerPage)
    }

    /** `currentGroups`: the cards on the current page. */
    function CurrentGroups(): (r: seq<Group>)
      reads this
      ensures currentPage >= 1 ==> |r| <= ItemsPerPage
    {
      Page(Filtered(), currentPage, ItemsPerPage)
    }

    /** A new search term goes back to the first page. */
    method HandleSearchChange(value: string)
      modifies this
      ensures searchTerm == value && currentPage == 1
      ensures groups == old(groups) && statusFilter == old(statusFilter)
      ensures isDialogOpen == old(isDialogOpen) && editingGroup == old(editingGroup) && formData == old(formData)
    {
      searchTerm := value;
      currentPage := 1;
    }

    /** A new status filter goes back to the first page. */
    method HandleStatusFilterChange(value: string)
      modifies this
      ensures statusFilter == value && currentPage == 1
      ensures groups == old(groups) && searchTerm == old(searchTerm)
      ensures isDialogOpen == old(isDialogOpen) && editingGroup == old(editingGroup) && formData == old(formData)
    {
      statusFilter := value;
      currentPage := 1;
    }

    /** `handleSubmit`, with the clock's id and date passed in. */
    method HandleSubmit(newId: string, today: string)
      modifies this
      ensures old(editingGroup).Some? ==> groups == EditGroups(old(groups), old(editingGroup).value.id, old(formData))
      ensures old(editingGroup).None? ==> groups == old(groups) + [NewGroup(old(formData), newId, today)]
      ensures !isDialogOpen && editingGroup == None && formData == EmptyForm
      ensures searchTerm == old(searchTerm) && statusFilter == old(statusFilter) && currentPage == old(currentPage)
    {
      if editingGroup.Some? {
        groups := EditGroups(groups, editingGroup.value.id, formData);
      } else {
        groups := groups + [NewGroup(formData, newId, today)];
      }
      isDialogOpen := false;
      editingGroup := None;
      formData := EmptyForm;
    }

    /** `openDialog(group?)`. */
    method OpenDialog(g: Option<Group>)
      modifies this
      ensures editingGroup == g && isDialogOpen
      ensures g.Some? ==> formData == FormOf(g.value)
      ensures g.None? ==> formData == EmptyForm
      ensures groups == old(groups) && searchTerm == old(searchTerm)
      ensures statusFilter == old(statusFilter) && currentPage == old(currentPage)
    {
      editingGroup := g;
      if g.Some? {
        formData := FormOf(g.value);
      } else {
        formData := EmptyForm;
      }
      isDialogOpen := true;
    }

    method PreviousPage()
      modifies this
      ensures currentPage == PrevPage(old(currentPage))
      ensures groups == old(groups) && searchTerm == old(searchTerm) && statusFilter == old(statusFilter)
      ensures isDialogOpen == old(isDialogOpen) && editingGroup == old(editingGroup) && formData == old(formData)
    {
      currentPage := PrevPage(currentPage);
    }

    method NextPageClick()
      modifies this
      ensures currentPage == NextPage(old(currentPage), old(PageCount()))
      ensures groups == old(groups) && searchTerm == old(searchTerm) && statusFilter == old(statusFilter)
      ensures isDialogOpen == old(isDialogOpen) && editingGroup == old(editingGroup) && formData == old(formData)
    {
      currentPage := NextPage(currentPage, PageCount());
    }

    /** A click on the `i`-th page link. */
    method GoToPage(i: nat)
      requires i < Min(WindowSize, PageCount())
      modifies this
      ensures currentPage == PageWindow(old(currentPage), old(PageCount()))[i]
      ensures 1 <= currentPage <= PageCount()
      ensures groups == old(groups) && searchTerm == old(searchTerm) && statusFilter == old(statusFilter)
      ensures isDialogOpen == old(isDialogOpen) && editingGroup == old(editingGroup) && formData == old(formData)
    {
      currentPage := PageWindow(currentPage, PageCount())[i];
    }
  }

  /** Opening a group from the list and saving without changes leaves the list as it was. */
  method OpenAndSaveUnchanged(page: GroupsPage, g: Group, newId: string, today: string)
    requires g in page.groups
    requires forall h :: h in page.groups && h.id == g.id ==> h == g
    modifies page
    ensures page.groups == old(page.groups)
  {
    page.OpenDialog(Some(g));
    page.HandleSubmit(newId, today);
    OpenThenSubmitUnchanged(old(page.groups), g);
  }
}
