/**
 * The sections page: document sections filtered by group and by a search,
 * and a dialog to create or edit a section and assign it to a group.
 */
module Sections {
  import opened Options
  import opened Text
  import opened Lists

  datatype Section = Section(id: string, name: string, description: string, groupId: string,
                             groupName: string, version: string, content: string, createdAt: string)

  /** An entry of the fixed group list offered by the dialog. */
  datatype GroupRef = GroupRef(id: string, name: string)

  datatype SectionForm = SectionForm(name: string, description: string, groupId: string, version: string, content: string)

  const EmptyForm: SectionForm := SectionForm("", "", "", "", "")

  /** The group select: "all" or one group's id. */
  predicate MatchesGroup(s: Section, selectedGroupId: string) {
    selectedGroupId == "all" || s.groupId == selectedGroupId
  }

  predicate MatchesSearch(s: Section, term: string) {
    Contains(Lower(s.name), Lower(term)) || Contains(Lower(s.description), Lower(term))
  }

  /** `filteredSections`: the sections in the chosen group that match the search, in order. */
  function FilteredSections(ss: seq<Section>, selectedGroupId: string, term: string): (r: seq<Section>)
    ensures forall s :: s in r <==> s in ss && MatchesGroup(s, selectedGroupId) && MatchesSearch(s, term)
    ensures forall s :: Count(r, s) == if MatchesGroup(s, selectedGroupId) && MatchesSearch(s, term) then Count(ss, s) else 0
    ensures IsSubseq(r, ss)
  {
    Filter(ss, s => MatchesGroup(s, selectedGroupId) && MatchesSearch(s, term))
  }

  lemma AllGroupsNoSearch(ss: seq<Section>)
    ensures FilteredSections(ss, "all", "") == ss
  {
    forall s: Section ensures MatchesSearch(s, "") {
      ContainsEmpty(Lower(s.name));
    }
  }

  /** `groups.find(g => g.id === id)?.name || ""`: the first group with that id names it; none gives "". */
  function FindGroupName(groups: seq<GroupRef>, id: string): (r: string)
    ensures (forall g :: g in groups ==> g.id != id) ==> r == ""
    ensures forall k :: 0 <= k < |groups| && groups[k].id == id && (forall j :: 0 <= j < k ==> groups[j].id != id) ==>
              r == groups[k].name
  {
    if groups == [] then ""
    else if groups[0].id == id then groups[0].name
    else FindGroupName(groups[1..], id)
  }

  /** Edit mode of `handleSubmit`: the edited section takes the form's fields and its group's name. */
  function EditSections(ss: seq<Section>, editingId: string, form: SectionForm, groupName: string): (r: seq<Section>)
    ensures |r| == |ss|
    ensures forall i :: 0 <= i < |ss| && ss[i].id != editingId ==> r[i] == ss[i]
    ensures forall i :: 0 <= i < |ss| && ss[i].id == editingId ==>
              r[i] == ss[i].(name := form.name, description := form.description, groupId := form.groupId,
                             groupName := groupName, version := form.version, content := form.content)
  {
    seq(|ss|, i requires 0 <= i < |ss| =>
      if ss[i].id == editingId
      then ss[i].(name := form.name, description := form.description, groupId := form.groupId,
                  groupName := groupName, version := form.version, content := form.content)
      else ss[i])
  }

  /** `openDialog(section)`: the form shows the section's editable fields. */
  function FormOf(s: Section): SectionForm {
    SectionForm(s.name, s.description, s.groupId, s.version, s.content)
  }

  /** Create mode of `handleSubmit`. */
  function NewSection(form: SectionForm, groupName: string, id: string, today: string): (r: Section)
    ensures FormOf(r) == form && r.groupName == groupName && r.id == id && r.createdAt == today
  {
    Section(id, form.name, form.description, form.groupId, groupName, form.version, form.content, today)
  }

  /** Opening a section whose group name is the one its group id resolves to and saving leaves the list as it was. */
  lemma OpenThenSubmitUnchanged(ss: seq<Section>, s: Section, groups: seq<GroupRef>)
    requires forall t :: t in ss && t.id == s.id ==> t == s
    requires FindGroupName(groups, s.groupId) == s.groupName
    ensures EditSections(ss, s.id, FormOf(s), FindGroupName(groups, s.groupId)) == ss
  {
    var r := EditSections(ss, s.id, FormOf(s), FindGroupName(groups, s.groupId));
    forall i | 0 <= i < |ss| ensures r[i] == ss[i] {
      if ss[i].id == s.id {
        assert ss[i] in ss;
      }
    }
  }

  class SectionsPage {
    const groups: seq<GroupRef>
    var sections: seq<Section>
    var selectedGroupId: string
    var searchTerm: string
    var isDialogOpen: bool
    var editingSection: Option<Section>
    var formData: SectionForm

    constructor (groupList: seq<GroupRef>, initial: seq<Section>)
      ensures groups == groupList && sections == initial
      ensures selectedGroupId == "all" && searchTerm == "" && !isDialogOpen
      ensures editingSection == None && formData == EmptyForm
    {
      groups := groupList;
      sections := initial;
      selectedGroupId := "all";
      searchTerm := "";
      isDialogOpen := false;
      editingSection := None;
      formData := EmptyForm;
    }

    function Shown(): seq<Section>
      reads this
    {
      FilteredSections(sections, selectedGroupId, searchTerm)
    }

    /** `handleSubmit`, with the clock's id and date passed in. */
    method HandleSubmit(newId: string, today: string)
      modifies this
      ensures old(editingSection).Some? ==>
                sections == EditSections(old(sections), old(editingSection).value.id, old(formData),
                                         FindGroupName(groups, old(formData).groupId))
      ensures old(editingSection).None? ==>
                sections == old(sections) + [NewSection(old(formData), FindGroupName(groups, old(formData).groupId), newId, today)]
      ensures !isDialogOpen && editingSection == None && formData == EmptyForm
      ensures selectedGroupId == old(selectedGroupId) && searchTerm == old(searchTerm)
    {
      var groupName := FindGroupName(groups, formData.groupId);
      if editingSection.Some? {
        sections := EditSections(sections, editingSection.value.id, formData, groupName);
      } else {
        sections := sections + [NewSection(formData, groupName, newId, today)];
      }
      isDialogOpen := false;
      editingSection := None;
      formData := EmptyForm;
    }

    /** `openDialog(section?)`. */
    method OpenDialog(s: Option<Section>)
      modifies this
      ensures editingSection == s && isDialogOpen
      ensures s.Some? ==> formData == FormOf(s.value)
      ensures s.None? ==> formData == EmptyForm
      ensures sections == old(sections) && selectedGroupId == old(selectedGroupId) && searchTerm == old(searchTerm)
    {
      editingSection := s;
      if s.Some? {
        formData := FormOf(s.value);
      } else {
        formData := EmptyForm;
      }
      isDialogOpen := true;
    }
  }
}
