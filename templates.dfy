/**
 * The templates page: a searchable list of templates and a dialog whose form
 * holds a name, a description and an ordered list of sections picked from
 * the section catalogue.
 */
module Templates {
  import opened Options
  import opened Text
  import opened Lists
  import opened TemplateTypes
  import DocumentPreview

  /** A catalogue section offered by the section picker. */
  datatype Section = Section(id: string, name: string, description: string, content: string, groupName: string)

  datatype TemplateForm = TemplateForm(name: string, description: string, sections: seq<TemplateSection>)

  const EmptyForm: TemplateForm := TemplateForm("", "", [])

  datatype Direction = Up | Down

  /** The search: lowercased name or description contains the lowercased term. */
  predicate TemplateMatches(t: Template, term: string) {
    Contains(Lower(t.name), Lower(term)) || Contains(Lower(t.description), Lower(term))
  }

  lemma EmptyTermMatchesAll()
    ensures forall t :: TemplateMatches(t, "")
  {
    forall t: Template ensures TemplateMatches(t, "") {
      ContainsEmpty(Lower(t.name));
    }
  }

  /** `filteredTemplates`: the matching templates in their order; an empty term keeps all. */
  function FilteredTemplates(ts: seq<Template>, term: string): (r: seq<Template>)
    ensures forall t :: t in r <==> t in ts && TemplateMatches(t, term)
    ensures forall t :: Count(r, t) == if TemplateMatches(t, term) then Count(ts, t) else 0
    ensures IsSubseq(r, ts)
    ensures term == "" ==> r == ts
  {
    EmptyTermMatchesAll();
    Filter(ts, t => TemplateMatches(t, term))
  }

  /** Edit mode of `handleSubmit`: the templates with the edited id take the form's fields. */
  function EditTemplates(ts: seq<Template>, editingId: string, form: TemplateForm): (r: seq<Template>)
    ensures |r| == |ts|
    ensures forall i :: 0 <= i < |ts| ==> r[i].id == ts[i].id && r[i].createdAt == ts[i].createdAt
    ensures forall i :: 0 <= i < |ts| && ts[i].id != editingId ==> r[i] == ts[i]
    ensures forall i :: 0 <= i < |ts| && ts[i].id == editingId ==>
              r[i].name == form.name && r[i].description == form.description && r[i].sections == form.sections
  {
    seq(|ts|, i requires 0 <= i < |ts| =>
      if ts[i].id == editingId
      then ts[i].(name := form.name, description := form.description, sections := form.sections)
      else ts[i])
  }

  /** Create mode of `handleSubmit`: a template from the form, with a fresh id and today's date. */
  function NewTemplate(form: TemplateForm, id: string, today: string): Template {
    Template(id, form.name, form.description, today, form.sections)
  }

  /** `addSection`: the picked catalogue section as a template section, without conditions. */
  function SectionFromCatalogue(s: Section): (r: TemplateSection)
    ensures r.id == s.id && r.name == s.name && r.content == s.content && r.conditions == None
  {
    TemplateSection(s.id, s.name, s.content, None)
  }

  /** A section added from the catalogue is shown in the preview whatever the variables. */
  lemma CatalogueSectionAlwaysVisible(s: Section, vars: DocumentPreview.Variables)
    ensures DocumentPreview.IsSectionVisible(SectionFromCatalogue(s), vars)
  {
  }

  /** `removeSection(id)`: every entry with that id goes, the rest keep their order. */
  function RemoveSection(sections: seq<TemplateSection>, id: string): (r: seq<TemplateSection>)
    ensures forall s :: s in r <==> s in sections && s.id != id
    ensures forall s :: Count(r, s) == if s.id != id then Count(sections, s) else 0
    ensures IsSubseq(r, sections)
  {
    Filter(sections, (s: TemplateSection) => s.id != id)
  }

  function Swap<T>(s: seq<T>, i: nat, j: nat): (r: seq<T>)
    requires i < |s| && j < |s|
    ensures |r| == |s| && r[i] == s[j] && r[j] == s[i]
    ensures forall k :: 0 <= k < |s| && k != i && k != j ==> r[k] == s[k]
    ensures multiset(r) == multiset(s)
  {
    s[i := s[j]][j := s[i]]
  }

  /** `moveSection(index, direction)`: swap with the neighbour in that direction, if there is one. */
  function Moved(s: seq<TemplateSection>, index: nat, dir: Direction): (r: seq<TemplateSection>)
    requires index < |s|
    ensures |r| == |s| && multiset(r) == multiset(s)
    ensures dir == Up && index > 0 ==> r == Swap(s, index, index - 1)
    ensures dir == Down && index < |s| - 1 ==> r == Swap(s, index, index + 1)
    ensures (dir == Up && index == 0) || (dir == Down && index == |s| - 1) ==> r == s
  {
    if dir == Up && index > 0 then Swap(s, index, index - 1)
    else if dir == Down && index < |s| - 1 then Swap(s, index, index + 1)
    else s
  }

  /** Moving up at `i` and then down at `i - 1` restores the order. */
  lemma UpThenDown(s: seq<TemplateSection>, i: nat)
    requires 0 < i < |s|
    ensures Moved(Moved(s, i, Up), i - 1, Down) == s
  {
  }

  class TemplatesPage {
    var templates: seq<Template>
    var searchTerm: string
    var isDialogOpen: bool
    var isSectionPickerOpen: bool
    var editingTemplate: Option<Template>
    var formData: TemplateForm

    constructor (initial: seq<Template>)
      ensures templates == initial && searchTerm == "" && !isDialogOpen && !isSectionPickerOpen
      ensures editingTemplate == None && formData == EmptyForm
    {
      templates := initial;
      searchTerm := "";
      isDialogOpen := false;
      isSectionPickerOpen := false;
      editingTemplate := None;
      formData := EmptyForm;
    }

    function Visible(): seq<Template>
      reads this
    {
      FilteredTemplates(templates, searchTerm)
    }

    /** `handleSubmit`, with the clock's id and date passed in. */
    method HandleSubmit(newId: string, today: string)
      modifies this
      ensures old(editingTemplate).Some? ==>
                templates == EditTemplates(old(templates), old(editingTemplate).value.id, old(formData))
      ensures old(editingTemplate).None? ==>
                templates == old(templates) + [NewTemplate(old(formData), newId, today)]
      ensures !isDialogOpen && editingTemplate == None && formData == EmptyForm
      ensures searchTerm == old(searchTerm) && isSectionPickerOpen == old(isSectionPickerOpen)
    {
      if editingTemplate.Some? {
        templates := EditTemplates(templates, editingTemplate.value.id, formData);
      } else {
        templates := templates + [NewTemplate(formData, newId, today)];
      }
      isDialogOpen := false;
      editingTemplate := None;
      formData := EmptyForm;
    }

    /** `openDialog(template?)`: load the template into the form, or start an empty one. */
    method OpenDialog(t: Option<Template>)
      modifies this
      ensures editingTemplate == t && isDialogOpen
      ensures t.Some? ==> formData == TemplateForm(t.value.name, t.value.description, t.value.sections)
      ensures t.None? ==> formData == EmptyForm
      ensures templates == old(templates) && searchTerm == old(searchTerm)
      ensures isSectionPickerOpen == old(isSectionPickerOpen)
    {
      editingTemplate := t;
      if t.Some? {
        formData := TemplateForm(t.value.name, t.value.description, t.value.sections);
      } else {
        formData := EmptyForm;
      }
      isDialogOpen := true;
    }

    method AddSection(s: Section)
      modifies this
      ensures formData == old(formData).(sections := old(formData.sections) + [SectionFromCatalogue(s)])
      ensures !isSectionPickerOpen
      ensures templates == old(templates) && editingTemplate == old(editingTemplate)
      ensures isDialogOpen == old(isDialogOpen) && searchTerm == old(searchTerm)
    {
      formData := formData.(sections := formData.sections + [SectionFromCatalogue(s)]);
      isSectionPickerOpen := false;
    }

    method RemoveSectionById(id: string)
      modifies this
      ensures formData == old(formData).(sections := RemoveSection(old(formData.sections), id))
      ensures templates == old(templates) && editingTemplate == old(editingTemplate)
      ensures isDialogOpen == old(isDialogOpen) && isSectionPickerOpen == old(isSectionPickerOpen)
      ensures searchTerm == old(searchTerm)
    {
      formData := formData.(sections := RemoveSection(formData.sections, id));
    }

    /** `moveSection`: copy the sections into a fresh array, swap two cells, store the copy. */
    method MoveSection(index: nat, dir: Direction)
      requires index < |formData.sections|
      modifies this
      ensures formData == old(formData).(sections := Moved(old(formData.sections), index, dir))
      ensures templates == old(templates) && editingTemplate == old(editingTemplate)
      ensures isDialogOpen == old(isDialogOpen) && isSectionPickerOpen == old(isSectionPickerOpen)
      ensures searchTerm == old(searchTerm)
    {
      var s := formData.sections;
      var a := new TemplateSection[|s|](k requires 0 <= k < |s| => s[k]);
      if dir == Up && index > 0 {
        a[index], a[index - 1] := a[index - 1], a[index];
      } else if dir == Down && index < a.Length - 1 {
        a[index], a[index + 1] := a[index + 1], a[index];
      }
      formData := formData.(sections := a[..]);
    }
  }
}
