# Agreement Craft Suite: a Dafny model of section visibility and the editing screens around it

Agreement Craft Suite is a front end for building contract documents. A
**template** is an ordered list of **sections**. Each section may carry a list
of **visibility conditions**. A condition is one of six kinds:

- `always_visible` and `always_hidden`;
- the variable comparisons `variable_equals`, `variable_not_equals` and `variable_contains`;
- a `group` node with an `AND`/`OR` operator and child conditions.

The document preview takes the values typed in for the template's variables
and shows the sections whose conditions all hold. The rest of the application
consists of the following screens:

- the condition editors;
- the templates, groups, sections and placeholders pages;
- a two-step section picker;
- a placeholder picker;
- a mocked groups endpoint.

These screens produce the templates that the preview evaluates. Between them
they filter lists by search terms, paginate, toggle selections and edit
records.

The project models the following:

- `DocumentPreview` is the evaluator. It covers the condition switch, the
  per-section conjunction, the visible-section filter, the hidden-section
  statistic, and the variable discovery that feeds the preview's form.
- `TemplateTypes` holds the template, section and condition records, with the
  recursive condition tree.
- `ConditionBuilder` and `SectionConditions` model the two condition editors.
- `Templates`, `Groups`, `Sections`, `Placeholders`, `GroupSelection`,
  `SectionPicker`, `PlaceholderPicker` and `PlaceholderList` model the
  screens. Their state becomes a Dafny class with one field per piece of
  state, and one method per handler. Each method states the whole new state.
  The pure filters and edits they use are functions with contracts.
- `GroupsApi` models the mocked endpoint's filter-and-paginate computation.
- `Text`, `Lists`, `Pagination` and `Options` hold the JavaScript built-ins
  that the code relies on:
  - `toLowerCase`, `includes` and `replace(/[{}]/g, '')`;
  - number-to-string conversion and `localeCompare`;
  - `filter`, a `Set` and `slice` with its index clamping;
  - `Math.ceil` pagination;
  - `undefined`.

`AvailableGroups`/`CountGroups` (the section picker's group counting) and
`GetAllVariables` (variable discovery) are loops in the source, so they are
methods with loop invariants. `Templates.TemplatesPage.MoveSection` copies the
list into an array and swaps two cells, as `moveSection` does.

The model follows the code wherever the product's design description says
otherwise:

- **Group nodes.** The design describes recursive AND/OR evaluation of group
  nodes. The code's switch has no `group` case, so a group (at any depth) is
  satisfied whatever its children and operator. `DocumentPreview.GroupFailsOpen`
  states this.
- **Missing variables.** The design reads a missing variable as `""`
  everywhere. The code does that only for `variable_contains`. The equality
  kinds compare against `undefined`, so a missing variable never equals a
  defined expected value, not even `""`. With an `undefined` expected value,
  it equals exactly the missing variable.
- **Variable discovery.** The design collects variable names from
  comparison leaves at any depth. The code reads only each section's
  top-level conditions. It takes the name of any condition that has one and
  is neither `always_visible` nor `always_hidden`, groups included.

## Model

| member | source | states |
|---|---|---|
| `TemplateTypes.ParseTag` | src/types/template.ts:19 | a stored tag is read as a kind only when that kind's tag is exactly the string |
| `TemplateTypes.TagRoundTrip` | src/types/template.ts:19 | every kind's tag reads back as that kind, so the six tags are distinct |
| `TemplateTypes.TagsAreSix` | src/types/template.ts:19 | a string is a condition tag iff it is one of the six listed tags |
| `TemplateTypes.TreeSize` | src/types/template.ts:17-25 | a condition tree has at least one node |
| `TemplateTypes.ForestSize` | src/types/template.ts:24 | no tree in a list of children is bigger than the whole list |
| `TemplateTypes.ChildSmaller` | src/types/template.ts:24 | each child is a strictly smaller tree than its parent, so condition trees are finite |
| `DocumentPreview.Every` | src/components/DocumentPreview.tsx:25 | the left-to-right `every` holds iff the predicate holds at every index |
| `DocumentPreview.IsSectionVisible` | src/components/DocumentPreview.tsx:20-41 | a section is visible iff every condition of its list holds; an absent list reads as empty |
| `DocumentPreview.NoConditionsVisible` | src/components/DocumentPreview.tsx:21-23 | a section with no list or an empty list is visible for every variable map |
| `DocumentPreview.ConstantKinds` | src/components/DocumentPreview.tsx:27-30 | `always_visible` holds and `always_hidden` fails for every variable map |
| `DocumentPreview.EqualsIff` | src/components/DocumentPreview.tsx:31-32 | with a defined expected value, `variable_equals` holds iff the variable is present and equal to it |
| `DocumentPreview.AbsentNeverEquals` | src/components/DocumentPreview.tsx:31-32 | a missing variable never equals a defined expected value, not even `""` |
| `DocumentPreview.EqualsUndefinedExpected` | src/components/DocumentPreview.tsx:31-32 | with an undefined expected value, `variable_equals` holds iff the variable is missing |
| `DocumentPreview.NotEqualsNegatesEquals` | src/components/DocumentPreview.tsx:31-34 | `variable_not_equals` is the exact negation of `variable_equals` on the same name, value and map |
| `DocumentPreview.ContainsEmptyExpected` | src/components/DocumentPreview.tsx:35-36 | `variable_contains` with an empty or missing expected value holds for every map, missing variable included |
| `DocumentPreview.ContainsAbsentReadsEmpty` | src/components/DocumentPreview.tsx:35-36 | for `variable_contains` a missing variable reads as `""`, which contains only the empty value |
| `DocumentPreview.GroupFailsOpen` | src/components/DocumentPreview.tsx:37-38 | a `group` node holds whatever its children and operator |
| `DocumentPreview.AllGroupsVisible` | src/components/DocumentPreview.tsx:25-38 | a section whose conditions are all groups is always visible |
| `DocumentPreview.TopLevelIsConjunction` | src/components/DocumentPreview.tsx:25-40 | two top-level conditions are AND-combined |
| `DocumentPreview.VisibleSections` | src/components/DocumentPreview.tsx:56 | the visible sections are exactly the sections that pass, in template order, each kept as many times as it occurs |
| `DocumentPreview.HiddenCount` | src/components/DocumentPreview.tsx:125-128 | total minus visible equals the number of sections that fail |
| `DocumentPreview.ConditionNamesIff` | src/components/DocumentPreview.tsx:47-50 | a name is collected from a condition list iff some eligible condition in it carries that name |
| `DocumentPreview.SectionNamesIff` | src/components/DocumentPreview.tsx:46-52 | a name is collected iff some section has an eligible top-level condition with that name |
| `DocumentPreview.DedupSnoc` | src/components/DocumentPreview.tsx:49 | adding a name to the set appends it only when it is new |
| `DocumentPreview.GetAllVariables` | src/components/DocumentPreview.tsx:44-54 | the nested loops return each collected name once, in first-seen order, and exactly the referenced names |
| `ConditionBuilder.NeedsVariable` | src/components/ConditionBuilder.tsx:29-31 | a type needs a variable iff it is one of the three comparison kinds |
| `ConditionBuilder.HandlePlaceholderSelect` | src/components/ConditionBuilder.tsx:33-38 | only the variable changes; it becomes the placeholder's value with every brace removed, so a brace-free value is taken as it is |
| `ConditionBuilder.ReselectDisplayed` | src/components/ConditionBuilder.tsx:217-221 | picking the placeholder displayed as `{{name}}` sets the variable to the brace-free `name`; re-picking the current name changes nothing |
| `ConditionBuilder.AddChildCondition` | src/components/ConditionBuilder.tsx:40-55 | the node becomes a group; old children stay a prefix; one `Uslov n+1` child is appended |
| `ConditionBuilder.UpdateChild` | src/components/ConditionBuilder.tsx:57-64 | only position i is replaced; the length and every other child are kept |
| `ConditionBuilder.RemoveChild` | src/components/ConditionBuilder.tsx:66-82 | drops exactly child i, keeping order; removing the last one turns the node into `always_visible` without children |
| `ConditionBuilder.AddThenRemoveLast` | src/components/ConditionBuilder.tsx:50-67 | on a group with children, adding a child and removing it at the last index gives the group back |
| `ConditionBuilder.RemoveOnlyChild` | src/components/ConditionBuilder.tsx:69-75 | removing the only child leaves an `always_visible` leaf |
| `SectionConditions.ConditionFromDraft` | src/components/SectionConditions.tsx:33-39 | the new condition takes the draft's type and description; a missing name or value becomes `''` |
| `SectionConditions.EnabledAddsComplete` | src/components/SectionConditions.tsx:151 | when the add button is enabled, the add goes through, and a comparison gets a non-empty name and value |
| `SectionConditions.RemoveCondition` | src/components/SectionConditions.tsx:48-50 | removes every condition with the id and keeps every other one, each copy, in order |
| `SectionConditions.SummaryShowsKind` | src/components/SectionConditions.tsx:68-72 | summaries of different comparison kinds on the same name and value differ |
| `SectionConditions.ConditionListEditor.constructor` | src/components/SectionConditions.tsx:16-20 | the draft starts as `always_visible` with an empty description |
| `SectionConditions.ConditionListEditor.EditDraft` | src/components/SectionConditions.tsx:98-140 | the form inputs change only the draft |
| `SectionConditions.ConditionListEditor.AddCondition` | src/components/SectionConditions.tsx:30-46 | without a type or description nothing changes; otherwise one condition is appended and the draft reset |
| `SectionConditions.ConditionListEditor.RemoveConditionById` | src/components/SectionConditions.tsx:48-50 | the list loses the id's conditions; the draft is kept |
| `Templates.EmptyTermMatchesAll` | src/pages/Templates.tsx:85-88 | the empty search term matches every template |
| `Templates.FilteredTemplates` | src/pages/Templates.tsx:85-88 | keeps, in order, the templates whose lowercased name or description contains the lowercased term, each with its multiplicity |
| `Templates.EditTemplates` | src/pages/Templates.tsx:91-101 | only templates with the edited id change, taking the form's fields and keeping id and creation date |
| `Templates.SectionFromCatalogue` | src/pages/Templates.tsx:132-137 | an added section copies id, name and content and has no conditions |
| `Templates.CatalogueSectionAlwaysVisible` | src/pages/Templates.tsx:132-137 | a section added from the catalogue is visible in the preview for every variable map |
| `Templates.RemoveSection` | src/pages/Templates.tsx:145-150 | every entry with the id goes; every other entry, duplicates included, stays in order |
| `Templates.Moved` | src/pages/Templates.tsx:152-163 | swaps with the neighbour when it exists, else no change; always a permutation of the same length |
| `Templates.UpThenDown` | src/pages/Templates.tsx:154-157 | moving up at i and then down at i-1 restores the list |
| `Templates.TemplatesPage.constructor` | src/pages/Templates.tsx:74-82 | the page starts with an empty search, closed dialogs and an empty form |
| `Templates.TemplatesPage.HandleSubmit` | src/pages/Templates.tsx:90-115 | edit mode rewrites the edited template; create mode appends one; then the dialog closes and the form resets |
| `Templates.TemplatesPage.OpenDialog` | src/pages/Templates.tsx:117-130 | the form shows the template's fields, or is empty for a new one, and the dialog opens |
| `Templates.TemplatesPage.AddSection` | src/pages/Templates.tsx:132-143 | appends the picked section to the form and closes the picker |
| `Templates.TemplatesPage.RemoveSectionById` | src/pages/Templates.tsx:145-150 | the form's sections lose every entry with the id |
| `Templates.TemplatesPage.MoveSection` | src/pages/Templates.tsx:152-163 | the array copy with the swap equals `Moved` of the old list |
| `Groups.StatusFilterCases` | src/pages/Groups.tsx:849 | `all` passes every group, a status passes exactly that status, any other value passes none |
| `Groups.FilteredGroups` | src/pages/Groups.tsx:845-852 | a group is kept iff it matches the search and the status filter, in order and with its multiplicity |
| `Groups.NoFilterKeepsAll` | src/pages/Groups.tsx:845-852 | an empty search with `all` keeps every group |
| `Groups.PrevPage` | src/pages/Groups.tsx:1097 | previous is one page back but never below 1 |
| `Groups.NextPage` | src/pages/Groups.tsx:1136 | next is one page on but never past the last page, so it stays in range |
| `Groups.PageWindow` | src/pages/Groups.tsx:1103-1113 | `min(5, totalPages)` consecutive increasing page numbers, all in [1, totalPages] |
| `Groups.WindowHoldsCurrent` | src/pages/Groups.tsx:1103-1113 | the window contains the current page when it exists |
| `Groups.EllipsisMeansMorePages` | src/pages/Groups.tsx:1128 | the ellipsis shows iff the last link stops short of the last page |
| `Groups.StatusOf` | src/pages/Groups.tsx:877 | the switch is on iff the status is active |
| `Groups.FormOf` | src/pages/Groups.tsx:899-906 | the form shows the group's name and description, and its switch maps back to the group's status |
| `Groups.EditGroups` | src/pages/Groups.tsx:871-882 | only groups with the edited id change, taking name, description and status from the form |
| `Groups.OpenThenSubmitUnchanged` | src/pages/Groups.tsx:871-906 | opening a group and submitting the untouched form leaves the list unchanged |
| `Groups.NewGroup` | src/pages/Groups.tsx:884-892 | a new group has no members and is active iff the switch is on |
| `Groups.GroupsPage.constructor` | src/pages/Groups.tsx:831-842 | the page starts on page 1 with filter `all`, an empty search and an empty form |
| `Groups.GroupsPage.CurrentGroups` | src/pages/Groups.tsx:855-858 | the current page holds at most twelve groups |
| `Groups.GroupsPage.HandleSearchChange` | src/pages/Groups.tsx:861-864 | a new search term goes back to page 1 |
| `Groups.GroupsPage.HandleStatusFilterChange` | src/pages/Groups.tsx:866-869 | a new status filter goes back to page 1 |
| `Groups.GroupsPage.HandleSubmit` | src/pages/Groups.tsx:871-897 | edit rewrites the edited group; create appends one; then the dialog closes and the form resets |
| `Groups.GroupsPage.OpenDialog` | src/pages/Groups.tsx:899-912 | the form shows the group, or the default form, and the dialog opens |
| `Groups.GroupsPage.PreviousPage` | src/pages/Groups.tsx:1097 | the page becomes `PrevPage` of the old page |
| `Groups.GroupsPage.NextPageClick` | src/pages/Groups.tsx:1136 | the page becomes `NextPage` of the old page |
| `Groups.GroupsPage.GoToPage` | src/pages/Groups.tsx:1103-1118 | a page link moves to that window entry, which is a valid page |
| `Groups.OpenAndSaveUnchanged` | src/pages/Groups.tsx:871-912 | driving the page through open and save without edits keeps its groups |
| `GroupsApi.Matching` | src/hooks/useGroupsApi.ts:61-64 | an empty term keeps all; otherwise a group is kept iff its lowercased name contains the term, in order and with its multiplicity |
| `GroupsApi.FetchGroups` | src/hooks/useGroupsApi.ts:61-81 | gives the page's slice of the matches (at most `pageSize`), the match count, the page count and the next/previous flags |
| `GroupsApi.NextPageNonEmpty` | src/hooks/useGroupsApi.ts:79 | when a response announces a next page, that page holds a group |
| `GroupsApi.FetchAllPages` | src/hooks/useGroupsApi.ts:67-72 | joining pages 1 to `totalPages` gives every match once, in order |
| `Pagination.TotalPages` | src/pages/Groups.tsx:855 | `ceil(n/size)` is the fewest pages holding n items, 0 only for no items |
| `Pagination.Page` | src/pages/Groups.tsx:856-858 | a page is the clamped slice starting at `(p-1)*size`, with at most `size` items |
| `Pagination.PagesReassemble` | src/pages/Placeholders.tsx:149-152 | pages 1 to the page count, read in order, give the list back |
| `Pagination.PageNonEmpty` | src/pages/Placeholders.tsx:149-152 | every page from 1 to the page count starts inside the list and holds an item |
| `Placeholders.IdPrefix` | src/pages/Placeholders.tsx:143 | `id.split('.')[0]` is the longest dot-free prefix of the id |
| `Placeholders.IdPrefixOfQualified` | src/pages/Placeholders.tsx:143 | the prefix of `Group.Field` is `Group` |
| `Placeholders.SomeEnumValueContains` | src/pages/Placeholders.tsx:144 | holds iff some enum value's lowercase contains the term |
| `Placeholders.MissingOptionalFieldsNeverMatch` | src/pages/Placeholders.tsx:138-144 | a missing description or enum list never makes a placeholder match |
| `Placeholders.FilteredPlaceholders` | src/pages/Placeholders.tsx:132-146 | an empty term returns the list unchanged; otherwise the matches, in order and with their multiplicity |
| `Placeholders.FoundByOwnPrefix` | src/pages/Placeholders.tsx:143 | searching for a placeholder's own group prefix finds it |
| `Placeholders.SummaryRangeAsWritten` | src/pages/Placeholders.tsx:204 | the rendered range `startIndex+1`-`min(startIndex+pageSize, total)`: from a start inside the list it spans `min(pageSize, total-start)` rows; with no item it is inverted |
| `Placeholders.EmptySummaryReadsOneToZero` | src/pages/Placeholders.tsx:204 | as written, an empty result reads `1-0` |
| `Placeholders.SummaryRange` | src/pages/Placeholders.tsx:204 | the summary is `start+1` to `min(start+pageSize, total)`, and `0-0` when nothing matches |
| `Placeholders.SummaryMatchesPage` | src/pages/Placeholders.tsx:204 | on every existing page, the summary counts exactly the rows shown |
| `Placeholders.PlaceholdersPage.Summary` | src/pages/Placeholders.tsx:204 | as rendered: on an existing page the range counts exactly the rows shown; with no match on page 1 it reads `1-0` |
| `Placeholders.PlaceholdersPage.constructor` | src/pages/Placeholders.tsx:125-128 | the page starts on page 1 with 20 rows per page and an empty search |
| `Placeholders.PlaceholdersPage.Rows` | src/pages/Placeholders.tsx:149-152 | the current page holds at most `pageSize` rows |
| `Placeholders.PlaceholdersPage.SetSearchTerm` | src/pages/Placeholders.tsx:155-157 | a changed search term goes back to page 1; the same term keeps the page |
| `Placeholders.PlaceholdersPage.HandlePageSizeChange` | src/pages/Placeholders.tsx:175-178 | a new page size goes back to page 1 |
| `Placeholders.PlaceholdersPage.SetCurrentPage` | src/pages/Placeholders.tsx:227 | the pager sets the page and nothing else |
| `PlaceholderPicker.Narrow` | src/components/PlaceholderPicker.tsx:204-208 | a group keeps its id and name and exactly its matching placeholders, in their order and with their multiplicity |
| `PlaceholderPicker.NarrowAll` | src/components/PlaceholderPicker.tsx:202-208 | every group is narrowed, in order |
| `PlaceholderPicker.FilteredGroups` | src/components/PlaceholderPicker.tsx:202-209 | narrowed groups with a match are kept in order, and groups left empty are dropped |
| `PlaceholderPicker.NoSearchKeepsGroups` | src/components/PlaceholderPicker.tsx:205 | with no search the non-empty groups are listed unchanged |
| `PlaceholderPicker.PlaceholderPickerState.constructor` | src/components/PlaceholderPicker.tsx:185-187 | the dialog starts closed, with no search and nothing expanded |
| `PlaceholderPicker.PlaceholderPickerState.ToggleGroup` | src/components/PlaceholderPicker.tsx:189-195 | flips the group's membership in the expanded list |
| `PlaceholderPicker.PlaceholderPickerState.HandleSelect` | src/components/PlaceholderPicker.tsx:197-200 | forwards exactly the chosen placeholder and closes the dialog |
| `PlaceholderList.PlaceholderListState.constructor` | src/components/PlaceholderList.tsx:12 | no group starts expanded |
| `PlaceholderList.PlaceholderListState.ToggleGroup` | src/components/PlaceholderList.tsx:14-20 | flips the given id's membership and keeps every other id's |
| `PlaceholderList.ToggleTwiceRestores` | src/components/PlaceholderList.tsx:14-20 | from any state in which a group is collapsed, expanding and collapsing it leaves the expanded list as it was |
| `Lists.Toggle` | src/components/PlaceholderList.tsx:14-20 | an absent id is appended at the end; a present one loses all its occurrences, the rest keeping their order and counts |
| `Lists.ToggleTwice` | src/components/PlaceholderPicker.tsx:189-195 | toggling an absent id twice restores the list |
| `Lists.WithoutIndex` | src/components/ConditionBuilder.tsx:67 | filtering out index i drops exactly that position, and nothing when i is out of range |
| `Lists.Filter` | src/components/DocumentPreview.tsx:56 | `filter` keeps exactly the passing items, each as many times as it occurs, as an order-preserving subsequence |
| `Lists.FilterPartition` | src/components/DocumentPreview.tsx:125-128 | the items that pass and the items that fail together number the whole list |
| `Lists.Dedup` | src/components/DocumentPreview.tsx:45-53 | the `Set` holds each name once and exactly the names added |
| `Lists.DedupFirstSeenOrder` | src/components/DocumentPreview.tsx:53 | `Array.from` of the set lists names in first-seen order |
| `Lists.JsSlice` | src/pages/Groups.tsx:858 | `slice` clamps its bounds; within range it is the plain subsequence |
| `Text.Lower` | src/pages/Templates.tsx:86-87 | lowering keeps the length and lowers each character |
| `Text.ContainsIff` | src/pages/Templates.tsx:86-87 | `includes` holds iff the needle occurs at some position |
| `Text.ContainsEmpty` | src/hooks/useGroupsApi.ts:62-63 | every string contains the empty string |
| `Text.ContainsInEmpty` | src/components/DocumentPreview.tsx:36 | the empty string contains only the empty string |
| `Text.StripBraces` | src/components/ConditionBuilder.tsx:36 | the result has no braces, keeps every other character with its multiplicity, and brace-free input is returned unchanged |
| `Text.StripWrap` | src/components/ConditionBuilder.tsx:217 | stripping the `{{name}}` wrapper gives back a brace-free name |
| `Text.NatToString` | src/components/ConditionBuilder.tsx:46 | a count renders as a non-empty string of decimal digits |
| `Text.NatToStringRoundTrip` | src/components/ConditionBuilder.tsx:46 | the rendered digits read back as the count |
| `Text.LexLeqTotal` | src/components/SectionPicker.tsx:48 | the name comparison orders every pair |
| `Text.LexLeqAntisymmetric` | src/components/SectionPicker.tsx:48 | names ordered both ways are equal |
| `Text.LexLeqTransitive` | src/components/SectionPicker.tsx:48 | the name comparison is transitive |
| `SectionPicker.CountGroups` | src/components/SectionPicker.tsx:41-47 | the loop yields each group name once, with its section count, the counts summing to the section count |
| `SectionPicker.SortByName` | src/components/SectionPicker.tsx:48 | the sort gives a strictly name-ordered permutation with the same total |
| `SectionPicker.AvailableGroups` | src/components/SectionPicker.tsx:40-49 | one entry per distinct group name, strictly sorted, each counting that group's sections, the counts summing to the section count |
| `SectionPicker.SectionsInGroup` | src/components/SectionPicker.tsx:52-55 | empty when no group is chosen; otherwise exactly that group's sections, in order |
| `SectionPicker.FilteredSections` | src/components/SectionPicker.tsx:58-64 | the group's sections whose name or description match, in the group's order and with their multiplicity; all of them for an empty term |
| `SectionPicker.ToTemplateSection` | src/components/SectionPicker.tsx:99-104 | a confirmed section takes the description as content and an empty condition list |
| `SectionPicker.Ids` | src/components/SectionPicker.tsx:92 | the ids of the shown sections, position by position |
| `SectionPicker.MapToTemplateSections` | src/components/SectionPicker.tsx:99-104 | each shown section mapped, position by position |
| `SectionPicker.ConfirmedSections` | src/components/SectionPicker.tsx:96-104 | exactly the selected shown sections are handed over, mapped, in the shown order, one entry per selected shown section |
| `SectionPicker.ConfirmedAlwaysVisible` | src/components/SectionPicker.tsx:99-104 | every handed-over section is visible in the preview for every variable map |
| `SectionPicker.SelectAllConfirmsAll` | src/components/SectionPicker.tsx:92-104 | selecting every shown section and confirming hands over all of them in order |
| `SectionPicker.SelectAllAsWrittenMissesShown` | src/components/SectionPicker.tsx:88-94 | as written, a selection of equal length but other ids is cleared, leaving shown sections unselected |
| `SectionPicker.SelectAll` | src/components/SectionPicker.tsx:88-94 | clears when everything shown is selected; otherwise selects every shown section |
| `SectionPicker.SelectAllAsWritten` | src/components/SectionPicker.tsx:88-94 | a selection as long as the shown list is cleared; any other is replaced by one id per shown section, covering them all |
| `SectionPicker.SelectAllAgreesOnExactSelection` | src/components/SectionPicker.tsx:88-94 | when the selection is exactly the shown ids, both versions clear it |
| `SectionPicker.SectionPickerState.constructor` | src/components/SectionPicker.tsx:34-37 | the picker starts at the group step with no group, search or selection |
| `SectionPicker.SectionPickerState.HandleGroupSelect` | src/components/SectionPicker.tsx:66-71 | goes to the section step of the group with an empty search and selection |
| `SectionPicker.SectionPickerState.Reset` | src/components/SectionPicker.tsx:73-78 | back to the group step with no group, search or selection |
| `SectionPicker.SectionPickerState.SetSearchTerm` | src/components/SectionPicker.tsx:195 | typing changes only the search term; the selection survives |
| `SectionPicker.SectionPickerState.ToggleSectionSelection` | src/components/SectionPicker.tsx:80-86 | flips the id's membership in the selection |
| `SectionPicker.SectionPickerState.SelectAllLabelClears` | src/components/SectionPicker.tsx:214 | the label tells what a click does: when it reads "Poništi sve" the click clears the selection, otherwise the click selects every shown section |
| `SectionPicker.SectionPickerState.HandleSelectAll` | src/components/SectionPicker.tsx:88-94 | the source's length test: when the selection is as long as the shown list (the button then reads "Poništi sve") it is cleared; otherwise every shown section becomes selected |
| `SectionPicker.SectionPickerState.ConfirmDisabled` | src/components/SectionPicker.tsx:285 | the confirm button is disabled exactly when no section is selected (`selectedCount === 0`) |
| `SectionPicker.SectionPickerState.HandleConfirm` | src/components/SectionPicker.tsx:96-113 | returns the confirmed sections and resets to the group step; with the button disabled it would hand over nothing |
| `SectionPicker.SectionPickerState.HandleCancel` | src/components/SectionPicker.tsx:115-122 | asks the owner to close, and resets to the group step |
| `Sections.FilteredSections` | src/pages/Sections.tsx:54-59 | a section is kept iff it is in the chosen group (or `all`) and matches the search, in order and with its multiplicity |
| `Sections.AllGroupsNoSearch` | src/pages/Sections.tsx:54-59 | `all` with an empty search keeps every section |
| `Sections.FindGroupName` | src/pages/Sections.tsx:62 | the first group with the id gives the name, and no such group gives `""` |
| `Sections.EditSections` | src/pages/Sections.tsx:64-77 | only sections with the edited id change, taking the form's fields and the looked-up group name |
| `Sections.NewSection` | src/pages/Sections.tsx:78-88 | the new section carries the form, the looked-up group name, the id and the date |
| `Sections.OpenThenSubmitUnchanged` | src/pages/Sections.tsx:61-110 | opening a consistent section and saving untouched leaves the list unchanged |
| `Sections.SectionsPage.constructor` | src/pages/Sections.tsx:41-52 | the page starts with group `all`, an empty search, a closed dialog and an empty form |
| `Sections.SectionsPage.HandleSubmit` | src/pages/Sections.tsx:61-94 | edit rewrites the edited section; create appends one; then the dialog closes and the form resets |
| `Sections.SectionsPage.OpenDialog` | src/pages/Sections.tsx:96-110 | the form copies the section's fields, or is empty, and the dialog opens |
| `GroupSelection.FilteredGroups` | src/pages/GroupSelection.tsx:51-55 | a group is shown iff it is active and matches the search, in order and with its multiplicity; inactive groups never are |
| `GroupSelection.EmptySearchOffersActive` | src/pages/GroupSelection.tsx:51-55 | an empty search shows exactly the active groups |

## Left out

- Rendering is not modelled: markup, CSS classes, badges, rich-text editing and HTML content.
- Browser and framework effects are not modelled: clipboard, navigation, drag-and-drop data, toasts and console output. Where a component asks its owner to close a dialog through `onOpenChange`, the model returns the requested open flag (`SectionPicker.SectionPickerState.HandleCancel`) and leaves the owner's reaction out.
- The mocked endpoint's delay is left out, along with its loading and error states and its random mock counts. Only the filter-and-paginate computation is modelled.
- Fixture arrays are left out. The lists they hold are constructor or function parameters.
- `Date.now()` and today's date are parameters (`newId`, `today`) of the handlers that use them.
- `toLowerCase` is modelled on ASCII letters only. `localeCompare` is code-unit lexicographic order. Neither models locale-dependent case folding or collation.
- Only the six declared condition tags are representable. A condition whose stored type is outside that set is not modelled; the code's `default` branch would show it.
- Variables are looked up as map entries. JavaScript prototype keys such as `constructor` are not modelled.
- Pagination.TotalPages: requires a positive page size. A zero or negative size makes JavaScript's `Math.ceil` produce `Infinity` or `NaN`, which is not modelled. Every page size in the application is a fixed positive choice.
- GroupsApi.FetchGroups: requires a positive page size, for the same reason.
- Placeholders.PlaceholdersPage.HandlePageSizeChange: requires a positive page size, for the same reason.
- ConditionBuilder.UpdateChild: requires an index inside the children. Assigning past the end of a JavaScript array, which leaves holes, is not modelled. The editor only passes indices of rendered children.
- The operator, description, type and expected-value inputs of the condition builder are not modelled. Each one spreads the condition with one new field.
- Placeholders.PlaceholdersPage.SetSearchTerm: merges the input's change and the page-reset effect into one step. The effect runs after a render, so one render shows the new term on the old page. That intermediate render is not modelled.

## Findings

The page models (`SectionPicker.SectionPickerState.HandleSelectAll`, `Placeholders.PlaceholdersPage.Summary`) follow the code as written. The corrected definitions stand beside them, with the intended property proved.

| source | as written | input that shows it | evidently intended | confidence | as-written member | corrected member |
|---|---|---|---|---|---|---|
| src/components/SectionPicker.tsx:88-94 | select-all clears the selection whenever it has as many ids as there are shown sections | select sections 1 and 2, change the search so sections 3 and 4 are shown, press the button, which reads "Poništi sve" by the same length test: the selection is cleared and 3 and 4 stay unselected | clear only when every shown section is selected, otherwise select them all | medium, not executed | `SectionPicker.SelectAllAsWrittenMissesShown` | `SectionPicker.SelectAll` |
| src/pages/Placeholders.tsx:204 | the summary's first position is `startIndex + 1` even when nothing matches | a search matching no placeholder: the line reads `Showing 1-0 of 0` | `0-0` for an empty result | medium, not executed | `Placeholders.EmptySummaryReadsOneToZero` | `Placeholders.SummaryRange` |
