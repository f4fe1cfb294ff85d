/**
 * The two-step section picker: first a group of the catalogue, then some of
 * that group's sections, narrowed by a search and confirmed together.
 */
module SectionPicker {
  import opened Options
  import opened Text
  import opened Lists
  import opened TemplateTypes
  import DocumentPreview

  datatype CatalogueSection = CatalogueSection(id: string, name: string, description: string, groupName: string)

  /** One entry of the group list: a group name and how many catalogue sections carry it. */
  datatype GroupEntry = GroupEntry(name: string, sectionCount: nat)

  datatype Step = GroupsStep | SectionsStep

  /** How many of `ss` belong to group `name`. */
  function CountInGroup(ss: seq<CatalogueSection>, name: string): nat {
    if ss == [] then 0
    else CountInGroup(ss[..|ss| - 1], name) + (if ss[|ss| - 1].groupName == name then 1 else 0)
  }

  /** Total of the section counts of a list of entries. */
  function Total(es: seq<GroupEntry>): nat {
    if es == [] then 0 else es[0].sectionCount + Total(es[1..])
  }

  /** Names in ascending `localeCompare` order, each at most once. */
  ghost predicate StrictlySorted(es: seq<GroupEntry>) {
    forall i, j :: 0 <= i < j < |es| ==> LexLeq(es[i].name, es[j].name) && es[i].name != es[j].name
  }

  ghost predicate DistinctNames(es: seq<GroupEntry>) {
    forall i, j :: 0 <= i < j < |es| ==> es[i].name != es[j].name
  }

  lemma {:induction false} TotalUpdate(es: seq<GroupEntry>, p: nat, x: GroupEntry)
    requires p < |es|
    ensures Total(es[p := x]) == Total(es) - es[p].sectionCount + x.sectionCount
  {
    if p > 0 {
      TotalUpdate(es[1..], p - 1, x);
      assert es[p := x][1..] == es[1..][p - 1 := x];
    }
  }

  /** A smaller name in front of a sorted list keeps it sorted. */
  lemma ConsSorted(x: GroupEntry, rest: seq<GroupEntry>)
    requires StrictlySorted(rest)
    requires forall y :: y in rest ==> LexLeq(x.name, y.name) && x.name != y.name
    ensures StrictlySorted([x] + rest)
  {
    var r := [x] + rest;
    forall i, j | 0 <= i < j < |r| ensures LexLeq(r[i].name, r[j].name) && r[i].name != r[j].name {
      if i == 0 {
        assert r[j] == rest[j - 1] && rest[j - 1] in rest;
      } else {
        assert r[i] == rest[i - 1] && r[j] == rest[j - 1];
      }
    }
  }

  lemma TotalCons(x: GroupEntry, rest: seq<GroupEntry>)
    ensures Total([x] + rest) == x.sectionCount + Total(rest)
  {
    assert ([x] + rest)[1..] == rest;
  }

  /** Insert one entry into a sorted list, keeping it sorted. */
  function InsertByName(e: GroupEntry, es: seq<GroupEntry>): (r: seq<GroupEntry>)
    requires StrictlySorted(es)
    requires forall x :: x in es ==> x.name != e.name
    ensures StrictlySorted(r)
    ensures multiset(r) == multiset(es) + multiset{e}
    ensures Total(r) == Total(es) + e.sectionCount
  {
    if es == [] then [e]
    else if LexLeq(e.name, es[0].name) then
      InsertFront(e, es);
      TotalCons(e, es);
      [e] + es
    else
      var rest := InsertByName(e, es[1..]);
      InsertBehind(e, es, rest);
      TotalCons(es[0], rest);
      assert es == [es[0]] + es[1..];
      [es[0]] + rest
  }

  lemma InsertFront(e: GroupEntry, es: seq<GroupEntry>)
    requires es != [] && StrictlySorted(es) && LexLeq(e.name, es[0].name)
    requires forall x :: x in es ==> x.name != e.name
    ensures StrictlySorted([e] + es)
  {
    forall y | y in es ensures LexLeq(e.name, y.name) {
      var j :| 0 <= j < |es| && es[j] == y;
      if j > 0 {
        LexLeqTransitive(e.name, es[0].name, y.name);
      }
    }
    ConsSorted(e, es);
  }

  lemma InsertBehind(e: GroupEntry, es: seq<GroupEntry>, rest: seq<GroupEntry>)
    requires es != [] && StrictlySorted(es) && !LexLeq(e.name, es[0].name)
    requires forall x :: x in es ==> x.name != e.name
    requires StrictlySorted(rest) && multiset(rest) == multiset(es[1..]) + multiset{e}
    ensures StrictlySorted([es[0]] + rest)
  {
    LexLeqTotal(e.name, es[0].name);
    assert es[0] in es;
    forall y | y in rest ensures LexLeq(es[0].name, y.name) && es[0].name != y.name {
      assert y in multiset(rest);
      if y != e {
        var j :| 0 <= j < |es[1..]| && es[1..][j] == y;
        assert es[j + 1] == y;
      }
    }
    ConsSorted(es[0], rest);
  }

  /** The library sort, by name, of entries with distinct names. */
  function SortByName(es: seq<GroupEntry>): (r: seq<GroupEntry>)
    requires DistinctNames(es)
    ensures StrictlySorted(r)
    ensures multiset(r) == multiset(es)
    ensures Total(r) == Total(es)
  {
    if es == [] then []
    else
      var rest := SortByName(es[1..]);
      TailAvoidsHead(es, rest);
      assert es == [es[0]] + es[1..];
      InsertByName(es[0], rest)
  }

  /** A permutation of the tail of a list with distinct names holds no entry named like its head. */
  lemma TailAvoidsHead(es: seq<GroupEntry>, rest: seq<GroupEntry>)
    requires es != [] && DistinctNames(es)
    requires multiset(rest) == multiset(es[1..])
    ensures forall x :: x in rest ==> x.name != es[0].name
  {
    forall x | x in rest ensures x.name != es[0].name {
      assert x in multiset(rest);
      var j :| 0 <= j < |es[1..]| && es[1..][j] == x;
      assert es[j + 1] == x;
    }
  }

  function EntryFor(counts: map<string, nat>, k: string): GroupEntry
    requires k in counts
  {
    GroupEntry(k, counts[k])
  }

  function Entries(keys: seq<string>, counts: map<string, nat>): (r: seq<GroupEntry>)
    requires forall k :: k in keys ==> k in counts
    ensures |r| == |keys|
    ensures forall j :: 0 <= j < |keys| ==> r[j] == EntryFor(counts, keys[j])
  {
    seq(|keys|, j requires 0 <= j < |keys| => EntryFor(counts, keys[j]))
  }

  function Names(es: seq<GroupEntry>): seq<string> {
    seq(|es|, j requires 0 <= j < |es| => es[j].name)
  }

  function GroupNames(ss: seq<CatalogueSection>): seq<string> {
    seq(|ss|, j requires 0 <= j < |ss| => ss[j].groupName)
  }

  lemma {:induction false} TotalSnoc(es: seq<GroupEntry>, e: GroupEntry)
    ensures Total(es + [e]) == Total(es) + e.sectionCount
  {
    if es != [] {
      assert (es + [e])[1..] == es[1..] + [e];
      TotalSnoc(es[1..], e);
    }
  }

  lemma NewKeyStep(keys: seq<string>, counts: map<string, nat>, n: string)
    requires n !in keys && forall k :: k in keys ==> k in counts
    ensures Total(Entries(keys + [n], counts[n := 0])) == Total(Entries(keys, counts))
  {
    assert Entries(keys + [n], counts[n := 0]) == Entries(keys, counts) + [GroupEntry(n, 0)];
    TotalSnoc(Entries(keys, counts), GroupEntry(n, 0));
  }

  lemma IncrementStep(keys: seq<string>, counts: map<string, nat>, n: string)
    requires NoDup(keys) && n in keys && forall k :: k in keys ==> k in counts
    ensures Total(Entries(keys, counts[n := counts[n] + 1])) == Total(Entries(keys, counts)) + 1
  {
    var p :| 0 <= p < |keys| && keys[p] == n;
    var before := Entries(keys, counts);
    assert Entries(keys, counts[n := counts[n] + 1]) == before[p := GroupEntry(n, counts[n] + 1)];
    TotalUpdate(before, p, GroupEntry(n, counts[n] + 1));
  }

  lemma CountStep(ss: seq<CatalogueSection>, i: nat, k: string)
    requires i < |ss|
    ensures CountInGroup(ss[..i + 1], k) == CountInGroup(ss[..i], k) + (if ss[i].groupName == k then 1 else 0)
  {
    assert ss[..i + 1][..i] == ss[..i];
  }

  /** One turn of the counting loop on the list of names: a new name is appended once. */
  lemma KeysStep(ss: seq<CatalogueSection>, i: nat, keys: seq<string>, keys2: seq<string>)
    requires i < |ss| && NoDup(keys)
    requires forall k :: k in keys <==> k in GroupNames(ss[..i])
    requires keys2 == if ss[i].groupName in keys then keys else keys + [ss[i].groupName]
    ensures NoDup(keys2)
    ensures forall k :: k in keys2 <==> k in GroupNames(ss[..i + 1])
  {
    assert GroupNames(ss[..i + 1]) == GroupNames(ss[..i]) + [ss[i].groupName];
  }

  /** One turn of the counting loop on the counts: the section's group gains one. */
  lemma CountsStep(ss: seq<CatalogueSection>, i: nat, counts: map<string, nat>, c: map<string, nat>, counts2: map<string, nat>)
    requires i < |ss|
    requires forall k :: k in counts ==> counts[k] == CountInGroup(ss[..i], k) && counts[k] > 0
    requires ss[i].groupName !in counts ==> CountInGroup(ss[..i], ss[i].groupName) == 0
    requires c == if ss[i].groupName in counts then counts else counts[ss[i].groupName := 0]
    requires counts2 == c[ss[i].groupName := c[ss[i].groupName] + 1]
    ensures forall k :: k in counts2 ==> counts2[k] == CountInGroup(ss[..i + 1], k) && counts2[k] > 0
  {
    forall k | k in counts2 ensures counts2[k] == CountInGroup(ss[..i + 1], k) && counts2[k] > 0 {
      CountStep(ss, i, k);
    }
  }

  /**
   * The counting loop's invariant after the first `i` sections: each group
   * name seen so far once, in `keys`, with its count so far in `counts`.
   */
  ghost predicate CountedUpTo(ss: seq<CatalogueSection>, i: nat, keys: seq<string>, counts: map<string, nat>)
    requires i <= |ss|
  {
    && NoDup(keys)
    && (forall k :: k in keys <==> k in counts)
    && (forall k :: k in keys <==> k in GroupNames(ss[..i]))
    && (forall k :: k in counts ==> counts[k] == CountInGroup(ss[..i], k) && counts[k] > 0)
    && Total(Entries(keys, counts)) == i
  }

  /** A turn of the counting loop for a group already seen: its count goes up by one. */
  lemma SeenGroupStep(ss: seq<CatalogueSection>, i: nat, j: nat, keys: seq<string>, counts: map<string, nat>,
                      keys2: seq<string>, counts2: map<string, nat>)
    requires i < |ss| && j == i + 1 && ss[i].groupName in counts
    requires CountedUpTo(ss, i, keys, counts)
    requires keys2 == keys && counts2 == counts[ss[i].groupName := counts[ss[i].groupName] + 1]
    ensures CountedUpTo(ss, j, keys2, counts2)
  {
    KeysStep(ss, i, keys, keys2);
    CountsStep(ss, i, counts, counts, counts2);
    IncrementStep(keys, counts, ss[i].groupName);
  }

  /** A turn of the counting loop for a new group: it is registered with count 0, then counted once. */
  lemma NewGroupStep(ss: seq<CatalogueSection>, i: nat, j: nat, keys: seq<string>, counts: map<string, nat>,
                     keys2: seq<string>, counts2: map<string, nat>)
    requires i < |ss| && j == i + 1 && ss[i].groupName !in counts
    requires CountedUpTo(ss, i, keys, counts)
    requires var n := ss[i].groupName;
             keys2 == keys + [n] && counts2 == counts[n := 0][n := counts[n := 0][n] + 1]
    ensures CountedUpTo(ss, j, keys2, counts2)
  {
    var n := ss[i].groupName;
    KeysStep(ss, i, keys, keys2);
    CountAbsent(ss[..i], n);
    CountsStep(ss, i, counts, counts[n := 0], counts2);
    NewKeyStep(keys, counts, n);
    IncrementStep(keys2, counts[n := 0], n);
  }

  /** The `forEach` over the sections: each group name once, in first-seen order, with its count. */
  method CountGroups(ss: seq<CatalogueSection>) returns (keys: seq<string>, counts: map<string, nat>)
    ensures NoDup(keys)
    ensures forall k :: k in keys <==> k in counts
    ensures forall k :: k in keys <==> k in GroupNames(ss)
    ensures forall k :: k in counts ==> counts[k] == CountInGroup(ss, k) && counts[k] > 0
    ensures Total(Entries(keys, counts)) == |ss|
  {
    keys := [];
    counts := map[];
    var i := 0;
    while i < |ss|
      invariant 0 <= i <= |ss|
      invariant CountedUpTo(ss, i, keys, counts)
    {
      var n := ss[i].groupName;
      ghost var keys0, counts0 := keys, counts;
      if n !in counts {
        keys := keys + [n];
        counts := counts[n := 0];
      }
      counts := counts[n := counts[n] + 1];
      i := i + 1;
      if n in counts0 {
        SeenGroupStep(ss, i - 1, i, keys0, counts0, keys, counts);
      } else {
        NewGroupStep(ss, i - 1, i, keys0, counts0, keys, counts);
      }
    }
    assert ss[..i] == ss;
  }

  lemma {:induction false} CountAbsent(ss: seq<CatalogueSection>, n: string)
    requires n !in GroupNames(ss)
    ensures CountInGroup(ss, n) == 0
  {
    if ss != [] {
      var m := |ss| - 1;
      assert GroupNames(ss[..m]) == GroupNames(ss)[..m];
      assert GroupNames(ss)[m] == ss[m].groupName;
      CountAbsent(ss[..m], n);
    }
  }

  /** `availableGroups`: the counted groups, sorted by name. */
  method AvailableGroups(ss: seq<CatalogueSection>) returns (groups: seq<GroupEntry>)
    ensures StrictlySorted(groups)
    ensures forall e :: e in groups ==> e.sectionCount == CountInGroup(ss, e.name) && e.sectionCount > 0
    ensures forall n :: n in Names(groups) <==> n in GroupNames(ss)
    ensures Total(groups) == |ss|
  {
    var keys, counts := CountGroups(ss);
    var entries := Entries(keys, counts);
    groups := SortByName(entries);
    SortedGroupsFacts(keys, counts, entries, groups);
  }

  lemma SortedGroupsFacts(keys: seq<string>, counts: map<string, nat>, entries: seq<GroupEntry>, groups: seq<GroupEntry>)
    requires forall k :: k in keys <==> k in counts
    requires entries == Entries(keys, counts)
    requires multiset(groups) == multiset(entries)
    ensures forall e :: e in groups ==> e.name in counts && e == EntryFor(counts, e.name)
    ensures forall n :: n in Names(groups) <==> n in keys
  {
    forall e | e in groups ensures e.name in counts && e == EntryFor(counts, e.name) {
      assert e in multiset(entries);
    }
    forall n ensures n in Names(groups) <==> n in keys {
      if n in Names(groups) {
        var j :| 0 <= j < |groups| && groups[j].name == n;
        assert groups[j] in multiset(entries);
      }
      if n in keys {
        var j :| 0 <= j < |keys| && keys[j] == n;
        assert entries[j] in multiset(groups);
        var m :| 0 <= m < |groups| && groups[m] == entries[j];
        assert Names(groups)[m] == n;
      }
    }
  }

  /** `sectionsInGroup`: nothing while no group (or the empty name) is chosen, else that group's sections. */
  function SectionsInGroup(ss: seq<CatalogueSection>, selected: Option<string>): (r: seq<CatalogueSection>)
    ensures selected.None? || selected == Some("") ==> r == []
    ensures selected.Some? && selected.value != "" ==>
              forall s :: s in r <==> s in ss && s.groupName == selected.value
    ensures IsSubseq(r, ss)
  {
    if selected.None? || selected.value == "" then
      assert IsSubseq([], ss) by { EmptySubseq(ss); }
      []
    else Filter(ss, (s: CatalogueSection) => s.groupName == selected.value)
  }

  lemma {:induction false} EmptySubseq<T>(s: seq<T>)
    ensures IsSubseq([], s)
  {
    if s != [] {
      EmptySubseq(s[1..]);
    }
  }

  /** The search inside a group: an empty term, or the lowercased name or description contains it. */
  predicate SectionMatches(s: CatalogueSection, term: string) {
    term == "" || Contains(Lower(s.name), Lower(term)) || Contains(Lower(s.description), Lower(term))
  }

  function FilteredSections(ss: seq<CatalogueSection>, selected: Option<string>, term: string): (r: seq<CatalogueSection>)
    ensures forall s :: s in r <==> s in SectionsInGroup(ss, selected) && SectionMatches(s, term)
    ensures forall s :: Count(r, s) == if SectionMatches(s, term) then Count(SectionsInGroup(ss, selected), s) else 0
    ensures IsSubseq(r, SectionsInGroup(ss, selected))
    ensures term == "" ==> r == SectionsInGroup(ss, selected)
  {
    Filter(SectionsInGroup(ss, selected), s => SectionMatches(s, term))
  }

  /** A confirmed section: its description becomes the content and it starts with no conditions. */
  function ToTemplateSection(s: CatalogueSection): (r: TemplateSection)
    ensures r.id == s.id && r.name == s.name && r.content == s.description && r.conditions == Some([])
  {
    TemplateSection(s.id, s.name, s.description, Some([]))
  }

  function Ids(ss: seq<CatalogueSection>): (r: seq<string>)
    ensures |r| == |ss| && forall i :: 0 <= i < |ss| ==> r[i] == ss[i].id
  {
    seq(|ss|, i requires 0 <= i < |ss| => ss[i].id)
  }

  function MapToTemplateSections(ss: seq<CatalogueSection>): (r: seq<TemplateSection>)
    ensures |r| == |ss| && forall i :: 0 <= i < |ss| ==> r[i] == ToTemplateSection(ss[i])
  {
    seq(|ss|, i requires 0 <= i < |ss| => ToTemplateSection(ss[i]))
  }

  /** Mapping sections to template sections keeps a subsequence a subsequence. */
  lemma {:induction false} MapSubseq(a: seq<CatalogueSection>, b: seq<CatalogueSection>)
    requires IsSubseq(a, b)
    ensures IsSubseq(MapToTemplateSections(a), MapToTemplateSections(b))
    decreases |b|
  {
    var ma, mb := MapToTemplateSections(a), MapToTemplateSections(b);
    if a == [] {
      assert ma == [];
      EmptySubseq(mb);
    } else {
      assert mb[1..] == MapToTemplateSections(b[1..]);
      if IsSubseq(a, b[1..]) {
        MapSubseq(a, b[1..]);
      } else {
        assert ma[1..] == MapToTemplateSections(a[1..]);
        MapSubseq(a[1..], b[1..]);
      }
    }
  }

  /**
   * Keeping the sections with a selected id and mapping them keeps every
   * copy of a template section whose id is selected and no other.
   */
  lemma {:induction false} SelectedMappedCount(shown: seq<CatalogueSection>, selectedIds: seq<string>,
                                               keep: CatalogueSection -> bool, t: TemplateSection)
    requires forall s :: keep(s) == (s.id in selectedIds)
    ensures Count(MapToTemplateSections(Filter(shown, keep)), t)
            == if t.id in selectedIds then Count(MapToTemplateSections(shown), t) else 0
  {
    if shown != [] {
      var rest := Filter(shown[1..], keep);
      SelectedMappedCount(shown[1..], selectedIds, keep, t);
      var m := MapToTemplateSections(shown);
      assert m[1..] == MapToTemplateSections(shown[1..]);
      if keep(shown[0]) {
        var mk := MapToTemplateSections([shown[0]] + rest);
        assert mk[1..] == MapToTemplateSections(rest);
      }
    }
  }

  /**
   * `handleConfirm`'s result: the shown sections whose ids are selected, in
   * the shown order, one entry for each such shown section.
   */
  function ConfirmedSections(shown: seq<CatalogueSection>, selectedIds: seq<string>): (r: seq<TemplateSection>)
    ensures |r| <= |shown|
    ensures IsSubseq(r, MapToTemplateSections(shown))
    ensures |r| == |Filter(shown, (s: CatalogueSection) => s.id in selectedIds)|
    ensures forall t :: Count(r, t) == if t.id in selectedIds then Count(MapToTemplateSections(shown), t) else 0
    ensures forall s :: s in shown && s.id in selectedIds ==> ToTemplateSection(s) in r
    ensures forall t :: t in r ==> exists s :: s in shown && s.id in selectedIds && t == ToTemplateSection(s)
  {
    var kept := Filter(shown, (s: CatalogueSection) => s.id in selectedIds);
    var r := MapToTemplateSections(kept);
    forall s | s in shown && s.id in selectedIds ensures ToTemplateSection(s) in r {
      var i :| 0 <= i < |kept| && kept[i] == s;
      assert r[i] == ToTemplateSection(s);
    }
    forall t | t in r ensures exists s :: s in shown && s.id in selectedIds && t == ToTemplateSection(s) {
      var i :| 0 <= i < |r| && r[i] == t;
      assert kept[i] in kept;
    }
    MapSubseq(kept, shown);
    forall t ensures Count(r, t) == if t.id in selectedIds then Count(MapToTemplateSections(shown), t) else 0 {
      SelectedMappedCount(shown, selectedIds, (s: CatalogueSection) => s.id in selectedIds, t);
    }
    r
  }

  /** Every section the picker hands over is shown in the preview whatever the variables. */
  lemma ConfirmedAlwaysVisible(shown: seq<CatalogueSection>, selectedIds: seq<string>, vars: DocumentPreview.Variables)
    ensures forall t :: t in ConfirmedSections(shown, selectedIds) ==> DocumentPreview.IsSectionVisible(t, vars)
  {
  }

  /** Selecting every shown section and confirming hands over all of them, in order. */
  lemma SelectAllConfirmsAll(shown: seq<CatalogueSection>)
    ensures ConfirmedSections(shown, Ids(shown)) == MapToTemplateSections(shown)
  {
    var ids := Ids(shown);
    forall s | s in shown ensures s.id in ids {
      var i :| 0 <= i < |shown| && shown[i] == s;
      assert ids[i] == s.id;
    }
  }

  /**
   * `handleSelectAll` as written: clear the selection when it has as many
   * ids as there are shown sections, otherwise select every shown section.
   */
  function SelectAllAsWritten(shown: seq<CatalogueSection>, selectedIds: seq<string>): (r: seq<string>)
    ensures |selectedIds| == |shown| ==> r == []
    ensures |selectedIds| != |shown| ==> |r| == |shown| && AllShownSelected(shown, r)
  {
    if |selectedIds| == |shown| then []
    else
      assert AllShownSelected(shown, Ids(shown)) by {
        forall s | s in shown ensures s.id in Ids(shown) {
          var i :| 0 <= i < |shown| && shown[i] == s;
          assert Ids(shown)[i] == s.id;
        }
      }
      Ids(shown)
  }

  /**
   * The selection survives a change of the search term, so it can hold as
   * many ids as are shown without holding the shown ones: select-all then
   * clears it and the shown sections stay unselected.
   */
  lemma SelectAllAsWrittenMissesShown()
    ensures var shown := [CatalogueSection("3", "C", "", "G"), CatalogueSection("4", "D", "", "G")];
            var after := SelectAllAsWritten(shown, ["1", "2"]);
            after == [] && (exists s :: s in shown && s.id !in ["1", "2"])
  {
    var shown := [CatalogueSection("3", "C", "", "G"), CatalogueSection("4", "D", "", "G")];
    assert shown[0] in shown && shown[0].id !in ["1", "2"];
  }

  /** Whether every shown section is already selected. */
  predicate AllShownSelected(shown: seq<CatalogueSection>, selectedIds: seq<string>) {
    forall s :: s in shown ==> s.id in selectedIds
  }

  /** Select-all as intended: clear when every shown section is selected, otherwise select all of them. */
  function SelectAll(shown: seq<CatalogueSection>, selectedIds: seq<string>): (r: seq<string>)
    ensures AllShownSelected(shown, selectedIds) ==> r == []
    ensures !AllShownSelected(shown, selectedIds) ==> AllShownSelected(shown, r) && forall x :: x in r ==> x in Ids(shown)
  {
    if AllShownSelected(shown, selectedIds) then []
    else
      assert AllShownSelected(shown, Ids(shown)) by {
        forall s | s in shown ensures s.id in Ids(shown) {
          var i :| 0 <= i < |shown| && shown[i] == s;
          assert Ids(shown)[i] == s.id;
        }
      }
      Ids(shown)
  }

  /** Where the selection is exactly the shown ids, both versions agree. */
  lemma SelectAllAgreesOnExactSelection(shown: seq<CatalogueSection>)
    ensures SelectAll(shown, Ids(shown)) == SelectAllAsWritten(shown, Ids(shown))
  {
    assert AllShownSelected(shown, Ids(shown)) by {
      forall s | s in shown ensures s.id in Ids(shown) {
        var i :| 0 <= i < |shown| && shown[i] == s;
        assert Ids(shown)[i] == s.id;
      }
    }
  }

  class SectionPickerState {
    const availableSections: seq<CatalogueSection>
    var step: Step
    var selectedGroup: Option<string>
    var searchTerm: string
    var selectedSectionIds: seq<string>

    constructor (sections: seq<CatalogueSection>)
      ensures availableSections == sections
      ensures step == GroupsStep && selectedGroup == None && searchTerm == "" && selectedSectionIds == []
    {
      availableSections := sections;
      step := GroupsStep;
      selectedGroup := None;
      searchTerm := "";
      selectedSectionIds := [];
    }

    function Shown(): seq<CatalogueSection>
      reads this
    {
      FilteredSections(availableSections, selectedGroup, searchTerm)
    }

    /** The confirm button is disabled while nothing is selected. */
    predicate ConfirmDisabled()
      reads this
      ensures ConfirmDisabled() <==> selectedSectionIds == []
    {
      |selectedSectionIds| == 0
    }

    /** `handleGroupSelect`: open the group's sections with a fresh search and no selection. */
    method HandleGroupSelect(groupName: string)
      modifies this
      ensures selectedGroup == Some(groupName) && step == SectionsStep
      ensures searchTerm == "" && selectedSectionIds == []
    {
      selectedGroup := Some(groupName);
      step := SectionsStep;
      searchTerm := "";
      selectedSectionIds := [];
    }

    /** Back to the group list, or the reset after confirm and cancel. */
    method Reset()
      modifies this
      ensures step == GroupsStep && selectedGroup == None && searchTerm == "" && selectedSectionIds == []
    {
      step := GroupsStep;
      selectedGroup := None;
      searchTerm := "";
      selectedSectionIds := [];
    }

    method SetSearchTerm(term: string)
      modifies this
      ensures searchTerm == term
      ensures step == old(step) && selectedGroup == old(selectedGroup) && selectedSectionIds == old(selectedSectionIds)
    {
      searchTerm := term;
    }

    /** `toggleSectionSelection`. */
    method ToggleSectionSelection(sectionId: string)
      modifies this
      ensures selectedSectionIds == Toggle(old(selectedSectionIds), sectionId)
      ensures sectionId in selectedSectionIds <==> sectionId !in old(selectedSectionIds)
      ensures step == old(step) && selectedGroup == old(selectedGroup) && searchTerm == old(searchTerm)
    {
      selectedSectionIds := Toggle(selectedSectionIds, sectionId);
    }

    /**
     * The select-all button reads "Poništi sve" (clear all) when the
     * selection has as many ids as there are shown sections, and
     * "Odaberi sve" (select all) otherwise; it is offered only while
     * some section is shown.
     */
    predicate SelectAllLabelClears()
      reads this
      ensures SelectAllLabelClears() ==> SelectAllAsWritten(Shown(), selectedSectionIds) == []
      ensures !SelectAllLabelClears() ==> AllShownSelected(Shown(), SelectAllAsWritten(Shown(), selectedSectionIds))
    {
      |selectedSectionIds| == |Shown()|
    }

    /**
     * `handleSelectAll`, with the length test the button's label uses: a
     * selection as long as the shown list is cleared, any other is
     * replaced by all the shown ids.
     */
    method HandleSelectAll()
      modifies this
      ensures selectedSectionIds == SelectAllAsWritten(old(Shown()), old(selectedSectionIds))
      ensures old(SelectAllLabelClears()) ==> selectedSectionIds == []
      ensures !old(SelectAllLabelClears()) ==> AllShownSelected(Shown(), selectedSectionIds)
      ensures step == old(step) && selectedGroup == old(selectedGroup) && searchTerm == old(searchTerm)
    {
      selectedSectionIds := SelectAllAsWritten(Shown(), selectedSectionIds);
    }

    /** `handleConfirm`: hand over the selected shown sections and start again from the groups. */
    method HandleConfirm() returns (selected: seq<TemplateSection>)
      modifies this
      ensures selected == ConfirmedSections(old(Shown()), old(selectedSectionIds))
      ensures old(ConfirmDisabled()) ==> selected == []
      ensures step == GroupsStep && selectedGroup == None && searchTerm == "" && selectedSectionIds == []
    {
      selected := ConfirmedSections(Shown(), selectedSectionIds);
      Reset();
    }

    /** `handleCancel`: ask the owner to close the dialog and start again from the groups. */
    method HandleCancel() returns (open: bool)
      modifies this
      ensures !open
      ensures step == GroupsStep && selectedGroup == None && searchTerm == "" && selectedSectionIds == []
    {
      open := false;
      Reset();
    }
  }
}
