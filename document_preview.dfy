/**
 * The document preview's section-visibility evaluator.  A section is shown
 * when every one of its top-level conditions holds for the variable values
 * the user typed in; the preview also lists the variables it must ask for.
 *
 * Only top-level conditions are read: a `group` node falls into the switch's
 * default branch and is satisfied whatever its children and operator are.
 */
module DocumentPreview {
  import opened Options
  import opened Text
  import opened Lists
  import opened TemplateTypes

  /** The values typed into the preview, by variable name; an absent key is `undefined`. */
  type Variables = map<string, string>

  /** `variables[key]`. */
  function Lookup(vars: Variables, key: string): Option<string> {
    if key in vars then Some(vars[key]) else None
  }

  /** The key a condition reads: `condition.variableName || ''`. */
  function VariableKey(c: SectionCondition): string {
    c.variableName.GetOr("")
  }

  /**
   * One top-level condition.  `variable_equals` and `variable_not_equals`
   * compare the possibly-undefined value with the possibly-undefined expected
   * value (`===` / `!==`); `variable_contains` reads both as `''` when absent.
   */
  predicate ConditionHolds(c: SectionCondition, vars: Variables) {
    match c.ctype
    case AlwaysVisible => true
    case AlwaysHidden => false
    case VariableEquals => Lookup(vars, VariableKey(c)) == c.expectedValue
    case VariableNotEquals => Lookup(vars, VariableKey(c)) != c.expectedValue
    case VariableContains => Contains(Lookup(vars, VariableKey(c)).GetOr(""), c.expectedValue.GetOr(""))
    case Group => true
  }

  /** `conditions.every(...)`, left to right. */
  predicate Every(cs: seq<SectionCondition>, vars: Variables)
    ensures Every(cs, vars) <==> forall i :: 0 <= i < |cs| ==> ConditionHolds(cs[i], vars)
  {
    cs == [] || (ConditionHolds(cs[0], vars) && Every(cs[1..], vars))
  }

  /** `isSectionVisible`: no conditions, or an empty list, means visible; otherwise every condition must hold. */
  predicate IsSectionVisible(s: TemplateSection, vars: Variables)
    ensures IsSectionVisible(s, vars) <==> forall c :: c in ConditionsOf(s) ==> ConditionHolds(c, vars)
  {
    if s.conditions.None? || |s.conditions.value| == 0 then true
    else Every(s.conditions.value, vars)
  }

  lemma NoConditionsVisible(s: TemplateSection, vars: Variables)
    requires s.conditions == None || s.conditions == Some([])
    ensures IsSectionVisible(s, vars)
  {
  }

  lemma ConstantKinds(c: SectionCondition, vars: Variables)
    ensures c.ctype == AlwaysVisible ==> ConditionHolds(c, vars)
    ensures c.ctype == AlwaysHidden ==> !ConditionHolds(c, vars)
  {
  }

  /** With a defined expected value, `variable_equals` holds iff the variable is present and equal to it. */
  lemma EqualsIff(c: SectionCondition, vars: Variables)
    requires c.ctype == VariableEquals && c.expectedValue.Some?
    ensures ConditionHolds(c, vars) <==>
              VariableKey(c) in vars && vars[VariableKey(c)] == c.expectedValue.value
  {
  }

  /** An absent variable never equals a defined expected value, not even `""`. */
  lemma AbsentNeverEquals(c: SectionCondition, vars: Variables)
    requires c.ctype == VariableEquals && c.expectedValue.Some? && VariableKey(c) !in vars
    ensures !ConditionHolds(c, vars)
  {
  }

  /** With an undefined expected value, `variable_equals` holds exactly when the variable is absent. */
  lemma EqualsUndefinedExpected(c: SectionCondition, vars: Variables)
    requires c.ctype == VariableEquals && c.expectedValue.None?
    ensures ConditionHolds(c, vars) <==> VariableKey(c) !in vars
  {
  }

  /** `variable_not_equals` is the exact negation of `variable_equals` on the same name, value and variables. */
  lemma NotEqualsNegatesEquals(c: SectionCondition, vars: Variables)
    ensures ConditionHolds(c.(ctype := VariableNotEquals), vars) == !ConditionHolds(c.(ctype := VariableEquals), vars)
  {
  }

  /** `variable_contains` with an empty or missing expected value holds for every variable map. */
  lemma ContainsEmptyExpected(c: SectionCondition, vars: Variables)
    requires c.ctype == VariableContains && (c.expectedValue == None || c.expectedValue == Some(""))
    ensures ConditionHolds(c, vars)
  {
    ContainsEmpty(Lookup(vars, VariableKey(c)).GetOr(""));
  }

  /** For `variable_contains` an absent variable reads as `""`, so only an empty expected value is found in it. */
  lemma ContainsAbsentReadsEmpty(c: SectionCondition, vars: Variables)
    requires c.ctype == VariableContains && VariableKey(c) !in vars
    ensures ConditionHolds(c, vars) <==> c.expectedValue.GetOr("") == ""
  {
    ContainsInEmpty(c.expectedValue.GetOr(""));
  }

  /** A `group` node is satisfied, whatever its children and operator (fail open). */
  lemma GroupFailsOpen(c: SectionCondition, vars: Variables, children: Children, op: Option<Operator>)
    requires c.ctype == Group
    ensures ConditionHolds(c.(children := children, operator := op), vars)
  {
  }

  /** A section whose top-level conditions are all groups is visible for every variable map. */
  lemma AllGroupsVisible(s: TemplateSection, vars: Variables)
    requires forall c :: c in ConditionsOf(s) ==> c.ctype == Group
    ensures IsSectionVisible(s, vars)
  {
  }

  /** `template.sections.filter(isSectionVisible)`. */
  function VisibleSections(t: Template, vars: Variables): (r: seq<TemplateSection>)
    ensures forall s :: s in r <==> s in t.sections && IsSectionVisible(s, vars)
    ensures forall s :: Count(r, s) == if IsSectionVisible(s, vars) then Count(t.sections, s) else 0
    ensures IsSubseq(r, t.sections)
    ensures |r| <= |t.sections|
  {
    Filter(t.sections, s => IsSectionVisible(s, vars))
  }

  /** The "hidden sections" statistic: total minus visible. */
  function HiddenCount(t: Template, vars: Variables): (r: nat)
    ensures r == |Filter(t.sections, s => !IsSectionVisible(s, vars))|
  {
    FilterPartition(t.sections, s => IsSectionVisible(s, vars), s => !IsSectionVisible(s, vars));
    |t.sections| - |VisibleSections(t, vars)|
  }

  /** The name a top-level condition contributes to the variable form, if any. */
  function ContributedName(c: SectionCondition): Option<string> {
    if c.variableName.Some? && c.variableName.value != ""
       && c.ctype != AlwaysVisible && c.ctype != AlwaysHidden
    then Some(c.variableName.value)
    else None
  }

  function NameList(c: SectionCondition): seq<string> {
    match ContributedName(c)
    case Some(n) => [n]
    case None => []
  }

  /** The names contributed by a condition list, in order, repeats included. */
  function ConditionNames(cs: seq<SectionCondition>): seq<string> {
    if cs == [] then [] else ConditionNames(cs[..|cs| - 1]) + NameList(cs[|cs| - 1])
  }

  /** The names contributed by the top-level conditions of every section, in visiting order. */
  function SectionNames(ss: seq<TemplateSection>): seq<string> {
    if ss == [] then [] else SectionNames(ss[..|ss| - 1]) + ConditionNames(ConditionsOf(ss[|ss| - 1]))
  }

  /** `x` is the name of some eligible top-level condition of some section. */
  ghost predicate Referenced(ss: seq<TemplateSection>, x: string) {
    exists s, c :: s in ss && c in ConditionsOf(s) && ContributedName(c) == Some(x)
  }

  lemma {:induction false} ConditionNamesIff(cs: seq<SectionCondition>, x: string)
    ensures x in ConditionNames(cs) <==> exists c :: c in cs && ContributedName(c) == Some(x)
  {
    if cs != [] {
      var p := cs[..|cs| - 1];
      ConditionNamesIff(p, x);
      assert forall c :: c in cs <==> c in p || c == cs[|cs| - 1];
    }
  }

  lemma {:induction false} SectionNamesIff(ss: seq<TemplateSection>, x: string)
    ensures x in SectionNames(ss) <==> Referenced(ss, x)
  {
    if ss != [] {
      var p := ss[..|ss| - 1];
      var last := ss[|ss| - 1];
      SectionNamesIff(p, x);
      ConditionNamesIff(ConditionsOf(last), x);
      assert forall s :: s in ss <==> s in p || s == last;
      if x in ConditionNames(ConditionsOf(last)) {
        var c :| c in ConditionsOf(last) && ContributedName(c) == Some(x);
        assert last in ss;
      }
      if Referenced(ss, x) {
        var s, c :| s in ss && c in ConditionsOf(s) && ContributedName(c) == Some(x);
        if s != last {
          assert Referenced(p, x);
        }
      }
    }
  }

  lemma DedupSnoc(xs: seq<string>, n: string)
    ensures Dedup(xs + [n]) == if n in Dedup(xs) then Dedup(xs) else Dedup(xs) + [n]
  {
    assert (xs + [n])[..|xs|] == xs;
  }

  /**
   * `getAllVariables`: walks every section's top-level conditions and adds
   * each eligible name to an insertion-ordered set.  The result names each
   * referenced variable once, in first-seen order.
   */
  method GetAllVariables(t: Template) returns (vars: seq<string>)
    ensures vars == Dedup(SectionNames(t.sections))
    ensures NoDup(vars)
    ensures forall x :: x in vars <==> Referenced(t.sections, x)
  {
    vars := [];
    var i := 0;
    while i < |t.sections|
      invariant 0 <= i <= |t.sections|
      invariant vars == Dedup(SectionNames(t.sections[..i]))
    {
      ghost var done := SectionNames(t.sections[..i]);
      var conds := ConditionsOf(t.sections[i]);
      var j := 0;
      assert done + ConditionNames(conds[..0]) == done;
      while j < |conds|
        invariant 0 <= j <= |conds|
        invariant vars == Dedup(done + ConditionNames(conds[..j]))
      {
        var c := conds[j];
        AddNameStep(done, conds, j);
        if c.variableName.Some? && c.variableName.value != ""
           && c.ctype != AlwaysVisible && c.ctype != AlwaysHidden
        {
          if c.variableName.value !in vars {
            vars := vars + [c.variableName.value];
          }
        }
        j := j + 1;
      }
      assert conds[..j] == conds;
      NextSectionStep(t.sections, i);
      i := i + 1;
    }
    assert t.sections[..i] == t.sections;
    forall x ensures x in vars <==> Referenced(t.sections, x) {
      SectionNamesIff(t.sections, x);
    }
  }

  /** One step of the inner loop: the condition at `j` adds its name unless the set already holds it. */
  lemma AddNameStep(done: seq<string>, conds: seq<SectionCondition>, j: nat)
    requires j < |conds|
    ensures Dedup(done + ConditionNames(conds[..j + 1])) ==
              match ContributedName(conds[j])
              case Some(n) =>
                if n in Dedup(done + ConditionNames(conds[..j])) then Dedup(done + ConditionNames(conds[..j]))
                else Dedup(done + ConditionNames(conds[..j])) + [n]
              case None => Dedup(done + ConditionNames(conds[..j]))
  {
    assert conds[..j + 1][..j] == conds[..j];
    var before := done + ConditionNames(conds[..j]);
    match ContributedName(conds[j])
    case Some(n) =>
      assert done + ConditionNames(conds[..j + 1]) == before + [n];
      DedupSnoc(before, n);
    case None =>
      assert done + ConditionNames(conds[..j + 1]) == before;
  }

  /** One step of the outer loop: section `i` appends its condition names. */
  lemma NextSectionStep(ss: seq<TemplateSection>, i: nat)
    requires i < |ss|
    ensures SectionNames(ss[..i + 1]) == SectionNames(ss[..i]) + ConditionNames(ConditionsOf(ss[i]))
  {
    assert ss[..i + 1][..i] == ss[..i];
  }

  /** Sections with two independent top-level conditions are AND-combined. */
  lemma TopLevelIsConjunction(s: TemplateSection, vars: Variables, a: SectionCondition, b: SectionCondition)
    requires s.conditions == Some([a, b])
    ensures IsSectionVisible(s, vars) <==> ConditionHolds(a, vars) && ConditionHolds(b, vars)
  {
    assert a in [a, b] && b in [a, b];
  }
}
