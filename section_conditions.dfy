/**
 * The flat list of a section's visibility conditions: a draft form that adds
 * one condition at a time, removal by id, and the one-line summaries.
 */
module SectionConditions {
  import opened Options
  import opened Text
  import opened Lists
  import opened TemplateTypes
  import ConditionBuilder

  /** The draft condition being filled in (`Partial<SectionCondition>`). */
  datatype Draft = Draft(
    ctype: Option<ConditionType>,
    description: Option<string>,
    variableName: Option<string>,
    expectedValue: Option<string>)

  /** The draft a fresh form starts from and returns to after each add. */
  const InitialDraft: Draft := Draft(Some(AlwaysVisible), Some(""), None, None)

  /** `newCondition.type || ''`. */
  function DraftTag(d: Draft): string {
    match d.ctype
    case Some(t) => t.Tag()
    case None => ""
  }

  /** `addCondition`'s guard: a type and a non-empty description are required. */
  predicate CanAdd(d: Draft) {
    d.ctype.Some? && d.description.GetOr("") != ""
  }

  /** The condition `addCondition` appends: missing name and value become `''`. */
  function ConditionFromDraft(d: Draft, id: string): (c: SectionCondition)
    requires CanAdd(d)
    ensures c.ctype == d.ctype.value && c.description == d.description.value && c.description != ""
    ensures c.variableName == Some(d.variableName.GetOr("")) && c.expectedValue == Some(d.expectedValue.GetOr(""))
    ensures c.operator == None && c.children == Absent
  {
    SectionCondition(id, d.ctype.value, Some(d.variableName.GetOr("")), Some(d.expectedValue.GetOr("")),
                     d.description.value, None, Absent)
  }

  /** The add button's `disabled` expression. */
  predicate AddDisabled(d: Draft) {
    d.description.GetOr("") == ""
    || (ConditionBuilder.NeedsVariable(DraftTag(d))
        && (d.variableName.GetOr("") == "" || d.expectedValue.GetOr("") == ""))
  }

  /**
   * An enabled button adds whenever the draft has a type, and a condition
   * added through an enabled button that compares a variable has a non-empty
   * name and expected value.
   */
  lemma EnabledAddsComplete(d: Draft, id: string)
    requires !AddDisabled(d) && d.ctype.Some?
    ensures CanAdd(d)
    ensures ConditionFromDraft(d, id).ctype.IsVariableKind() ==>
              ConditionFromDraft(d, id).variableName.value != "" && ConditionFromDraft(d, id).expectedValue.value != ""
  {
    TagRoundTrip(d.ctype.value);
  }

  /** `removeCondition(id)`: every condition with that id goes, the rest keep their order. */
  function RemoveCondition(conds: seq<SectionCondition>, id: string): (r: seq<SectionCondition>)
    ensures forall c :: c in r <==> c in conds && c.id != id
    ensures forall c :: Count(r, c) == if c.id != id then Count(conds, c) else 0
    ensures IsSubseq(r, conds)
    ensures (forall c :: c in conds ==> c.id != id) ==> r == conds
  {
    Filter(conds, (c: SectionCondition) => c.id != id)
  }

  /** A value interpolated into a template literal: `undefined` prints as "undefined". */
  function Interpolate(v: Option<string>): string {
    v.GetOr("undefined")
  }

  /** The comparison word of a variable kind's summary. */
  function Connective(t: ConditionType): string
    requires t.IsVariableKind()
  {
    match t
    case VariableEquals => " = \""
    case VariableNotEquals => " ≠ \""
    case VariableContains => " sadrži \""
  }

  /** The one-line summary under a condition's description; a group renders nothing. */
  function Summary(c: SectionCondition): string {
    match c.ctype
    case AlwaysVisible => "Uvijek vidljiva"
    case AlwaysHidden => "Uvijek skrivena"
    case Group => ""
    case _ => Interpolate(c.variableName) + Connective(c.ctype) + Interpolate(c.expectedValue) + "\""
  }

  /**
   * Two conditions on the same variable and value but of different
   * comparison kinds get different summaries, so the summary tells the kind.
   */
  lemma SummaryShowsKind(a: SectionCondition, b: SectionCondition)
    requires a.ctype.IsVariableKind() && b.ctype.IsVariableKind() && a.ctype != b.ctype
    requires a.variableName == b.variableName && a.expectedValue == b.expectedValue
    ensures Summary(a) != Summary(b)
  {
    var k := |Interpolate(a.variableName)| + 1;
    assert Summary(a)[k] == Connective(a.ctype)[1];
    assert Summary(b)[k] == Connective(b.ctype)[1];
  }

  /**
   * The editor's state: the condition list it was given (and receives back
   * after each `onChange`) and the draft of the next condition.
   */
  class ConditionListEditor {
    var conditions: seq<SectionCondition>
    var draft: Draft

    constructor (initial: seq<SectionCondition>)
      ensures conditions == initial && draft == InitialDraft
    {
      conditions := initial;
      draft := InitialDraft;
    }

    /** The type, description, name and value inputs write into the draft. */
    method EditDraft(d: Draft)
      modifies this
      ensures draft == d && conditions == old(conditions)
    {
      draft := d;
    }

    /** `addCondition`: with a type and a description, append one condition and reset the draft; otherwise do nothing. */
    method AddCondition(newId: string)
      modifies this
      ensures CanAdd(old(draft)) ==>
                conditions == old(conditions) + [ConditionFromDraft(old(draft), newId)] && draft == InitialDraft
      ensures !CanAdd(old(draft)) ==> conditions == old(conditions) && draft == old(draft)
    {
      if draft.ctype.None? || draft.description.GetOr("") == "" {
        return;
      }
      var c := ConditionFromDraft(draft, newId);
      conditions := conditions + [c];
      draft := InitialDraft;
    }

    method RemoveConditionById(id: string)
      modifies this
      ensures conditions == RemoveCondition(old(conditions), id) && draft == old(draft)
    {
      conditions := RemoveCondition(conditions, id);
    }
  }
}
