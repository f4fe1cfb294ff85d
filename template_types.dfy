/**
 * The template shapes: a template is a list of sections, a section carries an
 * optional list of visibility conditions, and a condition may carry an
 * optional list of child conditions (a finite tree).
 */
module TemplateTypes {
  import opened Options

  /** The six condition kinds, each stored as its string tag. */
  datatype ConditionType =
    | VariableEquals
    | VariableNotEquals
    | VariableContains
    | AlwaysVisible
    | AlwaysHidden
    | Group
  {
    function Tag(): string {
      match this
      case VariableEquals => "variable_equals"
      case VariableNotEquals => "variable_not_equals"
      case VariableContains => "variable_contains"
      case AlwaysVisible => "always_visible"
      case AlwaysHidden => "always_hidden"
      case Group => "group"
    }

    /** The three kinds that compare a variable against an expected value. */
    predicate IsVariableKind() {
      VariableEquals? || VariableNotEquals? || VariableContains?
    }
  }

  /** The kind a stored tag names, if it names one. */
  function ParseTag(s: string): (r: Option<ConditionType>)
    ensures r.Some? ==> r.value.Tag() == s
  {
    if s == "variable_equals" then Some(VariableEquals)
    else if s == "variable_not_equals" then Some(VariableNotEquals)
    else if s == "variable_contains" then Some(VariableContains)
    else if s == "always_visible" then Some(AlwaysVisible)
    else if s == "always_hidden" then Some(AlwaysHidden)
    else if s == "group" then Some(Group)
    else None
  }

  /** Each kind's tag reads back as that kind, so distinct kinds have distinct tags. */
  lemma TagRoundTrip(t: ConditionType)
    ensures ParseTag(t.Tag()) == Some(t)
  {
  }

  /** Exactly six strings are condition tags. */
  lemma TagsAreSix(s: string)
    ensures ParseTag(s).Some? <==>
              s in ["variable_equals", "variable_not_equals", "variable_contains",
                    "always_visible", "always_hidden", "group"]
  {
  }

  datatype Operator = And | Or

  /** The optional `children` list of a condition. */
  datatype Children = Absent | Present(items: seq<SectionCondition>)

  /**
   * A visibility condition.  `variableName`, `expectedValue`, `operator` and
   * `children` may each be absent.
   */
  datatype SectionCondition = SectionCondition(
    id: string,
    ctype: ConditionType,
    variableName: Option<string>,
    expectedValue: Option<string>,
    description: string,
    operator: Option<Operator>,
    children: Children)

  /** A section placed in a template; an absent `conditions` list is distinct from an empty one. */
  datatype TemplateSection = TemplateSection(
    id: string,
    name: string,
    content: string,
    conditions: Option<seq<SectionCondition>>)

  datatype Template = Template(
    id: string,
    name: string,
    description: string,
    createdAt: string,
    sections: seq<TemplateSection>)

  /** The children of a condition, absent read as none. */
  function ChildrenOf(c: SectionCondition): seq<SectionCondition> {
    match c.children
    case Absent => []
    case Present(cs) => cs
  }

  /** The conditions of a section, absent read as none. */
  function ConditionsOf(s: TemplateSection): seq<SectionCondition> {
    s.conditions.GetOr([])
  }

  /** Number of nodes in a condition tree. */
  function TreeSize(c: SectionCondition): (r: nat)
    ensures r >= 1
    decreases c, 1
  {
    match c.children
    case Absent => 1
    case Present(cs) => 1 + ForestSize(cs)
  }

  function ForestSize(cs: seq<SectionCondition>): (r: nat)
    ensures forall i :: 0 <= i < |cs| ==> TreeSize(cs[i]) <= r
    decreases cs, 0
  {
    if cs == [] then 0
    else
      assert forall i :: 1 <= i < |cs| ==> cs[i] == cs[1..][i - 1];
      TreeSize(cs[0]) + ForestSize(cs[1..])
  }

  /** A child is a strictly smaller tree than its parent, so a condition tree is finite. */
  lemma ChildSmaller(c: SectionCondition, i: nat)
    requires i < |ChildrenOf(c)|
    ensures TreeSize(ChildrenOf(c)[i]) < TreeSize(c)
  {
  }
}
