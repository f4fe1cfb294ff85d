/**
 * The condition editor.  Each edit builds a new condition from the current
 * one and hands it to the parent; nothing is updated in place.
 */
module ConditionBuilder {
  import opened Options
  import opened Text
  import opened Lists
  import opened TemplateTypes

  /** `needsVariable(type)`: the type is one of the three variable comparisons. */
  predicate NeedsVariable(tag: string)
    ensures NeedsVariable(tag) <==> ParseTag(tag).Some? && ParseTag(tag).value.IsVariableKind()
  {
    tag in ["variable_equals", "variable_not_equals", "variable_contains"]
  }

  /** `handlePlaceholderSelect`: the variable becomes the placeholder's value with every brace removed. */
  function HandlePlaceholderSelect(c: SectionCondition, placeholderValue: string): (r: SectionCondition)
    ensures r == c.(variableName := r.variableName)
    ensures r.variableName == Some(StripBraces(placeholderValue))
    ensures forall i :: 0 <= i < |r.variableName.value| ==> !IsBrace(r.variableName.value[i])
    ensures (forall i :: 0 <= i < |placeholderValue| ==> !IsBrace(placeholderValue[i])) ==>
              r.variableName == Some(placeholderValue)
  {
    c.(variableName := Some(StripBraces(placeholderValue)))
  }

  /**
   * Picking the placeholder shown as `{{name}}` sets the variable to `name`;
   * re-picking the current variable leaves the condition as it was.
   */
  lemma ReselectDisplayed(c: SectionCondition, name: string)
    requires forall i :: 0 <= i < |name| ==> !IsBrace(name[i])
    ensures HandlePlaceholderSelect(c, Wrap(name)).variableName == Some(name)
    ensures c.variableName == Some(name) ==> HandlePlaceholderSelect(c, Wrap(name)) == c
  {
    StripWrap(name);
  }

  /** The description given to the `n`-th child: `Uslov ${n}`. */
  function ChildLabel(n: nat): string {
    "Uslov " + NatToString(n)
  }

  /** The child `addChildCondition` appends. */
  function NewChild(id: string, n: nat): SectionCondition {
    SectionCondition(id, VariableEquals, Some(""), Some(""), ChildLabel(n), Some(And), Absent)
  }

  /**
   * `addChildCondition`: the node becomes a group, keeps its children as a
   * prefix and gains one empty `variable_equals` child at the end.
   */
  function AddChildCondition(c: SectionCondition, newId: string): (r: SectionCondition)
    ensures r == c.(ctype := Group, children := r.children)
    ensures r.children.Present?
    ensures |ChildrenOf(r)| == |ChildrenOf(c)| + 1
    ensures ChildrenOf(r)[..|ChildrenOf(c)|] == ChildrenOf(c)
    ensures ChildrenOf(r)[|ChildrenOf(c)|] == NewChild(newId, |ChildrenOf(c)| + 1)
  {
    c.(ctype := Group, children := Present(ChildrenOf(c) + [NewChild(newId, |ChildrenOf(c)| + 1)]))
  }

  /** `updateChild(i, child)`: position `i` is replaced, every other child and every other field kept. */
  function UpdateChild(c: SectionCondition, i: nat, child: SectionCondition): (r: SectionCondition)
    requires i < |ChildrenOf(c)|
    ensures r == c.(children := r.children)
    ensures r.children.Present?
    ensures |ChildrenOf(r)| == |ChildrenOf(c)|
    ensures ChildrenOf(r)[i] == child
    ensures forall k :: 0 <= k < |ChildrenOf(c)| && k != i ==> ChildrenOf(r)[k] == ChildrenOf(c)[k]
  {
    c.(children := Present(ChildrenOf(c)[i := child]))
  }

  /**
   * `removeChild(i)`: the child at `i` is dropped and the rest keep their
   * order; when none remain the node turns into `always_visible` with no
   * children.
   */
  function RemoveChild(c: SectionCondition, i: int): (r: SectionCondition)
    ensures 0 <= i < |ChildrenOf(c)| && |ChildrenOf(c)| > 1 ==>
              r == c.(children := Present(ChildrenOf(c)[..i] + ChildrenOf(c)[i + 1..]))
    ensures |ChildrenOf(c)| == 0 || (|ChildrenOf(c)| == 1 && i == 0) ==>
              r == c.(ctype := AlwaysVisible, children := Absent)
    ensures !(0 <= i < |ChildrenOf(c)|) && |ChildrenOf(c)| > 0 ==>
              r == c.(children := Present(ChildrenOf(c)))
  {
    var kept := WithoutIndex(ChildrenOf(c), i);
    if |kept| == 0 then c.(ctype := AlwaysVisible, children := Absent)
    else c.(children := Present(kept))
  }

  /** On a group with children, adding a child and removing it again at the last index gives the group back. */
  lemma AddThenRemoveLast(c: SectionCondition, newId: string)
    requires c.ctype == Group && c.children.Present? && |c.children.items| >= 1
    ensures RemoveChild(AddChildCondition(c, newId), |ChildrenOf(c)|) == c
  {
    var added := AddChildCondition(c, newId);
    assert ChildrenOf(added)[..|ChildrenOf(c)|] + ChildrenOf(added)[|ChildrenOf(c)| + 1..] == ChildrenOf(c);
  }

  /** Removing the only child of any node leaves an `always_visible` leaf. */
  lemma RemoveOnlyChild(c: SectionCondition)
    requires |ChildrenOf(c)| == 1
    ensures RemoveChild(c, 0).ctype == AlwaysVisible && RemoveChild(c, 0).children == Absent
  {
  }
}
