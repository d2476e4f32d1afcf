/** The ignore rule record `ElementInfos` and what each of its three fields filters on. */
module Rules {
  import opened Wrappers

  /**
   * One ignore rule. Each field is optional; a missing field means "no filter" on that
   * dimension. The datatype constructor stores the three fields exactly as given, and a rule
   * is never changed once built.
   */
  datatype ElementInfos = ElementInfos(
    tagName: Option<string>,
    attributes: Option<seq<string>>,
    classNames: Option<seq<string>>)

  /** The pseudo attribute a rule lists to switch off text comparison. */
  const TextKey: string := "text()"

  /** The rule does not filter by tag name, or names exactly `tag`. */
  predicate AppliesTo(rule: ElementInfos, tag: string)
  {
    rule.tagName.None? || rule.tagName.value == tag
  }

  /** The rule carries an attribute list and `key` is in it. */
  predicate ListsAttribute(rule: ElementInfos, key: string)
  {
    rule.attributes.Some? && key in rule.attributes.value
  }

  /** The rule carries a class list and applies to `tag`. */
  predicate HasClassFilterFor(rule: ElementInfos, tag: string)
  {
    AppliesTo(rule, tag) && rule.classNames.Some?
  }

  /** The rule names `tag` and filters neither by attribute nor by class: the whole tag is skipped. */
  predicate IgnoresWholeTag(rule: ElementInfos, tag: string)
  {
    rule.tagName == Some(tag) && rule.attributes.None? && rule.classNames.None?
  }

  /** The rule that `ignoreTags` registers for one tag name. */
  function TagRule(tag: string): (r: ElementInfos)
    ensures IgnoresWholeTag(r, tag)
    ensures forall other :: IgnoresWholeTag(r, other) ==> other == tag
  {
    ElementInfos(Some(tag), None, None)
  }

  /** The rules that `ignoreTags` registers, one per tag, in argument order. */
  function TagRules(tags: seq<string>): (r: seq<ElementInfos>)
    ensures |r| == |tags|
    ensures forall k :: 0 <= k < |tags| ==> r[k] == TagRule(tags[k])
  {
    if tags == [] then [] else [TagRule(tags[0])] + TagRules(tags[1..])
  }

  /** The registered rules: a null list holds none. */
  function RulesOf(listIgnore: Option<seq<ElementInfos>>): seq<ElementInfos>
  {
    if listIgnore.Some? then listIgnore.value else []
  }
}
