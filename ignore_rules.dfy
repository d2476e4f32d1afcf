/**
 * The four lookups into the registered ignore rules. Each one scans the rules in the order
 * they were registered and has its own policy for which rule decides.
 */
module IgnoreRules {
  import opened Wrappers
  import opened Rules
  import opened Dom

  // ---------------------------------------------------------------------------------------
  // verifyIgnoreTag: any rule that skips the whole tag
  // ---------------------------------------------------------------------------------------

  /** Some rule in `rules` names `tag` and filters neither by attribute nor by class. */
  function HasTagRule(rules: seq<ElementInfos>, tag: string): bool
  {
    rules != [] && (IgnoresWholeTag(rules[0], tag) || HasTagRule(rules[1..], tag))
  }

  /** Whether elements with tag name `tag` are exempt from matching; no rules means none are. */
  function VerifyIgnoreTag(listIgnore: Option<seq<ElementInfos>>, tag: string): (r: bool)
    ensures r <==> listIgnore.Some? && exists i :: 0 <= i < |listIgnore.value| && IgnoresWholeTag(listIgnore.value[i], tag)
  {
    if listIgnore.None? then false
    else
      HasTagRuleExists(listIgnore.value, tag);
      HasTagRule(listIgnore.value, tag)
  }

  lemma {:induction false} HasTagRuleExists(rules: seq<ElementInfos>, tag: string)
    ensures HasTagRule(rules, tag) <==> exists i :: 0 <= i < |rules| && IgnoresWholeTag(rules[i], tag)
  {
    if rules != [] {
      HasTagRuleExists(rules[1..], tag);
      if exists i :: 0 <= i < |rules| && IgnoresWholeTag(rules[i], tag) {
        var i :| 0 <= i < |rules| && IgnoresWholeTag(rules[i], tag);
        if i > 0 {
          assert IgnoresWholeTag(rules[1..][i - 1], tag);
        }
      }
      if HasTagRule(rules[1..], tag) {
        var i :| 0 <= i < |rules| - 1 && IgnoresWholeTag(rules[1..][i], tag);
        assert IgnoresWholeTag(rules[i + 1], tag);
      }
    }
  }

  /** Appending rules keeps every skipped tag skipped and adds those the new rules skip. */
  lemma AppendTagRules(rules: seq<ElementInfos>, more: seq<ElementInfos>, tag: string)
    ensures HasTagRule(rules + more, tag) <==> HasTagRule(rules, tag) || HasTagRule(more, tag)
  {
    HasTagRuleExists(rules, tag);
    HasTagRuleExists(more, tag);
    HasTagRuleExists(rules + more, tag);
    if HasTagRule(rules + more, tag) {
      var i :| 0 <= i < |rules + more| && IgnoresWholeTag((rules + more)[i], tag);
      if i >= |rules| {
        assert IgnoresWholeTag(more[i - |rules|], tag);
      }
    }
    if HasTagRule(rules, tag) {
      var i :| 0 <= i < |rules| && IgnoresWholeTag(rules[i], tag);
      assert (rules + more)[i] == rules[i];
    }
    if HasTagRule(more, tag) {
      var i :| 0 <= i < |more| && IgnoresWholeTag(more[i], tag);
      assert (rules + more)[|rules| + i] == more[i];
    }
  }

  /** After registering one tag rule per name, each of those names is skipped, and so is every name skipped before. */
  lemma TagRulesIgnoreTheirTags(rules: seq<ElementInfos>, tags: seq<string>, tag: string)
    requires tag in tags || HasTagRule(rules, tag)
    ensures HasTagRule(rules + TagRules(tags), tag)
  {
    AppendTagRules(rules, TagRules(tags), tag);
    if tag in tags {
      var k :| 0 <= k < |tags| && tags[k] == tag;
      HasTagRuleExists(TagRules(tags), tag);
      assert IgnoresWholeTag(TagRules(tags)[k], tag);
    }
  }

  // ---------------------------------------------------------------------------------------
  // verifyIgnoreText and verifyIgnoreAttribute: the first rule listing the key decides
  // ---------------------------------------------------------------------------------------

  /**
   * The verdict of the first rule whose attribute list holds `key`: whether that rule applies
   * to `tag`. Later rules are not consulted; when no rule lists `key` the answer is no.
   */
  function AttributeVerdict(rules: seq<ElementInfos>, tag: string, key: string): bool
  {
    if rules == [] then false
    else if ListsAttribute(rules[0], key) then AppliesTo(rules[0], tag)
    else AttributeVerdict(rules[1..], tag, key)
  }

  /** Whether text comparison is switched off for elements with tag name `tag`. */
  function VerifyIgnoreText(listIgnore: Option<seq<ElementInfos>>, tag: string): (r: bool)
    ensures r <==> listIgnore.Some? && exists i :: FirstListing(listIgnore.value, TextKey, i) && AppliesTo(listIgnore.value[i], tag)
  {
    if listIgnore.None? then false
    else
      AttributeVerdictIsFirstListing(listIgnore.value, tag, TextKey);
      AttributeVerdict(listIgnore.value, tag, TextKey)
  }

  /** Whether attribute `attr` of an element with tag name `tag` is exempt from matching. */
  function VerifyIgnoreAttribute(listIgnore: Option<seq<ElementInfos>>, tag: string, attr: Attribute): (r: bool)
    ensures r <==> listIgnore.Some? && exists i :: FirstListing(listIgnore.value, attr.key, i) && AppliesTo(listIgnore.value[i], tag)
  {
    if listIgnore.None? then false
    else
      AttributeVerdictIsFirstListing(listIgnore.value, tag, attr.key);
      AttributeVerdict(listIgnore.value, tag, attr.key)
  }

  /** `i` is the first position whose rule lists `key`. */
  predicate FirstListing(rules: seq<ElementInfos>, key: string, i: int)
  {
    0 <= i < |rules| && ListsAttribute(rules[i], key) && forall j :: 0 <= j < i ==> !ListsAttribute(rules[j], key)
  }

  /** The lookup is true exactly when a first listing rule exists and it applies to the tag. */
  lemma {:induction false} AttributeVerdictIsFirstListing(rules: seq<ElementInfos>, tag: string, key: string)
    ensures AttributeVerdict(rules, tag, key) <==> exists i :: FirstListing(rules, key, i) && AppliesTo(rules[i], tag)
  {
    if rules != [] && !ListsAttribute(rules[0], key) {
      var tail := rules[1..];
      AttributeVerdictIsFirstListing(tail, tag, key);
      if AttributeVerdict(tail, tag, key) {
        var i :| FirstListing(tail, key, i) && AppliesTo(tail[i], tag);
        assert FirstListing(rules, key, i + 1) by {
          forall j | 0 <= j < i + 1 ensures !ListsAttribute(rules[j], key) {
            if j > 0 {
              assert rules[j] == tail[j - 1];
            }
          }
        }
      }
      if exists i :: FirstListing(rules, key, i) && AppliesTo(rules[i], tag) {
        var i :| FirstListing(rules, key, i) && AppliesTo(rules[i], tag);
        assert i != 0;
        assert FirstListing(tail, key, i - 1) by {
          forall j | 0 <= j < i - 1 ensures !ListsAttribute(tail[j], key) {
            assert tail[j] == rules[j + 1];
          }
        }
      }
    } else if rules != [] {
      assert FirstListing(rules, key, 0);
    }
  }

  /** A rule that lists `key` and does not filter by tag name exempts `key` on every tag, if it is the first to list it. */
  lemma UnfilteredRuleAppliesToEveryTag(rules: seq<ElementInfos>, key: string, i: int, tag: string)
    requires FirstListing(rules, key, i) && rules[i].tagName.None?
    ensures AttributeVerdict(rules, tag, key)
  {
    AttributeVerdictIsFirstListing(rules, tag, key);
  }

  /** Once a rule lists `key`, rules registered after it never change the verdict. */
  lemma {:induction false} AttributeVerdictIgnoresLaterRules(rules: seq<ElementInfos>, more: seq<ElementInfos>, tag: string, key: string)
    requires exists i :: 0 <= i < |rules| && ListsAttribute(rules[i], key)
    ensures AttributeVerdict(rules + more, tag, key) == AttributeVerdict(rules, tag, key)
  {
    assert (rules + more)[0] == rules[0];
    if !ListsAttribute(rules[0], key) {
      var i :| 0 <= i < |rules| && ListsAttribute(rules[i], key);
      assert ListsAttribute(rules[1..][i - 1], key);
      assert (rules + more)[1..] == rules[1..] + more;
      AttributeVerdictIgnoresLaterRules(rules[1..], more, tag, key);
    }
  }

  /** A rule without an attribute list is skipped by the text and attribute lookups, wherever it stands. */
  lemma {:induction false} RuleWithoutAttributesSkipped(rules: seq<ElementInfos>, k: nat, rule: ElementInfos, tag: string, key: string)
    requires k <= |rules| && rule.attributes.None?
    ensures AttributeVerdict(rules[..k] + [rule] + rules[k..], tag, key) == AttributeVerdict(rules, tag, key)
  {
    var with := rules[..k] + [rule] + rules[k..];
    if k == 0 {
      assert with[1..] == rules;
    } else {
      assert with[0] == rules[0];
      assert with[1..] == rules[1..][..k - 1] + [rule] + rules[1..][k - 1..];
      RuleWithoutAttributesSkipped(rules[1..], k - 1, rule, tag, key);
    }
  }

  // ---------------------------------------------------------------------------------------
  // verifyIgnoreClass: the first rule for the tag that carries a class list decides
  // ---------------------------------------------------------------------------------------

  /**
   * The verdict of the first rule that applies to `tag` and carries a class list: whether
   * `className` is in that list. When there is no such rule the answer is no.
   */
  function ClassVerdict(rules: seq<ElementInfos>, tag: string, className: string): bool
  {
    if rules == [] then false
    else if HasClassFilterFor(rules[0], tag) then className in rules[0].classNames.value
    else ClassVerdict(rules[1..], tag, className)
  }

  /**
   * Whether class `className` of an element with tag name `tag` is exempt. Unlike the other
   * lookups this one does not guard against a null rule list: with no rules it faults.
   */
  function VerifyIgnoreClass(listIgnore: Option<seq<ElementInfos>>, tag: string, className: string): (r: Result<bool>)
    ensures r.Failure? <==> listIgnore.None?
  {
    match listIgnore
    case None => Failure(NullPointer)
    case Some(rules) => Success(ClassVerdict(rules, tag, className))
  }

  /** `i` is the first position whose rule applies to `tag` and carries a class list. */
  predicate FirstClassFilter(rules: seq<ElementInfos>, tag: string, i: int)
  {
    0 <= i < |rules| && HasClassFilterFor(rules[i], tag) && forall j :: 0 <= j < i ==> !HasClassFilterFor(rules[j], tag)
  }

  lemma {:induction false} ClassVerdictIsFirstFilter(rules: seq<ElementInfos>, tag: string, className: string)
    ensures ClassVerdict(rules, tag, className) <==>
      exists i :: FirstClassFilter(rules, tag, i) && className in rules[i].classNames.value
  {
    if rules != [] && !HasClassFilterFor(rules[0], tag) {
      var tail := rules[1..];
      ClassVerdictIsFirstFilter(tail, tag, className);
      if ClassVerdict(tail, tag, className) {
        var i :| FirstClassFilter(tail, tag, i) && className in tail[i].classNames.value;
        assert FirstClassFilter(rules, tag, i + 1) by {
          forall j | 0 <= j < i + 1 ensures !HasClassFilterFor(rules[j], tag) {
            if j > 0 {
              assert rules[j] == tail[j - 1];
            }
          }
        }
      }
      if exists i :: FirstClassFilter(rules, tag, i) && className in rules[i].classNames.value {
        var i :| FirstClassFilter(rules, tag, i) && className in rules[i].classNames.value;
        assert i != 0;
        assert FirstClassFilter(tail, tag, i - 1) by {
          forall j | 0 <= j < i - 1 ensures !HasClassFilterFor(tail[j], tag) {
            assert tail[j] == rules[j + 1];
          }
        }
      }
    } else if rules != [] {
      assert FirstClassFilter(rules, tag, 0);
    }
  }

  /** Once a rule with a class list applies to the tag, rules registered after it never change the verdict. */
  lemma {:induction false} ClassVerdictIgnoresLaterRules(rules: seq<ElementInfos>, more: seq<ElementInfos>, tag: string, className: string)
    requires exists i :: 0 <= i < |rules| && HasClassFilterFor(rules[i], tag)
    ensures ClassVerdict(rules + more, tag, className) == ClassVerdict(rules, tag, className)
  {
    assert (rules + more)[0] == rules[0];
    if !HasClassFilterFor(rules[0], tag) {
      var i :| 0 <= i < |rules| && HasClassFilterFor(rules[i], tag);
      assert HasClassFilterFor(rules[1..][i - 1], tag);
      assert (rules + more)[1..] == rules[1..] + more;
      ClassVerdictIgnoresLaterRules(rules[1..], more, tag, className);
    }
  }

  /** A rule without a class list is skipped by the class lookup, wherever it stands. */
  lemma {:induction false} RuleWithoutClassNamesSkipped(rules: seq<ElementInfos>, k: nat, rule: ElementInfos, tag: string, className: string)
    requires k <= |rules| && rule.classNames.None?
    ensures ClassVerdict(rules[..k] + [rule] + rules[k..], tag, className) == ClassVerdict(rules, tag, className)
  {
    var with := rules[..k] + [rule] + rules[k..];
    if k == 0 {
      assert with[1..] == rules;
    } else {
      assert with[0] == rules[0];
      assert with[1..] == rules[1..][..k - 1] + [rule] + rules[1..][k - 1..];
      RuleWithoutClassNamesSkipped(rules[1..], k - 1, rule, tag, className);
    }
  }
}
