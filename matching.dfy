/**
 * The matchers: class tokens, single attributes, attribute sets, text nodes, and one current
 * element against the whole reference document; and the verdict a validation run reaches.
 */
module Matching {
  import opened Wrappers
  import opened Rules
  import opened Dom
  import opened Strings
  import opened IgnoreRules

  const ClassKey: string := "class"

  // ---------------------------------------------------------------------------------------
  // verifyClass and verifyClasses
  // ---------------------------------------------------------------------------------------

  /** `className` is exempt on `tag`, or found in `listClasses`; faults when no rule list exists. */
  function VerifyClass(tag: string, className: string, listClasses: seq<string>, listIgnore: Option<seq<ElementInfos>>): (r: Result<bool>)
    ensures r.Failure? <==> listIgnore.None?
    ensures r.Success? ==> (r.value <==>
      (exists i :: FirstClassFilter(listIgnore.value, tag, i) && className in listIgnore.value[i].classNames.value)
      || className in listClasses)
  {
    match VerifyIgnoreClass(listIgnore, tag, className)
    case Failure(f) => Failure(f)
    case Success(ignored) =>
      ClassVerdictIsFirstFilter(listIgnore.value, tag, className);
      if ignored then Success(true) else Success(className in listClasses)
  }

  /** Checks `VerifyClass` for each token in order; stops at the first token that fails or faults. */
  function EveryClassFound(tag: string, tokens: seq<string>, other: seq<string>, listIgnore: Option<seq<ElementInfos>>): Result<bool>
  {
    if tokens == [] then Success(true)
    else
      match VerifyClass(tag, tokens[0], other, listIgnore)
      case Failure(f) => Failure(f)
      case Success(found) => if !found then Success(false) else EveryClassFound(tag, tokens[1..], other, listIgnore)
  }

  /** Sorts both token lists; equal lists match, otherwise each side's tokens are looked up in the other's. */
  function CompareClassLists(curr: seq<string>, orig: seq<string>, tag: string, listIgnore: Option<seq<ElementInfos>>): Result<bool>
  {
    var currClasses := SortStrings(curr);
    var origClasses := SortStrings(orig);
    if currClasses == origClasses then Success(true)
    else
      match EveryClassFound(tag, currClasses, origClasses, listIgnore)
      case Failure(f) => Failure(f)
      case Success(ok) => if !ok then Success(false) else EveryClassFound(tag, origClasses, currClasses, listIgnore)
  }

  /** Every token of `tokens` is exempt on `tag` or occurs in `other`. */
  predicate Covers(tag: string, tokens: seq<string>, other: seq<string>, rules: seq<ElementInfos>)
  {
    forall t :: t in tokens ==> ClassVerdict(rules, tag, t) || t in other
  }

  lemma {:induction false} EveryClassFoundOutcome(tag: string, tokens: seq<string>, other: seq<string>, listIgnore: Option<seq<ElementInfos>>)
    ensures EveryClassFound(tag, tokens, other, listIgnore) ==
      if tokens == [] then Success(true)
      else if listIgnore.None? then Failure(NullPointer)
      else Success(Covers(tag, tokens, other, listIgnore.value))
  {
    if tokens != [] && listIgnore.Some? {
      var rules := listIgnore.value;
      EveryClassFoundOutcome(tag, tokens[1..], other, listIgnore);
      assert tokens == [tokens[0]] + tokens[1..];
      if ClassVerdict(rules, tag, tokens[0]) || tokens[0] in other {
        assert Covers(tag, tokens, other, rules) <==> Covers(tag, tokens[1..], other, rules);
      }
    }
  }

  /** The sorted comparison decided without the sorting: by multisets, then by coverage both ways. */
  lemma CompareClassListsOutcome(curr: seq<string>, orig: seq<string>, tag: string, listIgnore: Option<seq<ElementInfos>>)
    ensures CompareClassLists(curr, orig, tag, listIgnore) ==
      if multiset(curr) == multiset(orig) then Success(true)
      else if listIgnore.None? then Failure(NullPointer)
      else Success(Covers(tag, curr, orig, listIgnore.value) && Covers(tag, orig, curr, listIgnore.value))
  {
    var currSorted, origSorted := SortStrings(curr), SortStrings(orig);
    SortedEqualIffSameElements(curr, orig);
    EveryClassFoundOutcome(tag, currSorted, origSorted, listIgnore);
    EveryClassFoundOutcome(tag, origSorted, currSorted, listIgnore);
    if currSorted != origSorted && listIgnore.Some? {
      var rules := listIgnore.value;
      forall t ensures (t in currSorted <==> t in curr) && (t in origSorted <==> t in orig) {
        SortKeepsMembers(curr, t);
        SortKeepsMembers(orig, t);
      }
      assert Covers(tag, currSorted, origSorted, rules) == Covers(tag, curr, orig, rules);
      assert Covers(tag, origSorted, currSorted, rules) == Covers(tag, orig, curr, rules);
    }
  }

  /**
   * Compares the class tokens of two `class` attributes. The tokens are taken from each
   * attribute's KEY, not its value, exactly as the Java code does. Equal token multisets
   * match; otherwise a missing rule list faults, and with rules present each side's tokens
   * must be exempt or present on the other side.
   */
  function VerifyClasses(currAttr: Attribute, origAttr: Attribute, tag: string, listIgnore: Option<seq<ElementInfos>>): (r: Result<bool>)
    ensures var curr, orig := Split(currAttr.key), Split(origAttr.key);
      r == if multiset(curr) == multiset(orig) then Success(true)
        else if listIgnore.None? then Failure(NullPointer)
        else Success(Covers(tag, curr, orig, listIgnore.value) && Covers(tag, orig, curr, listIgnore.value))
  {
    CompareClassListsOutcome(Split(currAttr.key), Split(origAttr.key), tag, listIgnore);
    CompareClassLists(Split(currAttr.key), Split(origAttr.key), tag, listIgnore)
  }

  /** The class comparison does not depend on which side is the current one. */
  lemma VerifyClassesSymmetric(a: Attribute, b: Attribute, tag: string, listIgnore: Option<seq<ElementInfos>>)
    ensures VerifyClasses(a, b, tag, listIgnore) == VerifyClasses(b, a, tag, listIgnore)
  {
  }

  // ---------------------------------------------------------------------------------------
  // verifyAttribute and verifyAllAttributes
  // ---------------------------------------------------------------------------------------

  /**
   * Scans `origAttrs` in order for a counterpart of `currAttr`: two `class` attributes go to
   * the class comparison, anything else needs an equal key and an equal value.
   */
  function FindAttribute(currAttr: Attribute, origAttrs: seq<Attribute>, tag: string, listIgnore: Option<seq<ElementInfos>>): Result<bool>
  {
    if origAttrs == [] then Success(false)
    else if currAttr.key == ClassKey && origAttrs[0].key == ClassKey then
      match VerifyClasses(currAttr, origAttrs[0], tag, listIgnore)
      case Failure(f) => Failure(f)
      case Success(ok) => if ok then Success(true) else FindAttribute(currAttr, origAttrs[1..], tag, listIgnore)
    else if currAttr.key == origAttrs[0].key && currAttr.value == origAttrs[0].value then Success(true)
    else FindAttribute(currAttr, origAttrs[1..], tag, listIgnore)
  }

  /**
   * What `verifyAttribute` decides: never a fault, and a match exactly when the attribute is
   * exempt on the reference element's tag or has a counterpart among its attributes (equal key
   * and value; for `class`, just another `class`).
   */
  function VerifyAttribute(currAttr: Attribute, origElem: Element, listIgnore: Option<seq<ElementInfos>>): (r: Result<bool>)
    ensures r == Success(VerifyIgnoreAttribute(listIgnore, origElem.tagName, currAttr) || Counterpart(currAttr, origElem.attributes))
  {
    FindAttributeOutcome(currAttr, origElem.attributes, origElem.tagName, listIgnore);
    if VerifyIgnoreAttribute(listIgnore, origElem.tagName, currAttr) then Success(true)
    else FindAttribute(currAttr, origElem.attributes, origElem.tagName, listIgnore)
  }

  /**
   * Some attribute of `origAttrs` has the key of `currAttr` and, unless that key is `class`,
   * its value too.
   */
  predicate Counterpart(currAttr: Attribute, origAttrs: seq<Attribute>)
  {
    exists o :: o in origAttrs && o.key == currAttr.key && (currAttr.key == ClassKey || o.value == currAttr.value)
  }

  /** Two `class` attributes always compare equal, because their keys, both "class", are what is compared. */
  lemma ClassKeysAlwaysMatch(currAttr: Attribute, origAttr: Attribute, tag: string, listIgnore: Option<seq<ElementInfos>>)
    requires currAttr.key == ClassKey && origAttr.key == ClassKey
    ensures VerifyClasses(currAttr, origAttr, tag, listIgnore) == Success(true)
  {
  }

  lemma {:induction false} FindAttributeOutcome(currAttr: Attribute, origAttrs: seq<Attribute>, tag: string, listIgnore: Option<seq<ElementInfos>>)
    ensures FindAttribute(currAttr, origAttrs, tag, listIgnore) == Success(Counterpart(currAttr, origAttrs))
  {
    if origAttrs != [] {
      var o := origAttrs[0];
      assert o in origAttrs;
      if currAttr.key == ClassKey && o.key == ClassKey {
        ClassKeysAlwaysMatch(currAttr, o, tag, listIgnore);
      } else if !(currAttr.key == o.key && currAttr.value == o.value) {
        FindAttributeOutcome(currAttr, origAttrs[1..], tag, listIgnore);
        assert origAttrs == [o] + origAttrs[1..];
        if Counterpart(currAttr, origAttrs) {
          var p :| p in origAttrs && p.key == currAttr.key && (currAttr.key == ClassKey || p.value == currAttr.value);
          assert p != o;
          assert p in origAttrs[1..];
        }
      }
    }
  }

  /** Quirk: a current `class` attribute matches any reference element that has a `class` attribute, whatever the tokens. */
  lemma ClassAttributeAlwaysMatches(currAttr: Attribute, origElem: Element, listIgnore: Option<seq<ElementInfos>>)
    requires currAttr.key == ClassKey
    requires exists o :: o in origElem.attributes && o.key == ClassKey
    ensures VerifyAttribute(currAttr, origElem, listIgnore) == Success(true)
  {
  }

  /** An attribute other than `class`, not exempt, matches exactly when an attribute with equal key and value exists. */
  lemma PlainAttributeNeedsEqualValue(currAttr: Attribute, origElem: Element, listIgnore: Option<seq<ElementInfos>>)
    requires currAttr.key != ClassKey
    requires !VerifyIgnoreAttribute(listIgnore, origElem.tagName, currAttr)
    ensures VerifyAttribute(currAttr, origElem, listIgnore) == Success(currAttr in origElem.attributes)
  {
    if Counterpart(currAttr, origElem.attributes) {
      var o :| o in origElem.attributes && o.key == currAttr.key && o.value == currAttr.value;
      assert o == currAttr;
    }
  }

  /** Each attribute in order must match; the first that does not ends the scan. */
  function EveryAttributeFound(attrs: seq<Attribute>, origElem: Element, listIgnore: Option<seq<ElementInfos>>): bool
  {
    if attrs == [] then true
    else
      VerifyAttribute(attrs[0], origElem, listIgnore).value && EveryAttributeFound(attrs[1..], origElem, listIgnore)
  }


  lemma {:induction false} EveryAttributeFoundOutcome(attrs: seq<Attribute>, origElem: Element, listIgnore: Option<seq<ElementInfos>>)
    ensures EveryAttributeFound(attrs, origElem, listIgnore) <==>
      forall k :: 0 <= k < |attrs| ==> VerifyAttribute(attrs[k], origElem, listIgnore) == Success(true)
  {
    if attrs != [] {
      EveryAttributeFoundOutcome(attrs[1..], origElem, listIgnore);
      if forall k :: 0 <= k < |attrs| - 1 ==> VerifyAttribute(attrs[1..][k], origElem, listIgnore) == Success(true) {
        forall k | 1 <= k < |attrs| ensures VerifyAttribute(attrs[k], origElem, listIgnore) == Success(true) {
          assert attrs[k] == attrs[1..][k - 1];
        }
      } else {
        var k :| 0 <= k < |attrs| - 1 && VerifyAttribute(attrs[1..][k], origElem, listIgnore) != Success(true);
        assert attrs[k + 1] == attrs[1..][k];
      }
    }
  }

  /**
   * The attribute check: an element without attributes passes, otherwise every attribute of
   * the current element must pass `VerifyAttribute`, that is, be exempt or have a counterpart
   * on the reference element.
   */
  function VerifyAllAttributes(currElem: Element, origElem: Element, listIgnore: Option<seq<ElementInfos>>): (r: bool)
    ensures r <==>
      forall k :: 0 <= k < |currElem.attributes| ==> VerifyAttribute(currElem.attributes[k], origElem, listIgnore) == Success(true)
    ensures r <==>
      forall a :: a in currElem.attributes ==>
        VerifyIgnoreAttribute(listIgnore, origElem.tagName, a) || Counterpart(a, origElem.attributes)
  {
    EveryAttributeFoundOutcome(currElem.attributes, origElem, listIgnore);
    |currElem.attributes| == 0 || EveryAttributeFound(currElem.attributes, origElem, listIgnore)
  }

  // ---------------------------------------------------------------------------------------
  // verifyText
  // ---------------------------------------------------------------------------------------

  /**
   * The text check: passes when text is exempt for the current tag or either side has no
   * direct text; otherwise the sorted text lists must be equal.
   */
  predicate TextMatches(currElem: Element, origElem: Element, listIgnore: Option<seq<ElementInfos>>)
  {
    VerifyIgnoreText(listIgnore, currElem.tagName)
    || |currElem.textNodes| == 0 || |origElem.textNodes| == 0
    || SortStrings(currElem.textNodes) == SortStrings(origElem.textNodes)
  }

  /** Comparing sorted lists is comparing the text nodes as multisets. */
  lemma TextMatchesOutcome(currElem: Element, origElem: Element, listIgnore: Option<seq<ElementInfos>>)
    ensures TextMatches(currElem, origElem, listIgnore) <==>
      VerifyIgnoreText(listIgnore, currElem.tagName)
      || |currElem.textNodes| == 0 || |origElem.textNodes| == 0
      || multiset(currElem.textNodes) == multiset(origElem.textNodes)
  {
    SortedEqualIffSameElements(currElem.textNodes, origElem.textNodes);
  }

  /** Reordering the current element's text nodes does not change the text check. */
  lemma TextOrderIrrelevant(currElem: Element, reordered: Element, origElem: Element, listIgnore: Option<seq<ElementInfos>>)
    requires reordered.tagName == currElem.tagName
    requires multiset(reordered.textNodes) == multiset(currElem.textNodes)
    ensures TextMatches(reordered, origElem, listIgnore) == TextMatches(currElem, origElem, listIgnore)
  {
    TextMatchesOutcome(currElem, origElem, listIgnore);
    TextMatchesOutcome(reordered, origElem, listIgnore);
    assert |reordered.textNodes| == |multiset(reordered.textNodes)| == |currElem.textNodes|;
  }

  // ---------------------------------------------------------------------------------------
  // verifyElement and validate
  // ---------------------------------------------------------------------------------------

  /** `origElem` has the tag of `currElem` and passes both the attribute and the text check. */
  predicate Candidate(currElem: Element, origElem: Element, listIgnore: Option<seq<ElementInfos>>)
  {
    currElem.tagName == origElem.tagName
    && VerifyAllAttributes(currElem, origElem, listIgnore)
    && TextMatches(currElem, origElem, listIgnore)
  }

  /** The current element's tag is skipped, or one reference element passes both checks. */
  predicate ElementMatches(currElem: Element, original: seq<Element>, listIgnore: Option<seq<ElementInfos>>)
  {
    VerifyIgnoreTag(listIgnore, currElem.tagName)
    || exists k :: 0 <= k < |original| && Candidate(currElem, original[k], listIgnore)
  }

  /** The verdict of a validation run: counts agree when they are checked, and every current element matches. */
  predicate Accepts(verifyElementsLength: bool, listIgnore: Option<seq<ElementInfos>>, current: seq<Element>, original: seq<Element>)
  {
    (!verifyElementsLength || |current| == |original|)
    && forall k :: 0 <= k < |current| ==> ElementMatches(current[k], original, listIgnore)
  }

  /** Every element passes the attribute and text checks against itself. */
  lemma CandidateForItself(e: Element, listIgnore: Option<seq<ElementInfos>>)
    ensures Candidate(e, e, listIgnore)
  {
    forall a | a in e.attributes ensures Counterpart(a, e.attributes) {
      assert a.key == a.key && a.value == a.value;
    }
  }

  /**
   * A current document whose elements each have a skipped tag or occur in the reference
   * document passes when counts are not checked.
   */
  lemma PresentOrSkippedAccepted(listIgnore: Option<seq<ElementInfos>>, current: seq<Element>, original: seq<Element>)
    requires forall k :: 0 <= k < |current| ==> VerifyIgnoreTag(listIgnore, current[k].tagName) || current[k] in original
    ensures Accepts(false, listIgnore, current, original)
  {
    forall k | 0 <= k < |current| ensures ElementMatches(current[k], original, listIgnore) {
      if !VerifyIgnoreTag(listIgnore, current[k].tagName) {
        var j :| 0 <= j < |original| && original[j] == current[k];
        CandidateForItself(current[k], listIgnore);
        assert Candidate(current[k], original[j], listIgnore);
      }
    }
  }

  /** A document always validates against itself, whatever the rules and the count setting. */
  lemma ValidateReflexive(verifyElementsLength: bool, listIgnore: Option<seq<ElementInfos>>, doc: seq<Element>)
    ensures Accepts(verifyElementsLength, listIgnore, doc, doc)
  {
    PresentOrSkippedAccepted(listIgnore, doc, doc);
  }
}
