/**
 * The validator object: its registered ignore rules, the reference document of the last run
 * and the element-count switch, with the methods that change them and the validation run.
 */
module Validator {
  import opened Wrappers
  import opened Rules
  import opened Dom
  import opened Strings
  import opened IgnoreRules
  import opened Matching

  class HtmlValidation {
    /** The registered ignore rules; null until the first rule is registered. */
    var listIgnore: Option<seq<ElementInfos>>
    /** The reference document of the current (or last) validation run, as its flat element list. */
    var original: seq<Element>
    /** Whether a run first requires both documents to have the same number of elements. */
    var verifyElementsLength: bool

    /** A fresh validator: no rules, the count check on. */
    constructor ()
      ensures listIgnore == None && original == [] && verifyElementsLength
    {
      listIgnore := None;
      original := [];
      verifyElementsLength := true;
    }

    /**
     * Compares the current document with the reference document. Every current element is
     * checked, even after one has failed; the result is the conjunction.
     */
    method Validate(pageSource: seq<Element>, originalPageSource: seq<Element>) returns (isValid: bool)
      modifies this`original
      ensures original == originalPageSource
      ensures isValid == Accepts(verifyElementsLength, listIgnore, pageSource, originalPageSource)
      ensures verifyElementsLength && |pageSource| != |originalPageSource| ==> !isValid
    {
      original := originalPageSource;
      var current := pageSource;

      if verifyElementsLength {
        if |current| != |original| {
          return false;
        }
      }

      isValid := true;
      var i := 0;
      while i < |current|
        invariant 0 <= i <= |current|
        invariant original == originalPageSource
        invariant isValid == forall k :: 0 <= k < i ==> ElementMatches(current[k], original, listIgnore)
      {
        var found := VerifyElement(current[i]);
        isValid := isValid && found;
        i := i + 1;
      }
    }

    /** Whether `currElement` has a skipped tag or a counterpart in the reference document. */
    method VerifyElement(currElement: Element) returns (found: bool)
      ensures found == ElementMatches(currElement, original, listIgnore)
    {
      if VerifyIgnoreTag(listIgnore, currElement.tagName) {
        return true;
      }
      var i := 0;
      while i < |original|
        invariant 0 <= i <= |original|
        invariant forall k :: 0 <= k < i ==> !Candidate(currElement, original[k], listIgnore)
      {
        var origElement := original[i];
        if currElement.tagName == origElement.tagName {
          if VerifyAllAttributes(currElement, origElement, listIgnore) {
            var textOk := VerifyText(currElement, origElement);
            if textOk {
              return true;
            }
          }
        }
        i := i + 1;
      }
      return false;
    }

    /** Compares the direct text of two elements after sorting each side's text nodes. */
    method VerifyText(currElement: Element, origElement: Element) returns (r: bool)
      ensures r == TextMatches(currElement, origElement, listIgnore)
    {
      if VerifyIgnoreText(listIgnore, currElement.tagName) {
        return true;
      }
      if |currElement.textNodes| == 0 || |origElement.textNodes| == 0 {
        return true;
      }

      var currText := TextList(currElement.textNodes);
      Sort(currText);
      var origText := TextList(origElement.textNodes);
      Sort(origText);
      r := currText[..] == origText[..];
    }

    /** Copies the text of each text node, in order, into a new list. */
    static method TextList(textNodes: seq<string>) returns (list: array<string>)
      ensures fresh(list)
      ensures list[..] == textNodes
    {
      list := new string[|textNodes|];
      var i := 0;
      while i < list.Length
        invariant 0 <= i <= list.Length
        invariant list[..i] == textNodes[..i]
      {
        list[i] := textNodes[i];
        i := i + 1;
      }
    }

    /** Registers, for each tag name in order, a rule that skips that tag entirely. */
    method IgnoreTags(tags: seq<string>)
      modifies this`listIgnore
      ensures listIgnore == if tags == [] then old(listIgnore) else Some(RulesOf(old(listIgnore)) + TagRules(tags))
      ensures forall t :: t in tags ==> VerifyIgnoreTag(listIgnore, t)
      ensures forall t :: VerifyIgnoreTag(old(listIgnore), t) ==> VerifyIgnoreTag(listIgnore, t)
    {
      var i := 0;
      while i < |tags|
        invariant 0 <= i <= |tags|
        invariant listIgnore == if i == 0 then old(listIgnore) else Some(RulesOf(old(listIgnore)) + TagRules(tags[..i]))
      {
        ghost var before := RulesOf(listIgnore);
        assert before == RulesOf(old(listIgnore)) + TagRules(tags[..i]);
        IgnoreElement([TagRule(tags[i])]);
        assert TagRules(tags[..i + 1]) == TagRules(tags[..i]) + [TagRule(tags[i])];
        assert listIgnore == Some(before + [TagRule(tags[i])]);
        assert before + [TagRule(tags[i])] == RulesOf(old(listIgnore)) + TagRules(tags[..i + 1]);
        i := i + 1;
      }
      assert tags[..|tags|] == tags;
      forall t | t in tags || VerifyIgnoreTag(old(listIgnore), t)
        ensures VerifyIgnoreTag(listIgnore, t)
      {
        TagRulesIgnoreTheirTags(RulesOf(old(listIgnore)), tags, t);
      }
    }

    /** Appends the given rules, in argument order, to the registered ones. */
    method IgnoreElement(elementInfos: seq<ElementInfos>)
      modifies this`listIgnore
      ensures listIgnore == if elementInfos == [] then old(listIgnore) else Some(RulesOf(old(listIgnore)) + elementInfos)
    {
      var i := 0;
      while i < |elementInfos|
        invariant 0 <= i <= |elementInfos|
        invariant listIgnore == if i == 0 then old(listIgnore) else Some(RulesOf(old(listIgnore)) + elementInfos[..i])
      {
        ghost var before := RulesOf(listIgnore);
        assert before == RulesOf(old(listIgnore)) + elementInfos[..i];
        if listIgnore.None? {
          listIgnore := Some([]);
        }
        listIgnore := Some(listIgnore.value + [elementInfos[i]]);
        assert elementInfos[..i + 1] == elementInfos[..i] + [elementInfos[i]];
        assert listIgnore == Some(before + [elementInfos[i]]);
        assert before + [elementInfos[i]] == RulesOf(old(listIgnore)) + elementInfos[..i + 1];
        i := i + 1;
      }
      assert elementInfos[..|elementInfos|] == elementInfos;
    }

    /** Switches the element-count check off; from then on only the elements decide a run. */
    method IgnoreElementsLength()
      modifies this`verifyElementsLength
      ensures !verifyElementsLength
    {
      verifyElementsLength := false;
    }
  }
}
