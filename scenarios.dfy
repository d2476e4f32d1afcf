/** Concrete documents, with the model's verdict on each proved, including the behaviours that surprise a reader. */
module Scenarios {
  import opened Wrappers
  import opened Rules
  import opened Dom
  import opened IgnoreRules
  import opened Matching

  function Div(attributes: seq<Attribute>): Element
  {
    Element("div", attributes, [])
  }

  /** `<div class="a b">` matches `<div class="z">`: class tokens are never compared, and no fault arises without rules. */
  lemma ClassTokensNeverCompared()
    ensures ElementMatches(Div([Attribute("class", "a b")]), [Div([Attribute("class", "z")])], None)
  {
    var curr, orig := Div([Attribute("class", "a b")]), Div([Attribute("class", "z")]);
    ClassAttributeAlwaysMatches(curr.attributes[0], orig, None);
    assert Candidate(curr, [orig][0], None);
  }

  /** `<div id="x">` has no counterpart in a document whose only div is `<div id="y">`. */
  lemma AttributeValueMismatchRejected()
    ensures !ElementMatches(Div([Attribute("id", "x")]), [Div([Attribute("id", "y")])], None)
  {
  }

  /** A rule exempting `data-test-id` everywhere lets two divs differing only in its value match. */
  lemma IgnoredAttributeAccepted()
    ensures ElementMatches(
      Div([Attribute("data-test-id", "1")]), [Div([Attribute("data-test-id", "2")])],
      Some([ElementInfos(None, Some(["data-test-id"]), None)]))
  {
    var rules := Some([ElementInfos(None, Some(["data-test-id"]), None)]);
    var curr, orig := Div([Attribute("data-test-id", "1")]), Div([Attribute("data-test-id", "2")]);
    assert Candidate(curr, [orig][0], rules);
  }

  /** With `script` skipped and the count check off, an extra script element does not fail the run. */
  lemma ExtraSkippedElementAccepted()
    ensures Accepts(false, Some([TagRule("script")]), [Div([]), Element("script", [], [])], [Div([])])
  {
  }

  /** `<p>hello</p>` does not match `<p>world</p>` unless a `text()` rule for `p` exempts text. */
  lemma TextMismatchUnlessIgnored()
    ensures !ElementMatches(Element("p", [], ["hello"]), [Element("p", [], ["world"])], None)
    ensures ElementMatches(Element("p", [], ["hello"]), [Element("p", [], ["world"])], Some([ElementInfos(Some("p"), Some([TextKey]), None)]))
  {
    var curr, orig := Element("p", [], ["hello"]), Element("p", [], ["world"]);
    TextMatchesOutcome(curr, orig, None);
    assert multiset(curr.textNodes) != multiset(orig.textNodes) by {
      assert "hello" in multiset(curr.textNodes);
    }
    var rules := Some([ElementInfos(Some("p"), Some([TextKey]), None)]);
    assert TextMatches(curr, orig, rules);
    assert Candidate(curr, [orig][0], rules);
  }
}
