# html-validation, modelled in Dafny

`HtmlValidation` decides whether a current HTML document is equivalent to a reference
document. It does not compare the two texts. Every element of the current document needs a
counterpart in the reference document: an element with the same tag whose attributes and
direct text match. Caller-registered ignore rules (`ElementInfos`) relax this. A rule can
skip whole tags, single attributes, the text of a tag, or single class tokens. An optional
check also requires both documents to have the same number of elements.

This project models that matcher. A parsed document is the flat sequence of its elements
(`Dom.Element`: tag name, attributes in order, direct text nodes), which is what jsoup's
`getAllElements()` hands the matcher.

- `wrappers.dfy`: `Option` stands for a nullable reference. `Result` stands for a value or
  the `NullPointerException` that `verifyIgnoreClass` throws when no rule was ever
  registered.
- `element_infos.dfy` (module `Rules`): the `ElementInfos` record as a datatype with three
  optional fields, and the filter predicates those fields define.
- `dom.dfy`: attributes and elements.
- `strings.dfy`: the library behaviour the matcher relies on. `Collections.sort` (a merge
  sort in Java) is represented by a lexicographic insertion sort; only the sorted result
  matters to the matcher. It exists both as a function (`SortStrings`) and as an
  in-place array method (`Sort`) proved equal to it. `String.split(" ")` is `Split`, with
  Java's rules: a string without a space comes back whole, and trailing empty pieces are
  dropped.
- `ignore_rules.dfy`: the four lookups `verifyIgnoreTag`, `verifyIgnoreText`,
  `verifyIgnoreAttribute` and `verifyIgnoreClass`. Each has its own policy for which rule
  decides:
  - a tag is skipped when ANY rule names it and has no attribute or class list;
  - for text and attributes, the FIRST rule that lists the key decides;
  - for classes, the FIRST rule that applies to the tag and carries a class list decides.
- `matching.dfy`: the matchers `verifyClass`, `verifyClasses`, `verifyAttribute`,
  `verifyAllAttributes` and `verifyText`, as pure functions. It also holds the
  specifications `ElementMatches` (one element) and `Accepts` (a whole run).
- `html_validation.dfy` (module `Validator`): the class `HtmlValidation`. Its fields are
  `listIgnore`, `original` and `verifyElementsLength`. Its methods are `Validate` (a loop
  that ANDs every element's verdict), `VerifyElement` (a search loop with early return),
  `VerifyText` (builds two lists and sorts them in place), and the configuration methods
  `IgnoreTags`, `IgnoreElement` and `IgnoreElementsLength`. Each method is proved against
  the functions above.
- `scenarios.dfy`: concrete elements and documents, with the model's verdict on each proved.

Two behaviours of the code are reproduced as written and proved:

1. `verifyAttribute` hands the attribute KEYS to `verifyClasses`, and both keys are
   `"class"`. So a current `class` attribute matches any reference element that has a
   `class` attribute, whatever the class tokens are (`Matching.ClassAttributeAlwaysMatches`).
2. `verifyIgnoreClass` reads the rule list without a null check. The model returns
   `Failure(NullPointer)` there (`IgnoreRules.VerifyIgnoreClass`). Because of behaviour 1,
   that fault can never reach `verifyAttribute`: the contract of `Matching.VerifyAttribute`
   states that it always succeeds. This is why `VerifyAllAttributes` and everything
   above it are plain booleans.

Class tokens are split on a single space character (`split(" ")`), not on any whitespace:
a tab does not separate tokens and two spaces in a row yield an empty token; the model splits the same way.

## Model

| member | source | states |
|---|---|---|
| `Validator.HtmlValidation.constructor` | src/main/java/br/com/felipesantos/HtmlValidation.java:18-23 | a new validator has no rule list (null), no reference document, and the count check switched on |
| `Validator.HtmlValidation.Validate` | src/main/java/br/com/felipesantos/HtmlValidation.java:31-52 | stores the reference document; the result is false when the count check is on and the element counts differ, and otherwise is the conjunction of `ElementMatches` over every current element, all of them evaluated |
| `Validator.HtmlValidation.VerifyElement` | src/main/java/br/com/felipesantos/HtmlValidation.java:77-94 | true exactly when the element's tag is fully skipped or some reference element has the same tag and passes both the attribute and the text check |
| `Validator.HtmlValidation.VerifyText` | src/main/java/br/com/felipesantos/HtmlValidation.java:102-126 | the sort-and-compare implementation returns exactly `TextMatches`: text is exempt for the tag, either side has no text node, or the sorted text lists are equal |
| `Validator.HtmlValidation.TextList` | src/main/java/br/com/felipesantos/HtmlValidation.java:110-117 | the list built from an element's text nodes is a fresh list holding exactly those texts in document order |
| `Validator.HtmlValidation.IgnoreTags` | src/main/java/br/com/felipesantos/HtmlValidation.java:306-310 | appends one whole-tag rule per name, in order; afterwards each of those tags is skipped and every tag skipped before still is |
| `Validator.HtmlValidation.IgnoreElement` | src/main/java/br/com/felipesantos/HtmlValidation.java:316-323 | appends the given rules in argument order to the registered ones, creating the list on first use; with no rules given nothing changes, and a null list stays null |
| `Validator.HtmlValidation.IgnoreElementsLength` | src/main/java/br/com/felipesantos/HtmlValidation.java:383-385 | switches the count check off, so by `Validate`'s contract only the elements decide later runs |
| `Rules.TagRule` | src/main/java/br/com/felipesantos/HtmlValidation.java:308 | the rule `ignoreTags` builds for a name skips that tag and no other |
| `Rules.TagRules` | src/main/java/br/com/felipesantos/HtmlValidation.java:306-310 | one whole-tag rule per name, in the order of the names |
| `IgnoreRules.VerifyIgnoreTag` | src/main/java/br/com/felipesantos/HtmlValidation.java:60-69 | a tag is fully skipped exactly when a rule list exists and some rule names the tag with neither an attribute list nor a class list; with no rule list nothing is skipped |
| `IgnoreRules.HasTagRuleExists` | src/main/java/br/com/felipesantos/HtmlValidation.java:60-69 | a tag is fully skipped exactly when some rule names it and has neither an attribute list nor a class list |
| `IgnoreRules.AppendTagRules` | src/main/java/br/com/felipesantos/HtmlValidation.java:316-323 | after appending rules, a tag is fully skipped exactly when the old rules or the new rules skip it |
| `IgnoreRules.TagRulesIgnoreTheirTags` | src/main/java/br/com/felipesantos/HtmlValidation.java:306-310 | after `ignoreTags`, each named tag is skipped, and each tag skipped before stays skipped |
| `IgnoreRules.VerifyIgnoreText` | src/main/java/br/com/felipesantos/HtmlValidation.java:133-152 | text comparison is off for a tag exactly when a rule list exists and the first rule listing `text()` has a null tag name or that tag; later rules are never consulted |
| `IgnoreRules.VerifyIgnoreAttribute` | src/main/java/br/com/felipesantos/HtmlValidation.java:280-300 | an attribute is exempt on a tag exactly when a rule list exists and the first rule listing its key has a null tag name or that tag; later rules are never consulted |
| `IgnoreRules.AttributeVerdictIsFirstListing` | src/main/java/br/com/felipesantos/HtmlValidation.java:133-152 | text (and any attribute key) is exempt exactly when the first rule listing the key exists and has a null tag name or the element's tag name; with no listing rule it is not exempt |
| `IgnoreRules.AttributeVerdictIgnoresLaterRules` | src/main/java/br/com/felipesantos/HtmlValidation.java:280-300 | once a rule lists the key, rules after it never change the attribute or text verdict |
| `IgnoreRules.UnfilteredRuleAppliesToEveryTag` | src/main/java/br/com/felipesantos/ElementInfos.java:13-14 | a first listing rule with a null tag name exempts the key on every tag |
| `IgnoreRules.RuleWithoutAttributesSkipped` | src/main/java/br/com/felipesantos/ElementInfos.java:15 | a rule with a null attribute list, inserted anywhere, changes no text or attribute verdict |
| `IgnoreRules.VerifyIgnoreClass` | src/main/java/br/com/felipesantos/HtmlValidation.java:262-272 | the class lookup faults exactly when no rule list exists |
| `IgnoreRules.ClassVerdictIsFirstFilter` | src/main/java/br/com/felipesantos/HtmlValidation.java:262-272 | a class token is exempt exactly when the first rule that applies to the tag and carries a class list exists and contains the token |
| `IgnoreRules.ClassVerdictIgnoresLaterRules` | src/main/java/br/com/felipesantos/HtmlValidation.java:263-268 | once a rule with a class list applies to the tag, rules after it never change the class verdict |
| `IgnoreRules.RuleWithoutClassNamesSkipped` | src/main/java/br/com/felipesantos/ElementInfos.java:16 | a rule with a null class list, inserted anywhere, changes no class verdict |
| `Matching.EveryClassFoundOutcome` | src/main/java/br/com/felipesantos/HtmlValidation.java:225-236 | scanning tokens succeeds on an empty list, faults on a non-empty list when no rules exist, and otherwise is true exactly when every token is exempt or present on the other side |
| `Matching.VerifyClass` | src/main/java/br/com/felipesantos/HtmlValidation.java:248-254 | faults exactly when no rule list exists; otherwise true exactly when the first rule that applies to the tag and carries a class list contains the token, or the token is in the other list |
| `Matching.VerifyClasses` | src/main/java/br/com/felipesantos/HtmlValidation.java:215-239 | two attributes whose space-split keys hold the same tokens with the same multiplicities match; otherwise a missing rule list faults; otherwise the result is symmetric coverage, where every token of each side is exempt or present on the other side |
| `Matching.VerifyClassesSymmetric` | src/main/java/br/com/felipesantos/HtmlValidation.java:215-239 | the class comparison gives the same outcome, faults included, when the two attributes swap places |
| `Matching.ClassKeysAlwaysMatch` | src/main/java/br/com/felipesantos/HtmlValidation.java:185-189 | two `class` attributes handed over as keys always compare equal |
| `Matching.FindAttributeOutcome` | src/main/java/br/com/felipesantos/HtmlValidation.java:184-205 | the scan of the reference attributes never faults, and succeeds exactly when some attribute has the same key and, unless the key is `class`, the same value |
| `Matching.VerifyAttribute` | src/main/java/br/com/felipesantos/HtmlValidation.java:180-206 | an attribute matches exactly when it is exempt on the reference tag or has a counterpart, and the check never faults |
| `Matching.ClassAttributeAlwaysMatches` | src/main/java/br/com/felipesantos/HtmlValidation.java:185-189 | a current `class` attribute matches any reference element carrying a `class` attribute, whatever the tokens |
| `Matching.PlainAttributeNeedsEqualValue` | src/main/java/br/com/felipesantos/HtmlValidation.java:192-201 | an attribute that is not `class` and not exempt matches exactly when the reference element has an attribute with the same key and value |
| `Matching.EveryAttributeFoundOutcome` | src/main/java/br/com/felipesantos/HtmlValidation.java:165-169 | the attribute loop passes exactly when every attribute, in order, passes `verifyAttribute` |
| `Matching.VerifyAllAttributes` | src/main/java/br/com/felipesantos/HtmlValidation.java:160-172 | an element passes the attribute check exactly when each of its attributes (none for an element without attributes) passes `VerifyAttribute`, that is, is exempt or has a counterpart |
| `Matching.TextMatchesOutcome` | src/main/java/br/com/felipesantos/HtmlValidation.java:102-126 | the text check passes exactly when text is exempt for the tag, either side has no text node, or both sides hold the same texts with the same multiplicities |
| `Matching.TextOrderIrrelevant` | src/main/java/br/com/felipesantos/HtmlValidation.java:110-121 | reordering an element's text nodes does not change the text check |
| `Matching.CandidateForItself` | src/main/java/br/com/felipesantos/HtmlValidation.java:84-88 | every element passes the tag, attribute and text checks against itself |
| `Matching.PresentOrSkippedAccepted` | src/main/java/br/com/felipesantos/HtmlValidation.java:43-48 | with the count check off, a document whose elements each have a skipped tag or occur in the reference document validates |
| `Matching.ValidateReflexive` | src/main/java/br/com/felipesantos/HtmlValidation.java:31-48 | a document validates against itself, whatever the rules and the count setting |
| `Strings.SortStrings` | src/main/java/br/com/felipesantos/HtmlValidation.java:113 | the sorted list is in lexicographic order and is a permutation of its input |
| `Strings.Sort` | src/main/java/br/com/felipesantos/HtmlValidation.java:118 | the in-place sort leaves the array holding exactly the sorted list of its old contents |
| `Strings.SortedEqualIffSameElements` | src/main/java/br/com/felipesantos/HtmlValidation.java:119 | two sorted lists are equal exactly when the unsorted lists hold the same elements with the same multiplicities |
| `Strings.Split` | src/main/java/br/com/felipesantos/HtmlValidation.java:216-217 | no piece contains a space; a string without a space comes back as itself; otherwise the pieces are the space-separated fields with the trailing empty ones removed |
| `Scenarios.ClassTokensNeverCompared` | src/main/java/br/com/felipesantos/HtmlValidation.java:185-189 | `<div class="a b">` matches `<div class="z">` with no rules registered, and no fault arises |
| `Scenarios.AttributeValueMismatchRejected` | src/main/java/br/com/felipesantos/HtmlValidation.java:194-201 | `<div id="x">` has no counterpart when the only reference div is `<div id="y">` |
| `Scenarios.IgnoredAttributeAccepted` | src/main/java/br/com/felipesantos/HtmlValidation.java:181-182 | a rule exempting `data-test-id` on every tag lets divs that differ only in that value match |
| `Scenarios.ExtraSkippedElementAccepted` | src/main/java/br/com/felipesantos/HtmlValidation.java:78-79 | with `script` skipped and the count check off, an extra script element does not fail the run |
| `Scenarios.TextMismatchUnlessIgnored` | src/main/java/br/com/felipesantos/HtmlValidation.java:103-124 | `<p>hello</p>` does not match `<p>world</p>`, but does once a `text()` rule for `p` is registered |

## Left out

- HTML parsing (`Jsoup.parse`, `getAllElements`, `textNodes`) belongs to the jsoup library. Both documents are inputs, already given as flat element sequences in document order.
- `TextNode.text()` normalises whitespace inside jsoup. The model takes each text node's text as already normalised.
- `generateFileSource` is file-system I/O. `returnAllTags` and `returnAllAttributes` are deduplicating traversals outside the matching logic.
- The `notFound` diagnostics map and the `System.out.println` output are debugging side effects. They do not affect any boolean result.
- The try/catch in `validate` rethrows what it catches, so it does not change the result.
- Null entries that make the lookups throw are not modelled: a null `ElementInfos` passed to `ignoreElement` (its fields are read in every lookup) and a null string inside a rule's attribute list (`ignoreAttr.equals` at lines 138 and 285 of `HtmlValidation.java`). The model's types exclude them.
- A null tag name passed to `ignoreTags` builds a rule with all three fields null. Every lookup passes over such a rule without a fault. `Validator.HtmlValidation.IgnoreTags` takes non-null names only; the same rule is registered with `IgnoreElement([ElementInfos(None, None, None)])`.
- A null string inside a rule's class list never throws: `contains` compares it with the token, which is never null, and finds no match. The model leaves such entries out, which gives the same class verdicts.
- Java's `String.compareTo` orders by UTF-16 code unit; the model's order compares Dafny characters. Sorted lists are only ever compared with each other, and the result does not depend on the order chosen (`Strings.SortedEqualIffSameElements`).
