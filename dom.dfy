/**
 * The parsed-document view the matcher needs. A document is the flat sequence of all its
 * elements (descendants included) in document order; how HTML text becomes that sequence is
 * the parser's business and is not modelled.
 */
module Dom {

  /** An attribute as the parser reports it: a key and its value. */
  datatype Attribute = Attribute(key: string, value: string)

  /** An element: its tag name, its attributes in declaration order, and its direct text nodes. */
  datatype Element = Element(tagName: string, attributes: seq<Attribute>, textNodes: seq<string>)
}
