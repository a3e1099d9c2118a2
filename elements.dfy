/** Element types and element trees. An element type is an opaque tag (a
    JavaScript constructor in the source); all the codec needs to know of a
    type is whether its content is a primitive value or a sequence of child
    elements. */
module Elements {
  import Json

  /** How a type holds its content: copied verbatim, or as child elements. */
  datatype Shape = Primitive | Collection

  datatype ElementClass =
    | BaseElement
    | Kind(typeName: string, defaultName: string, shape: Shape)
  {
    /** The fallback type holds whatever content it is given, verbatim. */
    function ContentShape(): Shape {
      if BaseElement? then Primitive else shape
    }

    /** The element name an instance of this type gets when it is created
        from a native value. */
    function ElementName(): string {
      if BaseElement? then "element" else defaultName
    }
  }

  const NullElement := Kind("NullElement", "null", Primitive)
  const StringElement := Kind("StringElement", "string", Primitive)
  const NumberElement := Kind("NumberElement", "number", Primitive)
  const BooleanElement := Kind("BooleanElement", "boolean", Primitive)
  const ArrayElement := Kind("ArrayElement", "array", Collection)
  const ObjectElement := Kind("ObjectElement", "object", Collection)

  datatype Content =
    | Value(value: Json.Json)
    | Items(items: seq<Element>)

  /** An attribute is kept raw, or refracted as one element or a sequence of
      elements when its key is listed in the element's attribute-key lists. */
  datatype AttributeValue =
    | Raw(raw: Json.Json)
    | One(element: Element)
    | Many(elements: seq<Element>)

  datatype Attribute = Attribute(key: string, value: AttributeValue)

  /** An element: its wire name (which need not be the type's default name:
      a type registered as "foo" keeps "foo"), the type it was built as,
      meta, attributes, content, and its own copies of the attribute-key
      lists of the namespace that built it. */
  datatype Element = Element(
    name: string,
    cls: ElementClass,
    meta: seq<Json.Field>,
    attributes: seq<Attribute>,
    content: Content,
    attributeElementKeys: seq<string>,
    attributeElementArrayKeys: seq<string>)
}
