/** Value-to-element conversion (`toElement`). A value already of an element
    type is returned as it is; a native value gets the type the detection
    table assigns to it, and that type is instantiated with the value as its
    content: a collection type takes the items of an array as converted
    children, any other type keeps the value verbatim. */
module Conversion {
  import opened Wrappers
  import opened Json
  import opened Elements
  import opened Detection
  import Registry

  /** What `toElement` may be handed. */
  datatype Input = Native(value: Json) | Typed(element: Element)

  datatype ConversionError = NotAnArray(cls: ElementClass)

  /** `toElement(x)`. */
  function ToElement(s: Registry.State, holds: (TestId, Json) -> bool, x: Input): (r: Result<Element, ConversionError>)
    ensures x.Typed? ==> r == Ok(x.element)
  {
    match x
    case Typed(e) => Ok(e)
    case Native(v) => Convert(s, holds, v)
  }

  /** Instantiates the detected type of a native value. */
  function Convert(s: Registry.State, holds: (TestId, Json) -> bool, v: Json): (r: Result<Element, ConversionError>)
    ensures r.Ok? ==> r.value.cls == Classify(s.elementDetection, holds, v)
    ensures r.Ok? ==> r.value.name == r.value.cls.ElementName()
    ensures r.Ok? ==> r.value.attributeElementKeys == s.attributeElementKeys
                      && r.value.attributeElementArrayKeys == s.attributeElementArrayKeys
    ensures Classify(s.elementDetection, holds, v).ContentShape() == Primitive ==> r.Ok?
    ensures Classify(s.elementDetection, holds, v).ContentShape() == Collection && !v.Arr? ==>
              r == Err(NotAnArray(Classify(s.elementDetection, holds, v)))
    ensures Classify(s.elementDetection, holds, v).ContentShape() == Collection && v.Arr? ==>
              (r.Ok? <==> forall j | 0 <= j < |v.items| :: Convert(s, holds, v.items[j]).Ok?)
    decreases v, 1
  {
    var cls := Classify(s.elementDetection, holds, v);
    if cls.ContentShape() == Primitive then
      Ok(Registry.NewElement(s, cls.ElementName(), cls, Value(v)))
    else if !v.Arr? then Err(NotAnArray(cls))
    else
      var children :- ConvertItems(s, holds, v);
      Ok(Registry.NewElement(s, cls.ElementName(), cls, Items(children)))
  }

  /** Converts the items of an array, in order. */
  function ConvertItems(s: Registry.State, holds: (TestId, Json) -> bool, v: Json): (r: Result<seq<Element>, ConversionError>)
    requires v.Arr?
    ensures r.Ok? <==> forall j | 0 <= j < |v.items| :: Convert(s, holds, v.items[j]).Ok?
    ensures r.Ok? ==> |r.value| == |v.items|
    ensures r.Ok? ==> forall j | 0 <= j < |v.items| :: r.value[j] == Convert(s, holds, v.items[j]).value
    decreases v, 0
  {
    var rs := seq(|v.items|, j requires 0 <= j < |v.items| => Convert(s, holds, v.items[j]));
    assert forall j | 0 <= j < |v.items| :: rs[j] == Convert(s, holds, v.items[j]);
    AllOk(rs)
  }

  /** The native value an element holds (`toValue`): a value verbatim, the
      children's values as an array. */
  function ToValue(e: Element): Json
    decreases e, 1
  {
    match e.content
    case Value(v) => v
    case Items(cs) => Arr(ToValues(cs))
  }

  function ToValues(cs: seq<Element>): (r: seq<Json>)
    ensures |r| == |cs| && forall j | 0 <= j < |cs| :: r[j] == ToValue(cs[j])
    decreases cs, 0
  {
    seq(|cs|, j requires 0 <= j < |cs| => ToValue(cs[j]))
  }

  /** Conversion loses nothing: the converted element holds the value it
      was made from. */
  lemma {:induction false} ConvertToValue(s: Registry.State, holds: (TestId, Json) -> bool, v: Json)
    requires Convert(s, holds, v).Ok?
    ensures ToValue(Convert(s, holds, v).value) == v
    decreases v
  {
    var e := Convert(s, holds, v).value;
    if e.content.Items? {
      var cs := e.content.items;
      forall j | 0 <= j < |v.items| ensures ToValue(cs[j]) == v.items[j] {
        ConvertToValue(s, holds, v.items[j]);
      }
      assert ToValues(cs) == v.items;
    }
  }
}
