/** The refract codec: element trees to and from the two wire forms,
    full `{element, meta, attributes, content}` and compact
    `[element, meta, attributes, content]`. The two pipelines differ only in
    the envelope, so both are one decoder and one encoder taking the form as
    a parameter; children are always read and written in their parent's form. */
module Refract {
  import opened Wrappers
  import opened Json
  import opened Elements
  import Registry

  datatype Form = Full | Compact

  /** Structural faults in wire input. An unknown element name is not one. */
  datatype RefractError =
    | NotAnEnvelope
    | WrongArity(length: nat)
    | MissingElementName
    | ElementNameNotString
    | MetaNotObject
    | AttributesNotObject
    | ContentNotArray
    | AttributeNotArray(key: string)

  /** The four parts of a wire element, before any recursion. */
  datatype Envelope = Envelope(name: string, meta: seq<Field>, attributes: seq<Field>, content: Option<Json>)

  /** An optional object-valued field of a full-form envelope: absent means empty. */
  function ObjectField(fields: seq<Field>, key: string, err: RefractError): (r: Result<seq<Field>, RefractError>)
    ensures r.Ok? ==> r.value == [] || exists i | 0 <= i < |fields| :: fields[i].value == Obj(r.value)
  {
    var i := IndexOf(fields, key);
    if i < 0 then Ok([])
    else if fields[i].value.Obj? then Ok(fields[i].value.fields)
    else Err(err)
  }

  /** A full-form field that, when present, must hold an object. */
  predicate OptionalObject(fields: seq<Field>, key: string) {
    IndexOf(fields, key) < 0 || fields[IndexOf(fields, key)].value.Obj?
  }

  /** Reads the envelope of a wire element in the given form. */
  function Open(form: Form, w: Json): (r: Result<Envelope, RefractError>)
    ensures r.Ok? ==> forall i | 0 <= i < |r.value.attributes| :: r.value.attributes[i] < w
    ensures r.Ok? && r.value.content.Some? ==> r.value.content.value < w
    ensures form == Full && !w.Obj? ==> r == Err(NotAnEnvelope)
    ensures form == Full && w.Obj? && IndexOf(w.fields, "element") < 0 ==> r == Err(MissingElementName)
    ensures form == Compact && !w.Arr? ==> r == Err(NotAnEnvelope)
    ensures form == Compact && w.Arr? && |w.items| != 4 ==> r == Err(WrongArity(|w.items|))
  {
    match form
    case Full =>
      if !w.Obj? then Err(NotAnEnvelope)
      else
        var fs := w.fields;
        var n := IndexOf(fs, "element");
        if n < 0 then Err(MissingElementName)
        else if !fs[n].value.Str? then Err(ElementNameNotString)
        else
          var meta :- ObjectField(fs, "meta", MetaNotObject);
          var a := IndexOf(fs, "attributes");
          var c := IndexOf(fs, "content");
          if a >= 0 && !fs[a].value.Obj? then Err(AttributesNotObject)
          else
            Ok(Envelope(fs[n].value.s, meta,
                        if a >= 0 then fs[a].value.fields else [],
                        if c >= 0 then Some(fs[c].value) else None))
    case Compact =>
      if !w.Arr? then Err(NotAnEnvelope)
      else if |w.items| != 4 then Err(WrongArity(|w.items|))
      else if !w.items[0].Str? then Err(ElementNameNotString)
      else if !w.items[1].Obj? then Err(MetaNotObject)
      else if !w.items[2].Obj? then Err(AttributesNotObject)
      else Ok(Envelope(w.items[0].s, w.items[1].fields, w.items[2].fields, Some(w.items[3])))
  }

  /** When an envelope reads, and what it holds. A full-form envelope needs
      a string `element`; `meta` and `attributes` may be absent (then empty)
      but not of another kind; `content` may be absent. A compact envelope is
      an array of exactly four parts: a string, two objects and the content. */
  lemma OpenParts(form: Form, w: Json)
    ensures form == Full ==>
              (Open(form, w).Ok? <==>
                 w.Obj? && IndexOf(w.fields, "element") >= 0 && w.fields[IndexOf(w.fields, "element")].value.Str?
                 && OptionalObject(w.fields, "meta") && OptionalObject(w.fields, "attributes"))
    ensures form == Full && Open(form, w).Ok? && w.Obj? ==>
              var env := Open(form, w).value;
              && IndexOf(w.fields, "element") >= 0
              && w.fields[IndexOf(w.fields, "element")].value == Str(env.name)
              && (IndexOf(w.fields, "meta") < 0 ==> env.meta == [])
              && (IndexOf(w.fields, "meta") >= 0 ==> w.fields[IndexOf(w.fields, "meta")].value == Obj(env.meta))
              && (IndexOf(w.fields, "attributes") < 0 ==> env.attributes == [])
              && (IndexOf(w.fields, "attributes") >= 0 ==>
                    w.fields[IndexOf(w.fields, "attributes")].value == Obj(env.attributes))
              && (env.content.Some? <==> IndexOf(w.fields, "content") >= 0)
              && (env.content.Some? ==> w.fields[IndexOf(w.fields, "content")].value == env.content.value)
    ensures form == Compact ==>
              (Open(form, w).Ok? <==> w.Arr? && |w.items| == 4 && w.items[0].Str? && w.items[1].Obj? && w.items[2].Obj?)
    ensures form == Compact && Open(form, w).Ok? && w.Arr? && |w.items| == 4 ==>
              var env := Open(form, w).value;
              && w.items[0] == Str(env.name)
              && w.items[1] == Obj(env.meta)
              && w.items[2] == Obj(env.attributes)
              && env.content == Some(w.items[3])
  {
  }

  /** Decodes a wire element: the name is resolved through the registry
      (unknown names give BaseElement), a collection type's content is
      decoded child by child (a missing content is empty), any other content
      is kept verbatim (a missing one is null), and the attributes named by
      the namespace's attribute-key lists are decoded as elements. The
      element gets the namespace's attribute-key lists. */
  function Decode(s: Registry.State, form: Form, w: Json): (r: Result<Element, RefractError>)
    ensures Open(form, w).Err? ==> r == Err(Open(form, w).error)
    ensures r.Ok? ==> Open(form, w).Ok? && r.value.name == Open(form, w).value.name
                      && r.value.meta == Open(form, w).value.meta
    ensures r.Ok? ==> r.value.cls == Registry.GetElementClass(s, r.value.name)
    ensures r.Ok? ==> r.value.attributeElementKeys == s.attributeElementKeys
                      && r.value.attributeElementArrayKeys == s.attributeElementArrayKeys
    // Past the envelope, decoding fails only on a failing attribute, on a
    // collection type's content that is not an array, or on a failing child.
    ensures Open(form, w).Ok? ==>
              var env := Open(form, w).value;
              var attributes := DecodeAttributes(s, form, env.attributes, w);
              var cls := Registry.GetElementClass(s, env.name);
              && (attributes.Err? ==> r == Err(attributes.error))
              && (attributes.Ok? && cls.ContentShape() == Primitive ==>
                    r.Ok? && r.value.content == Value(if env.content.Some? then env.content.value else Null))
              && (attributes.Ok? && cls.ContentShape() == Collection && env.content.None? ==>
                    r.Ok? && r.value.content == Items([]))
              && (attributes.Ok? && cls.ContentShape() == Collection && env.content.Some? && !env.content.value.Arr? ==>
                    r == Err(ContentNotArray))
              && (attributes.Ok? && cls.ContentShape() == Collection && env.content.Some? && env.content.value.Arr? ==>
                    (r.Ok? <==> DecodeItems(s, form, env.content.value).Ok?))
              && (r.Ok? ==> r.value.attributes == attributes.value)
    decreases w, 2
  {
    var env :- Open(form, w);
    var cls := Registry.GetElementClass(s, env.name);
    var attributes :- DecodeAttributes(s, form, env.attributes, w);
    var content :-
      if cls.ContentShape() == Primitive then
        Ok(Value(if env.content.Some? then env.content.value else Null))
      else if env.content.None? then Ok(Items([]))
      else if !env.content.value.Arr? then Err(ContentNotArray)
      else
        var children :- DecodeItems(s, form, env.content.value);
        Ok(Items(children));
    Ok(Element(env.name, cls, env.meta, attributes, content,
               s.attributeElementKeys, s.attributeElementArrayKeys))
  }

  /** Decodes the children held in a wire array, in order; the first child
      that fails decides the error. */
  function DecodeItems(s: Registry.State, form: Form, c: Json): (r: Result<seq<Element>, RefractError>)
    requires c.Arr?
    ensures r.Ok? <==> forall j | 0 <= j < |c.items| :: Decode(s, form, c.items[j]).Ok?
    ensures r.Ok? ==> |r.value| == |c.items|
    ensures r.Ok? ==> forall j | 0 <= j < |c.items| :: r.value[j] == Decode(s, form, c.items[j]).value
    decreases c, 1
  {
    var rs := seq(|c.items|, j requires 0 <= j < |c.items| => Decode(s, form, c.items[j]));
    assert forall j | 0 <= j < |c.items| :: rs[j] == Decode(s, form, c.items[j]);
    AllOk(rs)
  }

  /** Decodes the attributes of an element, in order. `w` is the wire
      element they come from. */
  function DecodeAttributes(s: Registry.State, form: Form, fs: seq<Field>, ghost w: Json)
    : (r: Result<seq<Attribute>, RefractError>)
    requires forall i | 0 <= i < |fs| :: fs[i] < w
    ensures r.Ok? <==> forall i | 0 <= i < |fs| :: DecodeAttribute(s, form, fs[i]).Ok?
    ensures r.Ok? ==> |r.value| == |fs|
    ensures r.Ok? ==> forall i | 0 <= i < |fs| :: r.value[i] == DecodeAttribute(s, form, fs[i]).value
    decreases w, 1
  {
    var rs := seq(|fs|, i requires 0 <= i < |fs| => DecodeAttribute(s, form, fs[i]));
    assert forall i | 0 <= i < |fs| :: rs[i] == DecodeAttribute(s, form, fs[i]);
    AllOk(rs)
  }

  /** Decodes one attribute: as an element when its key is in the element
      keys, as an array of elements when it is in the element-array keys,
      verbatim otherwise. */
  function DecodeAttribute(s: Registry.State, form: Form, f: Field): (r: Result<Attribute, RefractError>)
    ensures r.Ok? ==> r.value.key == f.key
    ensures f.key in s.attributeElementKeys ==>
              (r.Ok? <==> Decode(s, form, f.value).Ok?)
              && (r.Ok? ==> r.value.value == One(Decode(s, form, f.value).value))
    ensures f.key !in s.attributeElementKeys && f.key in s.attributeElementArrayKeys && !f.value.Arr? ==>
              r == Err(AttributeNotArray(f.key))
    ensures f.key !in s.attributeElementKeys && f.key in s.attributeElementArrayKeys && f.value.Arr? ==>
              (r.Ok? <==> DecodeItems(s, form, f.value).Ok?)
              && (r.Ok? ==> r.value.value == Many(DecodeItems(s, form, f.value).value))
    ensures f.key !in s.attributeElementKeys && f.key !in s.attributeElementArrayKeys ==>
              r == Ok(Attribute(f.key, Raw(f.value)))
    decreases f, 3
  {
    if f.key in s.attributeElementKeys then
      var e :- Decode(s, form, f.value);
      Ok(Attribute(f.key, One(e)))
    else if f.key in s.attributeElementArrayKeys then
      if !f.value.Arr? then Err(AttributeNotArray(f.key))
      else
        var es :- DecodeItems(s, form, f.value);
        Ok(Attribute(f.key, Many(es)))
    else Ok(Attribute(f.key, Raw(f.value)))
  }

  /** Encodes an element in the given form: the full form is an object, the
      compact form an array. */
  function Encode(form: Form, e: Element): (r: Json)
    ensures r.Obj? <==> form == Full
    ensures r.Arr? <==> form == Compact
    decreases e, 2
  {
    match form
    case Full =>
      Obj([Field("element", Str(e.name)), Field("meta", Obj(e.meta)),
           Field("attributes", Obj(EncodeAttributes(form, e))), Field("content", EncodeContent(form, e))])
    case Compact =>
      Arr([Str(e.name), Obj(e.meta), Obj(EncodeAttributes(form, e)), EncodeContent(form, e)])
  }

  /** The attributes object of an encoded element, in the element's order. */
  function EncodeAttributes(form: Form, e: Element): (r: seq<Field>)
    ensures |r| == |e.attributes|
    ensures forall i | 0 <= i < |r| :: r[i] == Field(e.attributes[i].key, EncodeAttribute(form, e.attributes[i].value))
    decreases e, 1
  {
    seq(|e.attributes|, i requires 0 <= i < |e.attributes| =>
          Field(e.attributes[i].key, EncodeAttribute(form, e.attributes[i].value)))
  }

  /** The content of an encoded element: a value verbatim, children in order. */
  function EncodeContent(form: Form, e: Element): (r: Json)
    ensures e.content.Value? ==> r == e.content.value
    ensures e.content.Items? ==> r.Arr? && |r.items| == |e.content.items|
    ensures e.content.Items? ==> forall j | 0 <= j < |r.items| :: r.items[j] == Encode(form, e.content.items[j])
    decreases e, 1
  {
    match e.content
    case Value(v) => v
    case Items(cs) => Arr(seq(|cs|, j requires 0 <= j < |cs| => Encode(form, cs[j])))
  }

  function EncodeAttribute(form: Form, v: AttributeValue): (r: Json)
    ensures v.Many? ==> r.Arr? && |r.items| == |v.elements|
    ensures v.Many? ==> forall j | 0 <= j < |r.items| :: r.items[j] == Encode(form, v.elements[j])
    decreases v, 3
  {
    match v
    case Raw(raw) => raw
    case One(c) => Encode(form, c)
    case Many(cs) => Arr(seq(|cs|, j requires 0 <= j < |cs| => Encode(form, cs[j])))
  }

  function FromRefract(s: Registry.State, w: Json): Result<Element, RefractError> { Decode(s, Full, w) }
  function ToRefract(e: Element): Json { Encode(Full, e) }
  function FromCompactRefract(s: Registry.State, w: Json): Result<Element, RefractError> { Decode(s, Compact, w) }
  function ToCompactRefract(e: Element): Json { Encode(Compact, e) }
}
