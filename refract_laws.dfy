/** Round-trip laws of the refract codec. */
module RefractLaws {
  import opened Wrappers
  import opened Json
  import opened Elements
  import Registry
  import opened Refract

  /** An element as decoding produces it: every type is the one the registry
      gives its name, collection types hold child elements and other types a
      value, the attributes named by the attribute-key lists hold elements,
      and every element carries the namespace's attribute-key lists. */
  predicate Conforms(s: Registry.State, e: Element)
    decreases e, 0
  {
    && e.cls == Registry.GetElementClass(s, e.name)
    && e.attributeElementKeys == s.attributeElementKeys
    && e.attributeElementArrayKeys == s.attributeElementArrayKeys
    && (forall i | 0 <= i < |e.attributes| :: AttributeConforms(s, e.attributes[i]))
    && match e.content
       case Value(_) => e.cls.ContentShape() == Primitive
       case Items(cs) => e.cls.ContentShape() == Collection && forall j | 0 <= j < |cs| :: Conforms(s, cs[j])
  }

  predicate AttributeConforms(s: Registry.State, a: Attribute)
    decreases a, 1
  {
    if a.key in s.attributeElementKeys then a.value.One? && Conforms(s, a.value.element)
    else if a.key in s.attributeElementArrayKeys then
      a.value.Many? && forall j | 0 <= j < |a.value.elements| :: Conforms(s, a.value.elements[j])
    else a.value.Raw?
  }

  /** Whatever decoding produces conforms to the namespace it decoded with. */
  lemma {:induction false} DecodeConforms(s: Registry.State, form: Form, w: Json)
    ensures Decode(s, form, w).Ok? ==> Conforms(s, Decode(s, form, w).value)
    decreases w, 2
  {
    if Decode(s, form, w).Ok? {
      var env := Open(form, w).value;
      var cls := Registry.GetElementClass(s, env.name);
      var e := Decode(s, form, w).value;
      forall i | 0 <= i < |e.attributes| ensures AttributeConforms(s, e.attributes[i]) {
        DecodeAttributeConforms(s, form, env.attributes[i]);
      }
      if cls.ContentShape() == Collection && env.content.Some? {
        DecodeItemsConforms(s, form, env.content.value);
      }
    }
  }

  lemma {:induction false} DecodeItemsConforms(s: Registry.State, form: Form, c: Json)
    requires c.Arr?
    ensures DecodeItems(s, form, c).Ok? ==>
              forall j | 0 <= j < |c.items| :: Conforms(s, DecodeItems(s, form, c).value[j])
    decreases c, 1
  {
    forall j | 0 <= j < |c.items| ensures Decode(s, form, c.items[j]).Ok? ==> Conforms(s, Decode(s, form, c.items[j]).value) {
      DecodeConforms(s, form, c.items[j]);
    }
  }

  lemma {:induction false} DecodeAttributeConforms(s: Registry.State, form: Form, f: Field)
    ensures DecodeAttribute(s, form, f).Ok? ==> AttributeConforms(s, DecodeAttribute(s, form, f).value)
    decreases f, 3
  {
    if f.key in s.attributeElementKeys {
      DecodeConforms(s, form, f.value);
    } else if f.key in s.attributeElementArrayKeys && f.value.Arr? {
      DecodeItemsConforms(s, form, f.value);
    }
  }

  /** The envelope has exactly the layout the encoder writes. */
  predicate Exact(form: Form, w: Json) {
    match form
    case Full =>
      && w.Obj? && |w.fields| == 4
      && w.fields[0].key == "element" && w.fields[1].key == "meta"
      && w.fields[2].key == "attributes" && w.fields[3].key == "content"
    case Compact =>
      w.Arr? && |w.items| == 4
  }

  /** A wire element in the layout the encoder writes: the exact envelope,
      collection content as an array of canonical children, attributes named
      by the attribute-key lists as canonical elements (or arrays of them). */
  predicate Canonical(s: Registry.State, form: Form, w: Json)
    decreases w, 2
  {
    && Exact(form, w)
    && Open(form, w).Ok?
    && Open(form, w).value.content.Some?
    && (forall i | 0 <= i < |Open(form, w).value.attributes| ::
          CanonicalAttribute(s, form, Open(form, w).value.attributes[i]))
    && CanonicalContent(s, form, Registry.GetElementClass(s, Open(form, w).value.name),
                        Open(form, w).value.content.value)
  }

  predicate CanonicalContent(s: Registry.State, form: Form, cls: ElementClass, c: Json)
    decreases c, 1
  {
    cls.ContentShape() == Collection ==>
      c.Arr? && forall j | 0 <= j < |c.items| :: Canonical(s, form, c.items[j])
  }

  predicate CanonicalAttribute(s: Registry.State, form: Form, f: Field)
    decreases f, 3
  {
    if f.key in s.attributeElementKeys then Canonical(s, form, f.value)
    else if f.key in s.attributeElementArrayKeys then
      f.value.Arr? && forall j | 0 <= j < |f.value.items| :: Canonical(s, form, f.value.items[j])
    else true
  }

  /** The envelope of an encoded element holds its name, meta, encoded
      attributes and encoded content. */
  lemma OpenEncoded(form: Form, e: Element)
    ensures Open(form, Encode(form, e))
            == Ok(Envelope(e.name, e.meta, EncodeAttributes(form, e), Some(EncodeContent(form, e))))
  {
    if form == Full {
      ExactIndices(Encode(form, e).fields);
    }
  }

  /** In the encoder's layout each part is found at its own position. */
  lemma ExactIndices(fs: seq<Field>)
    requires |fs| == 4
    requires fs[0].key == "element" && fs[1].key == "meta"
    requires fs[2].key == "attributes" && fs[3].key == "content"
    ensures IndexOf(fs, "element") == 0 && IndexOf(fs, "meta") == 1
    ensures IndexOf(fs, "attributes") == 2 && IndexOf(fs, "content") == 3
  {
  }

  /** A wire element in the exact layout is rebuilt from its envelope. */
  lemma OpenExact(form: Form, w: Json)
    requires Exact(form, w) && Open(form, w).Ok?
    ensures Open(form, w).value.content.Some?
    ensures var env := Open(form, w).value;
            w == match form
                 case Full =>
                   Obj([Field("element", Str(env.name)), Field("meta", Obj(env.meta)),
                        Field("attributes", Obj(env.attributes)), Field("content", env.content.value)])
                 case Compact =>
                   Arr([Str(env.name), Obj(env.meta), Obj(env.attributes), env.content.value])
  {
    if form == Full {
      ExactIndices(w.fields);
    }
  }

  /** Decoding what the encoder wrote gives back the element, in either form. */
  lemma {:induction false} DecodeEncode(s: Registry.State, form: Form, e: Element)
    requires Conforms(s, e)
    ensures Decode(s, form, Encode(form, e)) == Ok(e)
    decreases e, 2
  {
    var w := Encode(form, e);
    var attrs := EncodeAttributes(form, e);
    OpenEncoded(form, e);
    forall i | 0 <= i < |attrs| ensures DecodeAttribute(s, form, attrs[i]) == Ok(e.attributes[i]) {
      DecodeEncodeAttribute(s, form, e.attributes[i]);
    }
    var da := DecodeAttributes(s, form, attrs, w);
    assert da.Ok? && da.value == e.attributes;
    match e.content
    case Value(v) =>
    case Items(cs) =>
      DecodeEncodeItems(s, form, e);
  }

  lemma {:induction false} DecodeEncodeItems(s: Registry.State, form: Form, e: Element)
    requires e.content.Items? && forall j | 0 <= j < |e.content.items| :: Conforms(s, e.content.items[j])
    ensures DecodeItems(s, form, EncodeContent(form, e)) == Ok(e.content.items)
    decreases e, 1
  {
    var cs := e.content.items;
    var c := EncodeContent(form, e);
    forall j | 0 <= j < |cs| ensures Decode(s, form, c.items[j]) == Ok(cs[j]) {
      DecodeEncode(s, form, cs[j]);
    }
    var r := DecodeItems(s, form, c);
    assert r.Ok? && r.value == cs;
  }

  lemma {:induction false} DecodeEncodeAttribute(s: Registry.State, form: Form, a: Attribute)
    requires AttributeConforms(s, a)
    ensures DecodeAttribute(s, form, Field(a.key, EncodeAttribute(form, a.value))) == Ok(a)
    decreases a, 3
  {
    if a.key in s.attributeElementKeys {
      DecodeEncode(s, form, a.value.element);
    } else if a.key in s.attributeElementArrayKeys {
      var cs := a.value.elements;
      var c := EncodeAttribute(form, a.value);
      forall j | 0 <= j < |cs| ensures Decode(s, form, c.items[j]) == Ok(cs[j]) {
        DecodeEncode(s, form, cs[j]);
      }
      var r := DecodeItems(s, form, c);
      assert r.Ok? && r.value == cs;
    }
  }

  /** Encoding what the decoder read gives back the wire value, in either
      form, for every wire value in the encoder's layout. */
  lemma {:induction false} EncodeDecode(s: Registry.State, form: Form, w: Json)
    requires Canonical(s, form, w)
    ensures Decode(s, form, w).Ok? && Encode(form, Decode(s, form, w).value) == w
    decreases w, 2
  {
    var env := Open(form, w).value;
    var cls := Registry.GetElementClass(s, env.name);
    forall i | 0 <= i < |env.attributes|
      ensures DecodeAttribute(s, form, env.attributes[i]).Ok?
      ensures Field(DecodeAttribute(s, form, env.attributes[i]).value.key,
                    EncodeAttribute(form, DecodeAttribute(s, form, env.attributes[i]).value.value))
              == env.attributes[i]
    {
      EncodeDecodeAttribute(s, form, env.attributes[i]);
    }
    var c := env.content.value;
    if cls.ContentShape() == Collection {
      EncodeDecodeItems(s, form, c);
    }
    var e := Decode(s, form, w).value;
    assert EncodeAttributes(form, e) == env.attributes;
    if cls.ContentShape() == Collection {
      var cs := e.content.items;
      assert EncodeContent(form, e).items == c.items;
    }
    assert EncodeContent(form, e) == c;
    EncodeEnvelope(form, e, w);
  }

  /** An element whose parts encode to the parts of an exact envelope
      encodes to that wire value. */
  lemma EncodeEnvelope(form: Form, e: Element, w: Json)
    requires Exact(form, w) && Open(form, w).Ok? && Open(form, w).value.content.Some?
    requires e.name == Open(form, w).value.name && e.meta == Open(form, w).value.meta
    requires EncodeAttributes(form, e) == Open(form, w).value.attributes
    requires EncodeContent(form, e) == Open(form, w).value.content.value
    ensures Encode(form, e) == w
  {
    OpenExact(form, w);
  }

  lemma {:induction false} EncodeDecodeItems(s: Registry.State, form: Form, c: Json)
    requires c.Arr? && forall j | 0 <= j < |c.items| :: Canonical(s, form, c.items[j])
    ensures DecodeItems(s, form, c).Ok?
    ensures forall j | 0 <= j < |c.items| :: Encode(form, DecodeItems(s, form, c).value[j]) == c.items[j]
    decreases c, 1
  {
    forall j | 0 <= j < |c.items|
      ensures Decode(s, form, c.items[j]).Ok? && Encode(form, Decode(s, form, c.items[j]).value) == c.items[j]
    {
      EncodeDecode(s, form, c.items[j]);
    }
  }

  lemma {:induction false} EncodeDecodeAttribute(s: Registry.State, form: Form, f: Field)
    requires CanonicalAttribute(s, form, f)
    ensures DecodeAttribute(s, form, f).Ok?
    ensures Field(DecodeAttribute(s, form, f).value.key,
                  EncodeAttribute(form, DecodeAttribute(s, form, f).value.value)) == f
    decreases f, 3
  {
    if f.key in s.attributeElementKeys {
      EncodeDecode(s, form, f.value);
    } else if f.key in s.attributeElementArrayKeys {
      EncodeDecodeItems(s, form, f.value);
      var es := DecodeItems(s, form, f.value).value;
      assert EncodeAttribute(form, Many(es)).items == f.value.items;
    }
  }

  /** The encoder writes only canonical wire elements. */
  lemma {:induction false} EncodeCanonical(s: Registry.State, form: Form, e: Element)
    requires Conforms(s, e)
    ensures Canonical(s, form, Encode(form, e))
    decreases e, 2
  {
    var w := Encode(form, e);
    OpenEncoded(form, e);
    if form == Full {
      ExactIndices(w.fields);
    }
    var attrs := EncodeAttributes(form, e);
    forall i | 0 <= i < |attrs| ensures CanonicalAttribute(s, form, attrs[i]) {
      EncodeCanonicalAttribute(s, form, e.attributes[i]);
    }
    if e.content.Items? {
      var cs := e.content.items;
      var c := EncodeContent(form, e);
      forall j | 0 <= j < |cs| ensures Canonical(s, form, c.items[j]) {
        EncodeCanonical(s, form, cs[j]);
      }
    }
  }

  lemma {:induction false} EncodeCanonicalAttribute(s: Registry.State, form: Form, a: Attribute)
    requires AttributeConforms(s, a)
    ensures CanonicalAttribute(s, form, Field(a.key, EncodeAttribute(form, a.value)))
    decreases a, 3
  {
    if a.key in s.attributeElementKeys {
      EncodeCanonical(s, form, a.value.element);
    } else if a.key in s.attributeElementArrayKeys {
      var cs := a.value.elements;
      var c := EncodeAttribute(form, a.value);
      forall j | 0 <= j < |cs| ensures Canonical(s, form, c.items[j]) {
        EncodeCanonical(s, form, cs[j]);
      }
    }
  }

  /** A wire element survives decoding and re-encoding unchanged exactly
      when it is canonical. */
  lemma RoundTripIff(s: Registry.State, form: Form, w: Json)
    ensures (Decode(s, form, w).Ok? && Encode(form, Decode(s, form, w).value) == w) <==> Canonical(s, form, w)
  {
    if Canonical(s, form, w) {
      EncodeDecode(s, form, w);
    }
    if Decode(s, form, w).Ok? && Encode(form, Decode(s, form, w).value) == w {
      DecodeConforms(s, form, w);
      EncodeCanonical(s, form, Decode(s, form, w).value);
    }
  }

  /** Decoding normalises: re-encoding a decoded element and decoding again
      gives the same element, in either form. */
  lemma DecodeNormalises(s: Registry.State, form: Form, w: Json)
    requires Decode(s, form, w).Ok?
    ensures Decode(s, form, Encode(form, Decode(s, form, w).value)) == Decode(s, form, w)
  {
    DecodeConforms(s, form, w);
    DecodeEncode(s, form, Decode(s, form, w).value);
  }

  /** An element encoded in one form and decoded from the other's encoding
      is the same element: the two wire forms carry the same information. */
  lemma FormsAgree(s: Registry.State, e: Element)
    requires Conforms(s, e)
    ensures Decode(s, Full, Encode(Full, e)) == Decode(s, Compact, Encode(Compact, e))
  {
    DecodeEncode(s, Full, e);
    DecodeEncode(s, Compact, e);
  }

  /** A name the registry does not know never makes decoding fail: once
      the envelope reads and its attributes decode, the wire value decodes as
      a BaseElement whose content is kept verbatim (null when absent). */
  lemma UnknownNameIsBase(s: Registry.State, form: Form, w: Json)
    requires Open(form, w).Ok? && Open(form, w).value.name !in s.elementMap
    requires DecodeAttributes(s, form, Open(form, w).value.attributes, w).Ok?
    ensures Decode(s, form, w).Ok?
    ensures Decode(s, form, w).value.cls == BaseElement
    ensures Decode(s, form, w).value.name == Open(form, w).value.name
    ensures Decode(s, form, w).value.content
            == Value(if Open(form, w).value.content.Some? then Open(form, w).value.content.value else Null)
  {
  }
}
