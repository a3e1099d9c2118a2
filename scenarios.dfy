/** The scenarios of the namespace's test suite, on the state values: each
    lemma fixes the suite's inputs and states the outcome it expects. */
module Scenarios {
  import opened Wrappers
  import opened Json
  import opened Elements
  import Registry
  import ElementsView
  import opened Refract
  import RefractLaws

  /** The namespace every scenario starts from: emptied, then given the defaults. */
  function Fresh(): (s: Registry.State)
    ensures Registry.WellFormed(s)
    ensures Registry.GetElementClass(s, "string") == StringElement
    ensures Registry.GetElementClass(s, "array") == ArrayElement
  {
    Registry.UseDefault(Registry.Empty)
  }

  function FullValue(name: string, content: Json): Json {
    Obj([Field("element", Str(name)), Field("meta", Obj([])), Field("attributes", Obj([])), Field("content", content)])
  }

  function CompactValue(name: string, content: Json): Json {
    Arr([Str(name), Obj([]), Obj([]), content])
  }

  /** A name outside the catalogue, such as `unknown`, resolves to BaseElement. */
  lemma UnknownElementClass(name: string)
    requires name !in Registry.DefaultNames
    ensures Registry.GetElementClass(Fresh(), name) == BaseElement
  {
  }

  /** A namespace created with `noDefault` is empty, yet its `elements` view
      still holds BaseElement. */
  lemma EmptyNamespaceView()
    ensures Registry.Empty.elementMap == map[]
    ensures ElementsView.ElementsOf(Registry.Empty) == [("BaseElement", BaseElement)]
  {
  }

  /** An envelope with empty meta and attributes is canonical when its
      content suits the type its name resolves to. */
  lemma PlainCanonical(s: Registry.State, form: Form, name: string, content: Json)
    requires Registry.GetElementClass(s, name).ContentShape() == Collection ==>
               content.Arr? && forall j | 0 <= j < |content.items| :: RefractLaws.Canonical(s, form, content.items[j])
    ensures RefractLaws.Canonical(s, form, if form == Full then FullValue(name, content) else CompactValue(name, content))
  {
    var w := if form == Full then FullValue(name, content) else CompactValue(name, content);
    if form == Full {
      RefractLaws.ExactIndices(w.fields);
    }
    var env := Envelope(name, [], [], Some(content));
    assert Open(form, w) == Ok(env);
    assert RefractLaws.Exact(form, w);
    assert RefractLaws.CanonicalContent(s, form, Registry.GetElementClass(s, name), content);
  }

  /** Registering `foo` on the fresh namespace gives it the registered type
      and leaves `string` a string type. */
  lemma RegisteredFoo(c: ElementClass)
    ensures Registry.GetElementClass(Registry.Register(Fresh(), "foo", c), "foo") == c
    ensures Registry.GetElementClass(Registry.Register(Fresh(), "foo", c), "string") == StringElement
  {
  }

  /** With `foo` a string type, its full and compact wire values decode and
      re-encode to themselves. */
  lemma ValueRoundTrip(s: Registry.State)
    requires Registry.GetElementClass(s, "foo") == StringElement
    ensures Decode(s, Full, FullValue("foo", Str("test"))).Ok?
    ensures Encode(Full, Decode(s, Full, FullValue("foo", Str("test"))).value) == FullValue("foo", Str("test"))
    ensures Decode(s, Compact, CompactValue("foo", Str("test"))).Ok?
    ensures Encode(Compact, Decode(s, Compact, CompactValue("foo", Str("test"))).value) == CompactValue("foo", Str("test"))
  {
    PlainCanonical(s, Full, "foo", Str("test"));
    RefractLaws.EncodeDecode(s, Full, FullValue("foo", Str("test")));
    PlainCanonical(s, Compact, "foo", Str("test"));
    RefractLaws.EncodeDecode(s, Compact, CompactValue("foo", Str("test")));
  }

  function Sample(form: Form): Json {
    if form == Full then FullValue("foo", Arr([FullValue("string", Str("bar"))]))
    else CompactValue("foo", Arr([CompactValue("string", Str("bar"))]))
  }

  /** A `foo` collection holding one string child `bar`, in either form,
      decodes and re-encodes to itself wherever `foo` is an array type and
      `string` a string type. */
  lemma SampleRoundTrip(s: Registry.State, form: Form)
    requires Registry.GetElementClass(s, "string") == StringElement
    requires Registry.GetElementClass(s, "foo") == ArrayElement
    ensures Decode(s, form, Sample(form)).Ok? && Encode(form, Decode(s, form, Sample(form)).value) == Sample(form)
  {
    var child := if form == Full then FullValue("string", Str("bar")) else CompactValue("string", Str("bar"));
    PlainCanonical(s, form, "string", Str("bar"));
    PlainCanonical(s, form, "foo", Arr([child]));
    RefractLaws.EncodeDecode(s, form, Sample(form));
  }

  /** Attribute-key defaults set on the namespace are the lists a newly
      constructed element carries. */
  lemma AttributeDefaultsCopied()
    ensures var s := Fresh().(attributeElementKeys := ["foo"], attributeElementArrayKeys := ["bar"]);
            var e := Registry.NewElement(s, "string", StringElement, Value(Str("")));
            e.attributeElementKeys == ["foo"] && e.attributeElementArrayKeys == ["bar"]
  {
  }
}
