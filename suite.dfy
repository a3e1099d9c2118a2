/** The namespace test suite as clients of the Namespace class: each method
    builds the namespace the suite's `beforeEach` builds (or the one the
    case builds itself), makes the case's calls and promises the outcome the
    case expects. */
module Suite {
  import opened Json
  import opened Elements
  import opened Detection
  import Registry
  import ElementsView
  import Plugins
  import Conversion
  import opened Minim

  /** `new Namespace()`. */
  method Created() returns (ns: Namespace)
    ensures fresh(ns) && ns.Valid()
    ensures ns.attributeElementKeys == [] && ns.attributeElementArrayKeys == []
  {
    ns := new Namespace(false);
  }

  /** `beforeEach`: a namespace with its tables emptied, then the defaults. */
  method Fresh() returns (ns: Namespace)
    ensures fresh(ns) && ns.Valid()
    ensures ns.elementMap != map[]
    ensures ns.GetElementClass("string") == StringElement && ns.GetElementClass("object") == ObjectElement
    ensures forall n | n !in Registry.DefaultNames :: ns.GetElementClass(n) == BaseElement
    ensures ns.keyOrder == Registry.DefaultNames
    ensures ns.attributeElementKeys == [] && ns.attributeElementArrayKeys == []
  {
    ns := Created();
    ns.elementMap := map[];
    ns.keyOrder := [];
    ns.elementDetection := [];
    ghost var s0 := ns.Snapshot();
    ns.UseDefault();
    Registry.UseDefaultFromEmpty(s0);
  }

  /** An attribute-key default pushed onto the namespace shows up in a new
      string element's own lists. */
  method AttributeDefaults() returns (e: Element)
    ensures e.cls == StringElement
    ensures e.attributeElementKeys == ["foo"] && e.attributeElementArrayKeys == ["bar"]
  {
    var ns := Fresh();
    ns.attributeElementKeys := ns.attributeElementKeys + ["foo"];
    ns.attributeElementArrayKeys := ns.attributeElementArrayKeys + ["bar"];
    e := Registry.NewElement(ns.Snapshot(), "string", StringElement, Value(Str("")));
  }

  /** The defaults are present; a `noDefault` namespace is empty until
      `useDefault` is called on it. */
  method Defaults() returns (m0: map<string, ElementClass>, m1: map<string, ElementClass>, m2: map<string, ElementClass>)
    ensures m0 != map[] && m1 == map[] && m2 != map[]
  {
    var ns := Fresh();
    m0 := ns.elementMap;
    var empty := new Namespace(true);
    m1 := empty.elementMap;
    var later := new Namespace(true);
    later.UseDefault();
    m2 := later.elementMap;
  }

  /** A plugin's `namespace` entry point registers `null2`; another's `load`
      entry point registers `null3`. */
  method UsePlugins() returns (c2: ElementClass, c3: ElementClass)
    ensures c2 == NullElement && c3 == NullElement
  {
    var ns := Fresh();
    var p := Plugins.Plugin(Plugins.Present([Plugins.Register("null2", NullElement)]), Plugins.Missing);
    ghost var s := ns.Snapshot();
    ns.Use(p);
    Plugins.UseRegisters(s, p, 0);
    c2 := ns.elementMap["null2"];
    var ns2 := Fresh();
    var q := Plugins.Plugin(Plugins.Missing, Plugins.Present([Plugins.Register("null3", NullElement)]));
    s := ns2.Snapshot();
    ns2.Use(q);
    Plugins.UseRegisters(s, q, 0);
    c3 := ns2.elementMap["null3"];
  }

  /** `register` adds to the element map; `unregister` of a name leaves it
      out of the map. */
  method RegisterUnregister() returns (c: ElementClass, present: bool)
    ensures c == ObjectElement && !present
  {
    var ns := Fresh();
    ns.Register("test", ObjectElement);
    c := ns.elementMap["test"];
    var ns2 := Fresh();
    ns2.Unregister("test");
    present := "test" in ns2.elementMap;
  }

  /** `detect` puts its rule first by default and last when told not to
      prepend. */
  method DetectOrder(test: TestId) returns (first: ElementClass, second: ElementClass)
    ensures first == StringElement && second == ObjectElement
  {
    var ns := Fresh();
    ns.elementDetection := [Rule(test, NullElement)];
    ns.Detect(test, StringElement);
    first := ns.elementDetection[0].cls;
    var ns2 := Fresh();
    ns2.elementDetection := [Rule(test, NullElement)];
    ns2.Detect(test, ObjectElement, false);
    second := ns2.elementDetection[1].cls;
  }

  /** `toElement` hands an element back unchanged. */
  method ToElementIdentity(holds: (TestId, Json) -> bool) returns (given: Element, converted: Element)
    ensures converted == given && given.cls == StringElement
  {
    var ns := Fresh();
    given := Registry.NewElement(ns.Snapshot(), "string", StringElement, Value(Str("")));
    var r := ns.ToElement(holds, Conversion.Typed(given));
    converted := r.value;
  }

  /** An unknown name resolves to BaseElement. */
  method UnknownLookup() returns (unknown: ElementClass)
    ensures unknown == BaseElement
  {
    var ns := Fresh();
    assert "unknown" !in Registry.DefaultNames;
    unknown := ns.GetElementClass("unknown");
  }

  /** The `elements` suite: the view's values after its first entry are the
      registry's values in key order, every key starts upper-case, and
      `elements.BaseElement` is the fallback type. */
  method ElementsKeys() returns (view: ElementsView.View, mapValues: seq<ElementClass>)
    ensures |view| == |mapValues| + 1 && |mapValues| == |Registry.DefaultNames|
    ensures forall k | 0 <= k < |mapValues| :: view[k + 1].1 == mapValues[k]
    ensures forall i | 0 <= i < |view| :: ElementsView.UpperInitial(view[i].0)
    ensures view[0] == ("BaseElement", BaseElement)
  {
    var ns := Fresh();
    view := ns.Elements();
    mapValues := Registry.Values(ns.elementMap, ns.keyOrder);
    ElementsView.DefaultElements(ns.Snapshot());
  }

  /** A `noDefault` namespace's view holds BaseElement alone. */
  method EmptyElementsView() returns (view: ElementsView.View)
    ensures view == [("BaseElement", BaseElement)]
  {
    var ns := new Namespace(true);
    view := ns.Elements();
  }
}
