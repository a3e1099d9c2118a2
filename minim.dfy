/** The Namespace object: the registry, the detection table and the default
    attribute-key lists as fields that its methods update in place. Each
    method is proved against the operation of the same name on the state
    value `Snapshot()`, whose properties are proved in Registry, Detection,
    ElementsView, Plugins, Refract and Conversion. */
module Minim {
  import opened Wrappers
  import opened Json
  import opened Elements
  import opened Detection
  import Registry
  import ElementsView
  import Plugins
  import Conversion

  class Namespace {
    var elementMap: map<string, ElementClass>
    /** The keys of `elementMap` in the order they were first added. */
    var keyOrder: seq<string>
    var elementDetection: seq<Rule>
    var attributeElementKeys: seq<string>
    var attributeElementArrayKeys: seq<string>

    /** The namespace's state as a value. */
    function Snapshot(): Registry.State
      reads this
    {
      Registry.State(elementMap, keyOrder, elementDetection, attributeElementKeys, attributeElementArrayKeys)
    }

    ghost predicate Valid()
      reads this
    {
      Registry.WellFormed(Snapshot())
    }

    /** `new Namespace({noDefault})`: empty tables, then the defaults unless
        `noDefault` is set. */
    constructor(noDefault: bool)
      ensures Valid()
      ensures noDefault ==> Snapshot() == Registry.Empty
      ensures !noDefault ==> Snapshot() == Registry.UseDefault(Registry.Empty)
    {
      elementMap := map[];
      keyOrder := [];
      elementDetection := [];
      attributeElementKeys := [];
      attributeElementArrayKeys := [];
      new;
      if !noDefault {
        UseDefault();
      }
    }

    /** `register(name, cls)`. */
    method Register(name: string, cls: ElementClass)
      requires Valid()
      modifies this
      ensures Valid()
      ensures Snapshot() == Registry.Register(old(Snapshot()), name, cls)
    {
      if name !in elementMap {
        keyOrder := keyOrder + [name];
      }
      elementMap := elementMap[name := cls];
    }

    /** `unregister(name)`: a no-op for an unknown name. */
    method Unregister(name: string)
      requires Valid()
      modifies this
      ensures Valid()
      ensures Snapshot() == Registry.Unregister(old(Snapshot()), name)
    {
      if name in elementMap {
        elementMap := elementMap - {name};
        keyOrder := Registry.Without(keyOrder, name);
      }
    }

    /** `detect(test, cls, prepend = true)`. */
    method Detect(test: TestId, cls: ElementClass, prepend: bool := true)
      requires Valid()
      modifies this
      ensures Valid()
      ensures Snapshot() == Registry.AddRule(old(Snapshot()), test, cls, prepend)
    {
      if prepend {
        elementDetection := [Rule(test, cls)] + elementDetection;
      } else {
        elementDetection := elementDetection + [Rule(test, cls)];
      }
    }

    /** `useDefault()`: registers the built-in types in catalogue order,
        then appends their detection rules after the existing ones. */
    method UseDefault()
      requires Valid()
      modifies this
      ensures Valid()
      ensures Snapshot() == Registry.UseDefault(old(Snapshot()))
      ensures attributeElementKeys == old(attributeElementKeys)
      ensures attributeElementArrayKeys == old(attributeElementArrayKeys)
    {
      ghost var s0 := Snapshot();
      RegisterEach(Registry.DefaultNames, Registry.DefaultClasses);
      DetectEach(Registry.DefaultRules);
      Registry.UseDefaultRun(s0);
    }

    /** `register(names[k], classes[k])` for each `k` in turn. */
    method RegisterEach(names: seq<string>, classes: seq<ElementClass>)
      requires Valid() && |names| == |classes|
      modifies this
      ensures Valid()
      ensures Snapshot() == Registry.RegisterAll(old(Snapshot()), names, classes)
    {
      ghost var s0 := Snapshot();
      for k := 0 to |names|
        invariant Valid()
        invariant Snapshot() == Registry.RegisterAll(s0, names[..k], classes[..k])
      {
        Register(names[k], classes[k]);
        Registry.RegisterAllPrefix(s0, names, classes, k);
      }
      assert names[..|names|] == names && classes[..|classes|] == classes;
    }

    /** `detect(rule.test, rule.cls, false)` for each rule in turn: the rules
        end up after the existing ones, in the order given. */
    method DetectEach(rules: seq<Rule>)
      requires Valid()
      modifies this
      ensures Valid()
      ensures Snapshot() == old(Snapshot()).(elementDetection := old(elementDetection) + rules)
    {
      ghost var s0 := Snapshot();
      for k := 0 to |rules|
        invariant Valid()
        invariant Snapshot() == s0.(elementDetection := s0.elementDetection + rules[..k])
      {
        Detect(rules[k].test, rules[k].cls, false);
        assert rules[..k + 1] == rules[..k] + [rules[k]];
      }
      assert rules[..|rules|] == rules;
    }

    /** `getElementClass(name)`. */
    function GetElementClass(name: string): (cls: ElementClass)
      reads this
      ensures name in elementMap ==> cls == elementMap[name]
      ensures name !in elementMap ==> cls == BaseElement
    {
      if name in elementMap then elementMap[name] else BaseElement
    }

    /** `use(plugin)`: runs the calls of the plugin's invoked entry point
        against this namespace, nested `use` calls included. */
    method Use(p: Plugins.Plugin)
      requires Valid()
      modifies this
      ensures Valid()
      ensures Snapshot() == Plugins.Apply(old(Snapshot()), p)
      decreases p
    {
      var acts := Plugins.Invoked(p);
      var i := 0;
      while i < |acts|
        invariant 0 <= i <= |acts|
        invariant Valid()
        invariant Snapshot() == Plugins.PrefixState(old(Snapshot()), p, i)
      {
        match acts[i] {
          case Register(n, c) => Register(n, c);
          case Unregister(n) => Unregister(n);
          case AddRule(t, c, pre) => Detect(t, c, pre);
          case Use(q) => Use(q);
        }
        i := i + 1;
      }
      Plugins.RunFromSplit(old(Snapshot()), p, |acts|);
    }

    /** The detection scan of `toElement`: the rules front to back, the
        first whose test holds deciding the type, BaseElement when none does. */
    method Detected(holds: (TestId, Json) -> bool, v: Json) returns (cls: ElementClass)
      ensures cls == Classify(elementDetection, holds, v)
      ensures cls != BaseElement ==> exists j | 0 <= j < |elementDetection| ::
                holds(elementDetection[j].test, v) && elementDetection[j].cls == cls
                && forall k | 0 <= k < j :: !holds(elementDetection[k].test, v)
    {
      var i := 0;
      while i < |elementDetection|
        invariant 0 <= i <= |elementDetection|
        invariant forall k | 0 <= k < i :: !holds(elementDetection[k].test, v)
      {
        if holds(elementDetection[i].test, v) {
          FirstMatchAt(elementDetection, holds, v, i);
          return elementDetection[i].cls;
        }
        i := i + 1;
      }
      FirstMatchAt(elementDetection, holds, v, -1);
      return BaseElement;
    }

    /** `toElement(value)`. */
    method ToElement(holds: (TestId, Json) -> bool, x: Conversion.Input)
      returns (r: Result<Element, Conversion.ConversionError>)
      ensures r == Conversion.ToElement(Snapshot(), holds, x)
    {
      if x.Typed? {
        return Ok(x.element);
      }
      var v := x.value;
      var cls := Detected(holds, v);
      if cls.ContentShape() == Primitive {
        r := Ok(Registry.NewElement(Snapshot(), cls.ElementName(), cls, Value(v)));
      } else if !v.Arr? {
        r := Err(Conversion.NotAnArray(cls));
      } else {
        var children := Conversion.ConvertItems(Snapshot(), holds, v);
        if children.Err? {
          r := Err(children.error);
        } else {
          r := Ok(Registry.NewElement(Snapshot(), cls.ElementName(), cls, Items(children.value)));
        }
      }
    }

    /** The `elements` view, built afresh: BaseElement, then each registered
        type under its pascal-cased name in registration order. */
    method Elements() returns (view: ElementsView.View)
      requires Valid()
      ensures view == ElementsView.ElementsOf(Snapshot())
    {
      view := [("BaseElement", BaseElement)];
      var i := 0;
      while i < |keyOrder|
        invariant 0 <= i <= |keyOrder|
        invariant view == ElementsView.ViewOf(elementMap, keyOrder[..i])
      {
        var name := keyOrder[i];
        assert keyOrder[..i + 1][..i] == keyOrder[..i];
        view := ElementsView.Assign(view, ElementsView.Pascal(name), elementMap[name]);
        i := i + 1;
      }
      assert keyOrder[..i] == keyOrder;
    }
  }
}
