/** The state of a namespace as a value: the element class registry (a map
    from names to types, with the order in which its keys were first added,
    as a JavaScript object keeps them), the detection rule table and the
    default attribute-key lists. The operations here are the specification
    the Namespace class is proved against. */
module Registry {
  import opened Elements
  import opened Detection

  datatype State = State(
    elementMap: map<string, ElementClass>,
    keyOrder: seq<string>,
    elementDetection: seq<Rule>,
    attributeElementKeys: seq<string>,
    attributeElementArrayKeys: seq<string>)

  predicate Distinct(xs: seq<string>) {
    forall i, j | 0 <= i < j < |xs| :: xs[i] != xs[j]
  }

  /** keyOrder lists each key of elementMap exactly once. */
  predicate WellFormed(s: State) {
    && Distinct(s.keyOrder)
    && (forall n | n in s.keyOrder :: n in s.elementMap)
    && (forall n | n in s.elementMap :: n in s.keyOrder)
  }

  /** A namespace created with `noDefault`: everything empty. */
  const Empty := State(map[], [], [], [], [])

  /** `getElementClass`: the registered type, or the fallback for an unknown name. */
  function GetElementClass(s: State, name: string): (cls: ElementClass)
    ensures name in s.elementMap ==> cls == s.elementMap[name]
    ensures name !in s.elementMap ==> cls == BaseElement
  {
    if name in s.elementMap then s.elementMap[name] else BaseElement
  }

  /** The types `m` maps `names` to, in order: with the registry's key order,
      what `Object.keys(elementMap).map(...)` lists. */
  function Values(m: map<string, ElementClass>, names: seq<string>): (r: seq<ElementClass>)
    requires forall n | n in names :: n in m
    ensures |r| == |names|
    ensures forall k | 0 <= k < |names| :: r[k] == m[names[k]]
  {
    if names == [] then []
    else Values(m, names[..|names| - 1]) + [m[names[|names| - 1]]]
  }

  /** `register(name, cls)`: insert or overwrite; an overwritten key keeps its place. */
  function Register(s: State, name: string, cls: ElementClass): (r: State)
    requires WellFormed(s)
    ensures WellFormed(r)
    ensures GetElementClass(r, name) == cls && name in r.elementMap
    ensures forall other | other != name :: GetElementClass(r, other) == GetElementClass(s, other)
    ensures r.elementMap.Keys == s.elementMap.Keys + {name}
    ensures r.keyOrder == if name in s.elementMap then s.keyOrder else s.keyOrder + [name]
    ensures r.elementDetection == s.elementDetection
    ensures r.attributeElementKeys == s.attributeElementKeys
    ensures r.attributeElementArrayKeys == s.attributeElementArrayKeys
  {
    s.(elementMap := s.elementMap[name := cls],
       keyOrder := if name in s.elementMap then s.keyOrder else s.keyOrder + [name])
  }

  /** The keys of `xs` other than `x`, in order. */
  function Without(xs: seq<string>, x: string): (r: seq<string>)
    ensures forall y :: y in r <==> y in xs && y != x
    ensures Distinct(xs) ==> Distinct(r)
    ensures x !in xs ==> r == xs
  {
    if xs == [] then []
    else if xs[0] == x then Without(xs[1..], x)
    else
      var rest := Without(xs[1..], x);
      assert Distinct(xs) ==> xs[0] !in xs[1..];
      [xs[0]] + rest
  }

  /** Removing a key that sits at index `k` of a duplicate-free order
      closes the gap: the keys before and after it keep their order. */
  lemma {:induction false} WithoutAt(xs: seq<string>, x: string, k: nat)
    requires Distinct(xs) && k < |xs| && xs[k] == x
    ensures Without(xs, x) == xs[..k] + xs[k + 1..]
  {
    if k == 0 {
      assert x !in xs[1..];
    } else {
      assert xs[0] != x;
      WithoutAt(xs[1..], x, k - 1);
      assert xs[..k] == [xs[0]] + xs[1..][..k - 1];
      assert xs[k + 1..] == xs[1..][k..];
    }
  }

  /** `unregister(name)`: delete the key; nothing happens when it is absent. */
  function Unregister(s: State, name: string): (r: State)
    requires WellFormed(s)
    ensures WellFormed(r)
    ensures name !in r.elementMap && GetElementClass(r, name) == BaseElement
    ensures forall other | other != name :: GetElementClass(r, other) == GetElementClass(s, other)
    ensures r.elementMap.Keys == s.elementMap.Keys - {name}
    ensures name !in s.elementMap ==> r == s
    ensures forall k | 0 <= k < |s.keyOrder| && s.keyOrder[k] == name :: r.keyOrder == s.keyOrder[..k] + s.keyOrder[k + 1..]
    ensures r.elementDetection == s.elementDetection
    ensures r.attributeElementKeys == s.attributeElementKeys
    ensures r.attributeElementArrayKeys == s.attributeElementArrayKeys
  {
    if name in s.elementMap then
      assert forall k | 0 <= k < |s.keyOrder| && s.keyOrder[k] == name ::
          Without(s.keyOrder, name) == s.keyOrder[..k] + s.keyOrder[k + 1..] by {
        forall k | 0 <= k < |s.keyOrder| && s.keyOrder[k] == name
          ensures Without(s.keyOrder, name) == s.keyOrder[..k] + s.keyOrder[k + 1..]
        {
          WithoutAt(s.keyOrder, name, k);
        }
      }
      s.(elementMap := s.elementMap - {name}, keyOrder := Without(s.keyOrder, name))
    else s
  }

  /** `detect(test, cls, prepend)` on the namespace's rule table. */
  function AddRule(s: State, test: TestId, cls: ElementClass, prepend: bool): (r: State)
    ensures r.elementDetection == Detect(s.elementDetection, test, cls, prepend)
    ensures r.elementMap == s.elementMap && r.keyOrder == s.keyOrder
    ensures r.attributeElementKeys == s.attributeElementKeys
    ensures r.attributeElementArrayKeys == s.attributeElementArrayKeys
    ensures WellFormed(r) <==> WellFormed(s)
  {
    s.(elementDetection := Detect(s.elementDetection, test, cls, prepend))
  }

  /** Tags of the default detection tests (is null, is a string, ...). */
  const IsNull: TestId := 0
  const IsString: TestId := 1
  const IsNumber: TestId := 2
  const IsBoolean: TestId := 3
  const IsArray: TestId := 4
  const IsObject: TestId := 5

  /** The catalogue `useDefault` registers: names and their types, in order. */
  const DefaultNames: seq<string> := ["null", "string", "number", "boolean", "array", "object"]
  const DefaultClasses: seq<ElementClass> :=
    [NullElement, StringElement, NumberElement, BooleanElement, ArrayElement, ObjectElement]

  /** The built-in detection rules `useDefault` appends, in order. */
  const DefaultRules: seq<Rule> := [
    Rule(IsNull, NullElement), Rule(IsString, StringElement), Rule(IsNumber, NumberElement),
    Rule(IsBoolean, BooleanElement), Rule(IsArray, ArrayElement), Rule(IsObject, ObjectElement)]

  /** `register(names[0], classes[0])`, then the next pair, and so on. */
  function RegisterAll(s: State, names: seq<string>, classes: seq<ElementClass>): (r: State)
    requires WellFormed(s) && |names| == |classes|
    ensures WellFormed(r)
    ensures forall n :: n in r.elementMap <==> n in s.elementMap || n in names
    ensures forall n | n !in names :: GetElementClass(r, n) == GetElementClass(s, n)
    ensures r.elementDetection == s.elementDetection
    ensures r.attributeElementKeys == s.attributeElementKeys
    ensures r.attributeElementArrayKeys == s.attributeElementArrayKeys
  {
    if names == [] then s
    else
      var k := |names| - 1;
      assert names == names[..k] + [names[k]];
      Register(RegisterAll(s, names[..k], classes[..k]), names[k], classes[k])
  }

  /** With no name listed twice, each listed name ends up with its type. */
  lemma {:induction false} RegisterAllLookup(s: State, names: seq<string>, classes: seq<ElementClass>, i: nat)
    requires WellFormed(s) && |names| == |classes| && Distinct(names) && i < |names|
    ensures GetElementClass(RegisterAll(s, names, classes), names[i]) == classes[i]
  {
    var k := |names| - 1;
    if i < k {
      assert names[i] != names[k];
      assert Distinct(names[..k]) && names[..k][i] == names[i];
      RegisterAllLookup(s, names[..k], classes[..k], i);
    }
  }

  /** What registering `n` appends to the key order when the keys
      registered before are `known`. */
  function NewKey(n: string, known: set<string>): seq<string> {
    if n in known then [] else [n]
  }

  /** The names of `names` not in `known`, in order. */
  function Unlisted(names: seq<string>, known: set<string>): (r: seq<string>)
    ensures forall n :: n in r <==> n in names && n !in known
  {
    if names == [] then []
    else Unlisted(names[..|names| - 1], known) + NewKey(names[|names| - 1], known)
  }

  /** Nothing is known: every name is appended. */
  lemma {:induction false} UnlistedNone(names: seq<string>)
    ensures Unlisted(names, {}) == names
  {
    if names != [] {
      UnlistedNone(names[..|names| - 1]);
      assert names == names[..|names| - 1] + [names[|names| - 1]];
    }
  }

  /** With no name listed twice, the run of registrations appends the names
      not registered before, in the order listed, and moves no existing key. */
  lemma {:induction false} RegisterAllOrder(s: State, names: seq<string>, classes: seq<ElementClass>)
    requires WellFormed(s) && |names| == |classes| && Distinct(names)
    ensures RegisterAll(s, names, classes).keyOrder == s.keyOrder + Unlisted(names, s.elementMap.Keys)
  {
    if names != [] {
      var k := |names| - 1;
      var init := names[..k];
      assert Distinct(init);
      RegisterAllOrder(s, init, classes[..k]);
      var t := RegisterAll(s, init, classes[..k]);
      assert names[k] !in init;
      assert (names[k] in t.elementMap) == (names[k] in s.elementMap);
      assert RegisterAll(s, names, classes) == Register(t, names[k], classes[k]);
      RegisterNewKey(s, t, Unlisted(init, s.elementMap.Keys), names[k], classes[k]);
    }
  }

  /** The step of RegisterAllOrder: registering a name appends it exactly
      when the original registry did not know it. */
  lemma RegisterNewKey(s: State, t: State, added: seq<string>, name: string, cls: ElementClass)
    requires WellFormed(t) && t.keyOrder == s.keyOrder + added
    requires (name in t.elementMap) == (name in s.elementMap)
    ensures Register(t, name, cls).keyOrder == s.keyOrder + (added + NewKey(name, s.elementMap.Keys))
  {
  }

  /** The run over the first `k + 1` names is the run over the first `k`
      followed by one more registration. */
  lemma RegisterAllPrefix(s: State, names: seq<string>, classes: seq<ElementClass>, k: nat)
    requires WellFormed(s) && |names| == |classes| && k < |names|
    ensures RegisterAll(s, names[..k + 1], classes[..k + 1])
              == Register(RegisterAll(s, names[..k], classes[..k]), names[k], classes[k])
  {
    assert names[..k + 1][..k] == names[..k] && classes[..k + 1][..k] == classes[..k];
  }

  /** `useDefault()` on a catalogue that lists no name twice: its
      registrations in order, then its rules appended after the caller's. */
  function UseCatalogue(s: State, names: seq<string>, classes: seq<ElementClass>, rules: seq<Rule>): (r: State)
    requires WellFormed(s) && |names| == |classes| && Distinct(names)
    ensures WellFormed(r)
    ensures forall n :: n in r.elementMap <==> n in s.elementMap || n in names
    ensures r.keyOrder == s.keyOrder + Unlisted(names, s.elementMap.Keys)
    ensures forall i | 0 <= i < |names| :: GetElementClass(r, names[i]) == classes[i]
    ensures forall n | n !in names :: GetElementClass(r, n) == GetElementClass(s, n)
    ensures r.elementDetection == s.elementDetection + rules
    ensures r.attributeElementKeys == s.attributeElementKeys
    ensures r.attributeElementArrayKeys == s.attributeElementArrayKeys
  {
    var t := RegisterAll(s, names, classes);
    RegisterAllOrder(s, names, classes);
    assert forall i | 0 <= i < |names| :: GetElementClass(t, names[i]) == classes[i] by {
      forall i | 0 <= i < |names| ensures GetElementClass(t, names[i]) == classes[i] {
        RegisterAllLookup(s, names, classes, i);
      }
    }
    t.(elementDetection := t.elementDetection + rules)
  }

  /** A non-empty order lists its first key. */
  lemma FirstListed(xs: seq<string>)
    ensures xs == [] || xs[0] in xs
  {
  }

  /** On an empty registry the key order is the catalogue's own order. */
  lemma CatalogueFromEmpty(s: State, names: seq<string>, classes: seq<ElementClass>, rules: seq<Rule>)
    requires WellFormed(s) && s.elementMap == map[] && |names| == |classes| && Distinct(names)
    ensures UseCatalogue(s, names, classes, rules).keyOrder == names
  {
    var r := UseCatalogue(s, names, classes, rules);
    assert s.elementMap.Keys == {};
    FirstListed(s.keyOrder);
    UnlistedNone(names);
    assert r.keyOrder == [] + Unlisted(names, {});
  }

  /** The catalogue lists no name twice. */
  lemma DefaultNamesDistinct()
    ensures Distinct(DefaultNames)
  {
    assert forall i, j | 0 <= i < j < 6 ::
      |DefaultNames[i]| != |DefaultNames[j]| || DefaultNames[i][0] != DefaultNames[j][0] || DefaultNames[i][1] != DefaultNames[j][1];
  }

  /** Each catalogue name, looked up, gives the type listed beside it. */
  lemma DefaultLookups(r: State)
    requires forall i | 0 <= i < |DefaultNames| :: GetElementClass(r, DefaultNames[i]) == DefaultClasses[i]
    ensures GetElementClass(r, "null") == NullElement
    ensures GetElementClass(r, "string") == StringElement
    ensures GetElementClass(r, "number") == NumberElement
    ensures GetElementClass(r, "boolean") == BooleanElement
    ensures GetElementClass(r, "array") == ArrayElement
    ensures GetElementClass(r, "object") == ObjectElement
  {
    assert GetElementClass(r, DefaultNames[0]) == DefaultClasses[0];
    assert GetElementClass(r, DefaultNames[1]) == DefaultClasses[1];
    assert GetElementClass(r, DefaultNames[2]) == DefaultClasses[2];
    assert GetElementClass(r, DefaultNames[3]) == DefaultClasses[3];
    assert GetElementClass(r, DefaultNames[4]) == DefaultClasses[4];
    assert GetElementClass(r, DefaultNames[5]) == DefaultClasses[5];
  }

  /** `useDefault()`: register the built-in catalogue, then append the
      default detection rules after the caller's. */
  function UseDefault(s: State): (r: State)
    requires WellFormed(s)
    ensures WellFormed(r)
    ensures r.elementMap != map[]
    ensures forall n :: n in r.elementMap <==> n in s.elementMap || n in DefaultNames
    ensures r.keyOrder == s.keyOrder + Unlisted(DefaultNames, s.elementMap.Keys)
    ensures forall n | n !in DefaultNames :: GetElementClass(r, n) == GetElementClass(s, n)
    ensures GetElementClass(r, "null") == NullElement
    ensures GetElementClass(r, "string") == StringElement
    ensures GetElementClass(r, "number") == NumberElement
    ensures GetElementClass(r, "boolean") == BooleanElement
    ensures GetElementClass(r, "array") == ArrayElement
    ensures GetElementClass(r, "object") == ObjectElement
    ensures r.elementDetection == s.elementDetection + DefaultRules
    ensures r.attributeElementKeys == s.attributeElementKeys
    ensures r.attributeElementArrayKeys == s.attributeElementArrayKeys
  {
    DefaultNamesDistinct();
    var r := UseCatalogue(s, DefaultNames, DefaultClasses, DefaultRules);
    DefaultLookups(r);
    r
  }

  /** `useDefault()` is the run over the catalogue with the default rules
      appended. */
  lemma UseDefaultRun(s: State)
    requires WellFormed(s)
    ensures UseDefault(s) == RegisterAll(s, DefaultNames, DefaultClasses).(elementDetection := s.elementDetection + DefaultRules)
  {
  }

  /** `useDefault()` on an empty registry lists the catalogue's names in
      catalogue order. */
  lemma UseDefaultFromEmpty(s: State)
    requires WellFormed(s) && s.elementMap == map[]
    ensures UseDefault(s).keyOrder == DefaultNames
  {
    DefaultNamesDistinct();
    CatalogueFromEmpty(s, DefaultNames, DefaultClasses, DefaultRules);
  }

  /** `new StringElement(...)` and friends: a fresh element takes copies of
      the namespace's default attribute-key lists. */
  function NewElement(s: State, name: string, cls: ElementClass, content: Content): (e: Element)
    ensures e.attributeElementKeys == s.attributeElementKeys
    ensures e.attributeElementArrayKeys == s.attributeElementArrayKeys
    ensures e.name == name && e.cls == cls && e.content == content
    ensures e.meta == [] && e.attributes == []
  {
    Element(name, cls, [], [], content, s.attributeElementKeys, s.attributeElementArrayKeys)
  }
}
