/** The `elements` view: a JavaScript object built afresh from the registry,
    BaseElement first under "BaseElement", then every registered type under
    its pascal-cased name, in registration order. Assigning a key the object
    already has overwrites that entry in place. */
module ElementsView {
  import opened Elements
  import opened Registry

  type View = seq<(string, ElementClass)>

  /** Upper-casing of one character (ASCII letters only). */
  function Upper(c: char): char {
    if 'a' <= c <= 'z' then (c as int - 32) as char else c
  }

  /** A name with its first character upper-cased. */
  function Pascal(name: string): (r: string)
    ensures |r| == |name|
    ensures r != [] ==> Upper(r[0]) == r[0]
    ensures name != "" ==> r[1..] == name[1..]
  {
    if name == "" then "" else [Upper(name[0])] + name[1..]
  }

  /** What the suite checks of every key: its first character is its own upper case. */
  predicate UpperInitial(key: string) {
    key != [] ==> Upper(key[0]) == key[0]
  }

  predicate DistinctKeys(view: View) {
    forall i, j | 0 <= i < j < |view| :: view[i].0 != view[j].0
  }

  /** Index of the entry with key `key`, or -1. */
  function KeyIndex(view: View, key: string): (i: int)
    ensures -1 <= i < |view|
    ensures i >= 0 ==> view[i].0 == key
    ensures i < 0 ==> forall j | 0 <= j < |view| :: view[j].0 != key
  {
    if view == [] then -1
    else
      var j := KeyIndex(view[..|view| - 1], key);
      if j >= 0 then j
      else if view[|view| - 1].0 == key then |view| - 1
      else -1
  }

  /** `object[key] = cls` on an object whose keys are listed in order. */
  function Assign(view: View, key: string, cls: ElementClass): (r: View)
    ensures |view| <= |r| <= |view| + 1
    ensures forall j | 0 <= j < |view| :: r[j].0 == view[j].0
    ensures forall j | |view| <= j < |r| :: r[j].0 == key
    ensures DistinctKeys(view) ==> DistinctKeys(r)
    ensures KeyIndex(view, key) < 0 ==> r == view + [(key, cls)]
    ensures KeyIndex(view, key) >= 0 ==> |r| == |view| && r[KeyIndex(view, key)] == (key, cls)
    ensures forall j | 0 <= j < |view| && j != KeyIndex(view, key) :: r[j] == view[j]
  {
    var i := KeyIndex(view, key);
    if i >= 0 then view[i := (key, cls)] else view + [(key, cls)]
  }

  /** The view after visiting `names` in order. */
  function ViewOf(m: map<string, ElementClass>, names: seq<string>): (r: View)
    requires forall n | n in names :: n in m
    ensures 1 <= |r| <= |names| + 1
    ensures r[0].0 == "BaseElement"
  {
    if names == [] then [("BaseElement", BaseElement)]
    else
      var last := names[|names| - 1];
      Assign(ViewOf(m, names[..|names| - 1]), Pascal(last), m[last])
  }

  /** `namespace.elements`: its first key is "BaseElement", its keys are
      distinct and each starts upper-case. */
  function ElementsOf(s: State): (r: View)
    requires WellFormed(s)
    ensures 1 <= |r| <= |s.keyOrder| + 1 && r[0].0 == "BaseElement"
    ensures DistinctKeys(r)
    ensures forall i | 0 <= i < |r| :: UpperInitial(r[i].0)
  {
    ViewKeys(s.elementMap, s.keyOrder);
    ViewOf(s.elementMap, s.keyOrder)
  }

  /** The pascal-cased form of each name. */
  function PascalAll(names: seq<string>): (r: seq<string>)
    ensures |r| == |names| && forall k | 0 <= k < |names| :: r[k] == Pascal(names[k])
  {
    if names == [] then [] else PascalAll(names[..|names| - 1]) + [Pascal(names[|names| - 1])]
  }

  /** Every key of the view starts upper-case, the keys are distinct, the
      first key is "BaseElement", and each later key is the pascal-cased
      form of a registered name. */
  lemma {:induction false} ViewKeys(m: map<string, ElementClass>, names: seq<string>)
    requires forall n | n in names :: n in m
    ensures |ViewOf(m, names)| >= 1 && ViewOf(m, names)[0].0 == "BaseElement"
    ensures DistinctKeys(ViewOf(m, names))
    ensures forall i | 0 <= i < |ViewOf(m, names)| :: UpperInitial(ViewOf(m, names)[i].0)
    ensures forall i | 1 <= i < |ViewOf(m, names)| :: ViewOf(m, names)[i].0 in PascalAll(names)
  {
    if names != [] {
      var init := names[..|names| - 1];
      var last := names[|names| - 1];
      ViewKeys(m, init);
      var v := ViewOf(m, init);
      var r := ViewOf(m, names);
      assert r == Assign(v, Pascal(last), m[last]);
      assert PascalAll(names) == PascalAll(init) + [Pascal(last)];
      forall i | 1 <= i < |r| ensures r[i].0 in PascalAll(names) && UpperInitial(r[i].0) {
        if i < |v| {
          assert r[i].0 == v[i].0;
        } else {
          assert r[i].0 == Pascal(last);
        }
      }
    }
  }

  /** `elements.BaseElement` is the fallback type, as long as no registered
      name pascal-cases to "BaseElement" (which would overwrite it). */
  lemma {:induction false} ViewStartsWithBase(m: map<string, ElementClass>, names: seq<string>)
    requires forall n | n in names :: n in m
    requires forall k | 0 <= k < |names| :: Pascal(names[k]) != "BaseElement"
    ensures |ViewOf(m, names)| >= 1 && ViewOf(m, names)[0] == ("BaseElement", BaseElement)
  {
    if names != [] {
      var init := names[..|names| - 1];
      ViewStartsWithBase(m, init);
      ViewKeys(m, init);
      assert Pascal(names[|names| - 1]) != "BaseElement";
    }
  }

  /** Without key collisions, the view after its first entry lists exactly
      the registered types, in registration order. */
  lemma {:induction false} ViewListsRegistered(m: map<string, ElementClass>, names: seq<string>)
    requires forall n | n in names :: n in m
    requires forall k | 0 <= k < |names| :: Pascal(names[k]) != "BaseElement"
    requires forall j, k | 0 <= j < k < |names| :: Pascal(names[j]) != Pascal(names[k])
    ensures |ViewOf(m, names)| == |names| + 1
    ensures forall k | 0 <= k < |names| :: ViewOf(m, names)[k + 1] == (Pascal(names[k]), m[names[k]])
  {
    if names != [] {
      var init := names[..|names| - 1];
      var last := names[|names| - 1];
      ViewListsRegistered(m, init);
      assert forall k | 0 <= k < |init| :: Pascal(init[k]) != Pascal(last) by {
        forall k | 0 <= k < |init| ensures Pascal(init[k]) != Pascal(last) {
          assert init[k] == names[k];
        }
      }
      var v := ViewOf(m, init);
      KeyAbsent(v, init, Pascal(last));
      assert ViewOf(m, names) == v + [(Pascal(last), m[last])];
      forall k | 0 <= k < |names| - 1 ensures v[k + 1] == (Pascal(names[k]), m[names[k]]) {
        assert names[k] == init[k];
      }
      AppendListed(m, v, ViewOf(m, names), names);
    }
  }

  /** A key that is neither "BaseElement" nor the pascal-cased form of any
      of the names a collision-free view lists is absent from that view. */
  lemma KeyAbsent(v: View, names: seq<string>, key: string)
    requires |v| == |names| + 1 && v[0].0 == "BaseElement" && key != "BaseElement"
    requires forall k | 0 <= k < |names| :: v[k + 1].0 == Pascal(names[k])
    requires forall k | 0 <= k < |names| :: Pascal(names[k]) != key
    ensures KeyIndex(v, key) < 0
  {
    forall j | 0 <= j < |v| ensures v[j].0 != key {
      if j > 0 {
        assert v[j].0 == Pascal(names[j - 1]);
      }
    }
  }

  /** The step of ViewListsRegistered: appending the last name's entry
      keeps the entries already listed in their places. */
  lemma AppendListed(m: map<string, ElementClass>, v: View, r: View, names: seq<string>)
    requires names != [] && names[|names| - 1] in m
    requires forall k | 0 <= k < |names| - 1 :: names[k] in m
    requires |v| == |names|
    requires forall k | 0 <= k < |names| - 1 :: v[k + 1] == (Pascal(names[k]), m[names[k]])
    requires r == v + [(Pascal(names[|names| - 1]), m[names[|names| - 1]])]
    ensures |r| == |names| + 1
    ensures forall k | 0 <= k < |names| :: r[k + 1] == (Pascal(names[k]), m[names[k]])
  {
  }

  /** The three facts the suite checks of `namespace.elements`. */
  lemma ElementsFacts(s: State)
    requires WellFormed(s)
    requires forall k | 0 <= k < |s.keyOrder| :: Pascal(s.keyOrder[k]) != "BaseElement"
    requires forall j, k | 0 <= j < k < |s.keyOrder| :: Pascal(s.keyOrder[j]) != Pascal(s.keyOrder[k])
    ensures ElementsOf(s)[0] == ("BaseElement", BaseElement)
    ensures |ElementsOf(s)| == |s.keyOrder| + 1
    ensures forall k | 0 <= k < |s.keyOrder| :: ElementsOf(s)[k + 1].1 == s.elementMap[s.keyOrder[k]]
    ensures forall i | 0 <= i < |ElementsOf(s)| :: UpperInitial(ElementsOf(s)[i].0)
  {
    ViewKeys(s.elementMap, s.keyOrder);
    ViewStartsWithBase(s.elementMap, s.keyOrder);
    ViewListsRegistered(s.elementMap, s.keyOrder);
  }

  /** The catalogue's names pascal-case to distinct keys, none of them
      "BaseElement": the default view has no collisions. */
  lemma DefaultKeysDistinct()
    ensures forall k | 0 <= k < |DefaultNames| :: Pascal(DefaultNames[k]) != "BaseElement"
    ensures forall j, k | 0 <= j < k < |DefaultNames| :: Pascal(DefaultNames[j]) != Pascal(DefaultNames[k])
  {
    forall k | 0 <= k < |DefaultNames| ensures Pascal(DefaultNames[k]) != "BaseElement" {
      assert |Pascal(DefaultNames[k])| != |"BaseElement"|;
    }
    forall j, k | 0 <= j < k < |DefaultNames| ensures Pascal(DefaultNames[j]) != Pascal(DefaultNames[k]) {
      assert DefaultNames[j][1..] != DefaultNames[k][1..] by {
        assert |DefaultNames[j]| != |DefaultNames[k]| || DefaultNames[j][1] != DefaultNames[k][1];
      }
    }
  }

  /** The `elements` facts on a registry whose keys are the catalogue's:
      after BaseElement, the view lists the registry's values in key order. */
  lemma DefaultElements(s: State)
    requires WellFormed(s) && s.keyOrder == DefaultNames
    ensures ElementsOf(s)[0] == ("BaseElement", BaseElement)
    ensures |ElementsOf(s)| == |Values(s.elementMap, s.keyOrder)| + 1
    ensures forall k | 0 <= k < |s.keyOrder| :: ElementsOf(s)[k + 1].1 == Values(s.elementMap, s.keyOrder)[k]
    ensures forall i | 0 <= i < |ElementsOf(s)| :: UpperInitial(ElementsOf(s)[i].0)
  {
    DefaultKeysDistinct();
    ElementsFacts(s);
  }
}
