/** The plugin protocol. A plugin exposes a `namespace` entry point, a `load`
    entry point, both or neither; `use` invokes `namespace` when present and
    `load` otherwise. An entry point is modelled by the calls it makes on the
    namespace it is handed as `base`. */
module Plugins {
  import opened Elements
  import opened Detection
  import Registry

  datatype Action =
    | Register(name: string, cls: ElementClass)
    | Unregister(name: string)
    | AddRule(test: TestId, cls: ElementClass, prepend: bool)
    | Use(plugin: Plugin)

  datatype Entry = Missing | Present(actions: seq<Action>)

  datatype Plugin = Plugin(namespace: Entry, load: Entry)

  /** The calls `use(plugin)` makes: those of `namespace`, else those of
      `load`, else none. */
  function Invoked(p: Plugin): (acts: seq<Action>)
    ensures forall i | 0 <= i < |acts| :: acts[i] < p
  {
    if p.namespace.Present? then p.namespace.actions
    else if p.load.Present? then p.load.actions
    else []
  }

  /** `use` prefers the `namespace` entry point, falls back to `load`, and
      does nothing for a plugin with neither. */
  lemma InvokedChoice(p: Plugin)
    ensures p.namespace.Present? ==> Invoked(p) == p.namespace.actions
    ensures p.namespace.Missing? && p.load.Present? ==> Invoked(p) == p.load.actions
    ensures p.namespace.Missing? && p.load.Missing? ==> Invoked(p) == []
  {
  }

  /** One call other than `use`. */
  function Step(s: Registry.State, a: Action): (r: Registry.State)
    requires Registry.WellFormed(s) && !a.Use?
    ensures Registry.WellFormed(r)
  {
    match a
    case Register(n, c) => Registry.Register(s, n, c)
    case Unregister(n) => Registry.Unregister(s, n)
    case AddRule(t, c, pre) => Registry.AddRule(s, t, c, pre)
  }

  /** One call, a nested `use` included. */
  function Next(s: Registry.State, a: Action): (r: Registry.State)
    requires Registry.WellFormed(s)
    ensures Registry.WellFormed(r)
    decreases a, 0
  {
    if a.Use? then RunFrom(s, a.plugin, 0) else Step(s, a)
  }

  /** The state after the calls of `p`'s invoked entry point from index `i` on. */
  function RunFrom(s: Registry.State, p: Plugin, i: nat): (r: Registry.State)
    requires Registry.WellFormed(s) && i <= |Invoked(p)|
    ensures Registry.WellFormed(r)
    decreases p, 1, |Invoked(p)| - i
  {
    if i == |Invoked(p)| then s
    else RunFrom(Next(s, Invoked(p)[i]), p, i + 1)
  }

  /** `use(plugin)`. */
  function Apply(s: Registry.State, p: Plugin): (r: Registry.State)
    requires Registry.WellFormed(s)
    ensures Registry.WellFormed(r)
  {
    RunFrom(s, p, 0)
  }

  /** Whether a call can affect the registration of `name`. */
  predicate Touches(a: Action, name: string)
    decreases a
  {
    match a
    case Register(n, _) => n == name
    case Unregister(n) => n == name
    case AddRule(_, _, _) => false
    case Use(q) => exists i | 0 <= i < |Invoked(q)| :: Touches(Invoked(q)[i], name)
  }

  /** Calls that do not touch `name` leave its lookup alone. */
  lemma {:induction false} RunFromKeeps(s: Registry.State, p: Plugin, i: nat, name: string)
    requires Registry.WellFormed(s) && i <= |Invoked(p)|
    requires forall j | i <= j < |Invoked(p)| :: !Touches(Invoked(p)[j], name)
    ensures Registry.GetElementClass(RunFrom(s, p, i), name) == Registry.GetElementClass(s, name)
    ensures (name in RunFrom(s, p, i).elementMap) == (name in s.elementMap)
    decreases p, |Invoked(p)| - i
  {
    if i < |Invoked(p)| {
      var a := Invoked(p)[i];
      if a.Use? {
        RunFromKeeps(s, a.plugin, 0, name);
      }
      RunFromKeeps(Next(s, a), p, i + 1, name);
    }
  }

  /** A registration made by a plugin's invoked entry point is visible in the
      element map after `use`, unless a later call of that entry point touches
      the same name. */
  lemma {:induction false} UseRegisters(s: Registry.State, p: Plugin, i: nat)
    requires Registry.WellFormed(s)
    requires i < |Invoked(p)| && Invoked(p)[i].Register?
    requires forall j | i < j < |Invoked(p)| :: !Touches(Invoked(p)[j], Invoked(p)[i].name)
    ensures Invoked(p)[i].name in Apply(s, p).elementMap
    ensures Apply(s, p).elementMap[Invoked(p)[i].name] == Invoked(p)[i].cls
  {
    var a := Invoked(p)[i];
    var si := PrefixState(s, p, i);
    var sr := Registry.Register(si, a.name, a.cls);
    RunFromSplit(s, p, i);
    RunFromStep(si, p, i);
    assert Next(si, a) == sr;
    RunFromKeeps(sr, p, i + 1, a.name);
  }

  /** The state after the first `i` calls of `p`'s invoked entry point. */
  function PrefixState(s: Registry.State, p: Plugin, i: nat): (r: Registry.State)
    requires Registry.WellFormed(s) && i <= |Invoked(p)|
    ensures Registry.WellFormed(r)
    decreases i
  {
    if i == 0 then s
    else Next(PrefixState(s, p, i - 1), Invoked(p)[i - 1])
  }

  /** Running the whole entry point is running its first `i` calls, then the rest. */
  lemma {:induction false} RunFromSplit(s: Registry.State, p: Plugin, i: nat)
    requires Registry.WellFormed(s) && i <= |Invoked(p)|
    ensures RunFrom(s, p, 0) == RunFrom(PrefixState(s, p, i), p, i)
    decreases i
  {
    if i > 0 {
      var before := PrefixState(s, p, i - 1);
      calc {
        RunFrom(s, p, 0);
        { RunFromSplit(s, p, i - 1); }
        RunFrom(before, p, i - 1);
        { RunFromStep(before, p, i - 1); }
        RunFrom(Next(before, Invoked(p)[i - 1]), p, i);
        RunFrom(PrefixState(s, p, i), p, i);
      }
    }
  }

  /** One call of the entry point, then the rest. */
  lemma RunFromStep(t: Registry.State, p: Plugin, j: nat)
    requires Registry.WellFormed(t) && j < |Invoked(p)|
    ensures RunFrom(t, p, j) == RunFrom(Next(t, Invoked(p)[j]), p, j + 1)
  {
  }

  /** A plugin with neither entry point changes nothing. */
  lemma EmptyPluginIsNoOp(s: Registry.State)
    requires Registry.WellFormed(s)
    ensures Apply(s, Plugin(Missing, Missing)) == s
  {
  }
}
