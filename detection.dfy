/** The detection rule table: an ordered list of (test, type) pairs that
    classifies a native value by the first test it passes. Tests are opaque
    tags; what a tag says about a value is the uninterpreted `holds`. */
module Detection {
  import opened Json
  import opened Elements

  type TestId = nat

  datatype Rule = Rule(test: TestId, cls: ElementClass)

  /** `detect(test, cls, prepend)`: the new rule goes in front (the default)
      or at the back of the table. */
  function Detect(rules: seq<Rule>, test: TestId, cls: ElementClass, prepend: bool): (r: seq<Rule>)
    ensures |r| == |rules| + 1
    ensures prepend ==> r[0] == Rule(test, cls) && r[1..] == rules
    ensures !prepend ==> r[|rules|] == Rule(test, cls) && r[..|rules|] == rules
  {
    if prepend then [Rule(test, cls)] + rules else rules + [Rule(test, cls)]
  }

  /** Index of the first rule whose test holds of `v`, or -1 when none does. */
  function FirstMatch(rules: seq<Rule>, holds: (TestId, Json) -> bool, v: Json): (i: int)
    ensures -1 <= i < |rules|
    ensures i >= 0 ==> holds(rules[i].test, v)
    ensures forall j | 0 <= j < |rules| && (i < 0 || j < i) :: !holds(rules[j].test, v)
  {
    if rules == [] then -1
    else if holds(rules[0].test, v) then 0
    else
      var j := FirstMatch(rules[1..], holds, v);
      if j < 0 then -1 else j + 1
  }

  /** The type the table assigns to `v`: that of the first matching rule,
      BaseElement when no rule matches. */
  function Classify(rules: seq<Rule>, holds: (TestId, Json) -> bool, v: Json): ElementClass {
    var i := FirstMatch(rules, holds, v);
    if i >= 0 then rules[i].cls else BaseElement
  }

  /** Where the first match of a table is, as `Classify` sees it. */
  lemma FirstMatchAt(rules: seq<Rule>, holds: (TestId, Json) -> bool, v: Json, i: int)
    requires -1 <= i < |rules|
    requires i >= 0 ==> holds(rules[i].test, v)
    requires forall k | 0 <= k < |rules| && (i < 0 || k < i) :: !holds(rules[k].test, v)
    ensures FirstMatch(rules, holds, v) == i
    ensures Classify(rules, holds, v) == if i >= 0 then rules[i].cls else BaseElement
  {
    var f := FirstMatch(rules, holds, v);
    if f >= 0 && i >= 0 {
      assert !(f < i) && !(i < f);
    }
  }

  /** A prepended rule is checked before every earlier one: it decides every
      value its test accepts, and leaves the rest to the earlier table. */
  lemma {:induction false} PrependedRuleWins(rules: seq<Rule>, test: TestId, cls: ElementClass,
                                             holds: (TestId, Json) -> bool, v: Json)
    ensures Classify(Detect(rules, test, cls, true), holds, v)
            == if holds(test, v) then cls else Classify(rules, holds, v)
  {
    var r := Detect(rules, test, cls, true);
    assert r[1..] == rules;
  }

  /** An appended rule is checked after every earlier one: it decides only the
      values no earlier rule accepts. */
  lemma {:induction false} AppendedRuleIsLast(rules: seq<Rule>, test: TestId, cls: ElementClass,
                                              holds: (TestId, Json) -> bool, v: Json)
    ensures Classify(Detect(rules, test, cls, false), holds, v)
            == if FirstMatch(rules, holds, v) >= 0 then Classify(rules, holds, v)
               else if holds(test, v) then cls
               else BaseElement
  {
    var r := Detect(rules, test, cls, false);
    var i := FirstMatch(rules, holds, v);
    var k := FirstMatch(r, holds, v);
    assert forall j | 0 <= j < |rules| :: r[j] == rules[j];
    assert r[|rules|] == Rule(test, cls);
    if i >= 0 {
      assert k == i;
    } else if holds(test, v) {
      assert k == |rules|;
    } else {
      assert k == -1;
    }
  }
}
