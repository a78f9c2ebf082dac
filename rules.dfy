/** The rule tree of components/actions.js: an `Action` (a rule) has an
    origin and an ordered list of `ActionCondition` and `ActionUpdate`
    children; `Actions.upgrade` migrates the legacy flat format, and
    `Actions.allStates` collects the state names the rules mention. */
module Rules {
  import opened Values
  import opened Text

  /** A child of a rule: a condition expression, or an update of one state
      name to the value of an expression. Expressions are kept as their
      source text. */
  datatype Child =
    | ConditionChild(condition: string)
    | UpdateChild(stateName: string, newValue: string)

  /** An `Action`. A missing origin (possible after migrating a legacy rule
      without one) matches no event. */
  datatype Rule = Rule(origin: Option<string>, children: seq<Child>)

  /** `Action.conditions`: the condition children, in order. */
  function Conditions(children: seq<Child>): (cs: seq<Child>)
    ensures forall i :: 0 <= i < |cs| ==> cs[i].ConditionChild?
    decreases |children|
  {
    if children == [] then []
    else (if children[0].ConditionChild? then [children[0]] else []) + Conditions(children[1..])
  }

  /** `Action.updates`: the update children, in order. */
  function Updates(children: seq<Child>): (us: seq<Child>)
    ensures forall i :: 0 <= i < |us| ==> us[i].UpdateChild?
    decreases |children|
  {
    if children == [] then []
    else (if children[0].UpdateChild? then [children[0]] else []) + Updates(children[1..])
  }

  /** A child is in the filter for its kind, and only there. */
  lemma {:induction false} FilterMembers(children: seq<Child>, c: Child)
    ensures c in Conditions(children) <==> c in children && c.ConditionChild?
    ensures c in Updates(children) <==> c in children && c.UpdateChild?
    decreases |children|
  {
    if children != [] {
      FilterMembers(children[1..], c);
      assert children == [children[0]] + children[1..];
    }
  }

  /** The two filters split the children: filtering distributes over
      concatenation, and every child lands in exactly one of them. */
  lemma {:induction false} FiltersAppend(a: seq<Child>, b: seq<Child>)
    ensures Conditions(a + b) == Conditions(a) + Conditions(b)
    ensures Updates(a + b) == Updates(a) + Updates(b)
    ensures |Conditions(a)| + |Updates(a)| == |a|
    decreases |a|
  {
    if a != [] {
      assert (a + b)[1..] == a[1..] + b;
      FiltersAppend(a[1..], b);
    } else {
      assert a + b == b;
    }
  }

  /** A rule in the flat legacy format: an array element with `event`,
      `origin`, `conditions` and `updates` (the entries of the `updates`
      object, in order). */
  datatype LegacyAction = LegacyAction(
    event: Option<string>,
    origin: Option<string>,
    conditions: seq<string>,
    updates: seq<(string, string)>)

  /** What `upgrade` is given: the legacy array, or anything else (taken to
      be a rule tree already). */
  datatype ActionsDoc =
    | LegacyArray(actions: seq<LegacyAction>)
    | RuleTree(rules: seq<Rule>)

  function ConditionChildren(conditions: seq<string>): (cs: seq<Child>)
    ensures |cs| == |conditions|
    ensures forall i :: 0 <= i < |conditions| ==> cs[i] == ConditionChild(conditions[i])
  {
    seq(|conditions|, i requires 0 <= i < |conditions| => ConditionChild(conditions[i]))
  }

  function UpdateChildren(updates: seq<(string, string)>): (us: seq<Child>)
    ensures |us| == |updates|
    ensures forall i :: 0 <= i < |updates| ==> us[i] == UpdateChild(updates[i].0, updates[i].1)
  {
    seq(|updates|, i requires 0 <= i < |updates| => UpdateChild(updates[i].0, updates[i].1))
  }

  /** `r` is the migration of `a`: origin "init" for an init event and the
      old origin otherwise; first one condition child per condition, then one
      update child per update entry, each in the original order. */
  predicate UpgradeOf(a: LegacyAction, r: Rule)
  {
    && r.origin == (if a.event == Some("init") then Some("init") else a.origin)
    && |r.children| == |a.conditions| + |a.updates|
    && (forall i :: 0 <= i < |a.conditions| ==> r.children[i] == ConditionChild(a.conditions[i]))
    && (forall i :: 0 <= i < |a.updates| ==>
          r.children[|a.conditions| + i] == UpdateChild(a.updates[i].0, a.updates[i].1))
  }

  /** The callback `upgrade` maps over a legacy array: two `push` loops. */
  method UpgradeAction(a: LegacyAction) returns (r: Rule)
    ensures UpgradeOf(a, r)
  {
    var children: seq<Child> := [];
    var i := 0;
    while i < |a.conditions|
      invariant 0 <= i <= |a.conditions|
      invariant children == ConditionChildren(a.conditions[..i])
    {
      children := children + [ConditionChild(a.conditions[i])];
      i := i + 1;
    }
    var j := 0;
    while j < |a.updates|
      invariant 0 <= j <= |a.updates|
      invariant |children| == |a.conditions| + j
      invariant forall k :: 0 <= k < |a.conditions| ==> children[k] == ConditionChild(a.conditions[k])
      invariant forall k :: 0 <= k < j ==> children[|a.conditions| + k] == UpdateChild(a.updates[k].0, a.updates[k].1)
    {
      children := children + [UpdateChild(a.updates[j].0, a.updates[j].1)];
      j := j + 1;
    }
    var origin := a.origin;
    if a.event == Some("init") {
      origin := Some("init");
    }
    r := Rule(origin, children);
  }

  /** `Actions.upgrade`: a legacy array becomes a rule tree with one rule per
      element, in order; anything else is returned unchanged. The result is
      always a rule tree, so upgrading twice is upgrading once. */
  method Upgrade(doc: ActionsDoc) returns (r: ActionsDoc)
    ensures r.RuleTree?
    ensures doc.RuleTree? ==> r == doc
    ensures doc.LegacyArray? ==>
      |r.rules| == |doc.actions| && forall i :: 0 <= i < |doc.actions| ==> UpgradeOf(doc.actions[i], r.rules[i])
  {
    match doc
    case RuleTree(_) =>
      r := doc;
    case LegacyArray(actions) =>
      var rules: seq<Rule> := [];
      var i := 0;
      while i < |actions|
        invariant 0 <= i <= |actions|
        invariant |rules| == i
        invariant forall k :: 0 <= k < i ==> UpgradeOf(actions[k], rules[k])
      {
        var rule := UpgradeAction(actions[i]);
        rules := rules + [rule];
        i := i + 1;
      }
      r := RuleTree(rules);
  }

  /** The filters see a migrated rule exactly as the legacy one was written:
      its conditions are the legacy conditions and its updates the legacy
      update entries. */
  lemma UpgradedFilters(a: LegacyAction, r: Rule)
    requires UpgradeOf(a, r)
    ensures Conditions(r.children) == ConditionChildren(a.conditions)
    ensures Updates(r.children) == UpdateChildren(a.updates)
  {
    var cs := ConditionChildren(a.conditions);
    var us := UpdateChildren(a.updates);
    assert r.children == cs + us;
    FiltersAppend(cs, us);
    OnlyConditions(cs);
    OnlyUpdates(us);
  }

  lemma {:induction false} OnlyConditions(cs: seq<Child>)
    requires forall i :: 0 <= i < |cs| ==> cs[i].ConditionChild?
    ensures Conditions(cs) == cs && Updates(cs) == []
    decreases |cs|
  {
    if cs != [] { OnlyConditions(cs[1..]); }
  }

  lemma {:induction false} OnlyUpdates(us: seq<Child>)
    requires forall i :: 0 <= i < |us| ==> us[i].UpdateChild?
    ensures Updates(us) == us && Conditions(us) == []
    decreases |us|
  {
    if us != [] { OnlyUpdates(us[1..]); }
  }

  /** The `$\w+` tokens of an expression, as a set. */
  function TokenSet(s: string): set<string>
  {
    set t | t in DollarTokens(s)
  }

  /** A child mentions `t`: as a token of its condition, or as the state name
      or a token of the new value of an update. */
  predicate Mentions(c: Child, t: string)
  {
    match c
    case ConditionChild(text) => t in DollarTokens(text)
    case UpdateChild(name, value) => t == name || t in DollarTokens(value)
  }

  function ChildStates(c: Child): set<string>
  {
    match c
    case ConditionChild(text) => TokenSet(text)
    case UpdateChild(name, value) => {name} + TokenSet(value)
  }

  function ChildrenStates(cs: seq<Child>): set<string>
    decreases |cs|
  {
    if cs == [] then {} else ChildrenStates(cs[..|cs| - 1]) + ChildStates(cs[|cs| - 1])
  }

  /** What one rule adds to `allStates`: its conditions, then its updates. */
  function RuleStates(r: Rule): set<string>
  {
    ChildrenStates(Conditions(r.children)) + ChildrenStates(Updates(r.children))
  }

  function StatesOf(rules: seq<Rule>): set<string>
    decreases |rules|
  {
    if rules == [] then {} else StatesOf(rules[..|rules| - 1]) + RuleStates(rules[|rules| - 1])
  }

  /** The token loop over one expression. */
  method AddTokens(result: set<string>, text: string) returns (r: set<string>)
    ensures r == result + TokenSet(text)
  {
    var tokens := DollarTokens(text);
    r := result;
    var m := 0;
    while m < |tokens|
      invariant 0 <= m <= |tokens|
      invariant r == result + set t | t in tokens[..m]
    {
      assert tokens[..m + 1] == tokens[..m] + [tokens[m]];
      r := r + {tokens[m]};
      m := m + 1;
    }
    assert tokens[..|tokens|] == tokens;
  }

  /** The body of an inner loop of `allStates` for one child: a condition
      adds its tokens, an update its state name and then its value's
      tokens. */
  method AddChildStates(result: set<string>, c: Child) returns (r: set<string>)
    ensures r == result + ChildStates(c)
  {
    match c
    case ConditionChild(text) =>
      r := AddTokens(result, text);
    case UpdateChild(name, value) =>
      r := result + {name};
      r := AddTokens(r, value);
  }

  /** An inner loop of `allStates`, over a rule's conditions or its updates. */
  method AddChildrenStates(result: set<string>, cs: seq<Child>) returns (r: set<string>)
    ensures r == result + ChildrenStates(cs)
  {
    r := result;
    var j := 0;
    while j < |cs|
      invariant 0 <= j <= |cs|
      invariant r == result + ChildrenStates(cs[..j])
    {
      assert cs[..j + 1][..j] == cs[..j];
      r := AddChildStates(r, cs[j]);
      j := j + 1;
    }
    assert cs[..|cs|] == cs;
  }

  /** `Actions.allStates`: nested loops over the rules, their conditions and
      their updates, filling one set. */
  method AllStates(rules: seq<Rule>) returns (result: set<string>)
    ensures result == StatesOf(rules)
  {
    result := {};
    var i := 0;
    while i < |rules|
      invariant 0 <= i <= |rules|
      invariant result == StatesOf(rules[..i])
    {
      assert rules[..i + 1][..i] == rules[..i];
      result := AddChildrenStates(result, Conditions(rules[i].children));
      result := AddChildrenStates(result, Updates(rules[i].children));
      i := i + 1;
    }
    assert rules[..|rules|] == rules;
  }

  lemma {:induction false} ChildrenStatesIff(cs: seq<Child>, t: string)
    ensures t in ChildrenStates(cs) <==> exists k :: 0 <= k < |cs| && Mentions(cs[k], t)
    decreases |cs|
  {
    if cs != [] {
      var init := cs[..|cs| - 1];
      ChildrenStatesIff(init, t);
      if exists k :: 0 <= k < |init| && Mentions(init[k], t) {
        var k :| 0 <= k < |init| && Mentions(init[k], t);
        assert cs[k] == init[k];
      }
      if exists k :: 0 <= k < |cs| && Mentions(cs[k], t) {
        var k :| 0 <= k < |cs| && Mentions(cs[k], t);
        if k < |init| { assert init[k] == cs[k]; }
      }
    }
  }

  /** Some child of the rule mentions `t`. */
  ghost predicate RuleMentions(r: Rule, t: string)
  {
    exists k :: 0 <= k < |r.children| && Mentions(r.children[k], t)
  }

  lemma RuleStatesIff(r: Rule, t: string)
    ensures t in RuleStates(r) <==> RuleMentions(r, t)
  {
    var cs := Conditions(r.children);
    var us := Updates(r.children);
    ChildrenStatesIff(cs, t);
    ChildrenStatesIff(us, t);
    if exists k :: 0 <= k < |r.children| && Mentions(r.children[k], t) {
      var k :| 0 <= k < |r.children| && Mentions(r.children[k], t);
      var c := r.children[k];
      FilterMembers(r.children, c);
      if c.ConditionChild? {
        assert c in cs;
        var m :| 0 <= m < |cs| && cs[m] == c;
      } else {
        assert c in us;
        var m :| 0 <= m < |us| && us[m] == c;
      }
    }
    if t in RuleStates(r) {
      if t in ChildrenStates(cs) {
        var m :| 0 <= m < |cs| && Mentions(cs[m], t);
        FilterMembers(r.children, cs[m]);
      } else {
        var m :| 0 <= m < |us| && Mentions(us[m], t);
        FilterMembers(r.children, us[m]);
      }
    }
  }

  /** `allStates` is exactly the state names of the updates together with
      every `$\w+` token of a condition or of a new value, over all rules. */
  lemma {:induction false} StatesOfIff(rules: seq<Rule>, t: string)
    ensures t in StatesOf(rules) <==> exists i :: 0 <= i < |rules| && RuleMentions(rules[i], t)
    decreases |rules|
  {
    if rules != [] {
      var n := |rules| - 1;
      var init := rules[..n];
      StatesOfIff(init, t);
      RuleStatesIff(rules[n], t);
      MentionsSnoc(init, rules, t);
    }
  }

  /** Some rule mentions `t` exactly when one before the last does or the
      last one does. */
  lemma MentionsSnoc(init: seq<Rule>, rules: seq<Rule>, t: string)
    requires |rules| == |init| + 1 && init == rules[..|init|]
    ensures (exists i :: 0 <= i < |rules| && RuleMentions(rules[i], t)) <==>
      (exists i :: 0 <= i < |init| && RuleMentions(init[i], t)) || RuleMentions(rules[|init|], t)
  {
    if exists i :: 0 <= i < |init| && RuleMentions(init[i], t) {
      var i :| 0 <= i < |init| && RuleMentions(init[i], t);
      assert rules[i] == init[i];
    }
    if exists i :: 0 <= i < |rules| && RuleMentions(rules[i], t) {
      var i :| 0 <= i < |rules| && RuleMentions(rules[i], t);
      if i < |init| { assert init[i] == rules[i]; }
    }
  }

  /** Every token collected from an expression is a `$` followed by a
      maximal run of word characters in that expression. */
  lemma TokenSetAreRefs(s: string, t: string)
    ensures t in TokenSet(s) <==> exists i, j :: 0 <= i && DollarRef(s, i, j) && t == s[i..j]
  {
    DollarTokensFromAreRefs(s, 0, t);
  }
}
