/** Alert rules: the shipped defaults, the operator's overrides and the merge
    of the two. */
module AlertRules {
  import opened Common
  import opened Metrics

  const SAMPLES_PER_MINUTE: U32 := 30

  /** A threshold as the configuration can hold it. */
  datatype F64 = Finite(value: real) | PosInfinity | NegInfinity | NaN

  datatype Comparison = GreaterThanOrEqual | LessThanOrEqual

  datatype AlertRule = AlertRule(
    id: string, metric: string, comparison: Comparison, threshold: F64, consecutiveSamples: U32, severity: NodeState)

  /** Only the fields an operator wants to change are present. */
  datatype Override = Override(
    id: string,
    metric: Option<string>,
    comparison: Option<Comparison>,
    threshold: Option<F64>,
    consecutiveSamples: Option<U32>,
    severity: Option<NodeState>,
    enabled: Option<bool>)

  datatype Source = BuiltIn | Configured

  datatype ResolvedRule = ResolvedRule(rule: AlertRule, enabled: bool, source: Source)

  function DefaultRules(): seq<AlertRule> {
    [ AlertRule("disk-capacity-warning", "disk_percent", GreaterThanOrEqual, Finite(90.0), 3, Warning),
      AlertRule("disk-capacity-critical", "disk_percent", GreaterThanOrEqual, Finite(95.0), 3, Critical),
      AlertRule("memory-pressure-warning", "memory_percent", GreaterThanOrEqual, Finite(90.0), SAMPLES_PER_MINUTE,
        Warning),
      AlertRule("memory-pressure-critical", "memory_percent", GreaterThanOrEqual, Finite(97.0), SAMPLES_PER_MINUTE,
        Critical),
      AlertRule("cpu-saturation-warning", "cpu_percent", GreaterThanOrEqual, Finite(90.0), SAMPLES_PER_MINUTE * 5,
        Warning),
      AlertRule("temperature-headroom-warning", "temperature_headroom_celsius", LessThanOrEqual, Finite(5.0), 15,
        Warning),
      AlertRule("temperature-critical", "temperature_headroom_celsius", LessThanOrEqual, Finite(0.0), 15, Critical) ]
  }

  const ALERT_METRICS: seq<string> :=
    ["cpu_percent", "memory_percent", "swap_percent", "disk_percent", "temperature_celsius",
      "temperature_headroom_celsius"]

  predicate ValidRule(rule: AlertRule) {
    rule.metric in ALERT_METRICS && rule.threshold.Finite? && (rule.severity.Warning? || rule.severity.Critical?)
  }

  function BuiltInOf(rule: AlertRule): ResolvedRule {
    ResolvedRule(rule, true, BuiltIn)
  }

  function Shipped(): seq<ResolvedRule> {
    seq(|DefaultRules()|, i requires 0 <= i < |DefaultRules()| => BuiltInOf(DefaultRules()[i]))
  }

  /** A rule Rackio does not ship has to be described in full. */
  predicate Complete(change: Override) {
    change.metric.Some? && change.comparison.Some? && change.threshold.Some? && change.severity.Some?
  }

  function Or<T>(v: Option<T>, fallback: T): T {
    if v.Some? then v.value else fallback
  }

  function NewRule(change: Override): AlertRule
    requires Complete(change)
  {
    AlertRule(change.id, change.metric.value, change.comparison.value, change.threshold.value,
              Or(change.consecutiveSamples, 1), change.severity.value)
  }

  function ApplyOverride(rule: AlertRule, change: Override): AlertRule {
    AlertRule(rule.id, Or(change.metric, rule.metric), Or(change.comparison, rule.comparison),
              Or(change.threshold, rule.threshold), Or(change.consecutiveSamples, rule.consecutiveSamples),
              Or(change.severity, rule.severity))
  }

  predicate ChangesALevel(change: Override) {
    change.metric.Some? || change.comparison.Some? || change.threshold.Some? ||
    change.consecutiveSamples.Some? || change.severity.Some?
  }

  function Adjusted(known: ResolvedRule, change: Override): ResolvedRule {
    ResolvedRule(ApplyOverride(known.rule, change), Or(change.enabled, known.enabled),
                 if ChangesALevel(change) then Configured else known.source)
  }

  /** The index of the rule with this id, or the length. */
  function IndexOf(rules: seq<ResolvedRule>, id: string): (i: nat)
    ensures i <= |rules|
    ensures i < |rules| ==> rules[i].rule.id == id
    ensures forall k :: 0 <= k < i ==> rules[k].rule.id != id
  {
    IndexWhere(rules, (known: ResolvedRule) => known.rule.id == id)
  }

  /** One turn of the override loop; `None` when a new rule is incomplete. */
  function Merge(rules: seq<ResolvedRule>, change: Override): Option<seq<ResolvedRule>> {
    var i := IndexOf(rules, change.id);
    if i < |rules| then Some(rules[i := Adjusted(rules[i], change)])
    else if Complete(change) then Some(rules + [ResolvedRule(NewRule(change), Or(change.enabled, true), Configured)])
    else None
  }

  function MergeAll(overrides: seq<Override>): Option<seq<ResolvedRule>> {
    if overrides == [] then Some(Shipped())
    else
      var before := MergeAll(overrides[..|overrides| - 1]);
      if before.None? then None else Merge(before.value, overrides[|overrides| - 1])
  }

  /** `resolve_alert_rules`; the wording of a refusal is not modelled. */
  function Resolve(overrides: seq<Override>): Option<seq<ResolvedRule>> {
    var merged := MergeAll(overrides);
    if merged.Some? && AllValid(merged.value) then merged else None
  }

  /** The body of the override loop, on the list it changes. */
  method MergeChange(resolved: seq<ResolvedRule>, change: Override) returns (next: Option<seq<ResolvedRule>>)
    ensures next == Merge(resolved, change)
  {
    var i := 0;
    while i < |resolved| && resolved[i].rule.id != change.id
      invariant 0 <= i <= |resolved|
      invariant forall k :: 0 <= k < i ==> resolved[k].rule.id != change.id
    {
      i := i + 1;
    }
    assert i == IndexOf(resolved, change.id);
    if i < |resolved| {
      next := Some(resolved[i := Adjusted(resolved[i], change)]);
    } else if Complete(change) {
      next := Some(resolved + [ResolvedRule(NewRule(change), Or(change.enabled, true), Configured)]);
    } else {
      next := None;
    }
  }

  method MergeOverrides(shipped: seq<ResolvedRule>, overrides: seq<Override>)
    returns (result: Option<seq<ResolvedRule>>)
    requires shipped == Shipped()
    ensures result == MergeAll(overrides)
  {
    var resolved := shipped;
    for n := 0 to |overrides|
      invariant MergeAll(overrides[..n]) == Some(resolved)
    {
      MergeAllSnoc(overrides, n);
      var next := MergeChange(resolved, overrides[n]);
      if next.None? {
        RefusalIsFinal(overrides, n + 1);
        return None;
      }
      resolved := next.value;
    }
    assert overrides[..|overrides|] == overrides;
    return Some(resolved);
  }

  lemma MergeAllSnoc(overrides: seq<Override>, n: nat)
    requires n < |overrides| && MergeAll(overrides[..n]).Some?
    ensures MergeAll(overrides[..n + 1]) == Merge(MergeAll(overrides[..n]).value, overrides[n])
  {
    assert overrides[..n + 1][..n] == overrides[..n];
  }

  method ResolveAlertRules(overrides: seq<Override>) returns (result: Option<seq<ResolvedRule>>)
    ensures result == Resolve(overrides)
  {
    result := MergeOverrides(Shipped(), overrides);
    if result.None? {
      return;
    }
    var resolved := result.value;
    for i := 0 to |resolved|
      invariant forall k :: 0 <= k < i ==> ValidRule(resolved[k].rule)
    {
      if !ValidRule(resolved[i].rule) {
        return None;
      }
    }
  }

  lemma {:induction false} RefusalIsFinal(overrides: seq<Override>, n: nat)
    requires n <= |overrides| && MergeAll(overrides[..n]).None?
    ensures MergeAll(overrides).None?
    decreases |overrides| - n
  {
    if n < |overrides| {
      assert overrides[..n + 1][..n] == overrides[..n];
      RefusalIsFinal(overrides, n + 1);
    } else {
      assert overrides[..n] == overrides;
    }
  }

  // ----- the reference: one rule at a time

  /** The overrides that name `id`, in order. */
  function Named(overrides: seq<Override>, id: string): seq<Override> {
    if overrides == [] then []
    else
      Named(overrides[..|overrides| - 1], id) +
      if overrides[|overrides| - 1].id == id then [overrides[|overrides| - 1]] else []
  }

  /** The last present value of a field wins; `fallback` if it is never present. */
  function Last<T>(named: seq<Override>, field: Override -> Option<T>, fallback: T): T {
    if named == [] then fallback
    else Or(field(named[|named| - 1]), Last(named[..|named| - 1], field, fallback))
  }

  function DefaultIndex(id: string): (i: nat)
    ensures i <= |DefaultRules()|
  {
    IndexOf(Shipped(), id)
  }

  predicate IsShipped(id: string) {
    DefaultIndex(id) < |DefaultRules()|
  }

  /** The level a rule starts from: Rackio's, or its first full description. */
  predicate Based(id: string, named: seq<Override>) {
    IsShipped(id) || (named != [] && named[0].id == id && Complete(named[0]))
  }

  function BaseRule(id: string, named: seq<Override>): AlertRule
    requires Based(id, named)
  {
    if IsShipped(id) then DefaultRules()[DefaultIndex(id)] else NewRule(named[0])
  }

  /** What the overrides naming `id` alone make of its rule. */
  function Effective(id: string, named: seq<Override>): ResolvedRule
    requires Based(id, named)
  {
    var base := BaseRule(id, named);
    ResolvedRule(
      AlertRule(base.id,
                Last(named, (c: Override) => c.metric, base.metric),
                Last(named, (c: Override) => c.comparison, base.comparison),
                Last(named, (c: Override) => c.threshold, base.threshold),
                Last(named, (c: Override) => c.consecutiveSamples, base.consecutiveSamples),
                Last(named, (c: Override) => c.severity, base.severity)),
      Last(named, (c: Override) => c.enabled, true),
      if IsShipped(id) && forall i :: 0 <= i < |named| ==> !ChangesALevel(named[i]) then BuiltIn else Configured)
  }

  predicate UniqueIds(rules: seq<ResolvedRule>) {
    forall i, k :: 0 <= i < k < |rules| ==> rules[i].rule.id != rules[k].rule.id
  }

  lemma ShippedUnique()
    ensures UniqueIds(Shipped())
  {
    var ids := seq(7, i requires 0 <= i < 7 => DefaultRules()[i].id);
    assert ids[0] != ids[1] && ids[2] != ids[3] && |ids[0]| == 21 && |ids[1]| == 22 && |ids[2]| == 23 && |ids[3]| == 24;
    assert ids[0][0] == 'd' && ids[1][0] == 'd' && ids[2][0] == 'm' && ids[3][0] == 'm' && ids[4][0] == 'c';
    assert ids[5][0] == 't' && ids[6][0] == 't' && |ids[5]| == 28 && |ids[6]| == 20;
  }

  lemma IndexIsUnique(rules: seq<ResolvedRule>, i: nat)
    requires UniqueIds(rules) && i < |rules|
    ensures IndexOf(rules, rules[i].rule.id) == i
  {
  }

  lemma NamedSnoc(overrides: seq<Override>, change: Override, id: string)
    ensures Named(overrides + [change], id) == if change.id == id then Named(overrides, id) + [change]
      else Named(overrides, id)
  {
    assert (overrides + [change])[..|overrides|] == overrides;
    assert Named(overrides, id) + [] == Named(overrides, id);
  }

  lemma LastSnoc<T>(named: seq<Override>, change: Override, field: Override -> Option<T>, fallback: T)
    ensures Last(named + [change], field, fallback) == Or(field(change), Last(named, field, fallback))
  {
    assert (named + [change])[..|named|] == named;
  }

  /** One more override of a rule adjusts its effective form by that override. */
  lemma EffectiveSnoc(id: string, named: seq<Override>, change: Override)
    requires Based(id, named) && (named == [] ==> IsShipped(id))
    ensures Effective(id, named + [change]) == Adjusted(Effective(id, named), change)
  {
    var base := BaseRule(id, named);
    assert named != [] ==> (named + [change])[0] == named[0];
    LastSnoc(named, change, (c: Override) => c.metric, base.metric);
    LastSnoc(named, change, (c: Override) => c.comparison, base.comparison);
    LastSnoc(named, change, (c: Override) => c.threshold, base.threshold);
    LastSnoc(named, change, (c: Override) => c.consecutiveSamples, base.consecutiveSamples);
    LastSnoc(named, change, (c: Override) => c.severity, base.severity);
    LastSnoc(named, change, (c: Override) => c.enabled, true);
    assert (named + [change])[|named|] == change;
    assert forall i :: 0 <= i < |named| ==> (named + [change])[i] == named[i];
  }

  lemma EffectiveFirst(change: Override)
    requires !IsShipped(change.id) && Complete(change)
    ensures Effective(change.id, [change]) == ResolvedRule(NewRule(change), Or(change.enabled, true), Configured)
  {
    var base := NewRule(change);
    assert [] + [change] == [change];
    LastSnoc([], change, (c: Override) => c.metric, base.metric);
    LastSnoc([], change, (c: Override) => c.comparison, base.comparison);
    LastSnoc([], change, (c: Override) => c.threshold, base.threshold);
    LastSnoc([], change, (c: Override) => c.consecutiveSamples, base.consecutiveSamples);
    LastSnoc([], change, (c: Override) => c.severity, base.severity);
    LastSnoc([], change, (c: Override) => c.enabled, true);
  }

  /** The shipped rules are the first, in their order. */
  predicate KeepsShipped(rules: seq<ResolvedRule>) {
    |DefaultRules()| <= |rules| && forall i :: 0 <= i < |DefaultRules()| ==> rules[i].rule.id == DefaultRules()[i].id
  }

  /** Every rule is what the overrides naming it make of it. */
  predicate RuleByRule(rules: seq<ResolvedRule>, overrides: seq<Override>) {
    forall i :: 0 <= i < |rules| ==>
      var id := rules[i].rule.id;
      Based(id, Named(overrides, id)) && rules[i] == Effective(id, Named(overrides, id))
  }

  /** A rule exists for exactly the shipped and the overridden ids. */
  predicate CoversIds(rules: seq<ResolvedRule>, overrides: seq<Override>) {
    && (forall i :: 0 <= i < |overrides| ==> IndexOf(rules, overrides[i].id) < |rules|)
    && (forall i :: 0 <= i < |rules| ==> IsShipped(rules[i].rule.id) || Named(overrides, rules[i].rule.id) != [])
  }

  predicate Faithful(rules: seq<ResolvedRule>, overrides: seq<Override>) {
    UniqueIds(rules) && KeepsShipped(rules) && RuleByRule(rules, overrides) && CoversIds(rules, overrides)
  }

  lemma ShippedFaithful()
    ensures Faithful(Shipped(), [])
  {
    ShippedUnique();
    forall i | 0 <= i < |Shipped()|
      ensures Based(Shipped()[i].rule.id, []) && Shipped()[i] == Effective(Shipped()[i].rule.id, [])
    {
      IndexIsUnique(Shipped(), i);
    }
  }

  /** An id that no rule has is neither shipped nor named so far. */
  lemma AbsentId(rules: seq<ResolvedRule>, overrides: seq<Override>, id: string)
    requires Faithful(rules, overrides) && IndexOf(rules, id) == |rules|
    ensures !IsShipped(id) && Named(overrides, id) == []
  {
    NamedOccurs(overrides, id);
    forall i | 0 <= i < |DefaultRules()| ensures DefaultRules()[i].id != id {
      assert rules[i].rule.id == DefaultRules()[i].id;
    }
  }

  lemma {:induction false} NamedOccurs(overrides: seq<Override>, id: string)
    ensures Named(overrides, id) != [] <==> exists k :: 0 <= k < |overrides| && overrides[k].id == id
    ensures forall k :: 0 <= k < |Named(overrides, id)| ==> Named(overrides, id)[k].id == id
  {
    if overrides != [] {
      var n := |overrides| - 1;
      NamedOccurs(overrides[..n], id);
      if overrides[n].id != id && Named(overrides[..n], id) != [] {
        var k :| 0 <= k < n && overrides[..n][k].id == id;
        assert overrides[k].id == id;
      }
    }
  }

  /** A merge keeps a rule for every id that had one, and has one for its own. */
  lemma MergeCovers(rules: seq<ResolvedRule>, overrides: seq<Override>, change: Override)
    requires CoversIds(rules, overrides) && Merge(rules, change).Some?
    ensures CoversIds(Merge(rules, change).value, overrides + [change])
  {
    var next := Merge(rules, change).value;
    var all := overrides + [change];
    forall i | 0 <= i < |all| ensures IndexOf(next, all[i].id) < |next| {
      var k := if i < |overrides| then IndexOf(rules, overrides[i].id) else IndexOf(rules, change.id);
      assert next[k].rule.id == all[i].id;
    }
    forall i | 0 <= i < |next| ensures IsShipped(next[i].rule.id) || Named(all, next[i].rule.id) != [] {
      NamedSnoc(overrides, change, next[i].rule.id);
      assert i < |rules| ==> next[i].rule.id == rules[i].rule.id;
    }
  }

  /** A merge renames no rule, and appends at most one, under a new id. */
  lemma MergeKeepsIds(rules: seq<ResolvedRule>, change: Override)
    requires UniqueIds(rules) && KeepsShipped(rules) && Merge(rules, change).Some?
    ensures var next := Merge(rules, change).value;
      && UniqueIds(next) && KeepsShipped(next) && |rules| <= |next|
      && forall i :: 0 <= i < |rules| ==> next[i].rule.id == rules[i].rule.id
  {
  }

  lemma MergeKnown(rules: seq<ResolvedRule>, overrides: seq<Override>, change: Override)
    requires Faithful(rules, overrides) && IndexOf(rules, change.id) < |rules|
    ensures Faithful(Merge(rules, change).value, overrides + [change])
  {
    var at := IndexOf(rules, change.id);
    var next := Merge(rules, change).value;
    MergeKeepsIds(rules, change);
    forall i | 0 <= i < |next|
      ensures Based(next[i].rule.id, Named(overrides + [change], next[i].rule.id))
              && next[i] == Effective(next[i].rule.id, Named(overrides + [change], next[i].rule.id))
    {
      var id := rules[i].rule.id;
      NamedSnoc(overrides, change, id);
      if i == at { EffectiveSnoc(id, Named(overrides, id), change); } else { assert id != change.id; }
    }
    MergeCovers(rules, overrides, change);
  }

  lemma MergeNew(rules: seq<ResolvedRule>, overrides: seq<Override>, change: Override)
    requires Faithful(rules, overrides) && IndexOf(rules, change.id) == |rules| && Complete(change)
    ensures Faithful(Merge(rules, change).value, overrides + [change])
  {
    var next := Merge(rules, change).value;
    AbsentId(rules, overrides, change.id);
    EffectiveFirst(change);
    MergeKeepsIds(rules, change);
    forall i | 0 <= i < |next|
      ensures Based(next[i].rule.id, Named(overrides + [change], next[i].rule.id))
              && next[i] == Effective(next[i].rule.id, Named(overrides + [change], next[i].rule.id))
    {
      NamedSnoc(overrides, change, next[i].rule.id);
      if i == |rules| {
        assert [] + [change] == [change];
      } else {
        assert next[i] == rules[i] && rules[i].rule.id != change.id;
      }
    }
    MergeCovers(rules, overrides, change);
  }

  lemma MergeFaithful(rules: seq<ResolvedRule>, before: seq<Override>, change: Override)
    requires Faithful(rules, before)
    ensures Merge(rules, change).Some? ==> Faithful(Merge(rules, change).value, before + [change])
    ensures Merge(rules, change).Some? <==> Based(change.id, Named(before + [change], change.id))
  {
    NamedSnoc(before, change, change.id);
    if IndexOf(rules, change.id) < |rules| {
      MergeKnown(rules, before, change);
    } else {
      AbsentId(rules, before, change.id);
      if Complete(change) { MergeNew(rules, before, change); }
    }
  }

  /** The override loop, where it does not refuse, does what the overrides of each
      id say on their own. */
  lemma {:induction false} MergeAllFaithful(overrides: seq<Override>)
    ensures MergeAll(overrides).Some? ==> Faithful(MergeAll(overrides).value, overrides)
    decreases |overrides|
  {
    if overrides == [] {
      ShippedFaithful();
    } else {
      var n := |overrides| - 1;
      MergeAllFaithful(overrides[..n]);
      assert overrides == overrides[..n] + [overrides[n]];
      if MergeAll(overrides[..n]).Some? { MergeFaithful(MergeAll(overrides[..n]).value, overrides[..n], overrides[n]); }
    }
  }

  predicate AllBased(overrides: seq<Override>) {
    forall k :: 0 <= k < |overrides| ==> Based(overrides[k].id, Named(overrides, overrides[k].id))
  }

  /** It refuses exactly when some id Rackio does not ship is first named without
      a full description. */
  lemma {:induction false} MergeAllRefusesExactly(overrides: seq<Override>)
    ensures MergeAll(overrides).Some? <==> AllBased(overrides)
    decreases |overrides|
  {
    if overrides != [] {
      var n := |overrides| - 1;
      var before, change := overrides[..n], overrides[n];
      MergeAllRefusesExactly(before);
      MergeAllFaithful(before);
      assert overrides == before + [change];
      AllBasedGrows(before, change);
      if MergeAll(before).Some? { MergeFaithful(MergeAll(before).value, before, change); }
    }
  }

  lemma AllBasedGrows(before: seq<Override>, change: Override)
    ensures AllBased(before + [change]) <==> AllBased(before) && Based(change.id, Named(before + [change], change.id))
  {
    BasedGrows(before, change);
    var all := before + [change];
    assert forall k :: 0 <= k < |before| ==> all[k] == before[k];
    assert all[|before|] == change;
  }

  /** Whether an id has a base is settled by the first override naming it. */
  lemma BasedGrows(before: seq<Override>, change: Override)
    ensures forall k :: 0 <= k < |before| ==>
      (Based(before[k].id, Named(before + [change], before[k].id)) <==>
        Based(before[k].id, Named(before, before[k].id)))
  {
    forall k | 0 <= k < |before|
      ensures Based(before[k].id, Named(before + [change], before[k].id)) <==>
        Based(before[k].id, Named(before, before[k].id))
    {
      NamedOccurs(before, before[k].id);
      NamedSnoc(before, change, before[k].id);
    }
  }

  /** The overrides naming the same rule as the `k`-th describe, by themselves, a
      valid rule. */
  predicate ValidAlone(overrides: seq<Override>, k: nat)
    requires k < |overrides|
  {
    var named := Named(overrides, overrides[k].id);
    Based(overrides[k].id, named) && ValidRule(Effective(overrides[k].id, named).rule)
  }

  predicate AllValid(rules: seq<ResolvedRule>) {
    forall i :: 0 <= i < |rules| ==> ValidRule(rules[i].rule)
  }

  lemma ValidRuleByRule(rules: seq<ResolvedRule>, overrides: seq<Override>, i: nat)
    requires Faithful(rules, overrides) && i < |rules|
    requires forall k :: 0 <= k < |overrides| ==> ValidAlone(overrides, k)
    ensures ValidRule(rules[i].rule)
  {
    var id := rules[i].rule.id;
    NamedOccurs(overrides, id);
    if Named(overrides, id) == [] {
      ShippedRuleIsValid(id);
    } else {
      var k :| 0 <= k < |overrides| && overrides[k].id == id;
      assert ValidAlone(overrides, k);
    }
  }

  /** Main result. Resolution succeeds exactly when every overridden rule, taken
      by itself, has a base and comes out valid; then ids are unique, the shipped
      rules come first and in order, every rule is valid, and each one depends
      only on the overrides naming it, the last present field winning. */
  lemma ResolutionIsRuleByRule(overrides: seq<Override>)
    ensures Resolve(overrides).Some? <==> forall k :: 0 <= k < |overrides| ==> ValidAlone(overrides, k)
    ensures Resolve(overrides).Some? ==>
      Faithful(Resolve(overrides).value, overrides) && AllValid(Resolve(overrides).value)
  {
    MergeAllFaithful(overrides);
    MergeAllRefusesExactly(overrides);
    if MergeAll(overrides).Some? {
      var rules := MergeAll(overrides).value;
      if forall k :: 0 <= k < |overrides| ==> ValidAlone(overrides, k) {
        forall i | 0 <= i < |rules| ensures ValidRule(rules[i].rule) { ValidRuleByRule(rules, overrides, i); }
      }
      if AllValid(rules) {
        forall k | 0 <= k < |overrides| ensures ValidAlone(overrides, k) {
          assert ValidRule(rules[IndexOf(rules, overrides[k].id)].rule);
        }
      }
    } else {
      var k :| 0 <= k < |overrides| && !Based(overrides[k].id, Named(overrides, overrides[k].id));
      assert !ValidAlone(overrides, k);
    }
  }

  lemma ShippedRuleIsValid(id: string)
    requires IsShipped(id)
    ensures ValidRule(Effective(id, []).rule)
  {
    var rule := DefaultRules()[DefaultIndex(id)];
    assert ALERT_METRICS[0] == "cpu_percent" && ALERT_METRICS[1] == "memory_percent"
        && ALERT_METRICS[3] == "disk_percent" && ALERT_METRICS[5] == "temperature_headroom_celsius";
    assert rule.metric in ALERT_METRICS;
  }

  // ----- the levels in numbers

  /** The seven rules Rackio ships, in order. A sample is taken every two seconds:
      memory must stay over its level for a minute, the CPU for five. */
  lemma ShippedLevels()
    ensures |DefaultRules()| == 7
    ensures DefaultRules()[0] ==
      AlertRule("disk-capacity-warning", "disk_percent", GreaterThanOrEqual, Finite(90.0), 3, Warning)
    ensures DefaultRules()[1] ==
      AlertRule("disk-capacity-critical", "disk_percent", GreaterThanOrEqual, Finite(95.0), 3, Critical)
    ensures DefaultRules()[2] ==
      AlertRule("memory-pressure-warning", "memory_percent", GreaterThanOrEqual, Finite(90.0), 30, Warning)
    ensures DefaultRules()[3] ==
      AlertRule("memory-pressure-critical", "memory_percent", GreaterThanOrEqual, Finite(97.0), 30, Critical)
    ensures DefaultRules()[4] ==
      AlertRule("cpu-saturation-warning", "cpu_percent", GreaterThanOrEqual, Finite(90.0), 150, Warning)
    ensures DefaultRules()[5] ==
      AlertRule("temperature-headroom-warning", "temperature_headroom_celsius", LessThanOrEqual, Finite(5.0), 15,
        Warning)
    ensures DefaultRules()[6] ==
      AlertRule("temperature-critical", "temperature_headroom_celsius", LessThanOrEqual, Finite(0.0), 15, Critical)
  {
  }

  /** What `validate` accepts. */
  lemma ValidExactly(rule: AlertRule)
    ensures ValidRule(rule) <==>
      && (rule.metric == "cpu_percent" || rule.metric == "memory_percent" || rule.metric == "swap_percent"
          || rule.metric == "disk_percent" || rule.metric == "temperature_celsius"
          || rule.metric == "temperature_headroom_celsius")
      && rule.threshold.Finite? && (rule.severity == Warning || rule.severity == Critical)
  {
    var known := ["cpu_percent", "memory_percent", "swap_percent", "disk_percent", "temperature_celsius",
                  "temperature_headroom_celsius"];
    assert ALERT_METRICS == known;
    assert rule.metric in known <==> exists i :: 0 <= i < 6 && known[i] == rule.metric;
    assert known[0] == "cpu_percent" && known[1] == "memory_percent" && known[2] == "swap_percent";
    assert known[3] == "disk_percent" && known[4] == "temperature_celsius"
      && known[5] == "temperature_headroom_celsius";
  }

  /** What a rule Rackio does not ship has to bring, and what it gets otherwise:
      one sample, and it is on. */
  lemma NewRuleExactly(change: Override)
    requires !IsShipped(change.id)
    ensures Based(change.id, [change]) <==>
      change.metric.Some? && change.comparison.Some? && change.threshold.Some? && change.severity.Some?
    ensures Based(change.id, [change]) ==>
      var e := Effective(change.id, [change]);
      && e.rule.id == change.id && Some(e.rule.metric) == change.metric && Some(e.rule.comparison) == change.comparison
      && Some(e.rule.threshold) == change.threshold && Some(e.rule.severity) == change.severity
      && (change.consecutiveSamples.None? ==> e.rule.consecutiveSamples == 1)
      && (change.consecutiveSamples.Some? ==> e.rule.consecutiveSamples == change.consecutiveSamples.value)
      && (change.enabled.None? ==> e.enabled) && (change.enabled.Some? ==> e.enabled == change.enabled.value)
      && e.source == Configured
  {
    if Based(change.id, [change]) { EffectiveFirst(change); }
  }

  /** A shipped rule nobody overrides is the shipped level, on. */
  lemma UntouchedShippedRule(i: nat)
    requires i < 7
    ensures IsShipped(DefaultRules()[i].id)
    ensures Effective(DefaultRules()[i].id, []) == ResolvedRule(DefaultRules()[i], true, BuiltIn)
  {
    ShippedUnique();
    IndexIsUnique(Shipped(), i);
  }

  /** The last override that has the field decides it. */
  lemma {:induction false} LastWins<T>(named: seq<Override>, field: Override -> Option<T>, fallback: T, i: nat)
    requires i < |named| && field(named[i]).Some? && forall k :: i < k < |named| ==> field(named[k]).None?
    ensures Last(named, field, fallback) == field(named[i]).value
  {
    if i < |named| - 1 { LastWins(named[..|named| - 1], field, fallback, i); }
  }

  lemma {:induction false} NoneDecides<T>(named: seq<Override>, field: Override -> Option<T>, fallback: T)
    requires forall k :: 0 <= k < |named| ==> field(named[k]).None?
    ensures Last(named, field, fallback) == fallback
  {
    if named != [] { NoneDecides(named[..|named| - 1], field, fallback); }
  }

  /** A rule is reported as built in exactly when Rackio ships it and no override
      of it sets any level; switching it on or off is not one. */
  lemma SourceExactly(id: string, named: seq<Override>)
    requires Based(id, named)
    ensures Effective(id, named).source == BuiltIn <==>
      IsShipped(id) && forall i :: 0 <= i < |named| ==>
        named[i].metric.None? && named[i].comparison.None? && named[i].threshold.None?
        && named[i].consecutiveSamples.None? && named[i].severity.None?
  {
  }

  /** The overrides naming a rule are all of them, in order. */
  lemma {:induction false} NamedSelects(overrides: seq<Override>, id: string) returns (places: seq<nat>)
    ensures Selects(overrides, (c: Override) => c.id == id, Named(overrides, id), places)
  {
    if overrides == [] {
      places := [];
    } else {
      var before, c := overrides[..|overrides| - 1], overrides[|overrides| - 1];
      places := NamedSelects(before, id);
      assert overrides == before + [c];
      SelectsSnoc(before, (c: Override) => c.id == id, Named(before, id), places, c);
      NamedSnoc(before, c, id);
      if c.id == id { places := places + [|before|]; }
    }
  }
}
