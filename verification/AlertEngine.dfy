/** The alert evaluator: consecutive-sample counting per rule id over samples
    and over rule sets that may change between ticks. */
module AlertEngine {
  import opened Common
  import opened Metrics
  import opened AlertRules
  import Disks
  import Names

  /** A value and the filesystem or sensor it belongs to. */
  datatype Reading = Reading(value: real, scope: Option<string>)

  /** What an operator reads; the wording itself is not modelled. */
  datatype Detail =
    | Breach(rule: AlertRule, reading: Reading)
    | Recovered(rule: AlertRule)
    | Unavailable(rule: AlertRule)

  datatype Signal = Signal(ruleId: string, active: bool, severity: NodeState, detail: Detail)

  datatype ActiveAlert = ActiveAlert(severity: NodeState, detail: Detail)

  datatype Engine = Engine(counts: map<string, nat>, active: map<string, ActiveAlert>)

  function Share(used: Option<nat>, total: Option<nat>): Option<Reading> {
    if used.Some? && total.Some? && total.value > 0 then Some(Reading(Disks.Percentage(used.value, total.value), None))
    else None
  }

  function MetricReading(s: MetricSample, metric: string): Option<Reading> {
    if metric == "cpu_percent" then
      if s.cpuPercent.Some? then Some(Reading(s.cpuPercent.value, None)) else None
    else if metric == "memory_percent" then Share(s.memoryUsedBytes, s.memoryTotalBytes)
    else if metric == "swap_percent" then Share(s.swapUsedBytes, s.swapTotalBytes)
    else if metric == "disk_percent" then
      var highest := Disks.HighestReading(s.disks);
      if highest.None? then None
      else Some(Reading(Disks.Percentage(highest.value.usedBytes, highest.value.totalBytes), Some(highest.value.mount)))
    else if metric == "temperature_celsius" then
      if s.temperature.None? then None else Some(Reading(s.temperature.value.celsius, Some(s.temperature.value.sensor)))
    else if metric == "temperature_headroom_celsius" then
      if s.temperature.None? || s.temperature.value.criticalCelsius.None? then None
      else Some(Reading(s.temperature.value.criticalCelsius.value - s.temperature.value.celsius,
        Some(s.temperature.value.sensor)))
    else None
  }

  /** IEEE comparison of a finite reading with any threshold. */
  predicate Crosses(value: real, comparison: Comparison, threshold: F64) {
    match comparison
    case GreaterThanOrEqual => threshold.NegInfinity? || (threshold.Finite? && value >= threshold.value)
    case LessThanOrEqual => threshold.PosInfinity? || (threshold.Finite? && value <= threshold.value)
  }

  predicate RuleMatches(s: MetricSample, rule: AlertRule) {
    var reading := MetricReading(s, rule.metric);
    reading.Some? && Crosses(reading.value.value, rule.comparison, rule.threshold)
  }

  // ----- what a tick compares, in the sample's own fields

  /** `v` percent is the share of `used` in `total`, floored to a hundredth of a
      percent and at most what 32 bits of hundredths hold. */
  ghost predicate IsShare(v: real, used: nat, total: nat) {
    exists bp: nat :: v * 100.0 == bp as real && IsFloor(bp, used, total)
  }

  predicate IsFloor(bp: nat, used: nat, total: nat) {
    if used * 10_000 < 4_294_967_296 * total then bp * total <= used * 10_000 < (bp + 1) * total
      else bp == 4_294_967_295
  }

  lemma PercentageIsShare(used: nat, total: nat)
    requires total > 0
    ensures IsShare(Disks.Percentage(used, total), used, total)
  {
    Disks.BasisPointsIsFloor(used, total);
    assert IsFloor(Disks.BasisPoints(used, total), used, total);
  }

  ghost predicate ReadsShare(reading: Option<Reading>, used: Option<nat>, total: Option<nat>) {
    && (reading.Some? <==> used.Some? && total.Some? && total.value > 0)
    && (reading.Some? ==> reading.value.scope.None? && IsShare(reading.value.value, used.value, total.value))
  }

  lemma ShareReads(used: Option<nat>, total: Option<nat>)
    ensures ReadsShare(Share(used, total), used, total)
  {
    if used.Some? && total.Some? && total.value > 0 { PercentageIsShare(used.value, total.value); }
  }

  /** The reading is that of a disk with capacity that none exceeds, the last of
      equals, and names its mount. */
  ghost predicate ReadsFullest(reading: Option<Reading>, disks: seq<Disk>) {
    && (reading.Some? <==> exists d :: d in disks && d.totalBytes > 0)
    && (reading.Some? ==>
          exists i :: 0 <= i < |Disks.Sized(disks)| && ReadsDisk(reading.value, Disks.Sized(disks), i))
  }

  ghost predicate ReadsDisk(reading: Reading, sized: seq<Disk>, i: nat)
    requires i < |sized|
  {
    && reading.scope == Some(sized[i].mount) && IsShare(reading.value, sized[i].usedBytes, sized[i].totalBytes)
    && (forall k :: 0 <= k < |sized| ==> Disks.Percentage(sized[k].usedBytes, sized[k].totalBytes) <= reading.value)
    && (forall k :: i < k < |sized| ==> Disks.Percentage(sized[k].usedBytes, sized[k].totalBytes) < reading.value)
  }

  /** Main result. Which field of the sample each of the six metrics reads, when
      the reading is present, its value and the filesystem or sensor it names. */
  lemma ReadingsExactly(s: MetricSample)
    ensures MetricReading(s, "cpu_percent") ==
      if s.cpuPercent.Some? then Some(Reading(s.cpuPercent.value, None)) else None
    ensures ReadsShare(MetricReading(s, "memory_percent"), s.memoryUsedBytes, s.memoryTotalBytes)
    ensures ReadsShare(MetricReading(s, "swap_percent"), s.swapUsedBytes, s.swapTotalBytes)
    ensures ReadsFullest(MetricReading(s, "disk_percent"), s.disks)
  {
    assert "memory_percent"[0] == 'm' && "swap_percent"[0] == 's' && "disk_percent"[0] == 'd'
      && "cpu_percent"[0] == 'c';
    ShareReads(s.memoryUsedBytes, s.memoryTotalBytes);
    ShareReads(s.swapUsedBytes, s.swapTotalBytes);
    DiskReads(s);
  }

  lemma DiskReads(s: MetricSample)
    ensures ReadsFullest(MetricReading(s, "disk_percent"), s.disks)
  {
    assert "memory_percent"[0] == 'm' && "swap_percent"[0] == 's' && "disk_percent"[0] == 'd'
      && "cpu_percent"[0] == 'c';
    HighestReads(s.disks);
  }

  lemma HighestReads(disks: seq<Disk>)
    ensures Disks.HighestReading(disks).Some? <==> exists d :: d in disks && d.totalBytes > 0
    ensures Disks.HighestReading(disks).Some? ==>
      var d := Disks.HighestReading(disks).value;
      exists i :: 0 <= i < |Disks.Sized(disks)|
        && ReadsDisk(Reading(Disks.Percentage(d.usedBytes, d.totalBytes), Some(d.mount)), Disks.Sized(disks), i)
  {
    Disks.HighestReadingIsHighest(disks);
    if Disks.Sized(disks) != [] {
      var i := Disks.HighestPlace(disks);
      NoneReadsHigher(Disks.Sized(disks), i);
    }
  }

  lemma NoneReadsHigher(sized: seq<Disk>, i: nat)
    requires i < |sized| && sized[i].totalBytes > 0
    requires forall k :: 0 <= k < |sized| ==> Disks.NoHigher(sized[k], sized[i])
    requires forall k :: i < k < |sized| ==> !Disks.NoHigher(sized[i], sized[k])
    ensures ReadsDisk(Reading(Disks.Percentage(sized[i].usedBytes, sized[i].totalBytes), Some(sized[i].mount)), sized,
      i)
  {
    PercentageIsShare(sized[i].usedBytes, sized[i].totalBytes);
  }

  /** The two temperature metrics read the hottest sensor, and any other name reads
      nothing. */
  lemma TemperatureReadingsExactly(s: MetricSample, metric: string)
    ensures var celsius := MetricReading(s, "temperature_celsius");
      && (celsius.Some? <==> s.temperature.Some?)
      && (celsius.Some? ==> celsius.value == Reading(s.temperature.value.celsius, Some(s.temperature.value.sensor)))
    ensures var headroom := MetricReading(s, "temperature_headroom_celsius");
      && (headroom.Some? <==> s.temperature.Some? && s.temperature.value.criticalCelsius.Some?)
      && (headroom.Some? ==>
            headroom.value.value + s.temperature.value.celsius == s.temperature.value.criticalCelsius.value
            && headroom.value.scope == Some(s.temperature.value.sensor))
    ensures metric !in ALERT_METRICS ==> MetricReading(s, metric).None?
  {
    assert "temperature_celsius"[0] == 't' && "temperature_headroom_celsius"[0] == 't' && "cpu_percent"[0] == 'c';
    assert "memory_percent"[0] == 'm' && "swap_percent"[0] == 's' && "disk_percent"[0] == 'd';
    assert |"temperature_celsius"| == 19 && |"temperature_headroom_celsius"| == 28;
    assert ALERT_METRICS[0] == "cpu_percent" && ALERT_METRICS[1] == "memory_percent"
      && ALERT_METRICS[2] == "swap_percent"
        && ALERT_METRICS[3] == "disk_percent" && ALERT_METRICS[4] == "temperature_celsius"
        && ALERT_METRICS[5] == "temperature_headroom_celsius";
  }

  /** A rule with a finite threshold matches exactly when its metric reads and the
      value has reached the threshold from the rule's side. */
  lemma MatchesExactly(s: MetricSample, rule: AlertRule)
    requires rule.threshold.Finite?
    ensures var reading := MetricReading(s, rule.metric);
      && (reading.None? ==> !RuleMatches(s, rule))
      && (reading.Some? && rule.comparison == GreaterThanOrEqual ==>
            (RuleMatches(s, rule) <==> reading.value.value >= rule.threshold.value))
      && (reading.Some? && rule.comparison == LessThanOrEqual ==>
            (RuleMatches(s, rule) <==> reading.value.value <= rule.threshold.value))
  {
  }

  // ----- counting

  function Count(counts: map<string, nat>, id: string): nat {
    if id in counts then counts[id] else 0
  }

  function SaturatingIncrement(n: nat): nat {
    if n >= U32_MAX then U32_MAX else n + 1
  }

  function Required(rule: AlertRule): nat {
    if rule.consecutiveSamples < 1 then 1 else rule.consecutiveSamples
  }

  function NextCount(counts: map<string, nat>, s: MetricSample, rule: AlertRule): nat {
    if RuleMatches(s, rule) then SaturatingIncrement(Count(counts, rule.id)) else 0
  }

  /** One rule of one tick. */
  function EvaluateRule(e: Engine, s: MetricSample, rule: AlertRule): (Engine, seq<Signal>) {
    var reading := MetricReading(s, rule.metric);
    var count := NextCount(e.counts, s, rule);
    var breach := reading.Some? && count >= Required(rule);
    var wasActive := rule.id in e.active;
    var detail := if breach then Breach(rule, reading.value) else if reading.None? then Unavailable(rule)
      else Recovered(rule);
    var active := if breach then e.active[rule.id := ActiveAlert(rule.severity, detail)] else e.active - {rule.id};
    (Engine(e.counts[rule.id := count], active),
     if breach != wasActive then [Signal(rule.id, breach, rule.severity, detail)] else [])
  }

  function Ids(rules: seq<AlertRule>): set<string> {
    set i | 0 <= i < |rules| :: rules[i].id
  }

  /** The state of a rule the caller no longer supplies is dropped. */
  function Withdraw(e: Engine, rules: seq<AlertRule>): Engine {
    Engine(map id | id in e.counts && id in Ids(rules) :: e.counts[id],
           map id | id in e.active && id in Ids(rules) :: e.active[id])
  }

  function EvaluateAll(e: Engine, s: MetricSample, rules: seq<AlertRule>): (Engine, seq<Signal>) {
    if rules == [] then (e, [])
    else
      var before := EvaluateAll(e, s, rules[..|rules| - 1]);
      var last := EvaluateRule(before.0, s, rules[|rules| - 1]);
      (last.0, before.1 + last.1)
  }

  function Tick(e: Engine, s: MetricSample, rules: seq<AlertRule>): (Engine, seq<Signal>) {
    EvaluateAll(Withdraw(e, rules), s, rules)
  }

  class AlertEvaluator {
    var counts: map<string, nat>
    var active: map<string, ActiveAlert>

    constructor ()
      ensures counts == map[] && active == map[]
    {
      counts, active := map[], map[];
    }

    method Evaluate(sample: MetricSample, rules: seq<AlertRule>) returns (signals: seq<Signal>)
      modifies this
      ensures (Engine(counts, active), signals) == Tick(old(Engine(counts, active)), sample, rules)
    {
      counts := map id | id in counts && id in Ids(rules) :: counts[id];
      active := map id | id in active && id in Ids(rules) :: active[id];
      ghost var start := Engine(counts, active);
      signals := [];
      for i := 0 to |rules|
        invariant (Engine(counts, active), signals) == EvaluateAll(start, sample, rules[..i])
      {
        assert rules[..i + 1][..i] == rules[..i];
        var step := EvaluateRule(Engine(counts, active), sample, rules[i]);
        counts, active, signals := step.0.counts, step.0.active, signals + step.1;
      }
      assert rules[..|rules|] == rules;
    }
  }

  // ----- one tick, rule by rule

  /** What resolution guarantees of the rules it supplies. */
  predicate UniqueRules(rules: seq<AlertRule>) {
    forall i, k :: 0 <= i < k < |rules| ==> rules[i].id != rules[k].id
  }

  predicate Sustained(e: Engine, s: MetricSample, rule: AlertRule) {
    NextCount(e.counts, s, rule) >= Required(rule)
  }

  /** The state of `rule.id` after the tick. */
  ghost predicate Settled(e: Engine, e': Engine, s: MetricSample, rule: AlertRule) {
    && rule.id in e'.counts && e'.counts[rule.id] == NextCount(e.counts, s, rule)
    && (rule.id in e'.active <==> Sustained(e, s, rule))
    && (rule.id in e'.active ==>
          MetricReading(s, rule.metric).Some? &&
          e'.active[rule.id] == ActiveAlert(rule.severity, Breach(rule, MetricReading(s, rule.metric).value)))
  }

  ghost predicate Untouched(e: Engine, e': Engine, id: string) {
    && (id in e'.counts <==> id in e.counts) && (id in e.counts ==> e'.counts[id] == e.counts[id])
    && (id in e'.active <==> id in e.active) && (id in e.active ==> e'.active[id] == e.active[id])
  }

  lemma EvaluateRuleSettles(e: Engine, s: MetricSample, rule: AlertRule)
    ensures Settled(e, EvaluateRule(e, s, rule).0, s, rule)
    ensures forall id :: id != rule.id ==> Untouched(e, EvaluateRule(e, s, rule).0, id)
  {
  }

  /** With unique ids every rule is judged from its own earlier state alone. */
  lemma {:induction false} EvaluateAllSettles(e: Engine, s: MetricSample, rules: seq<AlertRule>)
    requires UniqueRules(rules)
    ensures var e' := EvaluateAll(e, s, rules).0;
      && (forall i :: 0 <= i < |rules| ==> Settled(e, e', s, rules[i]))
      && (forall id :: id !in Ids(rules) ==> Untouched(e, e', id))
  {
    if rules != [] {
      var n := |rules| - 1;
      var before, rule := rules[..n], rules[n];
      EvaluateAllSettles(e, s, before);
      var mid := EvaluateAll(e, s, before).0;
      EvaluateRuleSettles(mid, s, rule);
      var e' := EvaluateAll(e, s, rules).0;
      assert rule.id !in Ids(before);
      assert Untouched(e, mid, rule.id);
      forall i | 0 <= i < |rules| ensures Settled(e, e', s, rules[i]) {
        if i < n { assert before[i] == rules[i] && Settled(e, mid, s, before[i]) && Untouched(mid, e', rules[i].id); }
      }
      assert rules[n].id in Ids(rules);
      forall id | id in Ids(before) ensures id in Ids(rules) {
        var i :| 0 <= i < n && before[i].id == id;
        assert rules[i].id == id;
      }
    }
  }

  // ----- runs with changing rules

  datatype TickInput = TickInput(sample: MetricSample, rules: seq<AlertRule>)

  predicate Supplied(ticks: seq<TickInput>) {
    forall i :: 0 <= i < |ticks| ==> UniqueRules(ticks[i].rules)
  }

  /** The evaluator after a run of ticks. */
  function Run(ticks: seq<TickInput>): Engine {
    if ticks == [] then Engine(map[], map[])
    else Tick(Run(ticks[..|ticks| - 1]), ticks[|ticks| - 1].sample, ticks[|ticks| - 1].rules).0
  }

  /** The index of the rule with this id, or the length. */
  function RuleIndex(rules: seq<AlertRule>, id: string): (i: nat)
    ensures i <= |rules|
    ensures i < |rules| ==> rules[i].id == id
    ensures forall k :: 0 <= k < i ==> rules[k].id != id
  {
    IndexWhere(rules, (rule: AlertRule) => rule.id == id)
  }

  /** The tick supplies a rule with this id, can read its metric, and the reading
      crosses the threshold of that version of the rule. */
  predicate Matching(tick: TickInput, id: string) {
    var i := RuleIndex(tick.rules, id);
    i < |tick.rules| && RuleMatches(tick.sample, tick.rules[i])
  }

  /** The length of the run of latest consecutive matching ticks. */
  function Streak(ticks: seq<TickInput>, id: string): nat {
    if ticks == [] || !Matching(ticks[|ticks| - 1], id) then 0 else 1 + Streak(ticks[..|ticks| - 1], id)
  }

  lemma IndexInIds(rules: seq<AlertRule>, id: string)
    ensures id in Ids(rules) <==> RuleIndex(rules, id) < |rules|
  {
    if id in Ids(rules) { var i :| 0 <= i < |rules| && rules[i].id == id; }
    if RuleIndex(rules, id) < |rules| { assert rules[RuleIndex(rules, id)].id == id; }
  }

  /** The counter of every id is its streak, saturated at 32 bits. */
  lemma {:induction false} CountIsStreak(ticks: seq<TickInput>, id: string)
    requires Supplied(ticks)
    ensures Count(Run(ticks).counts, id) == if Streak(ticks, id) > 4_294_967_295 then 4_294_967_295
      else Streak(ticks, id)
    ensures id in Run(ticks).active ==>
      ticks != [] && RuleIndex(ticks[|ticks| - 1].rules, id) < |ticks[|ticks| - 1].rules|
    decreases |ticks|
  {
    if ticks != [] {
      var n := |ticks| - 1;
      var before, tick := ticks[..n], ticks[n];
      CountIsStreak(before, id);
      TickSettles(Run(before), tick, id);
    }
  }

  /** One tick as seen by one id. */
  lemma TickSettles(e: Engine, tick: TickInput, id: string)
    requires UniqueRules(tick.rules)
    ensures var e' := Tick(e, tick.sample, tick.rules).0;
      var i := RuleIndex(tick.rules, id);
      if i < |tick.rules| then
        && Count(e'.counts, id) == NextCount(e.counts, tick.sample, tick.rules[i])
        && (id in e'.active <==> Sustained(e, tick.sample, tick.rules[i]))
        && (id in e'.active ==>
              MetricReading(tick.sample, tick.rules[i].metric).Some? &&
              e'.active[id] == ActiveAlert(tick.rules[i].severity,
                                           Breach(tick.rules[i],
                                             MetricReading(tick.sample, tick.rules[i].metric).value)))
      else
        Count(e'.counts, id) == 0 && id !in e'.active
  {
    var start := Withdraw(e, tick.rules);
    EvaluateAllSettles(start, tick.sample, tick.rules);
    IndexInIds(tick.rules, id);
    var i := RuleIndex(tick.rules, id);
    if i < |tick.rules| {
      assert Settled(start, Tick(e, tick.sample, tick.rules).0, tick.sample, tick.rules[i]);
      assert Count(start.counts, id) == Count(e.counts, id);
    } else {
      assert Untouched(start, Tick(e, tick.sample, tick.rules).0, id);
    }
  }

  /** Main result. Over every run with rules changing between ticks, a rule is
      active after the last tick exactly when that tick supplies it and its run
      of latest consecutive ticks that supplied it, could read it and matched it
      reaches the count its current version requires. */
  lemma ActiveIsSustainedStreak(ticks: seq<TickInput>, id: string)
    requires Supplied(ticks) && ticks != []
    ensures var rules := ticks[|ticks| - 1].rules;
      var i := RuleIndex(rules, id);
      id in Run(ticks).active <==>
        i < |rules| && Streak(ticks, id) >= 1 && Streak(ticks, id) >= rules[i].consecutiveSamples
  {
    var n := |ticks| - 1;
    var before, tick := ticks[..n], ticks[n];
    CountIsStreak(before, id);
    TickSettles(Run(before), tick, id);
  }

  // ----- the emitted signals

  /** A consumer that keeps the set of raised rules. */
  function Replay(raised: set<string>, signals: seq<Signal>): set<string> {
    if signals == [] then raised
    else
      var before := Replay(raised, signals[..|signals| - 1]);
      var last := signals[|signals| - 1];
      if last.active then before + {last.ruleId} else before - {last.ruleId}
  }

  lemma {:induction false} ReplayConcat(raised: set<string>, a: seq<Signal>, b: seq<Signal>)
    ensures Replay(raised, a + b) == Replay(Replay(raised, a), b)
    decreases |b|
  {
    if b == [] {
      assert a + b == a;
    } else {
      assert (a + b)[..|a + b| - 1] == a + b[..|b| - 1];
      ReplayConcat(raised, a, b[..|b| - 1]);
    }
  }

  lemma {:induction false} ReplayOfTick(e: Engine, s: MetricSample, rules: seq<AlertRule>)
    ensures Replay(e.active.Keys, EvaluateAll(e, s, rules).1) == EvaluateAll(e, s, rules).0.active.Keys
    decreases |rules|
  {
    if rules != [] {
      var n := |rules| - 1;
      ReplayOfTick(e, s, rules[..n]);
      var mid := EvaluateAll(e, s, rules[..n]);
      var step := EvaluateRule(mid.0, s, rules[n]);
      ReplayConcat(e.active.Keys, mid.1, step.1);
      ReplayOfRule(mid.0, s, rules[n]);
    }
  }

  lemma ReplayOfRule(e: Engine, s: MetricSample, rule: AlertRule)
    ensures Replay(e.active.Keys, EvaluateRule(e, s, rule).1) == EvaluateRule(e, s, rule).0.active.Keys
  {
    var signals := EvaluateRule(e, s, rule).1;
    if signals != [] {
      assert signals[..0] == [];
      assert Replay(e.active.Keys, []) == e.active.Keys;
    }
  }

  /** What the consumer holds after a run: it forgets withdrawn rules, then
      applies the signals of the tick. */
  function Rebuilt(ticks: seq<TickInput>): set<string> {
    if ticks == [] then {}
    else
      var n := |ticks| - 1;
      Replay(Rebuilt(ticks[..n]) * Ids(ticks[n].rules), Tick(Run(ticks[..n]), ticks[n].sample, ticks[n].rules).1)
  }

  /** Main result. The emitted signals rebuild exactly the active set. */
  lemma {:induction false} SignalsRebuildTheActiveSet(ticks: seq<TickInput>)
    ensures Rebuilt(ticks) == Run(ticks).active.Keys
    decreases |ticks|
  {
    if ticks != [] {
      var n := |ticks| - 1;
      SignalsRebuildTheActiveSet(ticks[..n]);
      var start := Withdraw(Run(ticks[..n]), ticks[n].rules);
      assert start.active.Keys == Run(ticks[..n]).active.Keys * Ids(ticks[n].rules);
      ReplayOfTick(start, ticks[n].sample, ticks[n].rules);
    }
  }

  /** The signals about one rule. */
  function SignalsOf(signals: seq<Signal>, id: string): seq<Signal> {
    if signals == [] then []
    else
      SignalsOf(signals[..|signals| - 1], id) +
      if signals[|signals| - 1].ruleId == id then [signals[|signals| - 1]] else []
  }

  lemma {:induction false} SignalsOfConcat(a: seq<Signal>, b: seq<Signal>, id: string)
    ensures SignalsOf(a + b, id) == SignalsOf(a, id) + SignalsOf(b, id)
    decreases |b|
  {
    if b == [] {
      assert a + b == a;
    } else {
      assert (a + b)[..|a + b| - 1] == a + b[..|b| - 1];
      SignalsOfConcat(a, b[..|b| - 1], id);
    }
  }

  /** What a rule that went from `was` to `now` announces: its severity, and the
      breach, that its metric cannot be read, or its recovery. */
  function Announced(s: MetricSample, rule: AlertRule, was: bool, now: bool): seq<Signal> {
    var reading := MetricReading(s, rule.metric);
    if was == now then []
    else if now then (if reading.None? then [] else [Signal(rule.id, true, rule.severity, Breach(rule, reading.value))])
    else [Signal(rule.id, false, rule.severity, if reading.None? then Unavailable(rule) else Recovered(rule))]
  }

  lemma RuleAnnounces(e: Engine, s: MetricSample, rule: AlertRule, id: string)
    ensures SignalsOf(EvaluateRule(e, s, rule).1, id) ==
      if id == rule.id then Announced(s, rule, id in e.active, id in EvaluateRule(e, s, rule).0.active) else []
  {
    var signals := EvaluateRule(e, s, rule).1;
    if signals != [] { assert signals[..0] == []; }
  }

  /** Who is evaluated and what it announces, one more rule at a time. */
  lemma AnnouncesOneMore(e: Engine, s: MetricSample, rules: seq<AlertRule>, rule: AlertRule, id: string)
    ensures SignalsOf(EvaluateAll(e, s, rules + [rule]).1, id) ==
      SignalsOf(EvaluateAll(e, s, rules).1, id) + SignalsOf(EvaluateRule(EvaluateAll(e, s, rules).0, s, rule).1, id)
    ensures EvaluateAll(e, s, rules + [rule]).0 == EvaluateRule(EvaluateAll(e, s, rules).0, s, rule).0
  {
    assert (rules + [rule])[..|rules|] == rules;
    SignalsOfConcat(EvaluateAll(e, s, rules).1, EvaluateRule(EvaluateAll(e, s, rules).0, s, rule).1, id);
  }

  lemma {:induction false} NotSuppliedIsSilent(e: Engine, s: MetricSample, rules: seq<AlertRule>, id: string)
    requires forall k :: 0 <= k < |rules| ==> rules[k].id != id
    ensures SignalsOf(EvaluateAll(e, s, rules).1, id) == []
      && (id in EvaluateAll(e, s, rules).0.active <==> id in e.active)
    decreases |rules|
  {
    if rules != [] {
      var before, rule := rules[..|rules| - 1], rules[|rules| - 1];
      NotSuppliedIsSilent(e, s, before, id);
      assert rules == before + [rule];
      AnnouncesOneMore(e, s, before, rule, id);
      RuleAnnounces(EvaluateAll(e, s, before).0, s, rule, id);
    }
  }

  lemma {:induction false} SuppliedAnnounces(e: Engine, s: MetricSample, rules: seq<AlertRule>, i: nat)
    requires UniqueRules(rules) && i < |rules|
    ensures var r := EvaluateAll(e, s, rules);
      SignalsOf(r.1, rules[i].id) == Announced(s, rules[i], rules[i].id in e.active, rules[i].id in r.0.active)
    decreases |rules|
  {
    var before, rule := rules[..|rules| - 1], rules[|rules| - 1];
    assert rules == before + [rule];
    var id := rules[i].id;
    AnnouncesOneMore(e, s, before, rule, id);
    RuleAnnounces(EvaluateAll(e, s, before).0, s, rule, id);
    if i < |before| {
      SuppliedAnnounces(e, s, before, i);
      assert before[i] == rules[i] && rule.id != id;
    } else {
      assert forall k :: 0 <= k < |before| ==> before[k] == rules[k] && rules[k].id != id;
      NotSuppliedIsSilent(e, s, before, id);
    }
  }

  /** Main result. In every run, a tick announces about a rule it supplies exactly
      its transition, once, with its severity and the reason; about a rule that
      neither rises nor clears, or is not supplied, nothing. */
  lemma SignalsSayTheTransition(ticks: seq<TickInput>, id: string)
    requires Supplied(ticks) && ticks != []
    ensures var n := |ticks| - 1;
      var tick := ticks[n];
      var i := RuleIndex(tick.rules, id);
      SignalsOf(Tick(Run(ticks[..n]), tick.sample, tick.rules).1, id) ==
        if i < |tick.rules| then
          Announced(tick.sample, tick.rules[i], id in Run(ticks[..n]).active, id in Run(ticks).active)
        else []
  {
    var n := |ticks| - 1;
    var tick := ticks[n];
    var start := Withdraw(Run(ticks[..n]), tick.rules);
    var i := RuleIndex(tick.rules, id);
    IndexInIds(tick.rules, id);
    if i < |tick.rules| {
      SuppliedAnnounces(start, tick.sample, tick.rules, i);
    } else {
      NotSuppliedIsSilent(start, tick.sample, tick.rules, id);
    }
  }

  // ----- what the health snapshot reads

  function SeverityRank(s: NodeState): nat {
    if s.Critical? then 2 else if s.Warning? then 1 else 0
  }

  /** The active alerts in rule-id order. */
  function InIdOrder(active: map<string, ActiveAlert>): (r: seq<ActiveAlert>)
  {
    var ids := Names.InOrder(active.Keys);
    Names.InOrderFacts(active.Keys);
    seq(|ids|, i requires 0 <= i < |ids| => assert ids[i] in ids; active[ids[i]])
  }

  /** `max_by_key`: the later of two equally severe alerts wins. */
  function WorstOf(alerts: seq<ActiveAlert>): Option<NodeState> {
    if alerts == [] then None
    else
      var before := WorstOf(alerts[..|alerts| - 1]);
      var last := alerts[|alerts| - 1].severity;
      if before.None? || SeverityRank(before.value) <= SeverityRank(last) then Some(last) else before
  }

  function WorstActiveSeverity(active: map<string, ActiveAlert>): Option<NodeState> {
    WorstOf(InIdOrder(active))
  }

  lemma {:induction false} WorstOfIsWorst(alerts: seq<ActiveAlert>)
    ensures WorstOf(alerts).None? <==> alerts == []
    ensures alerts != [] ==> exists i :: 0 <= i < |alerts| && alerts[i].severity == WorstOf(alerts).value
    ensures forall i :: 0 <= i < |alerts| ==> SeverityRank(alerts[i].severity) <= SeverityRank(WorstOf(alerts).value)
  {
    if alerts != [] {
      var n := |alerts| - 1;
      WorstOfIsWorst(alerts[..n]);
      if n > 0 {
        var i :| 0 <= i < n && alerts[..n][i].severity == WorstOf(alerts[..n]).value;
        assert alerts[i].severity == WorstOf(alerts[..n]).value;
      }
      assert alerts[n].severity == alerts[|alerts| - 1].severity;
    }
  }

  lemma PlaceOf(active: map<string, ActiveAlert>, id: string) returns (i: nat)
    requires id in active
    ensures i < |InIdOrder(active)| && InIdOrder(active)[i] == active[id]
  {
    var ids := Names.InOrder(active.Keys);
    Names.InOrderFacts(active.Keys);
    assert id in ids;
    i :| 0 <= i < |ids| && ids[i] == id;
  }

  lemma IdAt(active: map<string, ActiveAlert>, i: nat) returns (id: string)
    requires i < |InIdOrder(active)|
    ensures id in active && active[id] == InIdOrder(active)[i]
  {
    var ids := Names.InOrder(active.Keys);
    Names.InOrderFacts(active.Keys);
    id := ids[i];
    assert id in ids;
  }

  /** The worst severity is that of some active alert, and is absent exactly when
      nothing is active. */
  lemma WorstSeverityIsActive(active: map<string, ActiveAlert>)
    ensures WorstActiveSeverity(active).None? <==> active == map[]
    ensures WorstActiveSeverity(active).Some? ==>
      exists id :: id in active && active[id].severity == WorstActiveSeverity(active).value
  {
    var alerts := InIdOrder(active);
    WorstOfIsWorst(alerts);
    if WorstActiveSeverity(active).Some? {
      var i :| 0 <= i < |alerts| && alerts[i].severity == WorstOf(alerts).value;
      var id := IdAt(active, i);
    } else {
      forall id | id in active ensures false { var i := PlaceOf(active, id); }
    }
  }

  /** No active alert outranks the worst severity. */
  lemma WorstSeverityIsWorst(active: map<string, ActiveAlert>, id: string)
    requires id in active
    ensures WorstActiveSeverity(active).Some?
    ensures SeverityRank(active[id].severity) <= SeverityRank(WorstActiveSeverity(active).value)
  {
    var alerts := InIdOrder(active);
    var i := PlaceOf(active, id);
    WorstOfIsWorst(alerts);
    assert SeverityRank(alerts[i].severity) <= SeverityRank(WorstOf(alerts).value);
  }

  function OfRank(alerts: seq<ActiveAlert>, rank: nat): seq<ActiveAlert> {
    if alerts == [] then []
    else
      OfRank(alerts[..|alerts| - 1], rank) +
      if SeverityRank(alerts[|alerts| - 1].severity) == rank then [alerts[|alerts| - 1]] else []
  }

  /** The stable sort by descending severity. */
  function BySeverity(alerts: seq<ActiveAlert>): seq<ActiveAlert> {
    OfRank(alerts, 2) + OfRank(alerts, 1) + OfRank(alerts, 0)
  }

  /** `active_details`: one line per active alert, most severe first. */
  function ActiveDetails(active: map<string, ActiveAlert>): seq<Detail> {
    var sorted := BySeverity(InIdOrder(active));
    seq(|sorted|, i requires 0 <= i < |sorted| => sorted[i].detail)
  }

  lemma {:induction false} OfRankFacts(alerts: seq<ActiveAlert>, rank: nat)
    ensures forall i :: 0 <= i < |OfRank(alerts, rank)| ==> SeverityRank(OfRank(alerts, rank)[i].severity) == rank
  {
    if alerts != [] { OfRankFacts(alerts[..|alerts| - 1], rank); }
  }

  /** Every alert has one of the three ranks, so the three parts hold it as often
      as the whole does. */
  lemma {:induction false} RanksPartition(alerts: seq<ActiveAlert>, x: ActiveAlert)
    ensures multiset(OfRank(alerts, 2))[x] + multiset(OfRank(alerts, 1))[x] + multiset(OfRank(alerts, 0))[x] ==
      multiset(alerts)[x]
  {
    if alerts != [] {
      var before, last := alerts[..|alerts| - 1], alerts[|alerts| - 1];
      RanksPartition(before, x);
      assert alerts == before + [last];
      OfRankCounts(before, last, 2, x);
      OfRankCounts(before, last, 1, x);
      OfRankCounts(before, last, 0, x);
    }
  }

  lemma OfRankCounts(before: seq<ActiveAlert>, last: ActiveAlert, rank: nat, x: ActiveAlert)
    ensures multiset(OfRank(before + [last], rank))[x] ==
      multiset(OfRank(before, rank))[x] + if SeverityRank(last.severity) == rank && x == last then 1 else 0
  {
    assert (before + [last])[..|before|] == before;
  }

  lemma ThreeRanksDescend(a: seq<ActiveAlert>, b: seq<ActiveAlert>, c: seq<ActiveAlert>)
    requires forall i :: 0 <= i < |a| ==> SeverityRank(a[i].severity) == 2
    requires forall i :: 0 <= i < |b| ==> SeverityRank(b[i].severity) == 1
    requires forall i :: 0 <= i < |c| ==> SeverityRank(c[i].severity) == 0
    ensures forall i, k :: 0 <= i < k < |a + b + c| ==>
      SeverityRank((a + b + c)[i].severity) >= SeverityRank((a + b + c)[k].severity)
  {
    var all := a + b + c;
    forall i | 0 <= i < |all|
      ensures SeverityRank(all[i].severity) == if i < |a| then 2 else if i < |a| + |b| then 1 else 0
    {
      assert all[i] == if i < |a| then a[i] else if i < |a| + |b| then b[i - |a|] else c[i - |a| - |b|];
    }
  }

  lemma CountInThree(a: seq<ActiveAlert>, b: seq<ActiveAlert>, c: seq<ActiveAlert>, x: ActiveAlert)
    ensures multiset(a + b + c)[x] == multiset(a)[x] + multiset(b)[x] + multiset(c)[x]
  {
  }

  /** The sorted alerts are the active ones, each as often as it occurs, and none
      is preceded by a less severe one. */
  lemma BySeverityIsASort(alerts: seq<ActiveAlert>)
    ensures multiset(BySeverity(alerts)) == multiset(alerts)
    ensures forall i, k :: 0 <= i < k < |BySeverity(alerts)| ==>
      SeverityRank(BySeverity(alerts)[i].severity) >= SeverityRank(BySeverity(alerts)[k].severity)
  {
    var a, b, c := OfRank(alerts, 2), OfRank(alerts, 1), OfRank(alerts, 0);
    forall x ensures multiset(BySeverity(alerts))[x] == multiset(alerts)[x] {
      RanksPartition(alerts, x);
      CountInThree(a, b, c, x);
    }
    OfRankFacts(alerts, 2);
    OfRankFacts(alerts, 1);
    OfRankFacts(alerts, 0);
    ThreeRanksDescend(a, b, c);
  }

  /** Equally severe alerts keep their order. */
  lemma BySeverityIsStable(alerts: seq<ActiveAlert>, rank: nat)
    requires rank <= 2
    ensures OfRank(BySeverity(alerts), rank) == OfRank(alerts, rank)
  {
    OfRankOfThree(OfRank(alerts, 2), OfRank(alerts, 1), OfRank(alerts, 0), rank);
    OfOneRank(alerts, 2, rank);
    OfOneRank(alerts, 1, rank);
    OfOneRank(alerts, 0, rank);
  }

  lemma OfRankOfThree(a: seq<ActiveAlert>, b: seq<ActiveAlert>, c: seq<ActiveAlert>, rank: nat)
    ensures OfRank(a + b + c, rank) == OfRank(a, rank) + OfRank(b, rank) + OfRank(c, rank)
  {
    OfRankConcat(a + b, c, rank);
    OfRankConcat(a, b, rank);
  }

  lemma OfOneRank(alerts: seq<ActiveAlert>, own: nat, rank: nat)
    ensures OfRank(OfRank(alerts, own), rank) == if own == rank then OfRank(alerts, own) else []
  {
    OfRankFacts(alerts, own);
    OfRankPure(OfRank(alerts, own), own, rank);
  }

  /** The lines of the health snapshot: the worst severity first. */
  lemma DetailsWorstFirst(active: map<string, ActiveAlert>)
    requires forall id :: id in active ==> active[id].detail.rule.severity == active[id].severity
    ensures |ActiveDetails(active)| == |active|
    ensures forall i, k :: 0 <= i < k < |ActiveDetails(active)| ==>
      SeverityRank(ActiveDetails(active)[i].rule.severity) >= SeverityRank(ActiveDetails(active)[k].rule.severity)
  {
    var alerts := InIdOrder(active);
    var sorted := BySeverity(alerts);
    BySeverityIsASort(alerts);
    Names.InOrderFacts(active.Keys);
    assert |sorted| == |multiset(sorted)| == |alerts| == |active|;
    forall i | 0 <= i < |sorted| ensures sorted[i].detail.rule.severity == sorted[i].severity {
      assert sorted[i] in multiset(sorted) && sorted[i] in alerts;
      var k :| 0 <= k < |alerts| && alerts[k] == sorted[i];
      var id := IdAt(active, k);
    }
  }

  /** The lines are those of the active alerts, all of them and no others. */
  lemma DetailsAreTheActive(active: map<string, ActiveAlert>, id: string, i: nat)
    ensures id in active ==> active[id].detail in ActiveDetails(active)
    ensures i < |ActiveDetails(active)| ==> exists x :: x in active && active[x].detail == ActiveDetails(active)[i]
  {
    var alerts := InIdOrder(active);
    var sorted := BySeverity(alerts);
    BySeverityIsASort(alerts);
    if id in active {
      var k := PlaceOf(active, id);
      assert alerts[k] in multiset(sorted) && alerts[k] in sorted;
      var n :| 0 <= n < |sorted| && sorted[n] == active[id];
      assert ActiveDetails(active)[n] == active[id].detail;
    }
    if i < |ActiveDetails(active)| {
      assert sorted[i] in multiset(sorted) && sorted[i] in alerts;
      var k :| 0 <= k < |alerts| && alerts[k] == sorted[i];
      var x := IdAt(active, k);
    }
  }

  lemma {:induction false} OfRankConcat(a: seq<ActiveAlert>, b: seq<ActiveAlert>, rank: nat)
    ensures OfRank(a + b, rank) == OfRank(a, rank) + OfRank(b, rank)
    decreases |b|
  {
    if b == [] {
      assert a + b == a;
    } else {
      assert (a + b)[..|a + b| - 1] == a + b[..|b| - 1];
      OfRankConcat(a, b[..|b| - 1], rank);
    }
  }

  lemma {:induction false} OfRankPure(a: seq<ActiveAlert>, own: nat, rank: nat)
    requires forall i :: 0 <= i < |a| ==> SeverityRank(a[i].severity) == own
    ensures OfRank(a, rank) == if own == rank then a else []
  {
    if a != [] { OfRankPure(a[..|a| - 1], own, rank); }
  }
}
