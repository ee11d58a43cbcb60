/** The sampling loop: alert evaluation, health projection, persistence
    batching, periodic pruning and the shutdown flush. */
module Sampler {
  import opened Common
  import opened Metrics
  import opened AlertRules
  import Engine = AlertEngine

  const BATCH_SIZE: nat := 5
  const PRUNE_EVERY: nat := 300

  datatype Flag = CollectorDegraded | StorageDegraded | RemoteListenerDegraded

  datatype Line = FlagLine(flag: Flag) | AlertLine(detail: Engine.Detail)

  datatype Health = Health(
    state: NodeState, collectorDegraded: bool, storageDegraded: bool, remoteListenerDegraded: bool, details: seq<Line>)

  predicate AnyFlag(h: Health) {
    h.collectorDegraded || h.storageDegraded || h.remoteListenerDegraded
  }

  function FlagLines(h: Health): seq<Line> {
    (if h.collectorDegraded then [FlagLine(CollectorDegraded)] else []) +
    (if h.storageDegraded then [FlagLine(StorageDegraded)] else []) +
    (if h.remoteListenerDegraded then [FlagLine(RemoteListenerDegraded)] else [])
  }

  function AlertLines(details: seq<Engine.Detail>): seq<Line> {
    seq(|details|, i requires 0 <= i < |details| => AlertLine(details[i]))
  }

  /** `project_health`: the one owner of the published state and its lines. */
  function Project(h: Health, severity: Option<NodeState>, details: seq<Engine.Detail>): Health {
    h.(details := FlagLines(h) + AlertLines(details),
       state := if AnyFlag(h) then Degraded else if severity.Some? then severity.value else Healthy)
  }

  /** A batch handed to storage, and whether storage took it. */
  datatype Batch = Batch(samples: seq<MetricSample>, stored: bool)

  /** One turn of the loop: what was collected, the rules published at that
      moment, and how storage would answer an insert and a prune. */
  datatype Tick = Tick(sample: MetricSample, rules: seq<AlertRule>, insertOk: bool, pruneOk: bool)

  datatype State = State(
    engine: Engine.Engine, pending: seq<MetricSample>, pruneCounter: nat, health: Health, handed: seq<Batch>)

  function Evaluated(st: State, tick: Tick): State {
    var engine := Engine.Tick(st.engine, tick.sample, tick.rules).0;
    var health := st.health.(collectorDegraded := tick.sample.errors != []);
    st.(engine := engine,
        health := Project(health, Engine.WorstActiveSeverity(engine.active), Engine.ActiveDetails(engine.active)))
  }

  /** Re-projection with this tick's alerts after a storage verdict. */
  function WithStorage(st: State, degraded: bool): State {
    st.(health := Project(st.health.(storageDegraded := degraded), Engine.WorstActiveSeverity(st.engine.active),
                          Engine.ActiveDetails(st.engine.active)))
  }

  function Persisted(st: State, tick: Tick): State {
    var pending := st.pending + [tick.sample];
    if |pending| < BATCH_SIZE then st.(pending := pending)
    else
      var cleared := st.(pending := [], handed := st.handed + [Batch(pending, tick.insertOk)]);
      if !tick.insertOk then WithStorage(cleared, true)
      else if st.health.storageDegraded then WithStorage(cleared, false)
      else cleared
  }

  function Pruned(st: State, tick: Tick): State {
    var counter := if st.pruneCounter < 0xFFFF then st.pruneCounter + 1 else 0xFFFF;
    if counter < PRUNE_EVERY then st.(pruneCounter := counter)
    else
      var reset := st.(pruneCounter := 0);
      if tick.pruneOk then reset else WithStorage(reset, true)
  }

  function Step(st: State, tick: Tick): State {
    Pruned(Persisted(Evaluated(st, tick), tick), tick)
  }

  /** `flush_pending`: a failed flush loses the buffered samples. */
  function Flushed(st: State, insertOk: bool): State {
    if st.pending == [] then st
    else st.(pending := if insertOk then [] else st.pending, handed := st.handed + [Batch(st.pending, insertOk)])
  }

  class SampleLoop {
    var alerts: Engine.AlertEvaluator
    var pending: seq<MetricSample>
    var pruneCounter: nat
    var health: Health
    var handed: seq<Batch>

    function Now(): State
      reads this, alerts
    {
      State(Engine.Engine(alerts.counts, alerts.active), pending, pruneCounter, health, handed)
    }

    constructor (health: Health)
      ensures fresh(alerts) && Now() == Initial(health)
    {
      alerts := new Engine.AlertEvaluator();
      pending, pruneCounter, handed := [], 0, [];
      this.health := health;
    }

    method Reproject(h: Health)
      modifies this`health
      ensures health == Project(h, Engine.WorstActiveSeverity(alerts.active), Engine.ActiveDetails(alerts.active))
    {
      health := Project(h, Engine.WorstActiveSeverity(alerts.active), Engine.ActiveDetails(alerts.active));
    }

    method EvaluateSample(tick: Tick)
      modifies this`health, alerts
      ensures Now() == Evaluated(old(Now()), tick)
    {
      var signals := alerts.Evaluate(tick.sample, tick.rules);
      Reproject(health.(collectorDegraded := tick.sample.errors != []));
    }

    method PersistSample(tick: Tick)
      modifies this`health, this`pending, this`handed
      ensures Now() == Persisted(old(Now()), tick)
    {
      pending := pending + [tick.sample];
      if |pending| >= BATCH_SIZE {
        handed := handed + [Batch(pending, tick.insertOk)];
        pending := [];
        if tick.insertOk {
          if health.storageDegraded {
            Reproject(health.(storageDegraded := false));
          }
        } else {
          Reproject(health.(storageDegraded := true));
        }
      }
    }

    method PruneHistory(tick: Tick)
      modifies this`health, this`pruneCounter
      ensures Now() == Pruned(old(Now()), tick)
    {
      pruneCounter := if pruneCounter < 0xFFFF then pruneCounter + 1 else 0xFFFF;
      if pruneCounter >= PRUNE_EVERY {
        pruneCounter := 0;
        if !tick.pruneOk {
          Reproject(health.(storageDegraded := true));
        }
      }
    }

    method OnTick(tick: Tick)
      modifies this`health, this`pending, this`handed, this`pruneCounter, alerts
      ensures Now() == Step(old(Now()), tick)
    {
      EvaluateSample(tick);
      PersistSample(tick);
      PruneHistory(tick);
    }

    method OnShutdown(insertOk: bool)
      modifies this`pending, this`handed
      ensures Now() == Flushed(old(Now()), insertOk)
    {
      if pending == [] {
        return;
      }
      handed := handed + [Batch(pending, insertOk)];
      if insertOk {
        pending := [];
      }
    }
  }

  // ----- whole runs

  function Initial(health: Health): State {
    State(Engine.Engine(map[], map[]), [], 0, health, [])
  }

  function Iterate(step: (State, Tick) -> State, start: State, ticks: seq<Tick>): State {
    if ticks == [] then start else step(Iterate(step, start, ticks[..|ticks| - 1]), ticks[|ticks| - 1])
  }

  function Run(health: Health, ticks: seq<Tick>): State {
    Iterate(Step, Initial(health), ticks)
  }

  function Collected(ticks: seq<Tick>): seq<MetricSample> {
    seq(|ticks|, i requires 0 <= i < |ticks| => ticks[i].sample)
  }

  /** What a step does besides alerts and health. */
  predicate BufferStep(st: State, st': State, tick: Tick) {
    var full := |st.pending| + 1 >= 5;
    && st'.pending == (if full then [] else st.pending + [tick.sample])
    && st'.handed == (if full then st.handed + [Batch(st.pending + [tick.sample], tick.insertOk)] else st.handed)
    && st'.pruneCounter == (if st.pruneCounter + 1 == 300 then 0 else st.pruneCounter + 1)
  }

  lemma StepBuffers(st: State, tick: Tick)
    requires st.pruneCounter < 300
    ensures BufferStep(st, Step(st, tick), tick)
  {
  }

  /** The `k`-th batch of five collected samples, with storage's answer. */
  function FifthBatch(ticks: seq<Tick>, k: nat): Batch
    requires 5 * (k + 1) <= |ticks|
  {
    Batch(Collected(ticks)[5 * k..5 * (k + 1)], ticks[5 * k + 4].insertOk)
  }

  /** The batches and the buffer after `n` ticks, in closed form. */
  ghost predicate Buffered(st: State, ticks: seq<Tick>) {
    var n := |ticks|;
    && st.pending == Collected(ticks)[n - n % 5..]
    && st.pruneCounter == n % 300
    && Fives(st.handed, ticks, n / 5)
  }

  lemma FifthBatchStays(ticks: seq<Tick>, tick: Tick, k: nat)
    requires 5 * (k + 1) <= |ticks|
    ensures FifthBatch(ticks + [tick], k) == FifthBatch(ticks, k)
  {
    assert Collected(ticks + [tick])[5 * k..5 * (k + 1)] ==
      Collected(ticks)[5 * k..5 * (k + 1)];
  }

  lemma CountUp(n: nat, m: nat)
    requires m > 0
    ensures (n + 1) % m == (if n % m + 1 == m then 0 else n % m + 1)
    ensures (n + 1) / m == (if n % m + 1 == m then n / m + 1 else n / m)
  {
    var q, r := n / m, n % m;
    assert n == m * q + r;
    if r + 1 == m {
      assert n + 1 == m * (q + 1);
      Quotient(n + 1, m, q + 1, 0);
    } else {
      Quotient(n + 1, m, q, r + 1);
    }
  }

  lemma Quotient(n: nat, m: nat, q: nat, r: nat)
    requires m > 0 && r < m && n == m * q + r
    ensures n / m == q && n % m == r
  {
    var d := n / m - q;
    assert m * d == r - n % m;
  }

  lemma BufferedStep(st: State, st': State, ticks: seq<Tick>, tick: Tick)
    requires Buffered(st, ticks) && BufferStep(st, st', tick)
    ensures Buffered(st', ticks + [tick])
  {
    PendingStep(st, st', ticks, tick);
    HandedStep(st, st', ticks, tick);
  }

  lemma PendingStep(st: State, st': State, ticks: seq<Tick>, tick: Tick)
    requires BufferStep(st, st', tick) && st.pending == Collected(ticks)[|ticks| - |ticks| % 5..]
    requires st.pruneCounter == |ticks| % 300
    ensures var n := |ticks| + 1;
      st'.pending == Collected(ticks + [tick])[n - n % 5..] && st'.pruneCounter == n % 300
  {
    var n := |ticks|;
    CountUp(n, 5);
    CountUp(n, 300);
    PendingGrows(ticks, tick, n % 5);
  }

  /** The first `q` fives of the collected samples. */
  ghost predicate Fives(handed: seq<Batch>, ticks: seq<Tick>, q: nat) {
    5 * q <= |ticks| && |handed| == q && forall k :: 0 <= k < q ==> handed[k] == FifthBatch(ticks, k)
  }

  lemma FivesStay(handed: seq<Batch>, ticks: seq<Tick>, tick: Tick, q: nat)
    requires Fives(handed, ticks, q)
    ensures Fives(handed, ticks + [tick], q)
  {
    forall k | 0 <= k < q ensures handed[k] == FifthBatch(ticks + [tick], k) { FifthBatchStays(ticks, tick, k); }
  }

  lemma FifthSampleHandsOver(handed: seq<Batch>, pending: seq<MetricSample>, ticks: seq<Tick>, tick: Tick, q: nat)
    requires Fives(handed, ticks, q) && |ticks| == 5 * q + 4 && pending == Collected(ticks)[5 * q..]
    ensures Fives(handed + [Batch(pending + [tick.sample], tick.insertOk)], ticks + [tick], q + 1)
  {
    FivesStay(handed, ticks, tick, q);
    PendingGrows(ticks, tick, 4);
    LastFifthBatch(ticks, tick, q);
  }

  lemma HandedStep(st: State, st': State, ticks: seq<Tick>, tick: Tick)
    requires Buffered(st, ticks) && BufferStep(st, st', tick)
    ensures Fives(st'.handed, ticks + [tick], (|ticks| + 1) / 5)
  {
    var n := |ticks|;
    CountUp(n, 5);
    assert Fives(st.handed, ticks, n / 5);
    if n % 5 == 4 {
      FifthSampleHandsOver(st.handed, st.pending, ticks, tick, n / 5);
    } else {
      FivesStay(st.handed, ticks, tick, n / 5);
    }
  }

  lemma PendingGrows(ticks: seq<Tick>, tick: Tick, waiting: nat)
    requires waiting <= |ticks|
    ensures var n := |ticks|;
      var all := Collected(ticks + [tick]);
      && Collected(ticks)[n - waiting..] + [tick.sample] == all[n - waiting..n + 1] == all[n - waiting..]
      && all[n + 1..] == []
  {
    assert Collected(ticks + [tick]) == Collected(ticks) + [tick.sample];
  }

  lemma LastFifthBatch(ticks: seq<Tick>, tick: Tick, q: nat)
    requires |ticks| == 5 * q + 4
    ensures FifthBatch(ticks + [tick], q) ==
      Batch(Collected(ticks + [tick])[5 * q..|ticks| + 1], tick.insertOk)
  {
  }

  lemma BufferedLast(st: State, st': State, ticks: seq<Tick>)
    requires ticks != [] && Buffered(st, ticks[..|ticks| - 1]) && BufferStep(st, st', ticks[|ticks| - 1])
    ensures Buffered(st', ticks)
  {
    assert ticks == ticks[..|ticks| - 1] + [ticks[|ticks| - 1]];
    BufferedStep(st, st', ticks[..|ticks| - 1], ticks[|ticks| - 1]);
  }

  lemma {:induction false} BufferedIterate(step: (State, Tick) -> State, start: State, ticks: seq<Tick>)
    requires forall st: State, t: Tick :: st.pruneCounter < 300 ==> BufferStep(st, step(st, t), t)
    requires Buffered(start, [])
    ensures Buffered(Iterate(step, start, ticks), ticks)
    decreases |ticks|
  {
    if ticks != [] {
      var st := Iterate(step, start, ticks[..|ticks| - 1]);
      BufferedIterate(step, start, ticks[..|ticks| - 1]);
      assert st.pruneCounter < 300;
      BufferedLast(st, step(st, ticks[|ticks| - 1]), ticks);
    }
  }

  /** Main result. After `n` ticks exactly `n / 5` batches went to storage: the
      `k`-th is the `k`-th five collected samples and carries storage's answer at
      that tick. The rest, fewer than five, is pending. So every sample is handed
      over at most once and in order, whatever storage answered. */
  lemma BatchesAreTheCollectedFives(health: Health, ticks: seq<Tick>)
    ensures Buffered(Run(health, ticks), ticks)
  {
    EveryStepBuffers();
    InitiallyBuffered(health);
    BufferedIterate(Step, Initial(health), ticks);
  }

  lemma EveryStepBuffers()
    ensures forall st: State, t: Tick :: st.pruneCounter < 300 ==> BufferStep(st, Step(st, t), t)
  {
    forall st: State, t: Tick | st.pruneCounter < 300 ensures BufferStep(st, Step(st, t), t) {
      StepBuffers(st, t);
    }
  }

  lemma InitiallyBuffered(health: Health)
    ensures Buffered(Initial(health), [])
  {
  }

  function Flatten(batches: seq<Batch>): seq<MetricSample> {
    if batches == [] then [] else Flatten(batches[..|batches| - 1]) + batches[|batches| - 1].samples
  }

  /** Main result. Nothing is dropped on the way: stored and discarded batches
      followed by the buffer are the collected samples, and a shutdown hands the
      buffer over too. */
  lemma {:induction false} NothingIsLostOrRepeated(health: Health, ticks: seq<Tick>, insertOk: bool)
    ensures var st := Run(health, ticks);
      && Flatten(st.handed) + st.pending == Collected(ticks)
      && |st.pending| < 5
      && Flatten(Flushed(st, insertOk).handed) == Collected(ticks)
    decreases |ticks|
  {
    var st := Run(health, ticks);
    BatchesAreTheCollectedFives(health, ticks);
    FlattenHanded(st, ticks, |st.handed|);
    assert st.handed[..|st.handed|] == st.handed;
    var all := Collected(ticks);
    assert all[..|all| - |all| % 5] + all[|all| - |all| % 5..] == all;
    var out := Flushed(st, insertOk).handed;
    if st.pending == [] {
      assert Flatten(st.handed) + [] == Flatten(st.handed);
    } else {
      assert out[..|out| - 1] == st.handed;
    }
  }

  /** The flush hands what is pending over once, with storage's answer, and empties
      the buffer only if storage took it. */
  lemma FlushHandsOver(st: State, insertOk: bool)
    ensures Flushed(st, insertOk).pending == if insertOk then [] else st.pending
    ensures st.pending == [] ==> Flushed(st, insertOk) == st
    ensures st.pending != [] ==> Flushed(st, insertOk).handed == st.handed + [Batch(st.pending, insertOk)]
    ensures Flushed(st, insertOk).health == st.health && Flushed(st, insertOk).engine == st.engine
  {
  }

  lemma {:induction false} FlattenHanded(st: State, ticks: seq<Tick>, k: nat)
    requires Buffered(st, ticks) && k <= |st.handed|
    ensures Flatten(st.handed[..k]) == Collected(ticks)[..5 * k]
    decreases k
  {
    if k > 0 {
      FlattenHanded(st, ticks, k - 1);
      assert st.handed[..k][..k - 1] == st.handed[..k - 1];
      assert st.handed[k - 1] == FifthBatch(ticks, k - 1);
    }
  }

  // ----- the storage flag

  /** The verdict of the latest insert attempt or failed prune. */
  predicate StorageFault(ticks: seq<Tick>) {
    if ticks == [] then false
    else
      var n := |ticks|;
      var last := ticks[n - 1];
      if n % 300 == 0 && !last.pruneOk then true
      else if n % 5 == 0 then !last.insertOk
      else StorageFault(ticks[..n - 1])
  }

  predicate StorageStep(st: State, st': State, tick: Tick) {
    st'.health.storageDegraded ==
      if st.pruneCounter + 1 == 300 && !tick.pruneOk then true
      else if |st.pending| + 1 >= 5 then !tick.insertOk
      else st.health.storageDegraded
  }

  lemma StepStorage(st: State, tick: Tick)
    requires st.pruneCounter < 300
    ensures StorageStep(st, Step(st, tick), tick)
  {
  }

  lemma {:induction false} StorageIterate(step: (State, Tick) -> State, start: State, ticks: seq<Tick>)
    requires forall st: State, t: Tick :: st.pruneCounter < 300 ==> BufferStep(st, step(st, t), t)
    requires forall st: State, t: Tick :: st.pruneCounter < 300 ==> StorageStep(st, step(st, t), t)
    requires Buffered(start, []) && !start.health.storageDegraded
    ensures Iterate(step, start, ticks).health.storageDegraded == StorageFault(ticks)
    decreases |ticks|
  {
    if ticks != [] {
      var n := |ticks| - 1;
      var before, tick := ticks[..n], ticks[n];
      var st := Iterate(step, start, before);
      StorageIterate(step, start, before);
      BufferedIterate(step, start, before);
      assert |st.pending| == n % 5 && st.pruneCounter == n % 300;
      assert StorageStep(st, step(st, tick), tick);
      StorageFaultStep(st, step(st, tick), ticks);
    }
  }

  lemma StorageFaultStep(st: State, st': State, ticks: seq<Tick>)
    requires ticks != [] && StorageStep(st, st', ticks[|ticks| - 1])
    requires |st.pending| == (|ticks| - 1) % 5 && st.pruneCounter == (|ticks| - 1) % 300
    requires st.health.storageDegraded == StorageFault(ticks[..|ticks| - 1])
    ensures st'.health.storageDegraded == StorageFault(ticks)
  {
    var n := |ticks| - 1;
    CountUp(n, 5);
    CountUp(n, 300);
  }

  /** Main result. Over every run, the storage flag is set exactly when the latest
      insert attempt or failed prune was a failure; a successful prune does not
      clear it. */
  lemma StorageFlagIsLatestVerdict(health: Health, ticks: seq<Tick>)
    requires !health.storageDegraded
    ensures Run(health, ticks).health.storageDegraded == StorageFault(ticks)
  {
    forall st: State, t: Tick | st.pruneCounter < 300
      ensures BufferStep(st, Step(st, t), t) && StorageStep(st, Step(st, t), t)
    {
      StepBuffers(st, t);
      StepStorage(st, t);
    }
    StorageIterate(Step, Initial(health), ticks);
  }

  /** The latest verdict when the flush counts as the insert attempt it is. */
  predicate FaultAfterFlush(ticks: seq<Tick>, insertOk: bool) {
    if |ticks| % 5 == 0 then StorageFault(ticks) else !insertOk
  }

  /** Main result, the exact condition at a shutdown. The flush is an insert
      attempt that never touches the flag, so after it the flag is the latest
      verdict if and only if there was nothing to flush or the flush went the way
      the flag already says. */
  lemma FlushKeepsTheFlagHonestExactly(health: Health, ticks: seq<Tick>, insertOk: bool)
    requires !health.storageDegraded
    ensures var flag := Flushed(Run(health, ticks), insertOk).health.storageDegraded;
      && flag == StorageFault(ticks)
      && (flag == FaultAfterFlush(ticks, insertOk) <==> |ticks| % 5 == 0 || insertOk != StorageFault(ticks))
  {
    StorageFlagIsLatestVerdict(health, ticks);
    BatchesAreTheCollectedFives(health, ticks);
  }

  /** Runs it fails on: up to four samples, and a flush of them that storage
      refuses, with the flag still clear. */
  lemma RefusedFlushLeavesTheFlagClear(health: Health, ticks: seq<Tick>)
    requires !health.storageDegraded && 0 < |ticks| < 5
    ensures !Flushed(Run(health, ticks), false).health.storageDegraded && FaultAfterFlush(ticks, false)
  {
    FlushKeepsTheFlagHonestExactly(health, ticks, false);
    NoVerdictYet(ticks);
  }

  lemma {:induction false} NoVerdictYet(ticks: seq<Tick>)
    requires |ticks| < 5
    ensures !StorageFault(ticks)
  {
    if ticks != [] { NoVerdictYet(ticks[..|ticks| - 1]); }
  }

  // ----- the published health

  /** The place of a flag among the degradation lines. */
  function FlagPlace(flag: Flag): nat {
    match flag
    case CollectorDegraded => 0
    case StorageDegraded => 1
    case RemoteListenerDegraded => 2
  }

  /** The degradation lines name each flag that is set, once and in a fixed order,
      and nothing else. */
  lemma FlagLinesExactly(h: Health)
    ensures FlagLine(CollectorDegraded) in FlagLines(h) <==> h.collectorDegraded
    ensures FlagLine(StorageDegraded) in FlagLines(h) <==> h.storageDegraded
    ensures FlagLine(RemoteListenerDegraded) in FlagLines(h) <==> h.remoteListenerDegraded
    ensures forall i :: 0 <= i < |FlagLines(h)| ==> FlagLines(h)[i].FlagLine?
    ensures forall i, k :: 0 <= i < k < |FlagLines(h)| ==>
      FlagPlace(FlagLines(h)[i].flag) < FlagPlace(FlagLines(h)[k].flag)
  {
  }

  /** The published state and lines are what the flags and the current alerts
      project to. */
  predicate Projected(st: State) {
    st.health ==
      Project(st.health, Engine.WorstActiveSeverity(st.engine.active), Engine.ActiveDetails(st.engine.active))
  }

  predicate HealthStep(st: State, st': State, tick: Tick) {
    && st'.engine == Engine.Tick(st.engine, tick.sample, tick.rules).0
    && Projected(st')
    && st'.health.collectorDegraded == (tick.sample.errors != [])
    && st'.health.remoteListenerDegraded == st.health.remoteListenerDegraded
  }

  lemma StepHealth(st: State, tick: Tick)
    ensures HealthStep(st, Step(st, tick), tick)
  {
    var a := Evaluated(st, tick);
    assert HealthStep(st, a, tick);
    var b := Persisted(a, tick);
    assert HealthStep(st, b, tick);
  }

  function EngineTicks(ticks: seq<Tick>): seq<Engine.TickInput> {
    seq(|ticks|, i requires 0 <= i < |ticks| => Engine.TickInput(ticks[i].sample, ticks[i].rules))
  }

  lemma EngineRunSnoc(ticks: seq<Tick>)
    requires ticks != []
    ensures var n := |ticks| - 1;
      Engine.Run(EngineTicks(ticks)) ==
        Engine.Tick(Engine.Run(EngineTicks(ticks[..n])), ticks[n].sample, ticks[n].rules).0
  {
    assert EngineTicks(ticks)[..|ticks| - 1] == EngineTicks(ticks[..|ticks| - 1]);
  }

  lemma {:induction false} HealthIterate(step: (State, Tick) -> State, start: State, ticks: seq<Tick>)
    requires forall st: State, t: Tick :: HealthStep(st, step(st, t), t)
    requires start.engine == Engine.Run([])
    ensures var st := Iterate(step, start, ticks);
      && st.engine == Engine.Run(EngineTicks(ticks))
      && (ticks != [] ==> Projected(st) && st.health.collectorDegraded == (ticks[|ticks| - 1].sample.errors != []))
      && st.health.remoteListenerDegraded == start.health.remoteListenerDegraded
    decreases |ticks|
  {
    if ticks != [] {
      var n := |ticks| - 1;
      HealthIterate(step, start, ticks[..n]);
      var st := Iterate(step, start, ticks[..n]);
      var st' := step(st, ticks[n]);
      assert HealthStep(st, st', ticks[n]);
      EngineRunSnoc(ticks);
      assert Iterate(step, start, ticks) == st';
    }
  }

  /** The rules each tick was given are what resolution supplies. */
  predicate ResolvedRules(ticks: seq<Tick>) {
    forall i :: 0 <= i < |ticks| ==>
      Engine.UniqueRules(ticks[i].rules) && forall k :: 0 <= k < |ticks[i].rules| ==> ValidRule(ticks[i].rules[k])
  }

  /** Some rule of the last tick with this severity has been breached for as many
      consecutive ticks as it requires. */
  predicate SustainedAt(ticks: seq<Tick>, severity: NodeState)
    requires ticks != []
  {
    var rules := ticks[|ticks| - 1].rules;
    exists i :: 0 <= i < |rules| && rules[i].severity == severity &&
                Engine.Streak(EngineTicks(ticks), rules[i].id) >= 1 &&
                Engine.Streak(EngineTicks(ticks), rules[i].id) >= rules[i].consecutiveSamples
  }

  /** Which alerts are active, told from the history of ticks alone. */
  lemma ActiveSeverities(ticks: seq<Tick>, severity: NodeState)
    requires ticks != [] && ResolvedRules(ticks)
    ensures SustainedAt(ticks, severity) <==>
      exists id :: id in Engine.Run(EngineTicks(ticks)).active
        && Engine.Run(EngineTicks(ticks)).active[id].severity == severity
  {
    var inputs := EngineTicks(ticks);
    var rules := ticks[|ticks| - 1].rules;
    var active := Engine.Run(inputs).active;
    if SustainedAt(ticks, severity) {
      var i :| 0 <= i < |rules| && rules[i].severity == severity
        && Engine.Streak(inputs, rules[i].id) >= 1
        && Engine.Streak(inputs, rules[i].id) >= rules[i].consecutiveSamples;
      ActiveAlertIs(ticks, rules[i].id);
      assert Engine.RuleIndex(rules, rules[i].id) == i;
    }
    if id :| id in active && active[id].severity == severity {
      ActiveAlertIs(ticks, id);
    }
  }

  /** An id is active exactly when its current rule is sustained, and it then
      carries that rule's severity. */
  lemma ActiveAlertIs(ticks: seq<Tick>, id: string)
    requires ticks != [] && ResolvedRules(ticks)
    ensures var inputs := EngineTicks(ticks);
      var rules := ticks[|ticks| - 1].rules;
      var i := Engine.RuleIndex(rules, id);
      && (id in Engine.Run(inputs).active <==>
            i < |rules| && Engine.Streak(inputs, id) >= 1 && Engine.Streak(inputs, id) >= rules[i].consecutiveSamples)
      && (id in Engine.Run(inputs).active ==>
            Engine.Run(inputs).active[id].severity == rules[i].severity ==
              Engine.Run(inputs).active[id].detail.rule.severity)
  {
    var inputs := EngineTicks(ticks);
    var n := |inputs| - 1;
    Engine.ActiveIsSustainedStreak(inputs, id);
    Engine.TickSettles(Engine.Run(inputs[..n]), inputs[n], id);
  }

  /** Main result. After every step the published state is Degraded exactly when a
      degradation flag is set, and otherwise Critical, Warning or Healthy by the
      worst rule that has been sustained; the degradation lines lead and the alert
      lines follow, the worst severity first. */
  lemma PublishedStateIsTheWorstSustainedRule(health: Health, ticks: seq<Tick>)
    requires ticks != [] && ResolvedRules(ticks)
    ensures var st := Run(health, ticks);
      && st.health.state == (if AnyFlag(st.health) then Degraded
                             else if SustainedAt(ticks, Critical) then Critical
                             else if SustainedAt(ticks, Warning) then Warning
                             else Healthy)
      && st.health.details ==
        FlagLines(st.health) + AlertLines(Engine.ActiveDetails(Engine.Run(EngineTicks(ticks)).active))
      && (var lines := Engine.ActiveDetails(Engine.Run(EngineTicks(ticks)).active);
          forall i, k :: 0 <= i < k < |lines| ==>
            Engine.SeverityRank(lines[i].rule.severity) >= Engine.SeverityRank(lines[k].rule.severity))
      && st.health.collectorDegraded == (ticks[|ticks| - 1].sample.errors != [])
      && st.health.remoteListenerDegraded == health.remoteListenerDegraded
  {
    assert HealthOfRun(health, ticks) by {
      forall st: State, t: Tick ensures HealthStep(st, Step(st, t), t) { StepHealth(st, t); }
      HealthIterate(Step, Initial(health), ticks);
    }
    var active := Engine.Run(EngineTicks(ticks)).active;
    WorstByRules(ticks, active);
    forall id | id in active ensures active[id].detail.rule.severity == active[id].severity {
      ActiveAlertIs(ticks, id);
    }
    Engine.DetailsWorstFirst(active);
  }

  predicate HealthOfRun(health: Health, ticks: seq<Tick>)
    requires ticks != []
  {
    var st := Run(health, ticks);
    && st.engine == Engine.Run(EngineTicks(ticks)) && Projected(st)
    && st.health.collectorDegraded == (ticks[|ticks| - 1].sample.errors != [])
    && st.health.remoteListenerDegraded == health.remoteListenerDegraded
  }

  lemma WorstByRules(ticks: seq<Tick>, active: map<string, Engine.ActiveAlert>)
    requires ticks != [] && ResolvedRules(ticks) && active == Engine.Run(EngineTicks(ticks)).active
    ensures Engine.WorstActiveSeverity(active) ==
      if SustainedAt(ticks, Critical) then Some(Critical) else if SustainedAt(ticks, Warning) then Some(Warning)
        else None
  {
    ActiveSeverities(ticks, Critical);
    ActiveSeverities(ticks, Warning);
    Engine.WorstSeverityIsActive(active);
    forall id | id in active ensures active[id].severity.Critical? || active[id].severity.Warning? {
      ActiveAlertIs(ticks, id);
    }
    forall id | id in active
      ensures Engine.WorstActiveSeverity(active).Some?
              && Engine.SeverityRank(active[id].severity) <=
                Engine.SeverityRank(Engine.WorstActiveSeverity(active).value)
    {
      Engine.WorstSeverityIsWorst(active, id);
    }
  }
}
