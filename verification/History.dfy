/** The metric store: raw samples keyed by millisecond and minute rows kept
    beside them, with retention and an oldest-first size cap. */
module History {
  import opened Common
  import opened Metrics
  import opened Order
  import opened MinuteRows

  const MINUTE_MS: int := 60_000
  const RAW_RETENTION_MS: int := 86_400_000
  const MINUTE_RETENTION_MS: int := 604_800_000
  const DELETE_BATCH: nat := 1_000

  /** `div_euclid(MINUTE_MS) * MINUTE_MS`. */
  function MinuteOf(timestampMs: int): int {
    timestampMs / MINUTE_MS * MINUTE_MS
  }

  // ----- the two tables

  datatype Tables = Tables(raw: map<int, MetricSample>, minutes: map<int, MinuteRow>)

  /** The samples accepted into each minute since its row was created. */
  type Log = map<int, seq<MetricSample>>

  /** One turn of the insert loop: the first sample of a millisecond is kept and
      a duplicate is counted nowhere. */
  function Accept(t: Tables, s: MetricSample): Tables {
    if s.timestampMs in t.raw then t
    else
      var m := MinuteOf(s.timestampMs);
      Tables(t.raw[s.timestampMs := s],
             t.minutes[m := if m in t.minutes then MergeRow(t.minutes[m], s) else FirstRow(s)])
  }

  function AcceptAll(t: Tables, samples: seq<MetricSample>): Tables {
    if samples == [] then t else Accept(AcceptAll(t, samples[..|samples| - 1]), samples[|samples| - 1])
  }

  ghost function Logged(log: Log, t: Tables, s: MetricSample): Log {
    var m := MinuteOf(s.timestampMs);
    if s.timestampMs in t.raw then log
    else log[m := (if m in log then log[m] else []) + [s]]
  }

  /** Every minute row is the fold over the samples logged for it, all of which
      belong to that minute. */
  ghost predicate MinutesAgree(t: Tables, log: Log) {
    && t.minutes.Keys == log.Keys
    && forall m :: m in log ==> RowFolds(t.minutes[m], log[m])
  }

  predicate InMinute(samples: seq<MetricSample>, m: int) {
    forall s :: s in samples ==> MinuteOf(s.timestampMs) == m
  }

  /** Every raw row is keyed by its timestamp and was accepted into its minute
      since that minute's row was created. */
  ghost predicate RawAgrees(raw: map<int, MetricSample>, log: Log) {
    && (forall m :: m in log ==> InMinute(log[m], m))
    && forall ts :: ts in raw ==> raw[ts].timestampMs == ts && MinuteOf(ts) in log && raw[ts] in log[MinuteOf(ts)]
  }

  /** The invariant of every reachable store. */
  ghost predicate Agree(t: Tables, log: Log) {
    MinutesAgree(t, log) && RawAgrees(t.raw, log)
  }

  lemma AgreeWith(t: Tables, log: Log, t': Tables, log': Log, m: int)
    requires MinutesAgree(t, log) && m in t'.minutes && m in log' && RowFolds(t'.minutes[m], log'[m])
    requires t'.minutes == t.minutes[m := t'.minutes[m]] && log' == log[m := log'[m]]
    ensures MinutesAgree(t', log')
  {
  }

  lemma AcceptedRowFolds(t: Tables, log: Log, s: MetricSample)
    requires MinutesAgree(t, log) && s.timestampMs !in t.raw
    ensures var m := MinuteOf(s.timestampMs);
      RowFolds(Accept(t, s).minutes[m], Logged(log, t, s)[m])
  {
    var m := MinuteOf(s.timestampMs);
    if m in log {
      assert RowFolds(t.minutes[m], log[m]);
      MergeFolds(t.minutes[m], log[m], s);
    } else {
      FirstFolds(s);
      assert [] + [s] == [s];
    }
  }

  lemma AcceptMinutes(t: Tables, log: Log, s: MetricSample)
    requires MinutesAgree(t, log)
    ensures MinutesAgree(Accept(t, s), Logged(log, t, s))
  {
    if s.timestampMs !in t.raw {
      AcceptedRowFolds(t, log, s);
      AgreeWith(t, log, Accept(t, s), Logged(log, t, s), MinuteOf(s.timestampMs));
    }
  }

  lemma AcceptRaw(t: Tables, log: Log, s: MetricSample)
    requires RawAgrees(t.raw, log)
    ensures RawAgrees(Accept(t, s).raw, Logged(log, t, s))
  {
    var m := MinuteOf(s.timestampMs);
    var log' := Logged(log, t, s);
    if s.timestampMs !in t.raw {
      assert log'[m][|log'[m]| - 1] == s;
      assert m in log ==> forall x :: x in log[m] ==> x in log'[m];
      assert m in log ==> InMinute(log[m], m);
    }
  }

  /** The insert loop keeps the tables in agreement with what it accepted. */
  lemma AcceptAgrees(t: Tables, log: Log, s: MetricSample)
    requires Agree(t, log)
    ensures Agree(Accept(t, s), Logged(log, t, s))
  {
    AcceptMinutes(t, log, s);
    AcceptRaw(t, log, s);
  }

  // ----- what an insert stores

  /** The minute a millisecond falls in: a multiple of 60,000 at most that much
      earlier, also before the epoch. */
  lemma MinuteOfIsFloor(ts: int)
    ensures MinuteOf(ts) % 60_000 == 0 && MinuteOf(ts) <= ts < MinuteOf(ts) + 60_000
  {
  }

  /** Stored rows stay as they were; every timestamp of the batch is stored, a new
      one with the first sample that has it; nothing else appears. */
  predicate StoresFirsts(raw: map<int, MetricSample>, raw': map<int, MetricSample>, samples: seq<MetricSample>) {
    && (forall ts :: ts in raw ==> ts in raw' && raw'[ts] == raw[ts])
    && (forall i :: 0 <= i < |samples| ==> samples[i].timestampMs in raw')
    && (forall ts :: ts in raw' && ts !in raw ==> exists i :: 0 <= i < |samples| && samples[i].timestampMs == ts)
    && (forall i :: 0 <= i < |samples| && samples[i].timestampMs !in raw && FirstOfItsTime(samples, i) ==>
          raw'[samples[i].timestampMs] == samples[i])
  }

  predicate FirstOfItsTime(samples: seq<MetricSample>, i: nat)
    requires i < |samples|
  {
    forall k :: 0 <= k < i ==> samples[k].timestampMs != samples[i].timestampMs
  }

  lemma StoresOneMore(raw: map<int, MetricSample>, mid: map<int, MetricSample>,
                      before: seq<MetricSample>, s: MetricSample)
    requires StoresFirsts(raw, mid, before)
    ensures var raw' := if s.timestampMs in mid then mid else mid[s.timestampMs := s];
      StoresFirsts(raw, raw', before + [s])
  {
    var raw' := if s.timestampMs in mid then mid else mid[s.timestampMs := s];
    var all := before + [s];
    forall ts | ts in raw' && ts !in raw ensures exists i :: 0 <= i < |all| && all[i].timestampMs == ts {
      if ts in mid {
        var i :| 0 <= i < |before| && before[i].timestampMs == ts;
        assert all[i].timestampMs == ts;
      } else {
        assert all[|before|].timestampMs == ts;
      }
    }
    forall i | 0 <= i < |all| && all[i].timestampMs !in raw && FirstOfItsTime(all, i)
      ensures raw'[all[i].timestampMs] == all[i]
    {
      StoredAsFirst(raw, mid, before, s, i);
    }
  }

  lemma StoredAsFirst(raw: map<int, MetricSample>, mid: map<int, MetricSample>,
                      before: seq<MetricSample>, s: MetricSample, i: nat)
    requires StoresFirsts(raw, mid, before) && i <= |before|
    requires (before + [s])[i].timestampMs !in raw && FirstOfItsTime(before + [s], i)
    ensures var raw' := if s.timestampMs in mid then mid else mid[s.timestampMs := s];
      (before + [s])[i].timestampMs in raw' && raw'[(before + [s])[i].timestampMs] == (before + [s])[i]
  {
    var all := before + [s];
    if i < |before| {
      assert all[i] == before[i] && forall k :: 0 <= k < i ==> all[k] == before[k];
      assert FirstOfItsTime(before, i);
    } else {
      assert forall k :: 0 <= k < |before| ==> all[k] == before[k] && before[k].timestampMs != s.timestampMs;
      assert s.timestampMs !in mid;
    }
  }

  /** Main result. What an insert does to raw history, sample by sample. */
  lemma {:induction false} InsertStoresFirsts(t: Tables, samples: seq<MetricSample>)
    ensures StoresFirsts(t.raw, AcceptAll(t, samples).raw, samples)
    decreases |samples|
  {
    if samples != [] {
      var before, s := samples[..|samples| - 1], samples[|samples| - 1];
      InsertStoresFirsts(t, before);
      StoresOneMore(t.raw, AcceptAll(t, before).raw, before, s);
      assert samples == before + [s];
    }
  }

  /** The raw rows of minute `m` that are new. */
  function NewRows(raw: map<int, MetricSample>, raw': map<int, MetricSample>, m: int): set<int> {
    set ts | ts in raw' && ts !in raw && MinuteOf(ts) == m
  }

  function CountOf(t: Tables, m: int): nat {
    if m in t.minutes then t.minutes[m].sampleCount else 0
  }

  predicate CountsNewRows(t: Tables, t': Tables, m: int) {
    var fresh' := NewRows(t.raw, t'.raw, m);
    && (m in t'.minutes <==> m in t.minutes || fresh' != {})
    && CountOf(t', m) == CountOf(t, m) + |fresh'|
    && (fresh' == {} && m in t.minutes ==> t'.minutes[m] == t.minutes[m])
  }

  lemma AcceptCounts(t: Tables, mid: Tables, s: MetricSample, m: int)
    requires (forall ts :: ts in t.raw ==> ts in mid.raw) && CountsNewRows(t, mid, m)
    ensures CountsNewRows(t, Accept(mid, s), m)
  {
    var t' := Accept(mid, s);
    var old', new' := NewRows(t.raw, mid.raw, m), NewRows(t.raw, t'.raw, m);
    if s.timestampMs in mid.raw || MinuteOf(s.timestampMs) != m {
      assert new' == old';
    } else {
      assert new' == old' + {s.timestampMs};
    }
  }

  /** Main result. An insert adds to each minute's sample count exactly the number
      of raw rows it added in that minute, and leaves the rows of other minutes as
      they were. */
  lemma {:induction false} InsertCountsNewRows(t: Tables, samples: seq<MetricSample>, m: int)
    ensures CountsNewRows(t, AcceptAll(t, samples), m)
    decreases |samples|
  {
    if samples == [] {
      assert NewRows(t.raw, t.raw, m) == {};
    } else {
      var before := samples[..|samples| - 1];
      InsertCountsNewRows(t, before, m);
      InsertStoresFirsts(t, before);
      AcceptCounts(t, AcceptAll(t, before), samples[|samples| - 1], m);
    }
  }

  // ----- deletions

  ghost function Kept(log: Log, t: Tables): Log {
    map m | m in log && m in t.minutes :: log[m]
  }

  /** Any deletion that leaves the minute row of every surviving raw row. */
  ghost predicate DeletesTo(t: Tables, t': Tables) {
    && (forall ts :: ts in t'.raw ==> ts in t.raw && t'.raw[ts] == t.raw[ts] && MinuteOf(ts) in t'.minutes)
    && (forall m :: m in t'.minutes ==> m in t.minutes && t'.minutes[m] == t.minutes[m])
  }

  lemma DeletionAgrees(t: Tables, t': Tables, log: Log)
    requires Agree(t, log) && DeletesTo(t, t')
    ensures Agree(t', Kept(log, t'))
  {
    var log' := Kept(log, t');
    assert forall m :: m in t'.minutes.Keys <==> m in log'.Keys;
  }

  /** The two retention deletes of `prune`. */
  function Retain(t: Tables, nowMs: int): Tables {
    Tables(map ts | ts in t.raw && ts >= nowMs - RAW_RETENTION_MS :: t.raw[ts],
           map m | m in t.minutes && m >= nowMs - MINUTE_RETENTION_MS :: t.minutes[m])
  }

  lemma RetainDeletes(t: Tables, log: Log, nowMs: int)
    requires Agree(t, log)
    ensures DeletesTo(t, Retain(t, nowMs))
  {
    forall ts | ts in Retain(t, nowMs).raw ensures MinuteOf(ts) in Retain(t, nowMs).minutes {
      assert MinuteOf(ts) > ts - MINUTE_MS;
    }
  }

  /** The rows with the `m` greatest keys. */
  function Newest<V>(table: map<int, V>, m: nat): map<int, V>
    decreases |table|
  {
    if |table| <= m then table else Newest(table - {Least(table.Keys)}, m)
  }

  /** `DELETE ... WHERE key IN (SELECT key ... ORDER BY key LIMIT n)`. */
  function DropOldest<V>(table: map<int, V>, n: nat): map<int, V> {
    Newest(table, if n <= |table| then |table| - n else 0)
  }

  lemma WithoutLeast<V>(table: map<int, V>)
    requires |table| > 0
    ensures var rest := table - {Least(table.Keys)};
      |rest| == |table| - 1 && forall k :: k in table <==> k in rest || k == Least(table.Keys)
  {
    assert (table - {Least(table.Keys)}).Keys == table.Keys - {Least(table.Keys)};
  }

  lemma {:induction false} NewestTwice<V>(table: map<int, V>, m: nat, k: nat)
    requires k <= m
    ensures Newest(Newest(table, m), k) == Newest(table, k)
    decreases |table|
  {
    if |table| > m { NewestTwice(table - {Least(table.Keys)}, m, k); }
  }

  lemma {:induction false} NewestAreNewest<V>(table: map<int, V>, m: nat)
    ensures var kept := Newest(table, m);
      && |kept| == (if |table| <= m then |table| else m)
      && (forall k :: k in kept ==> k in table && kept[k] == table[k])
      && (forall k, d :: k in kept && d in table && d !in kept ==> d < k)
    decreases |table|
  {
    if |table| > m {
      WithoutLeast(table);
      NewestAreNewest(table - {Least(table.Keys)}, m);
    }
  }

  lemma DropOldestTwice<V>(table: map<int, V>, a: nat, b: nat)
    ensures DropOldest(DropOldest(table, a), b) == DropOldest(table, a + b)
  {
    var m := if a <= |table| then |table| - a else 0;
    NewestAreNewest(table, m);
    NewestTwice(table, m, if b <= m then m - b else 0);
  }

  /** Deleting the oldest rows keeps the newest: `n` fewer, and every survivor
      is unchanged and newer than every row deleted. */
  lemma DropOldestKeepsNewest<V>(table: map<int, V>, n: nat)
    ensures var kept := DropOldest(table, n);
      && |kept| == (if n <= |table| then |table| - n else 0)
      && (forall k :: k in kept ==> k in table && kept[k] == table[k])
      && (forall k, d :: k in kept && d in table && d !in kept ==> d < k)
  {
    NewestAreNewest(table, if n <= |table| then |table| - n else 0);
  }

  // ----- the size cap

  /** One look at the database size, and whether the delete after it fails. */
  datatype Look = SizeFailed | Live(bytes: int, deleteFails: bool)

  datatype Capped = Capped(tables: Tables, ok: bool, looks: nat)

  /** The size-cap loop from its `k`-th look on; `looks` is any oracle. */
  function EnforceCap(t: Tables, cap: int, looks: nat -> Look, k: nat): Capped
    decreases |t.raw| + |t.minutes|
  {
    DropOldestKeepsNewest(t.raw, DELETE_BATCH);
    DropOldestKeepsNewest(t.minutes, DELETE_BATCH);
    match looks(k)
    case SizeFailed => Capped(t, false, k)
    case Live(bytes, deleteFails) =>
      if bytes <= cap then Capped(t, true, k)
      else if deleteFails then Capped(t, false, k)
      else if |t.raw| > 0 then EnforceCap(t.(raw := DropOldest(t.raw, DELETE_BATCH)), cap, looks, k + 1)
      else if |t.minutes| > 0 then EnforceCap(t.(minutes := DropOldest(t.minutes, DELETE_BATCH)), cap, looks, k + 1)
      else Capped(t, true, k)
  }

  /** `after` is `t` without its oldest rows: `a` rounds of raw deletions, then
      `b` of minute deletions, the latter only once no raw row was left. */
  ghost predicate Trimmed(t: Tables, after: Tables, a: nat, b: nat) {
    && after.raw == DropOldest(t.raw, 1000 * a)
    && after.minutes == DropOldest(t.minutes, 1000 * b)
    && (b > 0 ==> after.raw == map[])
  }

  lemma TrimNothing(t: Tables)
    ensures Trimmed(t, t, 0, 0)
  {
    assert DropOldest(t.raw, 0) == t.raw && DropOldest(t.minutes, 0) == t.minutes;
  }

  /** What one round deletes. */
  function OneRound(t: Tables): Tables {
    if |t.raw| > 0 then t.(raw := DropOldest(t.raw, DELETE_BATCH))
      else t.(minutes := DropOldest(t.minutes, DELETE_BATCH))
  }

  function Rounds(t: Tables, n: nat): Tables
    decreases n
  {
    if n == 0 then t else Rounds(OneRound(t), n - 1)
  }

  lemma TrimRaw(t: Tables, after: Tables, a: nat, b: nat)
    requires Trimmed(t.(raw := DropOldest(t.raw, DELETE_BATCH)), after, a, b)
    ensures Trimmed(t, after, a + 1, b)
  {
    DropOldestTwice(t.raw, DELETE_BATCH, DELETE_BATCH * a);
    assert DELETE_BATCH + DELETE_BATCH * a == DELETE_BATCH * (a + 1);
  }

  lemma TrimMinutes(t: Tables, after: Tables, a: nat, b: nat)
    requires |t.raw| == 0 && Trimmed(t.(minutes := DropOldest(t.minutes, DELETE_BATCH)), after, a, b)
    ensures Trimmed(t, after, a, b + 1)
  {
    DropOldestTwice(t.minutes, DELETE_BATCH, DELETE_BATCH * b);
    assert DELETE_BATCH + DELETE_BATCH * b == DELETE_BATCH * (b + 1);
    DropOldestKeepsNewest(t.raw, DELETE_BATCH * a);
    assert |after.raw| == 0;
  }

  lemma {:induction false} RoundsTrim(t: Tables, n: nat) returns (a: nat, b: nat)
    ensures Trimmed(t, Rounds(t, n), a, b) && a + b == n
    decreases n
  {
    if n == 0 {
      TrimNothing(t);
      a, b := 0, 0;
    } else {
      var a', b' := RoundsTrim(OneRound(t), n - 1);
      if |t.raw| > 0 {
        TrimRaw(t, Rounds(t, n), a', b');
        a, b := a' + 1, b';
      } else {
        TrimMinutes(t, Rounds(t, n), a', b');
        a, b := a', b' + 1;
      }
    }
  }

  /** Without a fault the loop ends with its last look within the cap, or with
      both tables empty. */
  lemma {:induction false} CapIsReached(t: Tables, cap: int, looks: nat -> Look, k: nat)
    ensures var r := EnforceCap(t, cap, looks, k);
      r.ok ==> (looks(r.looks).Live? && looks(r.looks).bytes <= cap) || |r.tables.raw| + |r.tables.minutes| == 0
    decreases |t.raw| + |t.minutes|
  {
    DropOldestKeepsNewest(t.raw, DELETE_BATCH);
    DropOldestKeepsNewest(t.minutes, DELETE_BATCH);
    if looks(k).SizeFailed? || looks(k).bytes <= cap || looks(k).deleteFails || |t.raw| + |t.minutes| == 0 {
    } else if |t.raw| > 0 {
      CapIsReached(t.(raw := DropOldest(t.raw, DELETE_BATCH)), cap, looks, k + 1);
    } else {
      CapIsReached(t.(minutes := DropOldest(t.minutes, DELETE_BATCH)), cap, looks, k + 1);
    }
  }

  predicate CapStops(t: Tables, cap: int, look: Look) {
    look.SizeFailed? || look.bytes <= cap || look.deleteFails || |t.raw| + |t.minutes| == 0
  }

  /** One round of the loop. */
  lemma CapUnfolds(t: Tables, cap: int, looks: nat -> Look, k: nat)
    ensures CapStops(t, cap, looks(k)) ==>
      EnforceCap(t, cap, looks, k).tables == t && EnforceCap(t, cap, looks, k).looks == k
    ensures !CapStops(t, cap, looks(k)) ==>
      && |OneRound(t).raw| + |OneRound(t).minutes| < |t.raw| + |t.minutes|
      && EnforceCap(t, cap, looks, k) == EnforceCap(OneRound(t), cap, looks, k + 1)
  {
    DropOldestKeepsNewest(t.raw, DELETE_BATCH);
    DropOldestKeepsNewest(t.minutes, DELETE_BATCH);
  }

  lemma {:induction false} CapIsRounds(t: Tables, cap: int, looks: nat -> Look, k: nat)
    ensures var r := EnforceCap(t, cap, looks, k); r.looks >= k && r.tables == Rounds(t, r.looks - k)
    decreases |t.raw| + |t.minutes|
  {
    CapUnfolds(t, cap, looks, k);
    if !CapStops(t, cap, looks(k)) { CapIsRounds(OneRound(t), cap, looks, k + 1); }
  }

  /** Main result. Under any size oracle, and even when a fault stops it, the loop
      has deleted only the oldest raw rows, a thousand per round, and then the
      oldest minute rows, which it touches only once no raw row is left. */
  lemma CapKeepsTheNewest(t: Tables, cap: int, looks: nat -> Look) returns (a: nat, b: nat)
    ensures Trimmed(t, EnforceCap(t, cap, looks, 0).tables, a, b)
    ensures a + b == EnforceCap(t, cap, looks, 0).looks
  {
    CapIsRounds(t, cap, looks, 0);
    a, b := RoundsTrim(t, EnforceCap(t, cap, looks, 0).looks);
  }

  /** What the cap loop leaves is a legal deletion: no raw row is orphaned. */
  lemma CapDeletes(t: Tables, log: Log, cap: int, looks: nat -> Look)
    requires Agree(t, log)
    ensures DeletesTo(t, EnforceCap(t, cap, looks, 0).tables)
  {
    var a, b := CapKeepsTheNewest(t, cap, looks);
    DropOldestKeepsNewest(t.raw, DELETE_BATCH * a);
    DropOldestKeepsNewest(t.minutes, DELETE_BATCH * b);
    TrimNothing(t);
    var after := EnforceCap(t, cap, looks, 0).tables;
    if b == 0 { assert after.minutes == t.minutes; }
  }

  /** Every round of the loop was justified: its look found more than the cap. */
  lemma {:induction false} CapDeletesOnlyOverTheCap(t: Tables, cap: int, looks: nat -> Look, k: nat)
    ensures var r := EnforceCap(t, cap, looks, k);
      && r.looks >= k
      && (forall i :: k <= i < r.looks ==> looks(i).Live? && looks(i).bytes > cap && !looks(i).deleteFails)
    decreases |t.raw| + |t.minutes|
  {
    CapUnfolds(t, cap, looks, k);
    if !CapStops(t, cap, looks(k)) { CapDeletesOnlyOverTheCap(OneRound(t), cap, looks, k + 1); }
  }

  /** The loop reports success exactly when its last look succeeded and found the
      size within the cap, or nothing left to delete. */
  lemma {:induction false} CapVerdictExactly(t: Tables, cap: int, looks: nat -> Look, k: nat)
    ensures var r := EnforceCap(t, cap, looks, k);
      var last := looks(r.looks);
      r.ok <==> last.Live? && (last.bytes <= cap || (!last.deleteFails && |r.tables.raw| + |r.tables.minutes| == 0))
    decreases |t.raw| + |t.minutes|
  {
    CapUnfolds(t, cap, looks, k);
    if !CapStops(t, cap, looks(k)) { CapVerdictExactly(OneRound(t), cap, looks, k + 1); }
  }

  /** Main result. A prune that finds the size within the cap keeps exactly the raw
      rows of the last 24 hours and the minute rows of the last 7 days, unchanged. */
  lemma PruneWithinTheCap(t: Tables, nowMs: int, cap: int, looks: nat -> Look)
    requires looks(0).Live? && looks(0).bytes <= cap
    ensures var t' := Perform(t, Prune(nowMs, cap, looks, true));
      && (forall ts :: ts in t'.raw <==> ts in t.raw && ts >= nowMs - 86_400_000)
      && (forall ts :: ts in t'.raw ==> t'.raw[ts] == t.raw[ts])
      && (forall m :: m in t'.minutes <==> m in t.minutes && m >= nowMs - 604_800_000)
      && (forall m :: m in t'.minutes ==> t'.minutes[m] == t.minutes[m])
  {
  }

  /** Main result. Whatever the sizes and faults, a row that a prune removed is past
      its retention, or the cap loop took it: then the size was over the cap, and
      every row left in its table is newer. A minute row goes to the cap loop only
      when no raw row is left. Rows that stay are unchanged, and without a commit
      nothing goes. */
  lemma PruneRemovesOnly(t: Tables, nowMs: int, cap: int, looks: nat -> Look, commits: bool)
    ensures var t' := Perform(t, Prune(nowMs, cap, looks, commits));
      && (!commits ==> t' == t)
      && (forall ts :: ts in t'.raw ==> ts in t.raw && t'.raw[ts] == t.raw[ts])
      && (forall m :: m in t'.minutes ==> m in t.minutes && t'.minutes[m] == t.minutes[m])
      && (forall ts :: ts in t.raw && ts !in t'.raw ==>
            ts < nowMs - 86_400_000 || (OverTheCap(looks, cap) && forall x :: x in t'.raw ==> ts < x))
      && (forall m :: m in t.minutes && m !in t'.minutes ==>
            || m < nowMs - 604_800_000
            || (OverTheCap(looks, cap) && t'.raw == map[] && forall x :: x in t'.minutes ==> m < x))
  {
    if commits {
      var mid := Retain(t, nowMs);
      var a, b := CapKeepsTheNewest(mid, cap, looks);
      CapDeletesOnlyOverTheCap(mid, cap, looks, 0);
      DropOldestKeepsNewest(mid.raw, 1000 * a);
      DropOldestKeepsNewest(mid.minutes, 1000 * b);
      TrimNothing(mid);
    }
  }

  predicate OverTheCap(looks: nat -> Look, cap: int) {
    looks(0).Live? && looks(0).bytes > cap
  }

  // ----- runs of the store

  datatype Op =
    | Insert(samples: seq<MetricSample>, commits: bool)
    | Prune(nowMs: int, cap: int, looks: nat -> Look, commits: bool)

  /** A transaction that does not commit changes nothing. */
  function Perform(t: Tables, op: Op): Tables {
    match op
    case Insert(samples, commits) => if commits then AcceptAll(t, samples) else t
    case Prune(now, cap, looks, commits) => if commits then EnforceCap(Retain(t, now), cap, looks, 0).tables else t
  }

  function Run(ops: seq<Op>): Tables {
    if ops == [] then Tables(map[], map[]) else Perform(Run(ops[..|ops| - 1]), ops[|ops| - 1])
  }

  ghost function LoggedAll(log: Log, t: Tables, samples: seq<MetricSample>): Log {
    if samples == [] then log
    else
      var before := samples[..|samples| - 1];
      Logged(LoggedAll(log, t, before), AcceptAll(t, before), samples[|samples| - 1])
  }

  ghost function LogAfter(log: Log, t: Tables, op: Op): Log {
    match op
    case Insert(samples, commits) => if commits then LoggedAll(log, t, samples) else log
    case Prune(_, _, _, commits) => if commits then Kept(log, Perform(t, op)) else log
  }

  ghost function RunLog(ops: seq<Op>): Log {
    if ops == [] then map[]
    else LogAfter(RunLog(ops[..|ops| - 1]), Run(ops[..|ops| - 1]), ops[|ops| - 1])
  }

  lemma {:induction false} AcceptAllAgrees(t: Tables, log: Log, samples: seq<MetricSample>)
    requires Agree(t, log)
    ensures Agree(AcceptAll(t, samples), LoggedAll(log, t, samples))
    decreases |samples|
  {
    if samples != [] {
      var before := samples[..|samples| - 1];
      AcceptAllAgrees(t, log, before);
      AcceptAgrees(AcceptAll(t, before), LoggedAll(log, t, before), samples[|samples| - 1]);
    }
  }

  lemma PruneAgrees(t: Tables, log: Log, nowMs: int, cap: int, looks: nat -> Look)
    requires Agree(t, log)
    ensures var t' := EnforceCap(Retain(t, nowMs), cap, looks, 0).tables;
      DeletesTo(t, t') && Agree(t', Kept(log, t'))
  {
    RetainDeletes(t, log, nowMs);
    var mid := Retain(t, nowMs);
    DeletionAgrees(t, mid, log);
    CapDeletes(mid, Kept(log, mid), cap, looks);
    DeletionAgrees(t, EnforceCap(mid, cap, looks, 0).tables, log);
  }

  /** Main result. After any run of inserts, prunes and cap enforcement, with any
      faults, every minute row's counts and sums are the fold over exactly the
      samples accepted into that minute since the row was created. */
  lemma {:induction false} EveryRunAgrees(ops: seq<Op>)
    ensures Agree(Run(ops), RunLog(ops))
    decreases |ops|
  {
    if ops != [] {
      var before := ops[..|ops| - 1];
      EveryRunAgrees(before);
      match ops[|ops| - 1]
      case Insert(samples, commits) => AcceptAllAgrees(Run(before), RunLog(before), samples);
      case Prune(now, cap, looks, commits) => PruneAgrees(Run(before), RunLog(before), now, cap, looks);
    }
  }

  /** The raw rows of one minute. */
  function RawRowsOf(t: Tables, m: int): set<int> {
    set ts | ts in t.raw && MinuteOf(ts) == m
  }

  lemma {:induction false} FewerTimestamps(samples: seq<MetricSample>)
    ensures |set s | s in samples :: s.timestampMs| <= |samples|
  {
    if samples != [] {
      var n := |samples| - 1;
      FewerTimestamps(samples[..n]);
      var before := set s | s in samples[..n] :: s.timestampMs;
      var all := set s | s in samples :: s.timestampMs;
      assert samples == samples[..n] + [samples[n]];
      assert all == before + {samples[n].timestampMs};
    }
  }

  lemma SubsetIsSmaller(a: set<int>, b: set<int>)
    requires a <= b
    ensures |a| <= |b|
  {
    assert b == a + (b - a);
  }

  /** Main result. In every reachable store each raw row's minute has a row, and
      a minute never has more raw rows than its sample count, whatever retention
      and the size cap deleted. */
  lemma RawNeverOutnumbersMinute(ops: seq<Op>, m: int)
    ensures RawRowsOf(Run(ops), m) != {} ==> m in Run(ops).minutes
    ensures m in Run(ops).minutes ==> |RawRowsOf(Run(ops), m)| <= Run(ops).minutes[m].sampleCount
  {
    EveryRunAgrees(ops);
    var t, log := Run(ops), RunLog(ops);
    if RawRowsOf(t, m) != {} {
      var ts := Member(RawRowsOf(t, m));
      assert MinuteOf(ts) in log;
    }
    if m in t.minutes {
      var stamps := set s: MetricSample | s in log[m] :: s.timestampMs;
      FewerTimestamps(log[m]);
      forall ts | ts in RawRowsOf(t, m) ensures ts in stamps {
        assert t.raw[ts] in log[m];
      }
      SubsetIsSmaller(RawRowsOf(t, m), stamps);
      assert RowFolds(t.minutes[m], log[m]);
    }
  }

  /** Main result, read back. In every reachable store a minute row can be read
      exactly as long as the true sums over the samples accepted into it fit in 64
      bits. Each average it is then read back as is absent exactly when the minute
      had no such reading and otherwise lies between the least and the greatest of
      them, and averaged disk and swap used stay within their averaged totals when
      no sample exceeded them. */
  lemma MinuteAveragesAreHonest(ops: seq<Op>, m: int)
    requires m in Run(ops).minutes
    ensures m in RunLog(ops)
    ensures var row, log := Run(ops).minutes[m], RunLog(ops)[m];
      && (Readable(row) <==> SumsFit(log))
      && (Readable(row) ==> Honest(ReadRow(m, row), log))
  {
    EveryRunAgrees(ops);
    var row, log := Run(ops).minutes[m], RunLog(ops)[m];
    ReadableExactly(row, log);
    if Readable(row) { RowIsHonest(m, row, log); }
  }

  ghost predicate Honest(read: MetricSample, log: seq<MetricSample>) {
    HonestMemory(read, log) && HonestNetwork(read, log) && HonestReals(read, log) && HonestDisk(read, log)
      && HonestSwap(read, log)
      && log != [] && HonestRest(read.timestampMs, read, log)
  }

  lemma RowIsHonest(m: int, row: MinuteRow, log: seq<MetricSample>)
    requires RowFolds(row, log) && Readable(row)
    ensures Honest(ReadRow(m, row), log)
  {
    ReadMemory(m, row, log);
    ReadNetwork(m, row, log);
    ReadReals(m, row, log);
    ReadDisk(m, row, log);
    ReadSwap(m, row, log);
    ReadRest(m, row, log);
  }

  /** A store on which it fails: two samples of one minute whose memory readings
      are the largest a 64-bit column holds. Every query that selects the minute
      fails from then on. */
  lemma LargestReadingsBreakAMinute(a: MetricSample, b: MetricSample)
    requires a.timestampMs != b.timestampMs && MinuteOf(a.timestampMs) == MinuteOf(b.timestampMs)
    requires a.memoryUsedBytes == Some(I64_MAX) && b.memoryUsedBytes == Some(I64_MAX)
    ensures var t := Run([Insert([a, b], true)]);
      MinuteOf(a.timestampMs) in t.minutes && !Readable(t.minutes[MinuteOf(a.timestampMs)])
  {
    RunOfTwo(a, b);
    MemoryOfTwo(a, b);
    TwoLargestOverflow();
    LargestIsReading(a);
    LargestIsReading(b);
  }

  lemma AcceptTwo(t: Tables, samples: seq<MetricSample>)
    requires |samples| == 2
    ensures AcceptAll(t, samples) == Accept(Accept(t, samples[0]), samples[1])
  {
    var one := samples[..1];
    assert one[..0] == [] && samples[..|samples| - 1] == one;
    assert AcceptAll(t, one) == Accept(t, one[0]);
  }

  lemma RunOfOne(ops: seq<Op>)
    requires |ops| == 1
    ensures Run(ops) == Perform(Tables(map[], map[]), ops[0])
  {
    assert ops[..0] == [];
  }

  lemma MinuteOfTwo(t: Tables, a: MetricSample, b: MetricSample)
    requires |t.raw| == 0 && |t.minutes| == 0
    requires a.timestampMs != b.timestampMs && MinuteOf(a.timestampMs) == MinuteOf(b.timestampMs)
    ensures var m := MinuteOf(a.timestampMs);
      m in Accept(Accept(t, a), b).minutes && Accept(Accept(t, a), b).minutes[m] == MergeRow(FirstRow(a), b)
  {
  }

  lemma RunOfTwo(a: MetricSample, b: MetricSample)
    requires a.timestampMs != b.timestampMs && MinuteOf(a.timestampMs) == MinuteOf(b.timestampMs)
    ensures var m := MinuteOf(a.timestampMs);
      var t := Run([Insert([a, b], true)]);
      m in t.minutes && t.minutes[m] == MergeRow(FirstRow(a), b)
  {
    RunOfOne([Insert([a, b], true)]);
    AcceptTwo(Tables(map[], map[]), [a, b]);
    MinuteOfTwo(Tables(map[], map[]), a, b);
  }

  lemma MemoryOfTwo(a: MetricSample, b: MetricSample)
    ensures MergeRow(FirstRow(a), b).memory == MergeInt(FirstInt(Memory(a)), FirstInt(Memory(b)))
  {
  }

  lemma TwoLargestOverflow()
    ensures MergeInt(FirstInt(Some(I64_MAX)), FirstInt(Some(I64_MAX))).sum.Overflowed?
  {
  }

  lemma LargestIsReading(a: MetricSample)
    requires a.memoryUsedBytes == Some(I64_MAX)
    ensures Memory(a) == Some(I64_MAX)
  {
  }

  // ----- queries

  datatype Resolution = Raw | Minute

  /** What a query at one resolution can return, by key. */
  function View(t: Tables, resolution: Resolution): map<int, MetricSample> {
    match resolution
    case Raw => t.raw
    case Minute => map m | m in t.minutes :: ReadRow(m, t.minutes[m])
  }

  predicate Keyed(view: map<int, MetricSample>) {
    forall k :: k in view ==> view[k].timestampMs == k
  }

  function InRange(view: map<int, MetricSample>, from: int, to: int): set<int> {
    set k | k in view && from <= k <= to
  }

  /** The keys `ORDER BY ... LIMIT` selects. */
  function PageKeys(view: map<int, MetricSample>, from: int, to: int, limit: nat): (r: seq<int>)
    ensures Ascending(r) && |r| <= limit
    ensures forall i :: 0 <= i < |r| ==> r[i] in view && from <= r[i] <= to
  {
    var keys := Ascend(InRange(view, from, to));
    AscendFacts(InRange(view, from, to));
    assert forall i :: 0 <= i < |keys| ==> keys[i] in keys && keys[i] in InRange(view, from, to);
    if |keys| <= limit then keys else keys[..limit]
  }

  /** They are the first of those in range, and all of them if the limit is not
      reached. */
  lemma PageKeysAreTheFirst(view: map<int, MetricSample>, from: int, to: int, limit: nat, k: int)
    requires k in view && from <= k <= to
    ensures var r := PageKeys(view, from, to, limit);
      k in r || (|r| == limit && forall i :: 0 <= i < |r| ==> r[i] < k)
  {
    var keys := Ascend(InRange(view, from, to));
    AscendFacts(InRange(view, from, to));
    assert k in InRange(view, from, to) && k in keys;
    var j :| 0 <= j < |keys| && keys[j] == k;
    if |keys| > limit { assert j < limit ==> keys[..limit][j] == k; }
  }

  /** A page holds the stored samples at raw resolution, and the minute rows read
      back at minute resolution, under the selected keys. */
  lemma PageHoldsStoredRows(t: Tables, from: int, to: int, limit: nat, i: nat)
    ensures i < |Page(View(t, Raw), from, to, limit)| ==>
      var ts := PageKeys(View(t, Raw), from, to, limit)[i];
      ts in t.raw && Page(View(t, Raw), from, to, limit)[i] == t.raw[ts]
    ensures i < |Page(View(t, Minute), from, to, limit)| ==>
      var m := PageKeys(View(t, Minute), from, to, limit)[i];
      m in t.minutes && Page(View(t, Minute), from, to, limit)[i] == ReadRow(m, t.minutes[m])
    ensures View(t, Raw).Keys == t.raw.Keys && View(t, Minute).Keys == t.minutes.Keys
  {
  }

  function Page(view: map<int, MetricSample>, from: int, to: int, limit: nat): seq<MetricSample> {
    RowsAt(view, PageKeys(view, from, to, limit))
  }

  function RowsAt(view: map<int, MetricSample>, keys: seq<int>): seq<MetricSample>
    requires forall i :: 0 <= i < |keys| ==> keys[i] in view
  {
    seq(|keys|, i requires 0 <= i < |keys| => view[keys[i]])
  }

  /** One selected row that does not read back fails the whole page. */
  predicate PageReads(t: Tables, from: int, to: int, resolution: Resolution, limit: nat) {
    resolution.Minute? ==>
      var keys := PageKeys(View(t, Minute), from, to, limit);
      forall i :: 0 <= i < |keys| ==> Readable(t.minutes[keys[i]])
  }

  /** A page of minute history reads exactly when the true sums of every minute it
      selects fit in 64 bits; a page of raw history always does. */
  lemma PageReadsExactly(ops: seq<Op>, from: int, to: int, resolution: Resolution, limit: nat)
    ensures var keys := PageKeys(View(Run(ops), Minute), from, to, limit);
      && (forall i :: 0 <= i < |keys| ==> keys[i] in RunLog(ops))
      && (PageReads(Run(ops), from, to, resolution, limit) <==>
            resolution.Raw? || forall i :: 0 <= i < |keys| ==> SumsFit(RunLog(ops)[keys[i]]))
  {
    var keys := PageKeys(View(Run(ops), Minute), from, to, limit);
    forall i | 0 <= i < |keys|
      ensures keys[i] in RunLog(ops) && (Readable(Run(ops).minutes[keys[i]]) <==> SumsFit(RunLog(ops)[keys[i]]))
    {
      MinuteAveragesAreHonest(ops, keys[i]);
    }
  }

  // ----- what the pager may rely on

  /** Timestamps are `i64` in the source. */
  predicate Representable(ops: seq<Op>) {
    forall i :: 0 <= i < |ops| && ops[i].Insert? ==>
      forall k :: 0 <= k < |ops[i].samples| ==> ops[i].samples[k].timestampMs <= I64_MAX
  }

  predicate KeysFit(t: Tables) {
    (forall ts :: ts in t.raw ==> ts <= I64_MAX) && (forall m :: m in t.minutes ==> m <= I64_MAX)
  }

  lemma {:induction false} AcceptAllFits(t: Tables, samples: seq<MetricSample>)
    requires KeysFit(t) && forall k :: 0 <= k < |samples| ==> samples[k].timestampMs <= I64_MAX
    ensures KeysFit(AcceptAll(t, samples))
    decreases |samples|
  {
    if samples != [] {
      AcceptAllFits(t, samples[..|samples| - 1]);
      assert MinuteOf(samples[|samples| - 1].timestampMs) <= samples[|samples| - 1].timestampMs;
    }
  }

  lemma {:induction false} RunFits(ops: seq<Op>)
    requires Representable(ops)
    ensures KeysFit(Run(ops))
    decreases |ops|
  {
    if ops != [] {
      var before := ops[..|ops| - 1];
      RunFits(before);
      EveryRunAgrees(before);
      match ops[|ops| - 1]
      case Insert(samples, commits) => AcceptAllFits(Run(before), samples);
      case Prune(now, cap, looks, commits) => PruneAgrees(Run(before), RunLog(before), now, cap, looks);
    }
  }

  /** Every reachable store shows each row under its own timestamp, at either
      resolution, and no timestamp beyond 64 bits. */
  lemma ViewsAreKeyed(ops: seq<Op>, resolution: Resolution)
    requires Representable(ops)
    ensures Keyed(View(Run(ops), resolution)) && forall x :: x in View(Run(ops), resolution) ==> x <= I64_MAX
  {
    EveryRunAgrees(ops);
    RunFits(ops);
  }

  // ----- the store object

  class MetricStore {
    var raw: map<int, MetricSample>
    var minutes: map<int, MinuteRow>
    const sizeCapBytes: int
    ghost var log: Log

    ghost predicate Valid()
      reads this
    {
      Agree(Tables(raw, minutes), log)
    }

    constructor (sizeCapBytes: int)
      ensures Valid() && raw == map[] && minutes == map[] && this.sizeCapBytes == sizeCapBytes
    {
      raw, minutes, log := map[], map[], map[];
      this.sizeCapBytes := sizeCapBytes;
    }

    /** The statements of one insert transaction. */
    method StageBatch(samples: seq<MetricSample>)
      returns (newRaw: map<int, MetricSample>, newMinutes: map<int, MinuteRow>)
      ensures Tables(newRaw, newMinutes) == AcceptAll(Tables(raw, minutes), samples)
    {
      newRaw, newMinutes := raw, minutes;
      for i := 0 to |samples|
        invariant Tables(newRaw, newMinutes) == AcceptAll(Tables(raw, minutes), samples[..i])
      {
        assert samples[..i + 1][..i] == samples[..i];
        var sample := samples[i];
        if sample.timestampMs in newRaw {
          continue;
        }
        newRaw := newRaw[sample.timestampMs := sample];
        var minuteMs := MinuteOf(sample.timestampMs);
        if minuteMs in newMinutes {
          newMinutes := newMinutes[minuteMs := MergeRow(newMinutes[minuteMs], sample)];
        } else {
          newMinutes := newMinutes[minuteMs := FirstRow(sample)];
        }
      }
      assert samples[..|samples|] == samples;
    }

    /** `commits` says whether SQLite accepts the transaction. */
    method InsertBatch(samples: seq<MetricSample>, commits: bool) returns (ok: bool)
      requires Valid()
      modifies this`raw, this`minutes, this`log
      ensures Valid() && ok == commits
      ensures Tables(raw, minutes) == Perform(old(Tables(raw, minutes)), Insert(samples, commits))
      ensures log == LogAfter(old(log), old(Tables(raw, minutes)), Insert(samples, commits))
      ensures commits ==> StoresFirsts(old(raw), raw, samples)
      ensures commits ==> forall m :: CountsNewRows(old(Tables(raw, minutes)), Tables(raw, minutes), m)
      ensures !commits ==> raw == old(raw) && minutes == old(minutes)
    {
      var newRaw, newMinutes := StageBatch(samples);
      if !commits {
        return false;
      }
      AcceptAllAgrees(Tables(raw, minutes), log, samples);
      InsertStoresFirsts(Tables(raw, minutes), samples);
      forall m ensures CountsNewRows(Tables(raw, minutes), Tables(newRaw, newMinutes), m) {
        InsertCountsNewRows(Tables(raw, minutes), samples, m);
      }
      log := LoggedAll(log, Tables(raw, minutes), samples);
      raw, minutes := newRaw, newMinutes;
      return true;
    }

    method EnforceSizeCap(looks: nat -> Look) returns (ok: bool)
      modifies this`raw, this`minutes
      ensures var goal := EnforceCap(old(Tables(raw, minutes)), sizeCapBytes, looks, 0);
        Tables(raw, minutes) == goal.tables && ok == goal.ok
    {
      var k := 0;
      while true
        invariant EnforceCap(Tables(raw, minutes), sizeCapBytes, looks, k)
               == EnforceCap(old(Tables(raw, minutes)), sizeCapBytes, looks, 0)
        decreases |raw| + |minutes|
      {
        var look := looks(k);
        if look.SizeFailed? {
          return false;
        }
        if look.bytes <= sizeCapBytes {
          return true;
        }
        if look.deleteFails {
          return false;
        }
        DropOldestKeepsNewest(raw, DELETE_BATCH);
        DropOldestKeepsNewest(minutes, DELETE_BATCH);
        if |raw| > 0 {
          raw := DropOldest(raw, DELETE_BATCH);
        } else if |minutes| > 0 {
          minutes := DropOldest(minutes, DELETE_BATCH);
        } else {
          return true;
        }
        k := k + 1;
      }
    }

    method PruneAt(nowMs: int, looks: nat -> Look, commits: bool) returns (ok: bool)
      requires Valid()
      modifies this`raw, this`minutes, this`log
      ensures Valid()
      ensures Tables(raw, minutes) == Perform(old(Tables(raw, minutes)), Prune(nowMs, sizeCapBytes, looks, commits))
      ensures log == LogAfter(old(log), old(Tables(raw, minutes)), Prune(nowMs, sizeCapBytes, looks, commits))
      ensures ok == (commits && EnforceCap(Retain(old(Tables(raw, minutes)), nowMs), sizeCapBytes, looks, 0).ok)
    {
      ok := false;
      if commits {
        ok := CommitPrune(nowMs, looks);
      }
    }

    method CommitPrune(nowMs: int, looks: nat -> Look) returns (ok: bool)
      requires Valid()
      modifies this`raw, this`minutes, this`log
      ensures Valid()
      ensures var goal := EnforceCap(Retain(old(Tables(raw, minutes)), nowMs), sizeCapBytes, looks, 0);
        Tables(raw, minutes) == goal.tables && ok == goal.ok && log == Kept(old(log), goal.tables)
    {
      ghost var before := Tables(raw, minutes);
      ok := DeleteRows(nowMs, looks);
      PruneAgrees(before, log, nowMs, sizeCapBytes, looks);
      log := Kept(log, Tables(raw, minutes));
    }

    /** The committed deletes: retention, then the size cap. */
    method DeleteRows(nowMs: int, looks: nat -> Look) returns (ok: bool)
      modifies this`raw, this`minutes
      ensures var goal := EnforceCap(Retain(old(Tables(raw, minutes)), nowMs), sizeCapBytes, looks, 0);
        Tables(raw, minutes) == goal.tables && ok == goal.ok
    {
      var retained := Retain(Tables(raw, minutes), nowMs);
      raw, minutes := retained.raw, retained.minutes;
      ok := EnforceSizeCap(looks);
    }

    /** `None`: a selected minute row has a sum that is no 64-bit integer. */
    method QueryPage(from: int, to: int, resolution: Resolution, limit: nat) returns (page: Option<seq<MetricSample>>)
      ensures page.Some? <==> PageReads(Tables(raw, minutes), from, to, resolution, limit)
      ensures page.Some? ==> page.value == Page(View(Tables(raw, minutes), resolution), from, to, limit)
    {
      var view := View(Tables(raw, minutes), resolution);
      var keys := PageKeys(view, from, to, limit);
      if resolution.Minute? {
        for i := 0 to |keys|
          invariant forall k :: 0 <= k < i ==> Readable(minutes[keys[k]])
        {
          if !Readable(minutes[keys[i]]) {
            return None;
          }
        }
      }
      page := Some(RowsAt(view, keys));
    }
  }
}
