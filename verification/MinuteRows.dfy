/** One row of minute history: incrementally kept counts and sums, the plain
    fold they replace, and the averages read back from them. */
module MinuteRows {
  import opened Common
  import opened Metrics
  import Disks

  // ----- the readings one sample contributes to its minute

  /** `i64::try_from(u64).ok()`. */
  function Fitting(v: Option<nat>): Option<nat> {
    if v.Some? && v.value > I64_MAX then None else v
  }

  function FittingPair(used: Option<nat>, total: Option<nat>): Option<(nat, nat)> {
    if Fitting(used).Some? && Fitting(total).Some? then Some((used.value, total.value)) else None
  }

  function Cpu(s: MetricSample): Option<real> { s.cpuPercent }

  function Memory(s: MetricSample): Option<nat> { Fitting(s.memoryUsedBytes) }

  function Received(s: MetricSample): Option<nat> {
    if s.network.None? then None else Fitting(Some(s.network.value.receivedBytesPerSecond))
  }

  function Sent(s: MetricSample): Option<nat> {
    if s.network.None? then None else Fitting(Some(s.network.value.sentBytesPerSecond))
  }

  function DiskPair(s: MetricSample): Option<(nat, nat)> {
    var worst := Disks.Fullest(s.disks);
    if worst.None? then None else FittingPair(Some(worst.value.usedBytes), Some(worst.value.totalBytes))
  }

  function Celsius(s: MetricSample): Option<real> {
    if s.temperature.None? then None else Some(s.temperature.value.celsius)
  }

  function SwapPair(s: MetricSample): Option<(nat, nat)> {
    FittingPair(s.swapUsedBytes, s.swapTotalBytes)
  }

  function Used(p: Option<(nat, nat)>): Option<nat> { if p.None? then None else Some(p.value.0) }
  function Total(p: Option<(nat, nat)>): Option<nat> { if p.None? then None else Some(p.value.1) }

  function DiskUsed(s: MetricSample): Option<nat> { Used(DiskPair(s)) }
  function DiskTotal(s: MetricSample): Option<nat> { Total(DiskPair(s)) }
  function SwapUsed(s: MetricSample): Option<nat> { Used(SwapPair(s)) }
  function SwapTotal(s: MetricSample): Option<nat> { Total(SwapPair(s)) }

  /** Which fields of a sample the seven readings are. A byte count that does not
      fit in 64 bits is not a reading; disk and swap are read as pairs. */
  lemma ReadingsAre(s: MetricSample)
    ensures Cpu(s) == s.cpuPercent
    ensures Memory(s) == if Fits(s.memoryUsedBytes) then s.memoryUsedBytes else None
    ensures s.network.None? ==> Received(s).None? && Sent(s).None?
    ensures s.network.Some? ==>
      var rx, tx := Some(s.network.value.receivedBytesPerSecond), Some(s.network.value.sentBytesPerSecond);
      Received(s) == (if Fits(rx) then rx else None) && Sent(s) == (if Fits(tx) then tx else None)
    ensures Celsius(s) == if s.temperature.Some? then Some(s.temperature.value.celsius) else None
    ensures var swap := Fits(s.swapUsedBytes) && Fits(s.swapTotalBytes);
      && SwapUsed(s) == (if swap then s.swapUsedBytes else None)
      && SwapTotal(s) == (if swap then s.swapTotalBytes else None)
    ensures Disks.Fullest(s.disks).None? ==> DiskUsed(s).None? && DiskTotal(s).None?
    ensures Disks.Fullest(s.disks).Some? ==>
      var used, total := Some(Disks.Fullest(s.disks).value.usedBytes), Some(Disks.Fullest(s.disks).value.totalBytes);
      && DiskUsed(s) == (if Fits(used) && Fits(total) then used else None)
      && DiskTotal(s) == (if Fits(used) && Fits(total) then total else None)
  {
  }

  predicate Fits(v: Option<nat>) {
    v.Some? && v.value <= 9_223_372_036_854_775_807
  }

  // ----- one row of minute_metrics

  /** A value of an INTEGER column. `Overflowed`: an addition left 64 bits, so SQLite
      stored a REAL, which no longer reads back as an integer. */
  datatype SqlInt = Null | Int(value: int) | Overflowed

  /** A nullable SQL sum beside the number of readings in it. */
  datatype IntColumn = IntColumn(count: nat, sum: SqlInt)
  datatype RealColumn = RealColumn(count: nat, sum: Option<real>)
  /** A used / total pair gated on one count. */
  datatype PairColumn = PairColumn(count: nat, used: SqlInt, total: SqlInt)

  datatype MinuteRow = MinuteRow(
    sampleCount: nat,
    cpu: RealColumn,
    memory: IntColumn,
    rx: IntColumn,
    tx: IntColumn,
    disk: PairColumn,
    temperature: RealColumn,
    swap: PairColumn,
    last: MetricSample)

  function OrZero(v: Option<nat>): nat { if v.Some? then v.value else 0 }

  /** `COALESCE(a, 0) + COALESCE(b, 0)`. */
  function SqlAdd(a: SqlInt, b: SqlInt): SqlInt {
    if a.Overflowed? || b.Overflowed? then Overflowed
    else
      var sum := (if a.Int? then a.value else 0) + (if b.Int? then b.value else 0);
      if I64_MIN <= sum <= I64_MAX then Int(sum) else Overflowed
  }

  function CoalesceReal(v: Option<real>): real { if v.Some? then v.value else 0.0 }

  function FirstInt(v: Option<nat>): IntColumn {
    if v.None? then IntColumn(0, Null) else IntColumn(1, Int(v.value))
  }
  function FirstReal(v: Option<real>): RealColumn { RealColumn(if v.None? then 0 else 1, v) }
  function FirstPair(v: Option<(nat, nat)>): PairColumn {
    if v.None? then PairColumn(0, Null, Null) else PairColumn(1, Int(v.value.0), Int(v.value.1))
  }

  /** The `ON CONFLICT DO UPDATE` of one column. */
  function MergeInt(a: IntColumn, b: IntColumn): IntColumn {
    IntColumn(a.count + b.count, SqlAdd(a.sum, b.sum))
  }
  function MergeReal(a: RealColumn, b: RealColumn): RealColumn {
    RealColumn(a.count + b.count, Some(CoalesceReal(a.sum) + CoalesceReal(b.sum)))
  }
  function MergePair(a: PairColumn, b: PairColumn): PairColumn {
    PairColumn(a.count + b.count, SqlAdd(a.used, b.used), SqlAdd(a.total, b.total))
  }

  function FirstRow(s: MetricSample): MinuteRow {
    MinuteRow(1, FirstReal(Cpu(s)), FirstInt(Memory(s)), FirstInt(Received(s)), FirstInt(Sent(s)),
              FirstPair(DiskPair(s)), FirstReal(Celsius(s)), FirstPair(SwapPair(s)), s)
  }

  function MergeRow(row: MinuteRow, s: MetricSample): MinuteRow {
    var excluded := FirstRow(s);
    MinuteRow(row.sampleCount + 1, MergeReal(row.cpu, excluded.cpu), MergeInt(row.memory, excluded.memory),
              MergeInt(row.rx, excluded.rx), MergeInt(row.tx, excluded.tx), MergePair(row.disk, excluded.disk),
              MergeReal(row.temperature, excluded.temperature), MergePair(row.swap, excluded.swap), s)
  }

  // ----- the plain fold the row replaces

  /** The readings that are present, in order. */
  function Present<T>(log: seq<MetricSample>, f: MetricSample -> Option<T>): seq<T> {
    if log == [] then []
    else Present(log[..|log| - 1], f) + if f(log[|log| - 1]).Some? then [f(log[|log| - 1]).value] else []
  }

  function Sum(xs: seq<nat>): nat {
    if xs == [] then 0 else Sum(xs[..|xs| - 1]) + xs[|xs| - 1]
  }

  function SumReal(xs: seq<real>): real {
    if xs == [] then 0.0 else SumReal(xs[..|xs| - 1]) + xs[|xs| - 1]
  }

  function TrueSum(sum: nat): SqlInt {
    if sum <= I64_MAX then Int(sum) else Overflowed
  }

  /** A SQL sum is NULL only in a row made of a single sample without a reading, and
      is the true sum exactly as long as that fits in 64 bits. */
  function SqlSum<T>(log: seq<MetricSample>, present: seq<T>, sum: nat): SqlInt {
    if |log| == 1 && present == [] then Null else TrueSum(sum)
  }

  ghost predicate IntFold(column: IntColumn, log: seq<MetricSample>, f: MetricSample -> Option<nat>) {
    var xs := Present(log, f);
    column.count == |xs| && column.sum == SqlSum(log, xs, Sum(xs))
  }

  ghost predicate RealFold(column: RealColumn, log: seq<MetricSample>, f: MetricSample -> Option<real>) {
    var xs := Present(log, f);
    column.count == |xs| && column.sum == if |log| == 1 && xs == [] then None else Some(SumReal(xs))
  }

  /** Both sums of a pair are kept beside one count. */
  ghost predicate PairFold(column: PairColumn, log: seq<MetricSample>,
                           used: MetricSample -> Option<nat>, total: MetricSample -> Option<nat>)
  {
    IntFold(IntColumn(column.count, column.used), log, used)
      && IntFold(IntColumn(column.count, column.total), log, total)
  }

  ghost predicate RealsFold(row: MinuteRow, log: seq<MetricSample>) {
    RealFold(row.cpu, log, Cpu) && RealFold(row.temperature, log, Celsius)
  }

  ghost predicate IntsFold(row: MinuteRow, log: seq<MetricSample>) {
    IntFold(row.memory, log, Memory) && IntFold(row.rx, log, Received) && IntFold(row.tx, log, Sent)
  }

  ghost predicate PairsFold(row: MinuteRow, log: seq<MetricSample>) {
    PairFold(row.disk, log, DiskUsed, DiskTotal) && PairFold(row.swap, log, SwapUsed, SwapTotal)
  }

  /** `row` is the fold over exactly the samples of `log`. */
  ghost predicate RowFolds(row: MinuteRow, log: seq<MetricSample>) {
    && log != []
    && row.sampleCount == |log|
    && RealsFold(row, log) && IntsFold(row, log) && PairsFold(row, log)
    && row.last == log[|log| - 1]
  }

  lemma PresentSnoc<T>(log: seq<MetricSample>, s: MetricSample, f: MetricSample -> Option<T>)
    ensures Present(log + [s], f) == if f(s).Some? then Present(log, f) + [f(s).value] else Present(log, f)
  {
    assert (log + [s])[..|log|] == log;
    assert Present(log, f) + [] == Present(log, f);
  }

  lemma SumSnoc(xs: seq<nat>, x: nat)
    ensures Sum(xs + [x]) == Sum(xs) + x
  {
    assert (xs + [x])[..|xs|] == xs;
  }

  lemma SumRealSnoc(xs: seq<real>, x: real)
    ensures SumReal(xs + [x]) == SumReal(xs) + x
  {
    assert (xs + [x])[..|xs|] == xs;
  }

  /** Adding a reading, or none, to a sum of readings: once a sum has left 64 bits
      it never returns, because no reading is negative. */
  lemma SqlAddIsTrue(a: SqlInt, sum: nat, v: Option<nat>)
    requires a == TrueSum(sum) || (a.Null? && sum == 0)
    requires v.Some? ==> v.value <= I64_MAX
    ensures SqlAdd(a, FirstInt(v).sum) == TrueSum(sum + OrZero(v))
  {
  }

  lemma IntFoldFirst(s: MetricSample, f: MetricSample -> Option<nat>)
    requires f(s).Some? ==> f(s).value <= I64_MAX
    ensures IntFold(FirstInt(f(s)), [s], f)
  {
    PresentSnoc([], s, f);
    assert [] + [s] == [s];
    if f(s).Some? {
      SumSnoc([], f(s).value);
      assert [] + [f(s).value] == [f(s).value];
    }
  }

  lemma IntFoldGrows(column: IntColumn, xs: seq<nat>, n: nat, v: Option<nat>)
    requires n > 0 && column == IntColumn(|xs|, if n == 1 && xs == [] then Null else TrueSum(Sum(xs)))
    requires v.Some? ==> v.value <= I64_MAX
    ensures var all := if v.Some? then xs + [v.value] else xs;
      MergeInt(column, FirstInt(v)) == IntColumn(|all|, TrueSum(Sum(all)))
  {
    SqlAddIsTrue(column.sum, Sum(xs), v);
    if v.Some? { SumSnoc(xs, v.value); }
  }

  lemma IntFoldStep(column: IntColumn, log: seq<MetricSample>, s: MetricSample, f: MetricSample -> Option<nat>)
    requires log != [] && IntFold(column, log, f) && (f(s).Some? ==> f(s).value <= I64_MAX)
    ensures IntFold(MergeInt(column, FirstInt(f(s))), log + [s], f)
  {
    PresentSnoc(log, s, f);
    IntFoldGrows(column, Present(log, f), |log|, f(s));
  }

  lemma RealFoldStep(column: RealColumn, log: seq<MetricSample>, s: MetricSample, f: MetricSample -> Option<real>)
    ensures log == [] ==> RealFold(FirstReal(f(s)), [s], f)
    ensures log != [] && RealFold(column, log, f) ==> RealFold(MergeReal(column, FirstReal(f(s))), log + [s], f)
  {
    PresentSnoc(log, s, f);
    PresentSnoc([], s, f);
    assert [] + [s] == [s];
    if f(s).Some? { SumRealSnoc(Present(log, f), f(s).value); SumRealSnoc([], f(s).value); }
  }

  lemma PairFoldStep(column: PairColumn, log: seq<MetricSample>, s: MetricSample, v: Option<(nat, nat)>,
                     used: MetricSample -> Option<nat>, total: MetricSample -> Option<nat>)
    requires log != [] && PairFold(column, log, used, total) && used(s) == Used(v) && total(s) == Total(v)
    requires v.Some? ==> v.value.0 <= I64_MAX && v.value.1 <= I64_MAX
    ensures PairFold(MergePair(column, FirstPair(v)), log + [s], used, total)
  {
    IntFoldStep(IntColumn(column.count, column.used), log, s, used);
    IntFoldStep(IntColumn(column.count, column.total), log, s, total);
  }

  /** What does not fit in 64 bits is not a reading. */
  lemma ReadingsFit(s: MetricSample)
    ensures Memory(s).Some? ==> Memory(s).value <= I64_MAX
    ensures Received(s).Some? ==> Received(s).value <= I64_MAX
    ensures Sent(s).Some? ==> Sent(s).value <= I64_MAX
    ensures DiskPair(s).Some? ==> DiskPair(s).value.0 <= I64_MAX && DiskPair(s).value.1 <= I64_MAX
    ensures SwapPair(s).Some? ==> SwapPair(s).value.0 <= I64_MAX && SwapPair(s).value.1 <= I64_MAX
  {
  }

  lemma FirstIntsFold(s: MetricSample)
    ensures IntsFold(FirstRow(s), [s]) && PairsFold(FirstRow(s), [s])
  {
    ReadingsFit(s);
    IntFoldFirst(s, Memory);
    IntFoldFirst(s, Received);
    IntFoldFirst(s, Sent);
    FirstPairsFold(s);
  }

  lemma FirstPairsFold(s: MetricSample)
    ensures PairsFold(FirstRow(s), [s])
  {
    ReadingsFit(s);
    IntFoldFirst(s, DiskUsed);
    IntFoldFirst(s, DiskTotal);
    IntFoldFirst(s, SwapUsed);
    IntFoldFirst(s, SwapTotal);
  }

  lemma FirstRealsFold(s: MetricSample)
    ensures RealsFold(FirstRow(s), [s])
  {
    RealFoldStep(RealColumn(0, None), [], s, Cpu);
    RealFoldStep(RealColumn(0, None), [], s, Celsius);
  }

  lemma FirstFolds(s: MetricSample)
    ensures RowFolds(FirstRow(s), [s])
  {
    FirstRealsFold(s);
    FirstIntsFold(s);
  }

  lemma MergeIntsFold(row: MinuteRow, log: seq<MetricSample>, s: MetricSample)
    requires log != [] && IntsFold(row, log)
    ensures IntsFold(MergeRow(row, s), log + [s])
  {
    ReadingsFit(s);
    IntFoldStep(row.memory, log, s, Memory);
    IntFoldStep(row.rx, log, s, Received);
    IntFoldStep(row.tx, log, s, Sent);
  }

  lemma MergePairsFold(row: MinuteRow, log: seq<MetricSample>, s: MetricSample)
    requires log != [] && PairsFold(row, log)
    ensures PairsFold(MergeRow(row, s), log + [s])
  {
    ReadingsFit(s);
    PairFoldStep(row.disk, log, s, DiskPair(s), DiskUsed, DiskTotal);
    PairFoldStep(row.swap, log, s, SwapPair(s), SwapUsed, SwapTotal);
  }

  lemma MergeRealsFold(row: MinuteRow, log: seq<MetricSample>, s: MetricSample)
    requires log != [] && RealsFold(row, log)
    ensures RealsFold(MergeRow(row, s), log + [s])
  {
    RealFoldStep(row.cpu, log, s, Cpu);
    RealFoldStep(row.temperature, log, s, Celsius);
  }

  /** The incremental upsert computes the fold, one sample at a time. */
  lemma MergeFolds(row: MinuteRow, log: seq<MetricSample>, s: MetricSample)
    requires RowFolds(row, log)
    ensures RowFolds(MergeRow(row, s), log + [s])
  {
    MergeRealsFold(row, log, s);
    MergeIntsFold(row, log, s);
    MergePairsFold(row, log, s);
  }

  // ----- reading a row back

  /** Rust's `/` on `i64` for a positive divisor. */
  function TruncDiv(a: int, b: nat): int
    requires b > 0
  {
    if a >= 0 then a / b else -(-a / b)
  }

  /** `average_i64`: `u64::try_from` refuses a negative quotient. */
  function AverageInt(sum: SqlInt, count: nat): Option<nat> {
    if count == 0 || !sum.Int? || TruncDiv(sum.value, count) < 0 then None else Some(TruncDiv(sum.value, count))
  }

  /** `average_f64`: the count has to fit in `u32`. */
  function AverageReal(sum: Option<real>, count: nat): Option<real> {
    if count == 0 || count > U32_MAX || sum.None? then None else Some(sum.value / count as real)
  }

  /** Every integer column still is one; otherwise the query that selects the row
      fails. */
  predicate Readable(row: MinuteRow) {
    && !row.memory.sum.Overflowed? && !row.rx.sum.Overflowed? && !row.tx.sum.Overflowed?
    && !row.disk.used.Overflowed? && !row.disk.total.Overflowed?
    && !row.swap.used.Overflowed? && !row.swap.total.Overflowed?
  }

  /** `query_minute`: the sample a readable minute row is read back as. */
  function ReadRow(minuteMs: int, row: MinuteRow): MetricSample {
    row.last.(
      timestampMs := minuteMs,
      cpuPercent := AverageReal(row.cpu.sum, row.cpu.count),
      memoryUsedBytes := AverageInt(row.memory.sum, row.memory.count),
      network := if row.rx.count > 0 || row.tx.count > 0 then
                   Some(Network(OrZero(AverageInt(row.rx.sum, row.rx.count)),
                                OrZero(AverageInt(row.tx.sum, row.tx.count))))
                 else None,
      disks := if row.disk.count > 0 then
                 [Disk("(minute average)", OrZero(AverageInt(row.disk.total, row.disk.count)),
                       OrZero(AverageInt(row.disk.used, row.disk.count)))]
               else [],
      swapUsedBytes := AverageInt(row.swap.used, row.swap.count),
      swapTotalBytes := AverageInt(row.swap.total, row.swap.count),
      temperature := var c := AverageReal(row.temperature.sum, row.temperature.count);
                     if c.None? then None else Some(Temperature("(minute average)", c.value, None, 0)))
  }

  lemma {:induction false} SumBetween(xs: seq<nat>, lo: nat, hi: nat)
    requires forall x :: x in xs ==> lo <= x <= hi
    ensures lo * |xs| <= Sum(xs) <= hi * |xs|
  {
    if xs != [] {
      var n := |xs| - 1;
      forall x | x in xs[..n] ensures x in xs { }
      SumBetween(xs[..n], lo, hi);
      assert xs[n] in xs;
      assert lo * |xs| == lo * n + lo && hi * |xs| == hi * n + hi;
    }
  }

  lemma {:induction false} SumRealBetween(xs: seq<real>, lo: real, hi: real)
    requires forall x :: x in xs ==> lo <= x <= hi
    ensures lo * |xs| as real <= SumReal(xs) <= hi * |xs| as real
  {
    if xs != [] {
      var n := |xs| - 1;
      forall x | x in xs[..n] ensures x in xs { }
      SumRealBetween(xs[..n], lo, hi);
      assert xs[n] in xs;
      assert |xs| as real == n as real + 1.0;
      assert lo * |xs| as real == lo * n as real + lo && hi * |xs| as real == hi * n as real + hi;
    }
  }

  lemma QuotientBetween(sum: nat, n: nat, lo: nat, hi: nat)
    requires n > 0 && lo * n <= sum <= hi * n
    ensures lo <= sum / n <= hi
  {
    Disks.DivideBound(lo, sum, n);
    var q := sum / n;
    assert q * n <= sum;
    Disks.CancelFactor(q, hi, n);
  }

  /** Main result. A column's integer average is absent exactly when no sample
      of the minute had the reading, and otherwise lies between the least and
      the greatest reading. */
  lemma IntAverageIsBetween(column: IntColumn, log: seq<MetricSample>, f: MetricSample -> Option<nat>, lo: nat, hi: nat)
    requires log != [] && IntFold(column, log, f) && !column.sum.Overflowed?
    requires forall x :: x in Present(log, f) ==> lo <= x <= hi
    ensures AverageInt(column.sum, column.count).None? <==> Present(log, f) == []
    ensures AverageInt(column.sum, column.count).Some? ==> lo <= AverageInt(column.sum, column.count).value <= hi
  {
    var xs := Present(log, f);
    SumBetween(xs, lo, hi);
    if xs != [] { QuotientBetween(Sum(xs), |xs|, lo, hi); }
  }

  lemma RealQuotientBetween(sum: real, n: real, lo: real, hi: real)
    requires n > 0.0 && lo * n <= sum <= hi * n
    ensures lo <= sum / n <= hi
  {
    var q := sum / n;
    assert q * n == sum;
  }

  /** The same for CPU and temperature, whose average also needs a count that
      fits in 32 bits. */
  lemma RealAverageIsBetween(column: RealColumn, log: seq<MetricSample>, f: MetricSample -> Option<real>,
                             lo: real, hi: real)
    requires log != [] && RealFold(column, log, f)
    requires forall x :: x in Present(log, f) ==> lo <= x <= hi
    ensures AverageReal(column.sum, column.count).None? <==> Present(log, f) == [] || |Present(log, f)| > U32_MAX
    ensures AverageReal(column.sum, column.count).Some? ==> lo <= AverageReal(column.sum, column.count).value <= hi
  {
    var xs := Present(log, f);
    SumRealBetween(xs, lo, hi);
    if xs != [] { RealQuotientBetween(SumReal(xs), |xs| as real, lo, hi); }
  }

  /** The two readings of a pair are present together. */
  ghost predicate Paired(used: MetricSample -> Option<nat>, total: MetricSample -> Option<nat>) {
    forall s :: used(s).Some? <==> total(s).Some?
  }

  /** No sample of the minute used more than its total. */
  predicate InOrder(log: seq<MetricSample>, used: MetricSample -> Option<nat>, total: MetricSample -> Option<nat>) {
    forall s :: s in log && used(s).Some? && total(s).Some? ==> used(s).value <= total(s).value
  }

  lemma {:induction false} PairedReadings(log: seq<MetricSample>, used: MetricSample -> Option<nat>,
                                          total: MetricSample -> Option<nat>)
    requires Paired(used, total)
    ensures |Present(log, used)| == |Present(log, total)|
    ensures InOrder(log, used, total) ==> Sum(Present(log, used)) <= Sum(Present(log, total))
  {
    if log != [] {
      var before, s := log[..|log| - 1], log[|log| - 1];
      PairedReadings(before, used, total);
      assert log == before + [s] && s in log;
      assert forall x :: x in before ==> x in log;
      PresentSnoc(before, s, used);
      PresentSnoc(before, s, total);
      if used(s).Some? {
        SumSnoc(Present(before, used), used(s).value);
        SumSnoc(Present(before, total), total(s).value);
      }
    }
  }

  lemma QuotientOrdered(a: nat, b: nat, n: nat)
    requires n > 0 && a <= b
    ensures a / n <= b / n
  {
    var q := a / n;
    assert q * n <= a;
    Disks.DivideBound(q, b, n);
  }

  lemma AverageOfSum(sum: nat, count: nat)
    requires count > 0 && sum <= I64_MAX
    ensures AverageInt(TrueSum(sum), count) == Some(sum / count)
  {
    Disks.DivideBound(0, sum, count);
  }

  lemma IntAverage(column: IntColumn, log: seq<MetricSample>, f: MetricSample -> Option<nat>)
    requires log != [] && IntFold(column, log, f) && !column.sum.Overflowed?
    ensures var xs := Present(log, f);
      AverageInt(column.sum, column.count) == if xs == [] then None else Some(Sum(xs) / |xs|)
  {
    var xs := Present(log, f);
    if xs != [] { AverageOfSum(Sum(xs), |xs|); }
  }

  /** Main result. Averaged used never exceeds averaged total when no sample's
      used exceeded its total, and both averages exist together. */
  lemma PairAverageIsOrdered(column: PairColumn, log: seq<MetricSample>,
                             used: MetricSample -> Option<nat>, total: MetricSample -> Option<nat>)
    requires log != [] && PairFold(column, log, used, total) && Paired(used, total)
    requires !column.used.Overflowed? && !column.total.Overflowed?
    ensures var u := AverageInt(column.used, column.count);
      var t := AverageInt(column.total, column.count);
      && (u.None? <==> Present(log, used) == []) && (t.None? <==> Present(log, used) == [])
      && (u.Some? && InOrder(log, used, total) ==> u.value <= t.value)
  {
    IntAverage(IntColumn(column.count, column.used), log, used);
    IntAverage(IntColumn(column.count, column.total), log, total);
    PairedReadings(log, used, total);
    if Present(log, used) != [] && InOrder(log, used, total) {
      QuotientOrdered(Sum(Present(log, used)), Sum(Present(log, total)), |Present(log, used)|);
    }
  }

  // ----- what a readable row tells about its minute

  /** `v` lies between the least and the greatest of the readings. */
  predicate Within(v: nat, xs: seq<nat>) {
    exists i, k :: 0 <= i < |xs| && 0 <= k < |xs| && xs[i] <= v <= xs[k]
  }

  predicate WithinReal(v: real, xs: seq<real>) {
    exists i, k :: 0 <= i < |xs| && 0 <= k < |xs| && xs[i] <= v <= xs[k]
  }

  /** The floored mean of the readings, which lies between them. */
  ghost predicate IsMean(v: nat, xs: seq<nat>) {
    xs != [] && v * |xs| <= Sum(xs) < (v + 1) * |xs| && Within(v, xs)
  }

  ghost predicate IsMeanReal(v: real, xs: seq<real>) {
    xs != [] && v * |xs| as real == SumReal(xs) && WithinReal(v, xs)
  }

  lemma FloorBounds(sum: nat, n: nat)
    requires n > 0
    ensures sum / n * n <= sum < (sum / n + 1) * n
  {
  }

  lemma {:induction false} Extremes(xs: seq<nat>) returns (i: nat, k: nat)
    requires xs != []
    ensures i < |xs| && k < |xs| && forall x :: x in xs ==> xs[i] <= x <= xs[k]
  {
    var n := |xs| - 1;
    i, k := n, n;
    if n > 0 {
      assert xs == xs[..n] + [xs[n]];
      var i', k' := Extremes(xs[..n]);
      if xs[i'] < xs[n] { i := i'; }
      if xs[k'] > xs[n] { k := k'; }
    }
  }

  lemma {:induction false} ExtremesReal(xs: seq<real>) returns (i: nat, k: nat)
    requires xs != []
    ensures i < |xs| && k < |xs| && forall x :: x in xs ==> xs[i] <= x <= xs[k]
  {
    var n := |xs| - 1;
    i, k := n, n;
    if n > 0 {
      assert xs == xs[..n] + [xs[n]];
      var i', k' := ExtremesReal(xs[..n]);
      if xs[i'] < xs[n] { i := i'; }
      if xs[k'] > xs[n] { k := k'; }
    }
  }

  lemma IntAverageIsMean(column: IntColumn, log: seq<MetricSample>, f: MetricSample -> Option<nat>)
    requires log != [] && IntFold(column, log, f) && !column.sum.Overflowed?
    ensures var v := AverageInt(column.sum, column.count);
      (v.None? <==> Present(log, f) == []) && (v.Some? ==> IsMean(v.value, Present(log, f)))
  {
    var xs := Present(log, f);
    if xs == [] {
      IntAverageIsBetween(column, log, f, 0, 0);
    } else {
      var i, k := Extremes(xs);
      IntAverageIsBetween(column, log, f, xs[i], xs[k]);
      IntAverage(column, log, f);
      FloorBounds(Sum(xs), |xs|);
    }
  }

  lemma MeanOfReals(xs: seq<real>)
    requires xs != []
    ensures IsMeanReal(SumReal(xs) / |xs| as real, xs)
  {
    var i, k := ExtremesReal(xs);
    SumRealBetween(xs, xs[i], xs[k]);
    RealQuotientBetween(SumReal(xs), |xs| as real, xs[i], xs[k]);
  }

  lemma RealAverageIsMean(column: RealColumn, log: seq<MetricSample>, f: MetricSample -> Option<real>)
    requires log != [] && RealFold(column, log, f)
    ensures var v := AverageReal(column.sum, column.count);
      && (v.None? <==> Present(log, f) == [] || |Present(log, f)| > U32_MAX)
      && (v.Some? ==> IsMeanReal(v.value, Present(log, f)))
  {
    var xs := Present(log, f);
    if xs != [] { MeanOfReals(xs); }
  }

  ghost predicate HonestMemory(read: MetricSample, log: seq<MetricSample>) {
    var v := read.memoryUsedBytes;
    (v.None? <==> Present(log, Memory) == []) && (v.Some? ==> IsMean(v.value, Present(log, Memory)))
  }

  /** A direction that some sample of the minute read is averaged over its own
      readings; one that none read is zero beside the other. */
  ghost predicate HonestNetwork(read: MetricSample, log: seq<MetricSample>) {
    var rx, tx := Present(log, Received), Present(log, Sent);
    && (read.network.None? <==> rx == [] && tx == [])
    && (read.network.Some? ==>
          && (if rx == [] then read.network.value.receivedBytesPerSecond == 0
              else IsMean(read.network.value.receivedBytesPerSecond, rx))
          && (if tx == [] then read.network.value.sentBytesPerSecond == 0
              else IsMean(read.network.value.sentBytesPerSecond, tx)))
  }

  /** CPU and temperature are also absent when more readings than 32 bits count. */
  ghost predicate HonestReals(read: MetricSample, log: seq<MetricSample>) {
    var cpu, celsius := Present(log, Cpu), Present(log, Celsius);
    && (read.cpuPercent.None? <==> cpu == [] || |cpu| > 4_294_967_295)
    && (read.cpuPercent.Some? ==> IsMeanReal(read.cpuPercent.value, cpu))
    && (read.temperature.None? <==> celsius == [] || |celsius| > 4_294_967_295)
    && (read.temperature.Some? ==>
          IsMeanReal(read.temperature.value.celsius, celsius) && read.temperature.value.criticalCelsius.None?)
  }

  /** One synthetic disk: the mean of the fullest disks' used and of their totals. */
  ghost predicate HonestDisk(read: MetricSample, log: seq<MetricSample>) {
    && (read.disks == [] <==> Present(log, DiskUsed) == []) && |read.disks| <= 1
    && (read.disks != [] ==>
          && IsMean(read.disks[0].usedBytes, Present(log, DiskUsed))
          && IsMean(read.disks[0].totalBytes, Present(log, DiskTotal))
          && (InOrder(log, DiskUsed, DiskTotal) ==> read.disks[0].usedBytes <= read.disks[0].totalBytes))
  }

  ghost predicate HonestSwap(read: MetricSample, log: seq<MetricSample>) {
    && (read.swapUsedBytes.None? <==> Present(log, SwapUsed) == [])
    && (read.swapTotalBytes.None? <==> Present(log, SwapUsed) == [])
    && (read.swapUsedBytes.Some? ==>
          && IsMean(read.swapUsedBytes.value, Present(log, SwapUsed))
          && IsMean(read.swapTotalBytes.value, Present(log, SwapTotal))
          && (InOrder(log, SwapUsed, SwapTotal) ==> read.swapUsedBytes.value <= read.swapTotalBytes.value))
  }

  /** Everything else is the latest accepted sample's, under the minute's key. */
  ghost predicate HonestRest(m: int, read: MetricSample, log: seq<MetricSample>)
    requires log != []
  {
    var last := log[|log| - 1];
    && read.timestampMs == m && read.sequence == last.sequence && read.memoryTotalBytes == last.memoryTotalBytes
    && read.uptimeSeconds == last.uptimeSeconds && read.errors == last.errors
  }

  lemma ReadMemory(m: int, row: MinuteRow, log: seq<MetricSample>)
    requires log != [] && IntFold(row.memory, log, Memory) && Readable(row)
    ensures HonestMemory(ReadRow(m, row), log)
  {
    IntAverageIsMean(row.memory, log, Memory);
  }

  lemma ReadNetwork(m: int, row: MinuteRow, log: seq<MetricSample>)
    requires log != [] && IntFold(row.rx, log, Received) && IntFold(row.tx, log, Sent) && Readable(row)
    ensures HonestNetwork(ReadRow(m, row), log)
  {
    IntAverageIsMean(row.rx, log, Received);
    IntAverageIsMean(row.tx, log, Sent);
  }

  lemma ReadReals(m: int, row: MinuteRow, log: seq<MetricSample>)
    requires log != [] && RealFold(row.cpu, log, Cpu) && RealFold(row.temperature, log, Celsius)
    ensures HonestReals(ReadRow(m, row), log)
  {
    RealAverageIsMean(row.cpu, log, Cpu);
    RealAverageIsMean(row.temperature, log, Celsius);
  }

  lemma ReadDisk(m: int, row: MinuteRow, log: seq<MetricSample>)
    requires log != [] && PairFold(row.disk, log, DiskUsed, DiskTotal) && Readable(row)
    ensures HonestDisk(ReadRow(m, row), log)
  {
    PairAverageIsOrdered(row.disk, log, DiskUsed, DiskTotal);
    IntAverageIsMean(IntColumn(row.disk.count, row.disk.used), log, DiskUsed);
    IntAverageIsMean(IntColumn(row.disk.count, row.disk.total), log, DiskTotal);
    PairedReadings(log, DiskUsed, DiskTotal);
  }

  lemma ReadSwap(m: int, row: MinuteRow, log: seq<MetricSample>)
    requires log != [] && PairFold(row.swap, log, SwapUsed, SwapTotal) && Readable(row)
    ensures HonestSwap(ReadRow(m, row), log)
  {
    PairAverageIsOrdered(row.swap, log, SwapUsed, SwapTotal);
    IntAverageIsMean(IntColumn(row.swap.count, row.swap.used), log, SwapUsed);
    IntAverageIsMean(IntColumn(row.swap.count, row.swap.total), log, SwapTotal);
    PairedReadings(log, SwapUsed, SwapTotal);
  }

  lemma ReadRest(m: int, row: MinuteRow, log: seq<MetricSample>)
    requires log != [] && row.last == log[|log| - 1]
    ensures HonestRest(m, ReadRow(m, row), log)
  {
  }

  /** The true sums of the minute fit in 64 bits. */
  ghost predicate SumsFit(log: seq<MetricSample>) {
    && Sum(Present(log, Memory)) <= I64_MAX && Sum(Present(log, Received)) <= I64_MAX
    && Sum(Present(log, Sent)) <= I64_MAX
    && Sum(Present(log, DiskUsed)) <= I64_MAX && Sum(Present(log, DiskTotal)) <= I64_MAX
    && Sum(Present(log, SwapUsed)) <= I64_MAX && Sum(Present(log, SwapTotal)) <= I64_MAX
  }

  lemma IntOverflowsExactly(column: IntColumn, log: seq<MetricSample>, f: MetricSample -> Option<nat>)
    requires IntFold(column, log, f)
    ensures column.sum.Overflowed? <==> Sum(Present(log, f)) > I64_MAX
  {
  }

  /** A minute row can be read back exactly as long as every true sum of its
      minute fits in 64 bits. */
  lemma ReadableExactly(row: MinuteRow, log: seq<MetricSample>)
    requires RowFolds(row, log)
    ensures Readable(row) <==> SumsFit(log)
  {
    IntOverflowsExactly(row.memory, log, Memory);
    IntOverflowsExactly(row.rx, log, Received);
    IntOverflowsExactly(row.tx, log, Sent);
    IntOverflowsExactly(IntColumn(row.disk.count, row.disk.used), log, DiskUsed);
    IntOverflowsExactly(IntColumn(row.disk.count, row.disk.total), log, DiskTotal);
    IntOverflowsExactly(IntColumn(row.swap.count, row.swap.used), log, SwapUsed);
    IntOverflowsExactly(IntColumn(row.swap.count, row.swap.total), log, SwapTotal);
  }
}
