/** Three separately coded ways to find the fullest disk: the cross-multiplied
    maximum of the trend and the history store, the floored basis points of the
    alert engine, and the viewer's fullest-first sort. */
module Disks {
  import opened Common
  import opened Metrics
  import opened Ranking

  /** A pseudo-filesystem without capacity has no share to rank. */
  function Sized(disks: seq<Disk>): seq<Disk> {
    if disks == [] then []
    else Sized(disks[..|disks| - 1]) + if disks[|disks| - 1].totalBytes > 0 then [disks[|disks| - 1]] else []
  }

  /** The disks with capacity, all of them and in their order. */
  lemma {:induction false} SizedSelects(disks: seq<Disk>) returns (places: seq<nat>)
    ensures Selects(disks, (d: Disk) => d.totalBytes > 0, Sized(disks), places)
    ensures forall d :: d in Sized(disks) <==> d in disks && d.totalBytes > 0
  {
    if disks == [] {
      places := [];
    } else {
      var before, d := disks[..|disks| - 1], disks[|disks| - 1];
      places := SizedSelects(before);
      assert disks == before + [d];
      SelectsSnoc(before, (d: Disk) => d.totalBytes > 0, Sized(before), places, d);
      if d.totalBytes > 0 { places := places + [|before|]; }
      assert Sized(before) + [] == Sized(before);
    }
  }

  /** `a` is no fuller than `b`, compared as the exact ratios used / total. */
  predicate NoFuller(a: Disk, b: Disk) {
    a.usedBytes * b.totalBytes <= b.usedBytes * a.totalBytes
  }

  lemma CancelFactor(a: int, b: int, d: int)
    requires d > 0 && a * d <= b * d
    ensures a <= b
  {
  }

  lemma NoFullerTransitive(a: Disk, b: Disk, c: Disk)
    requires b.totalBytes > 0 && NoFuller(a, b) && NoFuller(b, c)
    ensures NoFuller(a, c)
  {
    var x := a.usedBytes * c.totalBytes;
    var y := c.usedBytes * a.totalBytes;
    calc {
      x * b.totalBytes;
      (a.usedBytes * b.totalBytes) * c.totalBytes;
    <= { MulMonotone(a.usedBytes * b.totalBytes, b.usedBytes * a.totalBytes, c.totalBytes); }
      (b.usedBytes * a.totalBytes) * c.totalBytes;
      (b.usedBytes * c.totalBytes) * a.totalBytes;
    <= { MulMonotone(b.usedBytes * c.totalBytes, c.usedBytes * b.totalBytes, a.totalBytes); }
      (c.usedBytes * b.totalBytes) * a.totalBytes;
      y * b.totalBytes;
    }
    CancelFactor(x, y, b.totalBytes);
  }

  lemma MulMonotone(a: int, b: int, k: nat)
    requires a <= b
    ensures a * k <= b * k
  {
  }

  lemma FullnessCompares(sized: seq<Disk>)
    requires forall d :: d in sized ==> d.totalBytes > 0
    ensures Compares(sized, NoFuller)
  {
    forall a, b, c | a in sized && b in sized && c in sized && NoFuller(a, b) && NoFuller(b, c) ensures NoFuller(a, c) {
      NoFullerTransitive(a, b, c);
    }
  }

  // ----- the trend's and the store's maximum

  /** `worst_disk`: `max_by` over the disks with capacity. */
  function Fullest(disks: seq<Disk>): Option<Disk> {
    MaxBy(Sized(disks), NoFuller)
  }

  method WorstDisk(disks: seq<Disk>) returns (worst: Option<Disk>)
    ensures worst == Fullest(disks)
  {
    var sized := Sized(disks);
    worst := None;
    for i := 0 to |sized|
      invariant worst == MaxBy(sized[..i], NoFuller)
    {
      assert sized[..i + 1][..i] == sized[..i];
      if worst.None? || NoFuller(worst.value, sized[i]) {
        worst := Some(sized[i]);
      }
    }
    assert sized[..|sized|] == sized;
  }

  /** `worst_disk` finds a disk exactly when one has capacity: one that no other
      sized disk exceeds as an exact ratio, and among equals the last. */
  lemma FullestIsFullest(disks: seq<Disk>)
    ensures Fullest(disks).None? <==> (forall d :: d in disks ==> d.totalBytes == 0)
    ensures Fullest(disks).Some? ==>
      exists i :: 0 <= i < |Sized(disks)| && Fullest(disks).value == Sized(disks)[i]
        && (forall k :: 0 <= k < |Sized(disks)| ==> NoFuller(Sized(disks)[k], Sized(disks)[i]))
        && (forall k :: i < k < |Sized(disks)| ==> !NoFuller(Sized(disks)[i], Sized(disks)[k]))
  {
    var sized := Sized(disks);
    var places := SizedSelects(disks);
    FullnessCompares(sized);
    if sized == [] {
      assert Fullest(disks).None?;
    } else {
      var i := MaxByIsTheLastOfEquals(sized, NoFuller);
      assert sized[i] in sized;
    }
  }

  // ----- the alert engine's basis points

  /** Hundredths of a percent, floored, and clamped to `u32`. */
  function BasisPoints(used: nat, total: nat): nat {
    if total == 0 then 0
    else if used * 10_000 / total > U32_MAX then U32_MAX else used * 10_000 / total
  }

  /** `percentage`: what the alert thresholds are compared with. */
  function Percentage(used: nat, total: nat): real {
    BasisPoints(used, total) as real / 100.0
  }

  /** The floored ten-thousandths of the capacity in use, at most the largest
      32-bit value; a percentage is a hundredth of them. */
  lemma BasisPointsIsFloor(used: nat, total: nat)
    requires total > 0
    ensures var bp := BasisPoints(used, total);
      && Percentage(used, total) * 100.0 == bp as real
      && (used * 10_000 < 4_294_967_296 * total ==> bp * total <= used * 10_000 < (bp + 1) * total)
      && (used * 10_000 >= 4_294_967_296 * total ==> bp == 4_294_967_295)
  {
    var q := used * 10_000 / total;
    assert q * total <= used * 10_000 < (q + 1) * total;
    if used * 10_000 >= 4_294_967_296 * total {
      DivideBound(4_294_967_296, used * 10_000, total);
    } else {
      CancelStrict(q, 4_294_967_296, total);
    }
  }

  lemma CancelStrict(a: int, b: int, d: nat)
    requires a * d < b * d
    ensures a < b
  {
    if a >= b { MulMonotone(b, a, d); }
  }

  lemma BasisPointsMonotone(a: Disk, b: Disk)
    requires a.totalBytes > 0 && b.totalBytes > 0 && NoFuller(a, b)
    ensures BasisPoints(a.usedBytes, a.totalBytes) <= BasisPoints(b.usedBytes, b.totalBytes)
  {
    var q := a.usedBytes * 10_000 / a.totalBytes;
    calc {
      (q * b.totalBytes) * a.totalBytes;
      (q * a.totalBytes) * b.totalBytes;
    <= { assert q * a.totalBytes <= a.usedBytes * 10_000;
         MulMonotone(q * a.totalBytes, a.usedBytes * 10_000, b.totalBytes); }
      (a.usedBytes * 10_000) * b.totalBytes;
      (a.usedBytes * b.totalBytes) * 10_000;
    <= { MulMonotone(a.usedBytes * b.totalBytes, b.usedBytes * a.totalBytes, 10_000); }
      (b.usedBytes * a.totalBytes) * 10_000;
      (b.usedBytes * 10_000) * a.totalBytes;
    }
    CancelFactor(q * b.totalBytes, b.usedBytes * 10_000, a.totalBytes);
    DivideBound(q, b.usedBytes * 10_000, b.totalBytes);
  }

  lemma DivideBound(q: nat, n: nat, d: nat)
    requires d > 0 && q * d <= n
    ensures q <= n / d
  {
    var r := n / d;
    assert n < (r + 1) * d;
    if q > r { MulMonotone(r + 1, q, d); }
  }

  predicate NoHigher(a: Disk, b: Disk) {
    Percentage(a.usedBytes, a.totalBytes) <= Percentage(b.usedBytes, b.totalBytes)
  }

  /** `max_by` over the readings of the sized disks. */
  function HighestReading(disks: seq<Disk>): Option<Disk> {
    MaxBy(Sized(disks), NoHigher)
  }

  /** Where the alert engine's disk is listed: none reads higher, and among equals
      it is the last. */
  lemma HighestPlace(disks: seq<Disk>) returns (i: nat)
    requires Sized(disks) != []
    ensures i < |Sized(disks)| && HighestReading(disks) == Some(Sized(disks)[i]) && Sized(disks)[i].totalBytes > 0
    ensures forall k :: 0 <= k < |Sized(disks)| ==> NoHigher(Sized(disks)[k], Sized(disks)[i])
    ensures forall k :: i < k < |Sized(disks)| ==> !NoHigher(Sized(disks)[i], Sized(disks)[k])
  {
    var places := SizedSelects(disks);
    assert Compares(Sized(disks), NoHigher);
    i := MaxByIsTheLastOfEquals(Sized(disks), NoHigher);
    assert Sized(disks)[i] in Sized(disks);
  }

  /** The alert engine finds a disk exactly when one has capacity, and none reads
      higher. */
  lemma HighestReadingIsHighest(disks: seq<Disk>)
    ensures HighestReading(disks).None? <==> (forall d :: d in disks ==> d.totalBytes == 0)
    ensures HighestReading(disks).None? <==> Sized(disks) == []
    ensures forall d :: d in disks && d.totalBytes > 0 ==> NoHigher(d, HighestReading(disks).value)
  {
    var sized := Sized(disks);
    var places := SizedSelects(disks);
    if sized != [] {
      var i := HighestPlace(disks);
      assert sized[i] in sized;
      forall d | d in disks && d.totalBytes > 0 ensures NoHigher(d, sized[i]) {
        var k :| 0 <= k < |sized| && sized[k] == d;
      }
    }
  }

  // ----- the viewer's fullest-first sort

  /** The stable `sort_by` of the viewer's filesystem list. */
  function SortByFullness(disks: seq<Disk>): seq<Disk> {
    SortBy(Sized(disks), NoFuller)
  }

  /** The viewer lists every disk with capacity as often as it occurs, none behind
      a less full one, and equally full ones in their order. */
  lemma ViewerSortsByFullness(disks: seq<Disk>, d: Disk)
    requires d.totalBytes > 0
    ensures multiset(SortByFullness(disks)) == multiset(Sized(disks))
    ensures forall i, k :: 0 <= i < k < |SortByFullness(disks)| ==>
      NoFuller(SortByFullness(disks)[k], SortByFullness(disks)[i])
    ensures EqualTo(SortByFullness(disks), d, NoFuller) == EqualTo(Sized(disks), d, NoFuller)
  {
    var sized := Sized(disks);
    var places := SizedSelects(disks);
    SortKeeps(sized, NoFuller);
    FullnessCompares(sized);
    SortDescends(sized, NoFuller);
    FullnessCompares(sized + [d]);
    SortIsStable(sized, d, sized + [d], NoFuller);
  }

  /** Main result. For every disk list the three rankings either all find
      nothing, or find disks with the same, greatest basis-point value; the
      cross-multiplied maximum and the head of the sort are equal as exact
      ratios. */
  lemma RankingsAgree(disks: seq<Disk>)
    ensures var sorted := SortByFullness(disks);
      var worst := Fullest(disks);
      var reading := HighestReading(disks);
      && (worst.None? <==> reading.None?) && (worst.None? <==> sorted == [])
      && (worst.Some? ==>
            var bp := BasisPoints(worst.value.usedBytes, worst.value.totalBytes);
            && NoFuller(worst.value, sorted[0]) && NoFuller(sorted[0], worst.value)
            && BasisPoints(reading.value.usedBytes, reading.value.totalBytes) == bp
            && BasisPoints(sorted[0].usedBytes, sorted[0].totalBytes) == bp
            && (forall d :: d in disks && d.totalBytes > 0 ==> BasisPoints(d.usedBytes, d.totalBytes) <= bp))
  {
    var sized := Sized(disks);
    var places := SizedSelects(disks);
    SortKeeps(sized, NoFuller);
    SameMembers(SortByFullness(disks), sized);
    if sized != [] { RankingsOf(disks, sized); }
  }

  lemma HeadIsFullest(disks: seq<Disk>, d: Disk)
    requires d in Sized(disks)
    ensures SortByFullness(disks) != [] && SortByFullness(disks)[0] in Sized(disks)
    ensures NoFuller(d, SortByFullness(disks)[0])
  {
    var sized, sorted := Sized(disks), SortByFullness(disks);
    var places := SizedSelects(disks);
    FullnessCompares(sized);
    SortDescends(sized, NoFuller);
    SortKeeps(sized, NoFuller);
    SameMembers(sorted, sized);
    var k :| 0 <= k < |sorted| && sorted[k] == d;
    assert sorted[0] in sorted;
  }

  lemma WorstIsFullest(disks: seq<Disk>, d: Disk)
    requires d in Sized(disks)
    ensures Fullest(disks).Some? && Fullest(disks).value in Sized(disks) && NoFuller(d, Fullest(disks).value)
  {
    var sized := Sized(disks);
    var places := SizedSelects(disks);
    FullnessCompares(sized);
    var i := MaxByIsTheLastOfEquals(sized, NoFuller);
    var k :| 0 <= k < |sized| && sized[k] == d;
    assert sized[i] in sized;
  }

  lemma RankingsOf(disks: seq<Disk>, sized: seq<Disk>)
    requires sized == Sized(disks) && sized != [] && forall d :: d in sized ==> d.totalBytes > 0
    ensures Fullest(disks).Some? && HighestReading(disks).Some? && SortByFullness(disks) != []
    ensures var worst, head, reading := Fullest(disks).value, SortByFullness(disks)[0], HighestReading(disks).value;
      var bp := BasisPoints(worst.usedBytes, worst.totalBytes);
      && NoFuller(worst, head) && NoFuller(head, worst)
      && BasisPoints(reading.usedBytes, reading.totalBytes) == bp && BasisPoints(head.usedBytes, head.totalBytes) == bp
      && (forall d :: d in sized ==> BasisPoints(d.usedBytes, d.totalBytes) <= bp)
  {
    WorstIsFullest(disks, sized[0]);
    HeadIsFullest(disks, sized[0]);
    var worst, head := Fullest(disks).value, SortByFullness(disks)[0];
    HeadIsFullest(disks, worst);
    forall d | d in sized
      ensures BasisPoints(d.usedBytes, d.totalBytes) <= BasisPoints(worst.usedBytes, worst.totalBytes) {
      WorstIsFullest(disks, d);
      BasisPointsMonotone(d, worst);
    }
    WorstIsFullest(disks, head);
    BasisPointsMonotone(worst, head);
    var j := HighestPlace(disks);
    assert sized[j] in sized;
    var k :| 0 <= k < |sized| && sized[k] == worst;
    HigherIsMore(worst, sized[j]);
  }

  lemma HigherIsMore(a: Disk, b: Disk)
    requires NoHigher(a, b)
    ensures BasisPoints(a.usedBytes, a.totalBytes) <= BasisPoints(b.usedBytes, b.totalBytes)
  {
  }
}
