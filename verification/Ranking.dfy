/** Maximum and stable sort under a comparison, as iterators and slices do them. */
module Ranking {
  import opened Common

  /** `noMore(a, b)` compares any two elements of `s` and is transitive on them. */
  ghost predicate Compares<T(!new)>(s: seq<T>, noMore: (T, T) -> bool) {
    && (forall a, b :: a in s && b in s ==> noMore(a, b) || noMore(b, a))
    && (forall a, b, c :: a in s && b in s && c in s && noMore(a, b) && noMore(b, c) ==> noMore(a, c))
  }

  /** `Iterator::max_by`. */
  function MaxBy<T>(s: seq<T>, noMore: (T, T) -> bool): Option<T> {
    if s == [] then None
    else
      var before := MaxBy(s[..|s| - 1], noMore);
      var x := s[|s| - 1];
      if before.None? || noMore(before.value, x) then Some(x) else before
  }

  /** The greatest element is found, and among equals the last. */
  lemma {:induction false} MaxByIsTheLastOfEquals<T(!new)>(s: seq<T>, noMore: (T, T) -> bool) returns (i: nat)
    requires s != [] && Compares(s, noMore)
    ensures i < |s| && MaxBy(s, noMore) == Some(s[i])
    ensures forall k :: 0 <= k < |s| ==> noMore(s[k], s[i])
    ensures forall k :: i < k < |s| ==> !noMore(s[i], s[k])
    decreases |s|
  {
    var n := |s| - 1;
    if n == 0 {
      i := 0;
    } else {
      assert forall x :: x in s[..n] ==> x in s;
      var j := MaxByIsTheLastOfEquals(s[..n], noMore);
      assert s[n] in s && s[j] in s;
      i := if noMore(s[j], s[n]) then n else j;
      forall k | 0 <= k < |s| ensures noMore(s[k], s[i]) {
        assert s[k] in s;
        if k < n { assert noMore(s[..n][k], s[j]); }
      }
      forall k | i < k < |s| ensures !noMore(s[i], s[k]) { assert k < n ==> s[..n][k] == s[k]; }
    }
  }

  // ----- the stable sort, greatest first

  /** Behind everything that is at least as great. */
  function Insert<T>(sorted: seq<T>, x: T, noMore: (T, T) -> bool): seq<T> {
    if sorted == [] then [x]
    else if noMore(x, sorted[0]) then [sorted[0]] + Insert(sorted[1..], x, noMore)
    else [x] + sorted
  }

  function SortBy<T>(s: seq<T>, noMore: (T, T) -> bool): seq<T> {
    if s == [] then [] else Insert(SortBy(s[..|s| - 1], noMore), s[|s| - 1], noMore)
  }

  predicate Descends<T>(s: seq<T>, noMore: (T, T) -> bool) {
    forall i, k :: 0 <= i < k < |s| ==> noMore(s[k], s[i])
  }

  lemma {:induction false} InsertKeeps<T>(sorted: seq<T>, x: T, noMore: (T, T) -> bool)
    ensures multiset(Insert(sorted, x, noMore)) == multiset(sorted) + multiset{x}
  {
    if sorted != [] {
      assert sorted == [sorted[0]] + sorted[1..];
      if noMore(x, sorted[0]) { InsertKeeps(sorted[1..], x, noMore); }
    }
  }

  lemma {:induction false} SortKeeps<T>(s: seq<T>, noMore: (T, T) -> bool)
    ensures multiset(SortBy(s, noMore)) == multiset(s)
  {
    if s != [] {
      SortKeeps(s[..|s| - 1], noMore);
      InsertKeeps(SortBy(s[..|s| - 1], noMore), s[|s| - 1], noMore);
      assert s == s[..|s| - 1] + [s[|s| - 1]];
    }
  }

  lemma SameMembers<T>(a: seq<T>, b: seq<T>)
    requires multiset(a) == multiset(b)
    ensures |a| == |b| && forall x :: x in a <==> x in b
  {
    assert |a| == |multiset(a)| == |multiset(b)| == |b|;
    assert forall x :: x in a <==> x in multiset(a);
    assert forall x :: x in b <==> x in multiset(b);
  }

  lemma InsertMembers<T>(sorted: seq<T>, x: T, noMore: (T, T) -> bool)
    ensures forall y :: y in Insert(sorted, x, noMore) <==> y in sorted || y == x
  {
    InsertKeeps(sorted, x, noMore);
    assert multiset(sorted + [x]) == multiset(sorted) + multiset{x};
    SameMembers(Insert(sorted, x, noMore), sorted + [x]);
  }

  lemma ConsDescends<T>(x: T, rest: seq<T>, noMore: (T, T) -> bool)
    requires Descends(rest, noMore) && forall y :: y in rest ==> noMore(y, x)
    ensures Descends([x] + rest, noMore)
  {
  }

  lemma {:induction false} InsertDescends<T(!new)>(sorted: seq<T>, x: T, noMore: (T, T) -> bool)
    requires Descends(sorted, noMore) && Compares(sorted + [x], noMore)
    ensures Descends(Insert(sorted, x, noMore), noMore)
  {
    if sorted != [] {
      var head, tail := sorted[0], sorted[1..];
      assert sorted == [head] + tail;
      assert forall y :: y in tail + [x] ==> y in sorted + [x];
      if noMore(x, head) {
        InsertDescends(tail, x, noMore);
        InsertMembers(tail, x, noMore);
        forall y | y in Insert(tail, x, noMore) ensures noMore(y, head) {
          if y != x { var k :| 0 <= k < |tail| && tail[k] == y; assert sorted[k + 1] == y; }
        }
        ConsDescends(head, Insert(tail, x, noMore), noMore);
      } else {
        forall y | y in sorted ensures noMore(y, x) { LessThanHead(sorted, x, y, noMore); }
        ConsDescends(x, sorted, noMore);
      }
    }
  }

  /** What does not reach past the head of a descending list exceeds all of it. */
  lemma LessThanHead<T(!new)>(sorted: seq<T>, x: T, y: T, noMore: (T, T) -> bool)
    requires sorted != [] && Descends(sorted, noMore) && Compares(sorted + [x], noMore)
    requires !noMore(x, sorted[0]) && y in sorted
    ensures noMore(y, x)
  {
    assert x in sorted + [x] && sorted[0] in sorted + [x] && y in sorted + [x];
    assert noMore(sorted[0], x);
    var k :| 0 <= k < |sorted| && sorted[k] == y;
    assert k == 0 || noMore(sorted[k], sorted[0]);
  }

  /** The sort orders its elements, greatest first. */
  lemma {:induction false} SortDescends<T(!new)>(s: seq<T>, noMore: (T, T) -> bool)
    requires Compares(s, noMore)
    ensures Descends(SortBy(s, noMore), noMore)
  {
    if s != [] {
      var before, x := s[..|s| - 1], s[|s| - 1];
      assert s == before + [x];
      SortDescends(before, noMore);
      SortKeeps(before, noMore);
      SameMembers(SortBy(before, noMore), before);
      assert forall y :: y in SortBy(before, noMore) + [x] ==> y in s;
      InsertDescends(SortBy(before, noMore), x, noMore);
    }
  }

  /** The elements that compare equal to `d`, in order. */
  function EqualTo<T>(s: seq<T>, d: T, noMore: (T, T) -> bool): seq<T> {
    if s == [] then []
    else (if noMore(s[0], d) && noMore(d, s[0]) then [s[0]] else []) + EqualTo(s[1..], d, noMore)
  }

  lemma {:induction false} EqualToNone<T>(s: seq<T>, d: T, noMore: (T, T) -> bool)
    requires forall y :: y in s ==> !noMore(d, y)
    ensures EqualTo(s, d, noMore) == []
  {
    if s != [] { EqualToNone(s[1..], d, noMore); }
  }

  lemma {:induction false} EqualToSnoc<T>(s: seq<T>, x: T, d: T, noMore: (T, T) -> bool)
    ensures EqualTo(s + [x], d, noMore) == EqualTo(s, d, noMore) + if noMore(x, d) && noMore(d, x) then [x] else []
  {
    if s == [] {
      assert ([] + [x])[1..] == [];
    } else {
      EqualToSnoc(s[1..], x, d, noMore);
      assert (s + [x])[1..] == s[1..] + [x];
    }
  }

  lemma Exceeds<T(!new)>(x: T, d: T, head: T, y: T, all: seq<T>, noMore: (T, T) -> bool)
    requires Compares(all, noMore) && x in all && d in all && head in all && y in all
    requires !noMore(x, head) && noMore(x, d) && noMore(y, head)
    ensures !noMore(d, y)
  {
  }

  lemma {:induction false} InsertIsStable<T(!new)>(sorted: seq<T>, x: T, d: T, all: seq<T>, noMore: (T, T) -> bool)
    requires Descends(sorted, noMore) && Compares(all, noMore) && x in all && d in all
    requires forall y :: y in sorted ==> y in all
    ensures EqualTo(Insert(sorted, x, noMore), d, noMore) ==
      EqualTo(sorted, d, noMore) + if noMore(x, d) && noMore(d, x) then [x] else []
  {
    var r := Insert(sorted, x, noMore);
    if sorted == [] {
      assert r[1..] == [];
    } else if noMore(x, sorted[0]) {
      InsertIsStable(sorted[1..], x, d, all, noMore);
      assert r[1..] == Insert(sorted[1..], x, noMore);
    } else {
      assert r[1..] == sorted;
      if noMore(x, d) && noMore(d, x) { NoneEqualBehind(sorted, x, d, all, noMore); }
    }
  }

  lemma NoneEqualBehind<T(!new)>(sorted: seq<T>, x: T, d: T, all: seq<T>, noMore: (T, T) -> bool)
    requires Descends(sorted, noMore) && Compares(all, noMore) && x in all && d in all && sorted != []
    requires (forall y :: y in sorted ==> y in all) && !noMore(x, sorted[0]) && noMore(x, d)
    ensures EqualTo(sorted, d, noMore) == []
  {
    forall y | y in sorted ensures !noMore(d, y) {
      var k :| 0 <= k < |sorted| && sorted[k] == y;
      assert k > 0 ==> noMore(sorted[k], sorted[0]);
      Exceeds(x, d, sorted[0], y, all, noMore);
    }
    EqualToNone(sorted, d, noMore);
  }

  /** The sort is stable: elements that compare equal keep their order. */
  lemma {:induction false} SortIsStable<T(!new)>(s: seq<T>, d: T, all: seq<T>, noMore: (T, T) -> bool)
    requires Compares(all, noMore) && d in all && forall y :: y in s ==> y in all
    ensures EqualTo(SortBy(s, noMore), d, noMore) == EqualTo(s, d, noMore)
    decreases |s|
  {
    if s != [] {
      var before, x := s[..|s| - 1], s[|s| - 1];
      assert s == before + [x];
      SortIsStable(before, d, all, noMore);
      SortDescends(before, noMore);
      SortKeeps(before, noMore);
      SameMembers(SortBy(before, noMore), before);
      InsertIsStable(SortBy(before, noMore), x, d, all, noMore);
      EqualToSnoc(before, x, d, noMore);
    }
  }
}
