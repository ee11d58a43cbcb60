/** Rule ids in map order: the lexicographic order of strings. */
module Names {

  predicate Leq(a: string, b: string) {
    a == [] || (b != [] && (a[0] < b[0] || (a[0] == b[0] && Leq(a[1..], b[1..]))))
  }

  /** The order of strings: a prefix comes first, and otherwise the first character
      in which they differ decides. */
  lemma {:induction false} LeqExactly(a: string, b: string, i: nat)
    requires i <= |a| && i <= |b| && a[..i] == b[..i]
    ensures i == |a| ==> Leq(a, b)
    ensures i == |b| && i < |a| ==> !Leq(a, b)
    ensures i < |a| && i < |b| && a[i] != b[i] ==> (Leq(a, b) <==> a[i] < b[i])
    decreases i
  {
    if i > 0 {
      assert a[0] == a[..i][0] == b[..i][0] == b[0];
      assert a[1..][..i - 1] == a[..i][1..] == b[..i][1..] == b[1..][..i - 1];
      LeqExactly(a[1..], b[1..], i - 1);
    }
  }

  lemma {:induction false} LeqTotal(a: string, b: string)
    ensures Leq(a, b) || Leq(b, a)
    ensures Leq(a, b) && Leq(b, a) ==> a == b
  {
    if a != [] && b != [] && a[0] == b[0] {
      LeqTotal(a[1..], b[1..]);
      assert a == [a[0]] + a[1..] && b == [b[0]] + b[1..];
    }
  }

  lemma {:induction false} LeqTransitive(a: string, b: string, c: string)
    requires Leq(a, b) && Leq(b, c)
    ensures Leq(a, c)
  {
    if a != [] && a[0] == b[0] == c[0] { LeqTransitive(a[1..], b[1..], c[1..]); }
  }

  predicate IsFirst(ids: set<string>, m: string) {
    m in ids && forall k :: k in ids ==> Leq(m, k)
  }

  lemma {:induction false} FirstExists(ids: set<string>)
    requires ids != {}
    ensures exists m :: IsFirst(ids, m)
    decreases |ids|
  {
    var x :| x in ids;
    var rest := ids - {x};
    LeqTotal(x, x);
    if rest == {} {
      assert ids == rest + {x};
      assert IsFirst(ids, x);
    } else {
      FirstExists(rest);
      var m :| IsFirst(rest, m);
      LeqTotal(x, m);
      var first := if Leq(x, m) then x else m;
      forall k | k in ids ensures Leq(first, k) {
        if k != x && first == x { LeqTransitive(x, m, k); }
      }
      assert IsFirst(ids, first);
    }
  }

  function First(ids: set<string>): (m: string)
    requires ids != {}
    ensures m in ids && forall k :: k in ids ==> Leq(m, k)
  {
    FirstExists(ids);
    assert forall m, n :: IsFirst(ids, m) && IsFirst(ids, n) ==> m == n by {
      forall m, n | IsFirst(ids, m) && IsFirst(ids, n) ensures m == n { LeqTotal(m, n); }
    }
    var m :| m in ids && IsFirst(ids, m);
    m
  }

  /** The ids in map order, each once. */
  function InOrder(ids: set<string>): seq<string>
    decreases |ids|
  {
    if ids == {} then [] else [First(ids)] + InOrder(ids - {First(ids)})
  }

  lemma {:induction false} InOrderMembers(ids: set<string>)
    ensures |InOrder(ids)| == |ids| && forall k :: k in InOrder(ids) <==> k in ids
    decreases |ids|
  {
    if ids != {} {
      var m := First(ids);
      InOrderMembers(ids - {m});
      var rest := InOrder(ids - {m});
      assert InOrder(ids) == [m] + rest;
      forall k ensures k in InOrder(ids) <==> k in ids { assert k in InOrder(ids) <==> k == m || k in rest; }
    }
  }

  predicate Ascending(s: seq<string>) {
    forall i, j :: 0 <= i < j < |s| ==> Leq(s[i], s[j]) && s[i] != s[j]
  }

  lemma AscendingCons(m: string, rest: seq<string>)
    requires Ascending(rest) && forall i :: 0 <= i < |rest| ==> Leq(m, rest[i]) && m != rest[i]
    ensures Ascending([m] + rest)
  {
  }

  lemma {:induction false} InOrderFacts(ids: set<string>)
    ensures |InOrder(ids)| == |ids| && forall k :: k in InOrder(ids) <==> k in ids
    ensures Ascending(InOrder(ids))
    decreases |ids|
  {
    InOrderMembers(ids);
    if ids != {} {
      var m := First(ids);
      var rest := InOrder(ids - {m});
      InOrderFacts(ids - {m});
      forall i | 0 <= i < |rest| ensures Leq(m, rest[i]) && m != rest[i] {
        assert rest[i] in rest && rest[i] in ids - {m};
      }
      AscendingCons(m, rest);
    }
  }
}
