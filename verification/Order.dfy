/** Key order: what `ORDER BY` and ordered-map iteration present. */
module Order {

  lemma Member<T>(keys: set<T>) returns (x: T)
    requires keys != {}
    ensures x in keys
  {
    x :| x in keys;
  }

  /** The least of a non-empty set of keys. */
  function Least(keys: set<int>): (m: int)
    requires keys != {}
    ensures m in keys && forall k :: k in keys ==> m <= k
  {
    LeastExists(keys);
    var m :| m in keys && forall k :: k in keys ==> m <= k;
    m
  }

  lemma {:induction false} LeastExists(keys: set<int>)
    requires keys != {}
    ensures exists m :: m in keys && forall k :: k in keys ==> m <= k
    decreases |keys|
  {
    var x := Member(keys);
    if keys != {x} {
      var rest := keys - {x};
      LeastExists(rest);
      var m :| m in rest && forall k :: k in rest ==> m <= k;
      var least := if x < m then x else m;
      assert forall k :: k in keys ==> k == x || k in rest;
      assert least in keys && forall k :: k in keys ==> least <= k;
    }
  }

  predicate Ascending(s: seq<int>) {
    forall i, k :: 0 <= i < k < |s| ==> s[i] < s[k]
  }

  /** The keys in ascending order. */
  function Ascend(keys: set<int>): seq<int>
    decreases |keys|
  {
    if keys == {} then [] else [Least(keys)] + Ascend(keys - {Least(keys)})
  }

  lemma {:induction false} AscendFacts(keys: set<int>)
    ensures Ascending(Ascend(keys)) && |Ascend(keys)| == |keys|
    ensures forall k :: k in Ascend(keys) <==> k in keys
    decreases |keys|
  {
    if keys != {} {
      var m := Least(keys);
      AscendFacts(keys - {m});
      var rest := Ascend(keys - {m});
      assert forall i :: 0 <= i < |rest| ==> rest[i] in rest && m < rest[i];
    }
  }

  /** An ascending sequence is determined by its elements. */
  lemma {:induction false} AscendUnique(s: seq<int>, t: seq<int>)
    requires Ascending(s) && Ascending(t) && (forall k :: k in s <==> k in t)
    ensures s == t
    decreases |s|
  {
    assert t != [] ==> t[0] in t;
    if s != [] {
      assert s[0] in s && s[0] in t;
      assert t != [] && t[0] in t && t[0] in s;
      assert s[0] == t[0];
      forall k ensures k in s[1..] <==> k in t[1..] {
        assert k in s <==> k == s[0] || k in s[1..];
        assert k in t <==> k == t[0] || k in t[1..];
      }
      AscendUnique(s[1..], t[1..]);
    }
  }

  function Above(keys: set<int>, bound: int): set<int> {
    set k | k in keys && k > bound
  }

  lemma AboveLeast(keys: set<int>, bound: int)
    requires keys != {} && Least(keys) <= bound
    ensures Above(keys, bound) == Above(keys - {Least(keys)}, bound)
    ensures bound == Least(keys) ==> Above(keys, bound) == keys - {Least(keys)}
  {
  }

  lemma AscendAt(keys: set<int>, i: nat)
    requires i < |Ascend(keys)|
    ensures keys != {} && Least(keys) <= Ascend(keys)[i]
  {
    AscendFacts(keys);
    assert Ascend(keys)[i] in Ascend(keys);
  }

  /** Skipping the first `n` keys is keeping those above the `n`-th. */
  lemma {:induction false} AscendSuffix(keys: set<int>, n: nat, bound: int)
    requires 0 < n <= |Ascend(keys)| && bound == Ascend(keys)[n - 1]
    ensures Ascend(Above(keys, bound)) == Ascend(keys)[n..]
    decreases n
  {
    AscendAt(keys, n - 1);
    AboveLeast(keys, bound);
    var rest := Ascend(keys - {Least(keys)});
    assert Ascend(keys) == [Least(keys)] + rest;
    assert Ascend(keys)[n..] == rest[n - 1..];
    if n > 1 { AscendSuffix(keys - {Least(keys)}, n - 1, bound); }
  }

  /** The greatest key comes last. */
  lemma AscendLast(keys: set<int>, top: int)
    requires top in keys && forall k :: k in keys ==> k <= top
    ensures Ascend(keys) != [] && Ascend(keys)[|Ascend(keys)| - 1] == top
  {
    var all := Ascend(keys);
    AscendFacts(keys);
    assert top in all;
    var i :| 0 <= i < |all| && all[i] == top;
    assert all[|all| - 1] in all && all[|all| - 1] in keys;
  }
}
