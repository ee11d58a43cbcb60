/** What every component shares. */
module Common {
  datatype Option<+T> = None | Some(value: T)

  /** `Iterator::position`: the first index at which `p` holds, or the length. */
  function IndexWhere<T>(s: seq<T>, p: T -> bool): (i: nat)
    ensures i <= |s|
    ensures i < |s| ==> p(s[i])
    ensures forall k :: 0 <= k < i ==> !p(s[k])
  {
    if s == [] || p(s[0]) then 0 else 1 + IndexWhere(s[1..], p)
  }

  predicate Increasing(places: seq<nat>, bound: nat) {
    && (forall i, k :: 0 <= i < k < |places| ==> places[i] < places[k])
    && (forall i :: 0 <= i < |places| ==> places[i] < bound)
  }

  /** `r` consists of the elements of `s` at `places`, in their order, and these are
      exactly the places at which `p` holds. */
  predicate Selects<T(==)>(s: seq<T>, p: T -> bool, r: seq<T>, places: seq<nat>) {
    && |places| == |r| && Increasing(places, |s|)
    && (forall i :: 0 <= i < |r| ==> r[i] == s[places[i]] && p(r[i]))
    && (forall k: nat :: k < |s| && p(s[k]) ==> k in places)
  }

  lemma SelectsSnoc<T>(s: seq<T>, p: T -> bool, r: seq<T>, places: seq<nat>, x: T)
    requires Selects(s, p, r, places)
    ensures p(x) ==> Selects(s + [x], p, r + [x], places + [|s|])
    ensures !p(x) ==> Selects(s + [x], p, r, places)
  {
  }
}
