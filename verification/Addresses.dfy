/** Candidate direct addresses of a paired machine: the observed first, then the
    known, bounded and without repetition. */
module Addresses {
  import opened Common

  const MAX_RECORD_DIRECT_ADDRESSES: nat := 8

  type Address = string

  /** First occurrences, in order. */
  function Dedup(s: seq<Address>): seq<Address> {
    if s == [] then []
    else
      var before := Dedup(s[..|s| - 1]);
      if s[|s| - 1] in before then before else before + [s[|s| - 1]]
  }

  function Truncate(s: seq<Address>): seq<Address> {
    if |s| <= MAX_RECORD_DIRECT_ADDRESSES then s else s[..MAX_RECORD_DIRECT_ADDRESSES]
  }

  function Merged(observed: seq<Address>, known: seq<Address>): seq<Address> {
    Truncate(Dedup(observed + known))
  }

  method MergedDirectAddresses(observed: seq<Address>, known: seq<Address>) returns (merged: seq<Address>)
    ensures merged == Merged(observed, known)
  {
    var candidates := observed + known;
    merged := [];
    for i := 0 to |candidates|
      invariant merged == Dedup(candidates[..i])
    {
      assert candidates[..i + 1][..i] == candidates[..i];
      if candidates[i] !in merged {
        merged := merged + [candidates[i]];
      }
    }
    assert candidates[..|candidates|] == candidates;
    merged := Truncate(merged);
  }

  predicate NoRepeats(s: seq<Address>) {
    forall i, k :: 0 <= i < k < |s| ==> s[i] != s[k]
  }

  lemma {:induction false} DedupFacts(s: seq<Address>)
    ensures NoRepeats(Dedup(s))
    ensures forall a :: a in Dedup(s) <==> a in s
  {
    if s != [] {
      DedupFacts(s[..|s| - 1]);
      assert s == s[..|s| - 1] + [s[|s| - 1]];
    }
  }

  /** Where `a` first occurs in `s`; the length of `s` when it does not. */
  function FirstAt(s: seq<Address>, a: Address): (k: nat)
    ensures k <= |s| && (k < |s| ==> s[k] == a) && (forall i :: 0 <= i < k ==> s[i] != a)
  {
    if s == [] || s[0] == a then 0 else 1 + FirstAt(s[1..], a)
  }

  /** Deduplication keeps the order in which addresses first occur. */
  lemma {:induction false} DedupKeepsOrder(s: seq<Address>)
    ensures forall i, k :: 0 <= i < k < |Dedup(s)| ==> FirstAt(s, Dedup(s)[i]) < FirstAt(s, Dedup(s)[k])
  {
    if s != [] {
      var n := |s| - 1;
      DedupKeepsOrder(s[..n]);
      DedupFacts(s[..n]);
      forall a | a in s[..n] ensures FirstAt(s, a) == FirstAt(s[..n], a) < n { }
    }
  }

  /** The first occurrences in `s` of what `seen` does not hold, in order. */
  function NewIn(seen: seq<Address>, s: seq<Address>): seq<Address> {
    if s == [] then []
    else
      var before := NewIn(seen, s[..|s| - 1]);
      var a := s[|s| - 1];
      if a in seen || a in before then before else before + [a]
  }

  lemma {:induction false} DedupSplits(a: seq<Address>, b: seq<Address>)
    ensures Dedup(a + b) == Dedup(a) + NewIn(a, b)
    decreases |b|
  {
    if b == [] {
      assert a + b == a;
    } else {
      assert (a + b)[..|a + b| - 1] == a + b[..|b| - 1];
      DedupSplits(a, b[..|b| - 1]);
      DedupFacts(a);
    }
  }

  lemma {:induction false} NewInFacts(seen: seq<Address>, s: seq<Address>)
    ensures NoRepeats(NewIn(seen, s))
    ensures forall a :: a in NewIn(seen, s) ==> a in s && a !in seen
  {
    if s != [] {
      NewInFacts(seen, s[..|s| - 1]);
      assert s == s[..|s| - 1] + [s[|s| - 1]];
    }
  }

  lemma {:induction false} NewInOfSeen(seen: seq<Address>, s: seq<Address>)
    requires forall a :: a in s ==> a in seen
    ensures NewIn(seen, s) == []
  {
    if s != [] {
      forall a | a in s[..|s| - 1] ensures a in seen { }
      NewInOfSeen(seen, s[..|s| - 1]);
      assert s[|s| - 1] in s;
    }
  }

  /** Addresses already new and distinct stay, after any that were seen. */
  lemma {:induction false} NewInOfNew(seen: seq<Address>, prior: seq<Address>, s: seq<Address>)
    requires forall a :: a in prior ==> a in seen
    requires NoRepeats(s) && forall a :: a in s ==> a !in seen
    ensures NewIn(seen, prior + s) == s
    decreases |s|
  {
    if s == [] {
      assert prior + s == prior;
      NewInOfSeen(seen, prior);
    } else {
      var n := |s| - 1;
      assert (prior + s)[..|prior + s| - 1] == prior + s[..n];
      forall a | a in s[..n] ensures a in s { }
      NewInOfNew(seen, prior, s[..n]);
      assert s[n] in s && s == s[..n] + [s[n]];
      assert s[n] !in s[..n];
    }
  }

  lemma TruncateFacts(s: seq<Address>)
    requires NoRepeats(s)
    ensures NoRepeats(Truncate(s)) && |Truncate(s)| <= MAX_RECORD_DIRECT_ADDRESSES
    ensures forall a :: a in Truncate(s) ==> a in s
  {
  }

  /** Main result. The merged list has no repetition and at most eight entries; it
      is the observed addresses in order, followed by the known ones that were not
      observed, in order, cut off after eight. Nothing is cut while both lists
      together hold at most eight. */
  lemma MergedIsObservedThenKnown(observed: seq<Address>, known: seq<Address>)
    ensures NoRepeats(Merged(observed, known)) && |Merged(observed, known)| <= 8
    ensures Merged(observed, known) == Truncate(Dedup(observed) + NewIn(observed, known))
    ensures |Dedup(observed + known)| >= 8 ==> |Merged(observed, known)| == 8
    ensures |Dedup(observed + known)| < 8 ==> Merged(observed, known) == Dedup(observed + known)
    ensures forall a :: a in Merged(observed, known) ==> a in observed + known
    ensures |observed| + |known| <= 8 ==>
      forall a :: a in observed + known ==> a in Merged(observed, known)
  {
    var s := observed + known;
    DedupFacts(s);
    TruncateFacts(Dedup(s));
    DedupSplits(observed, known);
    DedupIsShorter(s);
    forall a | a in Merged(observed, known) ensures a in s { assert a in Dedup(s); }
  }

  /** Entries keep the order in which they first occur among the observed and then
      the known. */
  lemma MergedKeepsOrder(observed: seq<Address>, known: seq<Address>, i: nat, k: nat)
    requires i < k < |Merged(observed, known)|
    ensures FirstAt(observed + known, Merged(observed, known)[i]) <
      FirstAt(observed + known, Merged(observed, known)[k])
  {
    var s := observed + known;
    DedupKeepsOrder(s);
    assert Merged(observed, known)[i] == Dedup(s)[i] && Merged(observed, known)[k] == Dedup(s)[k];
  }

  lemma {:induction false} DedupIsShorter(s: seq<Address>)
    ensures |Dedup(s)| <= |s|
  {
    if s != [] { DedupIsShorter(s[..|s| - 1]); }
  }

  /** Main result. Merging the same observation into its own result changes
      nothing. */
  lemma MergingAgainIsAFixpoint(observed: seq<Address>, known: seq<Address>)
    ensures Merged(observed, Merged(observed, known)) == Merged(observed, known)
  {
    var first := Dedup(observed);
    var more := NewIn(observed, known);
    var once := Merged(observed, known);
    DedupSplits(observed, known);
    DedupSplits(observed, once);
    DedupFacts(observed);
    if |first| >= MAX_RECORD_DIRECT_ADDRESSES {
      assert once == Truncate(first);
      forall a | a in once ensures a in observed { assert a in first; }
      NewInOfSeen(observed, once);
    } else {
      var cut := if |first| + |more| <= MAX_RECORD_DIRECT_ADDRESSES then more
        else more[..MAX_RECORD_DIRECT_ADDRESSES - |first|];
      assert once == first + cut;
      NewInFacts(observed, known);
      forall a | a in cut ensures a !in observed { assert a in more; }
      NewInOfNew(observed, first, cut);
    }
  }

  // ----- the refresh at the start of a session

  /** One paired machine: the task's own record, the persisted one (`None` after a
      removal) and how often the registry file was rewritten. */
  class PairedRecord {
    var addresses: seq<Address>
    var persisted: Option<seq<Address>>
    var rewrites: nat

    /** The observation adds something to a machine that is still registered. */
    predicate Adds(observed: seq<Address>)
      reads this
    {
      observed != [] && persisted.Some? && Merged(observed, addresses) != addresses
    }

    method Refresh(observed: seq<Address>, persistOk: bool)
      modifies this
      ensures old(Adds(observed)) && persistOk ==>
        addresses == Merged(observed, old(addresses)) && persisted == Some(addresses) && rewrites == old(rewrites) + 1
      ensures !(old(Adds(observed)) && persistOk) ==>
        addresses == old(addresses) && persisted == old(persisted) && rewrites == old(rewrites)
    {
      if observed == [] {
        return;
      }
      var merged := MergedDirectAddresses(observed, addresses);
      if merged == addresses {
        return;
      }
      if persisted.Some? && persistOk {
        persisted := Some(merged);
        rewrites := rewrites + 1;
        addresses := merged;
      }
    }

    /** One session after another that makes the same observation: however often
        it is tried and however persisting answers, the registry is rewritten once
        if anything is new and some attempt is saved, and otherwise never. */
    method RefreshRepeatedly(observed: seq<Address>, answers: seq<bool>)
      modifies this
      ensures old(Adds(observed)) && true in answers ==>
        addresses == Merged(observed, old(addresses)) && persisted == Some(addresses) && rewrites == old(rewrites) + 1
      ensures !(old(Adds(observed)) && true in answers) ==>
        addresses == old(addresses) && persisted == old(persisted) && rewrites == old(rewrites)
    {
      ghost var merged := Merged(observed, addresses);
      ghost var isNew := Adds(observed);
      MergingAgainIsAFixpoint(observed, addresses);
      for i := 0 to |answers|
        invariant isNew && true in answers[..i] ==>
          rewrites == old(rewrites) + 1 && addresses == merged && persisted == Some(merged)
        invariant !(isNew && true in answers[..i]) ==>
          rewrites == old(rewrites) && addresses == old(addresses) && persisted == old(persisted)
      {
        assert answers[..i + 1] == answers[..i] + [answers[i]];
        Refresh(observed, answers[i]);
      }
      assert answers[..|answers|] == answers;
    }
  }
}
