/** Pairing windows joined to authorization: a pair request is judged by the one
    window the agent holds, and an accepted one is persisted in a later step.
    Everything else interleaves as in `Authorization`. */
module Admission {
  import opened Common
  import Pairing
  import Auth = Authorization

  /** Which opened window, counted from zero, led to an `Authorize`, and for whom. */
  datatype Grant = Grant(window: int, peer: Auth.Peer)

  /** `accepted` remembers, for each stream whose secret was accepted and whose
      record is not persisted yet, the window that accepted it. */
  datatype State = State(
    auth: Auth.State,
    active: Option<Pairing.Window>,
    windows: nat,
    accepted: map<Auth.StreamId, int>,
    grants: seq<Grant>)

  datatype Step =
    | OpenWindow(secret: Pairing.Secret, nowMs: int)
    | PairRequest(stream: Auth.StreamId, nowMs: int, supplied: Option<seq<bv8>>)
    | Other(step: Auth.Step)

  function PeerOf(s: Auth.State, x: Auth.StreamId): Auth.Peer
    requires x in s.streams && s.streams[x].conn in s.conns
  {
    s.conns[s.streams[x].conn].peer
  }

  predicate Enabled(s: State, step: Step) {
    match step
    case OpenWindow(_, _) => true
    case PairRequest(x, _, _) =>
      x in s.auth.streams && s.auth.streams[x].verdict.Pending? && s.auth.streams[x].conn in s.auth.conns
    case Other(inner) => Auth.Enabled(s.auth, inner) && !inner.VerifySecret? && !inner.RefusePairing?
  }

  function Judge(s: State, x: Auth.StreamId, nowMs: int, supplied: Option<seq<bv8>>)
    : (Option<Pairing.Window>, Pairing.Outcome)
    requires Enabled(s, PairRequest(x, nowMs, supplied))
  {
    Pairing.Verify(s.active, nowMs, PeerOf(s.auth, x), supplied)
  }

  function Apply(s: State, step: Step): State
    requires Enabled(s, step)
  {
    match step
    case OpenWindow(secret, now) =>
      s.(active := Pairing.Next(s.active, Pairing.Opened(secret, now)), windows := s.windows + 1)
    case PairRequest(x, now, supplied) =>
      var (active, outcome) := Judge(s, x, now, supplied);
      if outcome.Paired? then
        s.(auth := Auth.Apply(s.auth, Auth.VerifySecret(x)), active := active,
          accepted := s.accepted[x := s.windows - 1])
      else
        s.(auth := Auth.Apply(s.auth, Auth.RefusePairing(x)), active := active)
    case Other(inner) =>
      var next := s.(auth := Auth.Apply(s.auth, inner));
      if inner.Authorize? && inner.stream in s.accepted then
        next.(accepted := s.accepted - {inner.stream},
              grants := s.grants + [Grant(s.accepted[inner.stream], PeerOf(s.auth, inner.stream))])
      else
        next
  }

  function Loaded(records: set<Auth.Peer>): State {
    State(Auth.Loaded(records), None, 0, map[], [])
  }

  predicate Runs(records: set<Auth.Peer>, steps: seq<Step>)
    decreases |steps|, 0
  {
    steps == []
      || (Runs(records, steps[..|steps| - 1]) && Enabled(Exec(records, steps[..|steps| - 1]), steps[|steps| - 1]))
  }

  function Exec(records: set<Auth.Peer>, steps: seq<Step>): State
    requires Runs(records, steps)
    decreases |steps|, 1
  {
    if steps == [] then Loaded(records)
    else Apply(Exec(records, steps[..|steps| - 1]), steps[|steps| - 1])
  }

  // ----- a window is spent once

  /** Window `w` has led to a grant, or to an acceptance that may become one. */
  predicate Spent(s: State, w: int) {
    || (exists x :: x in s.accepted && s.accepted[x] == w)
    || (exists i :: 0 <= i < |s.grants| && s.grants[i].window == w)
  }

  predicate SpentOnce(s: State) {
    && (forall x, y :: x in s.accepted && y in s.accepted && x != y ==> s.accepted[x] != s.accepted[y])
    && (forall x, i :: x in s.accepted && 0 <= i < |s.grants| ==> s.accepted[x] != s.grants[i].window)
    && (forall i, k :: 0 <= i < k < |s.grants| ==> s.grants[i].window != s.grants[k].window)
  }

  predicate OnlyOpened(s: State) {
    && (forall x :: x in s.accepted ==> 0 <= s.accepted[x] < s.windows)
    && (forall i :: 0 <= i < |s.grants| ==> 0 <= s.grants[i].window < s.windows)
  }

  ghost predicate AcceptedIsVerified(s: State) {
    forall x :: x in s.accepted <==> x in s.auth.streams && s.auth.streams[x].verdict.Verified?
  }

  ghost predicate Inv(s: State) {
    && AcceptedIsVerified(s) && OnlyOpened(s) && SpentOnce(s)
    && (s.active.Some? ==> s.windows > 0 && !Spent(s, s.windows - 1))
  }

  lemma AcceptedStep(s: State, step: Step)
    requires AcceptedIsVerified(s) && Enabled(s, step)
    ensures AcceptedIsVerified(Apply(s, step))
  {
  }

  lemma RequestInv(s: State, x: Auth.StreamId, nowMs: int, supplied: Option<seq<bv8>>)
    requires Inv(s) && Enabled(s, PairRequest(x, nowMs, supplied))
    ensures Inv(Apply(s, PairRequest(x, nowMs, supplied)))
  {
    AcceptedStep(s, PairRequest(x, nowMs, supplied));
    var s' := Apply(s, PairRequest(x, nowMs, supplied));
    if Judge(s, x, nowMs, supplied).1.Paired? {
      assert s'.active.None? && !Spent(s, s.windows - 1);
    } else {
      assert s'.accepted == s.accepted && s'.grants == s.grants && s'.windows == s.windows;
      assert s'.active.Some? ==> s.active.Some?;
      assert s.active.Some? ==> !Spent(s, s.windows - 1);
    }
  }

  lemma OtherInv(s: State, inner: Auth.Step)
    requires Inv(s) && Enabled(s, Other(inner))
    ensures Inv(Apply(s, Other(inner)))
  {
    AcceptedStep(s, Other(inner));
    var s' := Apply(s, Other(inner));
    forall w | Spent(s', w) ensures Spent(s, w) {
      if i :| 0 <= i < |s'.grants| && s'.grants[i].window == w {
        if i < |s.grants| { assert s.grants[i].window == w; } else { assert s.accepted[inner.stream] == w; }
      }
    }
  }

  lemma StepInv(s: State, step: Step)
    requires Inv(s) && Enabled(s, step)
    ensures Inv(Apply(s, step))
  {
    match step
    case OpenWindow(_, _) =>
      var s' := Apply(s, step);
      assert s'.accepted == s.accepted && s'.grants == s.grants;
      assert !Spent(s', s.windows);
    case PairRequest(x, now, supplied) => RequestInv(s, x, now, supplied);
    case Other(inner) => OtherInv(s, inner);
  }

  lemma {:induction false} RunInv(records: set<Auth.Peer>, steps: seq<Step>)
    requires Runs(records, steps)
    ensures Inv(Exec(records, steps))
    decreases |steps|
  {
    if steps != [] {
      RunInv(records, steps[..|steps| - 1]);
      StepInv(Exec(records, steps[..|steps| - 1]), steps[|steps| - 1]);
    }
  }

  /** Everyone on the allowlist was loaded with it or was granted. */
  predicate AllAdmitted(records: set<Auth.Peer>, s: State) {
    forall p :: p in s.auth.peers ==> p in records || exists i :: 0 <= i < |s.grants| && s.grants[i].peer == p
  }

  lemma AdmittedStep(records: set<Auth.Peer>, s: State, step: Step)
    requires Inv(s) && Enabled(s, step) && AllAdmitted(records, s)
    ensures AllAdmitted(records, Apply(s, step))
  {
    var s' := Apply(s, step);
    forall p | p in s'.auth.peers && p !in records ensures exists i :: 0 <= i < |s'.grants| && s'.grants[i].peer == p {
      if p in s.auth.peers {
        var i :| 0 <= i < |s.grants| && s.grants[i].peer == p;
        assert s'.grants[i].peer == p;
      } else {
        assert s'.grants[|s.grants|].peer == p;
      }
    }
  }

  lemma {:induction false} RunAdmits(records: set<Auth.Peer>, steps: seq<Step>)
    requires Runs(records, steps)
    ensures AllAdmitted(records, Exec(records, steps))
    decreases |steps|
  {
    if steps != [] {
      RunAdmits(records, steps[..|steps| - 1]);
      RunInv(records, steps[..|steps| - 1]);
      AdmittedStep(records, Exec(records, steps[..|steps| - 1]), steps[|steps| - 1]);
    }
  }

  /** Main result. In every interleaving of windows, pair requests, connections,
      checks and revocations, each opened window leads to at most one grant, each
      grant comes from an opened window, and nobody is on the allowlist who was
      neither loaded with it nor granted. */
  lemma EachWindowAdmitsOnce(records: set<Auth.Peer>, steps: seq<Step>)
    requires Runs(records, steps)
    ensures var s := Exec(records, steps);
      && (forall i :: 0 <= i < |s.grants| ==> 0 <= s.grants[i].window < s.windows)
      && (forall i, k :: 0 <= i < k < |s.grants| ==> s.grants[i].window != s.grants[k].window)
      && AllAdmitted(records, s)
  {
    RunInv(records, steps);
    RunAdmits(records, steps);
  }

  // ----- the two halves are the two components

  /** What the pairing manager sees of a step. */
  function EventOf(s: State, step: Step): seq<Pairing.Event>
    requires Enabled(s, step)
  {
    match step
    case OpenWindow(secret, now) => [Pairing.Opened(secret, now)]
    case PairRequest(x, now, supplied) => [Pairing.Attempt(now, PeerOf(s.auth, x), supplied)]
    case Other(_) => []
  }

  function Events(records: set<Auth.Peer>, steps: seq<Step>): seq<Pairing.Event>
    requires Runs(records, steps)
    decreases |steps|
  {
    if steps == [] then []
    else
      var before := steps[..|steps| - 1];
      Events(records, before) + EventOf(Exec(records, before), steps[|steps| - 1])
  }

  lemma {:induction false} AfterPrefix(events: seq<Pairing.Event>, more: seq<Pairing.Event>, k: nat)
    requires k <= |events|
    ensures Pairing.After(events + more, k) == Pairing.After(events, k)
  {
    if k > 0 { AfterPrefix(events, more, k - 1); }
  }

  lemma StepFollows(s: State, step: Step, events: seq<Pairing.Event>)
    requires Enabled(s, step) && s.active == Pairing.After(events, |events|)
    ensures var all := events + EventOf(s, step);
      Apply(s, step).active == Pairing.After(all, |all|)
  {
    if step.Other? {
      assert events + [] == events;
    } else {
      AfterPrefix(events, EventOf(s, step), |events|);
    }
  }

  /** The window of a run is the pairing manager's after the same events, so what
      `Pairing` proves of its runs holds here. */
  lemma {:induction false} PairingIsFollowed(records: set<Auth.Peer>, steps: seq<Step>)
    requires Runs(records, steps)
    ensures var events := Events(records, steps);
      Exec(records, steps).active == Pairing.After(events, |events|)
    decreases |steps|
  {
    if steps != [] {
      var before := steps[..|steps| - 1];
      PairingIsFollowed(records, before);
      StepFollows(Exec(records, before), steps[|steps| - 1], Events(records, before));
    }
  }

  /** Main result. In every run a pair request is accepted exactly when the events
      so far left a window open whose exact secret it presents in time, with fewer
      than five failures of its peer on record; otherwise it is refused. */
  lemma RequestAcceptedExactly(records: set<Auth.Peer>, steps: seq<Step>,
                               x: Auth.StreamId, nowMs: int, supplied: Option<seq<bv8>>)
    requires Runs(records, steps) && Enabled(Exec(records, steps), PairRequest(x, nowMs, supplied))
    ensures var s := Exec(records, steps);
      var verdict := Apply(s, PairRequest(x, nowMs, supplied)).auth.streams[x].verdict;
      var before := Events(records, steps);
      var all := before + [Pairing.Attempt(nowMs, PeerOf(s.auth, x), supplied)];
      && (verdict.Verified? <==> exists j: nat :: Pairing.PresentsInTime(all, j, |before|))
      && (verdict.Verified? || verdict.Refused?)
  {
    var s := Exec(records, steps);
    var before := Events(records, steps);
    var attempt := Pairing.Attempt(nowMs, PeerOf(s.auth, x), supplied);
    PairingIsFollowed(records, steps);
    AfterPrefix(before, [attempt], |before|);
    Pairing.PairingSucceedsExactly(before + [attempt], |before|);
    assert Pairing.Succeeds(before + [attempt], |before|) <==> Judge(s, x, nowMs, supplied).1.Paired?;
  }

  /** Its authorization state is one that `Authorization` reaches. */
  lemma {:induction false} AuthorizationIsFollowed(records: set<Auth.Peer>, steps: seq<Step>)
    requires Runs(records, steps)
    ensures Auth.Reachable(records, Exec(records, steps).auth)
    decreases |steps|
  {
    if steps == [] {
      var start := Auth.Loaded(records);
      assert Auth.Runs(start, []) && Auth.Exec(start, []) == start;
    } else {
      var before := steps[..|steps| - 1];
      AuthorizationIsFollowed(records, before);
      var s := Exec(records, before);
      match steps[|steps| - 1]
      case OpenWindow(_, _) =>
      case PairRequest(x, now, supplied) =>
        var paired := Judge(s, x, now, supplied).1.Paired?;
        Auth.Then(records, s.auth, if paired then Auth.VerifySecret(x) else Auth.RefusePairing(x));
      case Other(inner) =>
        Auth.Then(records, s.auth, inner);
    }
  }
}
