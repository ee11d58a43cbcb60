/** The viewer's freshness rule: stale and offline are derived from when a
    machine was last seen, at the moment somebody looks. */
module Freshness {
  import opened Common
  import opened Metrics

  const STALE_AFTER_MS: int := 10_000
  const OFFLINE_AFTER_MS: int := 30_000

  datatype Snapshot = Snapshot(state: NodeState, lastSeenMs: Option<int>)

  /** `i64::saturating_sub`. */
  function SaturatingSub(a: int, b: int): int {
    if a - b > I64_MAX then I64_MAX else if a - b < I64_MIN then I64_MIN else a - b
  }

  function AgeMs(lastSeenMs: int, nowMs: int): int {
    if SaturatingSub(nowMs, lastSeenMs) > 0 then SaturatingSub(nowMs, lastSeenMs) else 0
  }

  predicate Final(state: NodeState) {
    state.AuthError? || state.Incompatible?
  }

  function StateAt(s: Snapshot, nowMs: int): NodeState {
    if Final(s.state) || s.lastSeenMs.None? then s.state
    else
      var age := AgeMs(s.lastSeenMs.value, nowMs);
      if age >= OFFLINE_AFTER_MS then Offline else if age >= STALE_AFTER_MS then Stale else s.state
  }

  /** What a viewer sees, in numbers: a refusal or a machine never heard from shows
      its stored state; one heard from at least 30 seconds ago is offline, at least
      10 seconds ago stale, and otherwise shows its stored state, also when the
      clock says it was heard from in the future. */
  lemma StateAtExactly(s: Snapshot, nowMs: int)
    requires -0x8000_0000_0000_0000 <= nowMs <= 0x7FFF_FFFF_FFFF_FFFF
    ensures s.state == AuthError || s.state == Incompatible || s.lastSeenMs == None ==> StateAt(s, nowMs) == s.state
    ensures s.state != AuthError && s.state != Incompatible && s.lastSeenMs.Some? ==>
      && (nowMs - s.lastSeenMs.value >= 30_000 ==> StateAt(s, nowMs) == Offline)
      && (10_000 <= nowMs - s.lastSeenMs.value < 30_000 ==> StateAt(s, nowMs) == Stale)
      && (nowMs - s.lastSeenMs.value < 10_000 ==> StateAt(s, nowMs) == s.state)
  {
  }

  /** `update_error` for an error that is neither an authorization nor a
      compatibility refusal: the stored state collapses to what it looks like. */
  function Collapse(s: Snapshot, nowMs: int): Snapshot {
    s.(state := StateAt(s, nowMs))
  }

  /** A collapse is invisible to everyone who looks at or after it. */
  lemma CollapseIsInvisible(s: Snapshot, at: int, later: int)
    requires at <= later
    ensures StateAt(Collapse(s, at), later) == StateAt(s, later)
  {
  }

  // ----- runs of one monitored machine

  /** What a monitor task does to the snapshot, with the viewer's clock. */
  datatype Event =
    | SessionStart(atMs: int, state: NodeState)   // health, path and contact of a new session
    | Refreshed(atMs: int, state: NodeState)      // the five-second health refresh: no contact stamp
    | Heard(atMs: int)                            // a sample or a heartbeat
    | Failed(atMs: int)                           // the session ended with a transient error
    | Refused(atMs: int, state: NodeState)        // ... with an authorization or compatibility error

  function Apply(s: Snapshot, e: Event): Snapshot {
    match e
    case SessionStart(at, state) => Snapshot(state, Some(at))
    case Refreshed(_, state) => s.(state := state)
    case Heard(at) => s.(lastSeenMs := Some(at))
    case Failed(at) => Collapse(s, at)
    case Refused(_, state) => s.(state := state)
  }

  function Run(s: Snapshot, events: seq<Event>): Snapshot {
    if events == [] then s else Apply(Run(s, events[..|events| - 1]), events[|events| - 1])
  }

  /** The same machine if errors never touched the stored state. */
  function Uncollapsed(s: Snapshot, events: seq<Event>): Snapshot {
    if events == [] then s
    else
      var before := Uncollapsed(s, events[..|events| - 1]);
      if events[|events| - 1].Failed? then before else Apply(before, events[|events| - 1])
  }

  /** Whether a session is running after the events. */
  predicate InSession(events: seq<Event>) {
    events != [] && !events[|events| - 1].Failed? && !events[|events| - 1].Refused?
  }

  /** A task stamps and refreshes only within a session, and its clock does not
      run backwards. */
  predicate Orderly(events: seq<Event>) {
    && (forall i, k :: 0 <= i < k < |events| ==> events[i].atMs <= events[k].atMs)
    && (forall i :: 0 <= i < |events| && (events[i].Heard? || events[i].Refreshed?) ==> InSession(events[..i]))
    && (forall i :: 0 <= i < |events| && events[i].Refused? ==> Final(events[i].state))
  }

  lemma OrderlyPrefix(events: seq<Event>, n: nat)
    requires Orderly(events) && n <= |events|
    ensures Orderly(events[..n])
  {
    forall i | 0 <= i < n ensures events[..n][..i] == events[..i] { }
  }

  /** Main result. Over every orderly run, however many transient errors collapse
      the stored state, nobody who looks after the last event can tell it from the
      machine whose state the errors never touched. */
  lemma {:induction false} ErrorsAreInvisible(s: Snapshot, events: seq<Event>, later: int)
    requires Orderly(events) && (events != [] ==> events[|events| - 1].atMs <= later)
    ensures StateAt(Run(s, events), later) == StateAt(Uncollapsed(s, events), later)
    ensures Run(s, events).lastSeenMs == Uncollapsed(s, events).lastSeenMs
    ensures InSession(events) ==> Run(s, events) == Uncollapsed(s, events)
    decreases |events|
  {
    if events != [] {
      var n := |events| - 1;
      var before := events[..n];
      OrderlyPrefix(events, n);
      ErrorsAreInvisible(s, before, later);
      ErrorsAreInvisible(s, before, events[n].atMs);
      if events[n].Failed? { CollapseIsInvisible(Run(s, before), events[n].atMs, later); }
    }
  }

  /** Main result. A refusal stays on display, whatever transient errors follow
      and whenever somebody looks, until a session sets the state again. */
  lemma {:induction false} RefusalStays(s: Snapshot, errors: seq<Event>, later: int)
    requires Final(s.state) && forall i :: 0 <= i < |errors| ==> errors[i].Failed? || errors[i].Heard?
    ensures StateAt(Run(s, errors), later) == s.state && Run(s, errors).state == s.state
    decreases |errors|
  {
    if errors != [] { RefusalStays(s, errors[..|errors| - 1], later); }
  }

  /** Main result. A machine that has aged to Offline shows Offline, or a refusal,
      to everyone who looks later, until it is heard from again; a refresh of its
      health alone does not make it look fresh. */
  lemma {:induction false} OfflineStaysWithoutContact(s: Snapshot, seen: int, events: seq<Event>, later: int)
    requires s.lastSeenMs.Some? && AgeMs(s.lastSeenMs.value, seen) >= OFFLINE_AFTER_MS && seen <= later
    requires forall i :: 0 <= i < |events| ==> !events[i].SessionStart? && !events[i].Heard?
    ensures StateAt(Run(s, events), later) == Offline || Final(StateAt(Run(s, events), later))
    ensures Run(s, events).lastSeenMs == s.lastSeenMs
    decreases |events|
  {
    if events != [] { OfflineStaysWithoutContact(s, seen, events[..|events| - 1], later); }
  }

  /** Contact makes a machine fresh: for the next ten seconds a viewer sees the
      state it last reported, and a new session brings its own state. */
  lemma ContactMakesFresh(s: Snapshot, at: int, state: NodeState, later: int)
    requires at <= later < at + 10_000
    ensures StateAt(Apply(s, Heard(at)), later) == s.state
    ensures StateAt(Apply(s, SessionStart(at, state)), later) == state
    ensures Apply(s, Refreshed(at, state)) == Snapshot(state, s.lastSeenMs)
    ensures Apply(s, Refused(at, state)) == Snapshot(state, s.lastSeenMs)
  {
  }
}
