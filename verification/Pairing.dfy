/** One-time pairing windows with per-peer lockout. */
module Pairing {
  import opened Common

  const SECRET_BYTES: nat := 32
  const PAIRING_WINDOW_MS: int := 300_000
  const MAX_FAILURES: nat := 5
  const MAX_TRACKED_FAILING_PEERS: nat := 64
  const U8_MAX: nat := 255

  type Peer = string
  type Secret = s: seq<bv8> | |s| == SECRET_BYTES witness seq(SECRET_BYTES, _ => 0)

  datatype Entry = Entry(peer: Peer, count: nat)

  /** `failures` is in insertion order: the oldest entry is first. */
  datatype Window = Window(secret: Secret, expiresAtMs: int, failures: seq<Entry>)

  datatype Outcome = Paired | WindowClosed | Expired | Rejected

  /** The index of the first entry of `peer`, or the length when there is none. */
  function Position(table: seq<Entry>, peer: Peer): (i: nat)
    ensures i <= |table|
    ensures i < |table| ==> table[i].peer == peer
    ensures forall k :: 0 <= k < i ==> table[k].peer != peer
  {
    IndexWhere(table, (entry: Entry) => entry.peer == peer)
  }

  predicate Has(table: seq<Entry>, peer: Peer) {
    Position(table, peer) < |table|
  }

  /** The failures on record for `peer`; absence is zero. */
  function Recorded(table: seq<Entry>, peer: Peer): nat {
    if Has(table, peer) then table[Position(table, peer)].count else 0
  }

  function RecordFailure(table: seq<Entry>, peer: Peer): seq<Entry> {
    var i := Position(table, peer);
    if i < |table| then
      table[i := Entry(peer, if table[i].count < U8_MAX then table[i].count + 1 else U8_MAX)]
    else
      (if |table| >= MAX_TRACKED_FAILING_PEERS then table[1..] else table) + [Entry(peer, 1)]
  }

  predicate LockedOut(table: seq<Entry>, peer: Peer) {
    exists i :: 0 <= i < |table| && table[i].peer == peer && table[i].count >= MAX_FAILURES
  }

  /** `supplied` is the secret after base64 decoding, `None` if that failed. */
  predicate Matches(w: Window, supplied: Option<seq<bv8>>) {
    supplied.Some? && |supplied.value| == SECRET_BYTES && supplied.value == w.secret
  }

  function Verify(active: Option<Window>, nowMs: int, peer: Peer, supplied: Option<seq<bv8>>)
    : (Option<Window>, Outcome)
  {
    if active.None? then (None, WindowClosed)
    else if nowMs > active.value.expiresAtMs then (None, Expired)
    else if LockedOut(active.value.failures, peer) then (active, Rejected)
    else if Matches(active.value, supplied) then (None, Paired)
    else (Some(active.value.(failures := RecordFailure(active.value.failures, peer))), Rejected)
  }

  class PairingManager {
    var active: Option<Window>

    constructor ()
      ensures active == None
    {
      active := None;
    }

    /** `secret` is the random draw, `nowMs` the wall clock. */
    method Open(secret: Secret, nowMs: int) returns (expiresAtMs: int)
      modifies this
      ensures expiresAtMs == nowMs + PAIRING_WINDOW_MS
      ensures active == Some(Window(secret, expiresAtMs, []))
    {
      expiresAtMs := nowMs + PAIRING_WINDOW_MS;
      active := Some(Window(secret, expiresAtMs, []));
    }

    method IsLockedOut(peer: Peer) returns (locked: bool)
      requires active.Some?
      ensures locked == LockedOut(active.value.failures, peer)
    {
      var table := active.value.failures;
      for i := 0 to |table|
        invariant !LockedOut(table[..i], peer)
      {
        if table[i].peer == peer && table[i].count >= MAX_FAILURES {
          return true;
        }
      }
      assert table[..|table|] == table;
      return false;
    }

    method RecordFailureOf(peer: Peer)
      requires active.Some?
      modifies this
      ensures active == Some(old(active).value.(failures := RecordFailure(old(active).value.failures, peer)))
    {
      var table := active.value.failures;
      var i := 0;
      while i < |table| && table[i].peer != peer
        invariant 0 <= i <= |table|
        invariant forall k :: 0 <= k < i ==> table[k].peer != peer
      {
        i := i + 1;
      }
      assert i == Position(table, peer);
      if i < |table| {
        var bumped := if table[i].count < U8_MAX then table[i].count + 1 else U8_MAX;
        active := Some(active.value.(failures := table[i := Entry(peer, bumped)]));
        return;
      }
      if |table| >= MAX_TRACKED_FAILING_PEERS {
        table := table[1..];
      }
      active := Some(active.value.(failures := table + [Entry(peer, 1)]));
    }

    method VerifyAndConsumeAt(nowMs: int, peer: Peer, supplied: Option<seq<bv8>>) returns (outcome: Outcome)
      modifies this
      ensures (active, outcome) == Verify(old(active), nowMs, peer, supplied)
    {
      if active.None? {
        return WindowClosed;
      }
      if nowMs > active.value.expiresAtMs {
        active := None;
        return Expired;
      }
      var locked := IsLockedOut(peer);
      if locked {
        return Rejected;
      }
      if Matches(active.value, supplied) {
        active := None;
        return Paired;
      }
      RecordFailureOf(peer);
      return Rejected;
    }
  }

  // ----- runs of the manager

  datatype Event =
    | Opened(secret: Secret, nowMs: int)
    | Attempt(nowMs: int, peer: Peer, supplied: Option<seq<bv8>>)

  function Next(active: Option<Window>, event: Event): Option<Window> {
    match event
    case Opened(secret, now) => Some(Window(secret, now + PAIRING_WINDOW_MS, []))
    case Attempt(now, peer, supplied) => Verify(active, now, peer, supplied).0
  }

  /** The manager's field after the first `k` events. */
  function After(events: seq<Event>, k: nat): Option<Window>
    requires k <= |events|
  {
    if k == 0 then None else Next(After(events, k - 1), events[k - 1])
  }

  predicate Succeeds(events: seq<Event>, k: nat)
    requires k < |events|
  {
    events[k].Attempt? && Verify(After(events, k), events[k].nowMs, events[k].peer, events[k].supplied).1.Paired?
  }

  /** The window opened by event `j` has neither been replaced, consumed nor
      found expired by any event before `k`. */
  predicate StillOpen(events: seq<Event>, j: nat, k: nat)
    requires k <= |events|
  {
    && j < k && events[j].Opened?
    && forall i :: j < i < k ==>
         events[i].Attempt? && !Succeeds(events, i) && events[i].nowMs <= events[j].nowMs + 300_000
  }

  lemma {:induction false} StillOpenIsActive(events: seq<Event>, j: nat, k: nat)
    requires k <= |events| && StillOpen(events, j, k)
    ensures var w := After(events, k);
      w.Some? && w.value.secret == events[j].secret && w.value.expiresAtMs == events[j].nowMs + PAIRING_WINDOW_MS
    decreases k
  {
    if k > j + 1 {
      StillOpenIsActive(events, j, k - 1);
      assert events[k - 1].Attempt? && !Succeeds(events, k - 1);
    }
  }

  lemma {:induction false} ActiveIsStillOpen(events: seq<Event>, k: nat) returns (j: nat)
    requires k <= |events| && After(events, k).Some?
    ensures StillOpen(events, j, k)
    decreases k
  {
    if events[k - 1].Opened? {
      j := k - 1;
    } else {
      j := ActiveIsStillOpen(events, k - 1);
      StillOpenIsActive(events, j, k - 1);
    }
  }

  /** Attempt `k` presents, in time, the secret of the window opened at `j`, which
      is still open, and fewer than five failures are on record for its peer. */
  predicate PresentsInTime(events: seq<Event>, j: nat, k: nat)
    requires k < |events| && events[k].Attempt?
  {
    && StillOpen(events, j, k)
    && events[k].supplied == Some(events[j].secret) && |events[j].secret| == 32
    && events[k].nowMs <= events[j].nowMs + 300_000
    && After(events, k).Some? && Recorded(After(events, k).value.failures, events[k].peer) < 5
  }

  lemma VerdictOfOpenWindow(events: seq<Event>, j: nat, k: nat)
    requires k < |events| && events[k].Attempt? && StillOpen(events, j, k)
    ensures Succeeds(events, k) <==> PresentsInTime(events, j, k)
  {
    StillOpenIsActive(events, j, k);
    WindowTallies(events, j, k, events[k].peer);
    LockedOutIsFiveRecorded(After(events, k).value.failures, events[k].peer);
  }

  /** Main result, both directions: an attempt succeeds exactly when a window is
      still open, the supplied bytes are that window's secret, its last
      millisecond has not passed, and the peer has fewer than five failures on
      record. What other peers tried appears nowhere else. */
  lemma PairingSucceedsExactly(events: seq<Event>, k: nat)
    requires k < |events| && events[k].Attempt?
    ensures Succeeds(events, k) <==> exists j: nat :: PresentsInTime(events, j, k)
  {
    if Succeeds(events, k) {
      var j := ActiveIsStillOpen(events, k);
      VerdictOfOpenWindow(events, j, k);
    }
    forall j: nat | PresentsInTime(events, j, k) ensures Succeeds(events, k) {
      VerdictOfOpenWindow(events, j, k);
    }
  }

  /** What an attempt is answered, from the events alone: closed when no window is
      open, expired when the open one's five minutes have passed, paired as above,
      and otherwise rejected. */
  lemma OutcomeExactly(events: seq<Event>, k: nat)
    requires k < |events| && events[k].Attempt?
    ensures var outcome := Verify(After(events, k), events[k].nowMs, events[k].peer, events[k].supplied).1;
      && (outcome.WindowClosed? <==> forall j: nat :: !StillOpen(events, j, k))
      && (outcome.Expired? <==> exists j: nat :: StillOpen(events, j, k) && events[k].nowMs > events[j].nowMs + 300_000)
      && (outcome.Paired? <==> exists j: nat :: PresentsInTime(events, j, k))
  {
    PairingSucceedsExactly(events, k);
    if After(events, k).Some? {
      var j := ActiveIsStillOpen(events, k);
      StillOpenIsActive(events, j, k);
    }
    forall j: nat | StillOpen(events, j, k)
      ensures After(events, k).Some? && After(events, k).value.expiresAtMs == events[j].nowMs + 300_000
    {
      StillOpenIsActive(events, j, k);
    }
  }

  /** A window pairs at most one peer: between two successes another window was
      opened. */
  lemma OneSuccessPerWindow(events: seq<Event>, a: nat, b: nat)
    requires a < b < |events| && Succeeds(events, a) && Succeeds(events, b)
    ensures exists j :: a < j < b && events[j].Opened?
  {
    var j := ActiveIsStillOpen(events, b);
    assert a < j;
  }

  // ----- the lockout table

  predicate Distinct(table: seq<Entry>) {
    forall i, k :: 0 <= i < k < |table| ==> table[i].peer != table[k].peer
  }

  /** What every table of a window satisfies. */
  predicate TableOk(table: seq<Entry>) {
    && |table| <= MAX_TRACKED_FAILING_PEERS && Distinct(table)
    && forall i :: 0 <= i < |table| ==> 1 <= table[i].count <= MAX_FAILURES
  }

  lemma PositionUnique(table: seq<Entry>, peer: Peer, i: nat)
    requires Distinct(table) && i < |table| && table[i].peer == peer
    ensures Position(table, peer) == i
  {
  }

  lemma LockedOutIsFiveRecorded(table: seq<Entry>, peer: Peer)
    requires Distinct(table)
    ensures LockedOut(table, peer) <==> Recorded(table, peer) >= MAX_FAILURES
  {
    var p := Position(table, peer);
    if p < |table| && table[p].count >= MAX_FAILURES { assert LockedOut(table, peer); }
    forall i | 0 <= i < |table| && table[i].peer == peer ensures i == p { PositionUnique(table, peer, i); }
  }

  lemma RecordKeepsTableOk(table: seq<Entry>, peer: Peer)
    requires TableOk(table) && !LockedOut(table, peer)
    ensures TableOk(RecordFailure(table, peer))
  {
    LockedOutIsFiveRecorded(table, peer);
  }

  /** How recording a failure of `peer` moves the entry of `p`: its own entry
      counts up in place or is appended; an insertion of another peer into a
      full table evicts the head and nothing else. */
  lemma RecordMoves(table: seq<Entry>, peer: Peer, p: Peer)
    requires TableOk(table)
    ensures var next := RecordFailure(table, peer);
      var i := Position(table, p);
      if peer == p then
        if Has(table, p) then |next| == |table| && Position(next, p) == i && Recorded(next, p) == Recorded(table, p) + 1
        else Position(next, p) == |next| - 1 && Recorded(next, p) == 1
      else if Has(table, peer) then
        |next| == |table| && Position(next, p) == i && Recorded(next, p) == Recorded(table, p)
      else if !Has(table, p) then
        !Has(next, p)
      else
        var evicted := |table| == MAX_TRACKED_FAILING_PEERS;
        if evicted && i == 0 then !Has(next, p)
        else Has(next, p) && |next| - 1 - Position(next, p) == |table| - i && Recorded(next, p) == Recorded(table, p)
  {
    if peer == p {
      RecordOwn(table, p);
    } else if Has(table, peer) {
      RecordKnown(table, peer, p);
    } else {
      RecordInsertion(table, peer, p);
    }
  }

  lemma RecordOwn(table: seq<Entry>, p: Peer)
    requires TableOk(table)
    ensures var next := RecordFailure(table, p);
      if Has(table, p) then
        |next| == |table| && Position(next, p) == Position(table, p) && Recorded(next, p) == Recorded(table, p) + 1
      else Position(next, p) == |next| - 1 && Recorded(next, p) == 1
  {
    var next := RecordFailure(table, p);
    var i := Position(table, p);
    if i < |table| {
      assert next[i].peer == p;
      PositionUnique(next, p, i);
    } else {
      PositionUnique(next, p, |next| - 1);
    }
  }

  lemma RecordKnown(table: seq<Entry>, peer: Peer, p: Peer)
    requires TableOk(table) && peer != p && Has(table, peer)
    ensures var next := RecordFailure(table, peer);
      |next| == |table| && Position(next, p) == Position(table, p) && Recorded(next, p) == Recorded(table, p)
  {
    var next := RecordFailure(table, peer);
    var i := Position(table, p);
    if i < |table| { assert next[i] == table[i]; PositionUnique(next, p, i); }
  }

  lemma RecordInsertion(table: seq<Entry>, peer: Peer, p: Peer)
    requires TableOk(table) && peer != p && !Has(table, peer)
    ensures var next := RecordFailure(table, peer);
      var i := Position(table, p);
      if !Has(table, p) || (|table| == MAX_TRACKED_FAILING_PEERS && i == 0) then !Has(next, p)
      else Has(next, p) && |next| - 1 - Position(next, p) == |table| - i && Recorded(next, p) == Recorded(table, p)
  {
    var next := RecordFailure(table, peer);
    var i := Position(table, p);
    if i < |table| {
      var at: int := if |table| == MAX_TRACKED_FAILING_PEERS then i - 1 else i;
      if at >= 0 { assert next[at] == table[i]; PositionUnique(next, p, at); }
    }
  }

  function Failures(table: seq<Entry>, guesses: seq<Peer>): seq<Entry> {
    if guesses == [] then table
    else RecordFailure(Failures(table, guesses[..|guesses| - 1]), guesses[|guesses| - 1])
  }

  /** How many of `guesses` by others than `p` had to insert a new entry. */
  function OthersInserted(table: seq<Entry>, guesses: seq<Peer>, p: Peer): nat {
    if guesses == [] then 0
    else
      var before, peer := guesses[..|guesses| - 1], guesses[|guesses| - 1];
      OthersInserted(table, before, p) + if peer != p && !Has(Failures(table, before), peer) then 1 else 0
  }

  function OwnGuesses(guesses: seq<Peer>, p: Peer): nat {
    if guesses == [] then 0
    else OwnGuesses(guesses[..|guesses| - 1], p) + if guesses[|guesses| - 1] == p then 1 else 0
  }

  predicate AllAllowed(table: seq<Entry>, guesses: seq<Peer>) {
    guesses == [] ||
    (AllAllowed(table, guesses[..|guesses| - 1]) &&
     !LockedOut(Failures(table, guesses[..|guesses| - 1]), guesses[|guesses| - 1]))
  }

  lemma {:induction false} FailuresOk(table: seq<Entry>, guesses: seq<Peer>)
    requires TableOk(table) && AllAllowed(table, guesses)
    ensures TableOk(Failures(table, guesses))
    decreases |guesses|
  {
    if guesses != [] {
      var before := guesses[..|guesses| - 1];
      FailuresOk(table, before);
      RecordKeepsTableOk(Failures(table, before), guesses[|guesses| - 1]);
    }
  }

  /** Where the entry of `p` stands when `others` other peers were inserted since
      its own insertion: present with that many entries behind it until the 64th,
      which pushes it out. `inserting`: the latest failure was one of them. */
  predicate Aged(table: seq<Entry>, p: Peer, others: nat, recorded: nat, inserting: bool) {
    && (others < 64 ==>
          Has(table, p) && |table| - 1 - Position(table, p) == others && Recorded(table, p) == recorded)
    && (others == 64 && inserting ==> !Has(table, p))
  }

  /** The head of a full table is the entry with 63 behind it. */
  lemma AgedStep(table: seq<Entry>, peer: Peer, p: Peer, others: nat, recorded: nat, inserting: bool)
    requires TableOk(table) && Aged(table, p, others, recorded, inserting)
    ensures var inserts := peer != p && !Has(table, peer);
      Aged(RecordFailure(table, peer), p, others + (if inserts then 1 else 0),
           recorded + (if peer == p then 1 else 0), inserts)
  {
    RecordMoves(table, peer, p);
  }

  /** Main result. Whatever fails after an entry of `p` was inserted, `p` itself
      included, the entry is present until 64 other peers have been inserted: as
      many places from the end as there were, its count grown by its own further
      failures. The 64th such insertion removes it. */
  lemma {:induction false} EvictedByThe64thInsertion(table: seq<Entry>, p: Peer, guesses: seq<Peer>)
    requires TableOk(table) && table != [] && table[|table| - 1].peer == p && AllAllowed(table, guesses)
    ensures var later := Failures(table, guesses);
      var n := OthersInserted(table, guesses, p);
      && (n < 64 ==>
            && Has(later, p) && |later| - 1 - Position(later, p) == n
            && Recorded(later, p) == Recorded(table, p) + OwnGuesses(guesses, p))
      && (guesses != [] && OthersInserted(table, guesses[..|guesses| - 1], p) < n == 64 ==>
        !Has(later, p))
    decreases |guesses|
  {
    if guesses == [] {
      PositionUnique(table, p, |table| - 1);
    } else {
      var before := guesses[..|guesses| - 1];
      EvictedByThe64thInsertion(table, p, before);
      FailuresOk(table, before);
      var recorded := Recorded(table, p) + OwnGuesses(before, p);
      AgedStep(Failures(table, before), guesses[|guesses| - 1], p, OthersInserted(table, before, p), recorded, false);
    }
  }

  // ----- guesses per window

  /** An attempt that reaches the secret comparison and fails it. */
  predicate ComparesAndFails(events: seq<Event>, k: nat)
    requires k < |events|
  {
    && events[k].Attempt? && After(events, k).Some?
    && events[k].nowMs <= After(events, k).value.expiresAtMs
    && !LockedOut(After(events, k).value.failures, events[k].peer)
    && !Matches(After(events, k).value, events[k].supplied)
  }

  predicate Inserts(events: seq<Event>, k: nat)
    requires k < |events|
  {
    ComparesAndFails(events, k) && !Has(After(events, k).value.failures, events[k].peer)
  }

  /** Failed comparisons of `p` after event `j` and before event `k`. */
  function FailedBy(events: seq<Event>, j: nat, k: nat, p: Peer): nat
    requires j < k <= |events|
  {
    if k == j + 1 then 0
    else FailedBy(events, j, k - 1, p) + if ComparesAndFails(events, k - 1) && events[k - 1].peer == p then 1 else 0
  }

  function InsertionsOf(events: seq<Event>, j: nat, k: nat, p: Peer, own: bool): nat
    requires j < k <= |events|
  {
    if k == j + 1 then 0
    else InsertionsOf(events, j, k - 1, p, own) +
         if Inserts(events, k - 1) && (events[k - 1].peer == p) == own then 1 else 0
  }

  /** Where the tallies of a window stand against its table. */
  ghost predicate Tallied(table: seq<Entry>, p: Peer, failed: nat, own: nat, others: nat) {
    if Has(table, p) then
      && own >= 1
      && failed <= MAX_FAILURES * (own - 1) + Recorded(table, p)
      && MAX_TRACKED_FAILING_PEERS * (own - 1) + (|table| - 1 - Position(table, p)) <= others
    else
      && failed <= MAX_FAILURES * own
      && MAX_TRACKED_FAILING_PEERS * own <= others
  }

  /** One more recorded failure keeps the tallies in step with the table. */
  lemma TalliedStep(table: seq<Entry>, peer: Peer, p: Peer, failed: nat, own: nat, others: nat)
    requires TableOk(table) && !LockedOut(table, peer) && Tallied(table, p, failed, own, others)
    ensures Tallied(RecordFailure(table, peer), p,
                    failed + (if peer == p then 1 else 0),
                    own + (if peer == p && !Has(table, peer) then 1 else 0),
                    others + (if peer != p && !Has(table, peer) then 1 else 0))
  {
    LockedOutIsFiveRecorded(table, peer);
    RecordMoves(table, peer, p);
  }

  /** Inside an open window an attempt changes the table only by failing the
      comparison. */
  lemma AttemptRecords(events: seq<Event>, j: nat, k: nat)
    requires j + 1 < k <= |events| && StillOpen(events, j, k)
    ensures After(events, k - 1).Some? && After(events, k).Some?
    ensures var table := After(events, k - 1).value.failures;
      After(events, k).value.failures ==
        if ComparesAndFails(events, k - 1) then RecordFailure(table, events[k - 1].peer) else table
  {
    StillOpenIsActive(events, j, k - 1);
    assert events[k - 1].Attempt? && !Succeeds(events, k - 1);
  }

  lemma {:induction false} WindowTallies(events: seq<Event>, j: nat, k: nat, p: Peer)
    requires k <= |events| && StillOpen(events, j, k)
    ensures After(events, k).Some? && TableOk(After(events, k).value.failures)
    ensures Tallied(After(events, k).value.failures, p, FailedBy(events, j, k, p),
                    InsertionsOf(events, j, k, p, true), InsertionsOf(events, j, k, p, false))
    decreases k
  {
    if k > j + 1 {
      WindowTallies(events, j, k - 1, p);
      AttemptRecords(events, j, k);
      var table := After(events, k - 1).value.failures;
      if ComparesAndFails(events, k - 1) {
        var peer := events[k - 1].peer;
        RecordKeepsTableOk(table, peer);
        TalliedStep(table, peer, p, FailedBy(events, j, k - 1, p),
                    InsertionsOf(events, j, k - 1, p, true), InsertionsOf(events, j, k - 1, p, false));
      }
    }
  }

  predicate AgedAt(events: seq<Event>, i: nat, k: nat, p: Peer)
    requires i < k <= |events| && After(events, k).Some?
  {
    Aged(After(events, k).value.failures, p, InsertionsOf(events, i, k, p, false), 1 + FailedBy(events, i, k, p),
         Inserts(events, k - 1) && events[k - 1].peer != p)
  }

  /** Main result, over the events of one window. From the failure `i` that inserted
      the entry of `p`, however often `p` and others fail, the entry is present
      until 64 other peers have been inserted, counting every failed comparison of
      `p`; the 64th such insertion removes it. */
  lemma {:induction false} EntryLastsInWindow(events: seq<Event>, j: nat, i: nat, k: nat, p: Peer)
    requires j < i < k <= |events| && StillOpen(events, j, k) && Inserts(events, i) && events[i].peer == p
    ensures After(events, k).Some? && AgedAt(events, i, k, p)
    decreases k
  {
    if k == i + 1 {
      EntryInserted(events, j, k, p);
    } else {
      assert StillOpen(events, j, k - 1);
      EntryLastsInWindow(events, j, i, k - 1, p);
      EntryAges(events, j, i, k, p);
    }
  }

  lemma EntryInserted(events: seq<Event>, j: nat, k: nat, p: Peer)
    requires j + 1 < k <= |events| && StillOpen(events, j, k) && Inserts(events, k - 1) && events[k - 1].peer == p
    ensures After(events, k).Some? && AgedAt(events, k - 1, k, p)
  {
    WindowTallies(events, j, k - 1, p);
    AttemptRecords(events, j, k);
    RecordMoves(After(events, k - 1).value.failures, p, p);
  }

  lemma EntryAges(events: seq<Event>, j: nat, i: nat, k: nat, p: Peer)
    requires j < i < k - 1 < |events| && StillOpen(events, j, k)
    requires After(events, k - 1).Some? && AgedAt(events, i, k - 1, p)
    ensures After(events, k).Some? && AgedAt(events, i, k, p)
  {
    assert TableOk(After(events, k - 1).value.failures) by { WindowTallies(events, j, k - 1, p); }
    AttemptRecords(events, j, k);
    EntryAgesBy(events, i, k, p);
  }

  lemma EntryAgesBy(events: seq<Event>, i: nat, k: nat, p: Peer)
    requires i < k - 1 < |events| && After(events, k - 1).Some? && After(events, k).Some?
    requires TableOk(After(events, k - 1).value.failures) && AgedAt(events, i, k - 1, p)
    requires var table := After(events, k - 1).value.failures;
      After(events, k).value.failures ==
        if ComparesAndFails(events, k - 1) then RecordFailure(table, events[k - 1].peer) else table
    ensures AgedAt(events, i, k, p)
  {
    if ComparesAndFails(events, k - 1) {
      AgedStep(After(events, k - 1).value.failures, events[k - 1].peer, p, InsertionsOf(events, i, k - 1, p, false),
               1 + FailedBy(events, i, k - 1, p), Inserts(events, k - 2) && events[k - 2].peer != p);
    }
  }

  lemma TalliedBound(table: seq<Entry>, p: Peer, failed: nat, own: nat, others: nat)
    requires TableOk(table) && Tallied(table, p, failed, own, others)
    ensures failed <= MAX_FAILURES * (1 + others / MAX_TRACKED_FAILING_PEERS)
  {
    var q := others / 64;
    assert others < 64 * (q + 1);
    assert 64 * (own - 1) <= others;
    assert own <= 1 + q;
  }

  /** Main result. Within one window a peer's failed secret comparisons number
      at most five for each time it can have been forgotten, and being forgotten
      takes 64 insertions of other peers; its recorded count never exceeds
      five. */
  lemma GuessesAreBounded(events: seq<Event>, j: nat, k: nat, p: Peer)
    requires k <= |events| && StillOpen(events, j, k)
    ensures FailedBy(events, j, k, p) <= 5 * (1 + InsertionsOf(events, j, k, p, false) / 64)
    ensures After(events, k).Some? && Recorded(After(events, k).value.failures, p) <= 5
  {
    WindowTallies(events, j, k, p);
    TalliedBound(After(events, k).value.failures, p, FailedBy(events, j, k, p),
                 InsertionsOf(events, j, k, p, true), InsertionsOf(events, j, k, p, false));
  }
}
