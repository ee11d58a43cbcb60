/** Peer authorization against live connections: connects, streams, permission
    checks, re-pairings and revocations interleave over the persisted allowlist
    and the `active_connections` map. One lock-protected access is one step. */
module Authorization {

  type Peer = string
  type Conn = nat
  type StreamId = nat
  type OpId = nat

  /** `Serving` from `register_connection` until `unregister_connection`. */
  datatype Phase = Accepted | Serving | Left

  datatype Connection = Connection(peer: Peer, phase: Phase, closed: bool)

  /** `Passed`: `handle_request` found permissions and went on to serve. */
  datatype Verdict = Pending | Verified | Passed | Refused

  datatype Stream = Stream(conn: Conn, verdict: Verdict)

  /** The program counter of one `revoke_peer` call whose record removal
      succeeded: `closing` is empty until the connections were taken. */
  datatype Revocation = Revocation(peer: Peer, taken: bool, closing: set<Conn>)

  datatype State = State(
    peers: set<Peer>,
    active: map<Peer, set<Conn>>,
    conns: map<Conn, Connection>,
    streams: map<StreamId, Stream>,
    revokes: map<OpId, Revocation>)

  datatype Step =
    | Accept(conn: Conn, peer: Peer)
    | Register(conn: Conn)
    | OpenStream(stream: StreamId, conn: Conn)
    | Check(stream: StreamId)          // permission look-up of a non-pairing request
    | VerifySecret(stream: StreamId)   // a pairing request whose secret was accepted
    | RefusePairing(stream: StreamId)  // a pairing request whose secret was not
    | Authorize(stream: StreamId)      // the record of an accepted one is persisted
    | CloseByPeer(conn: Conn)
    | Unregister(conn: Conn)           // the accept loop ended: the connection is lost
    | RemoveRecord(op: OpId, peer: Peer)
    | TakeConnections(op: OpId)
    | CloseOne(op: OpId, conn: Conn)
    | Return(op: OpId)                 // revoke_peer returns true

  function ActiveOf(s: State, p: Peer): set<Conn> {
    if p in s.active then s.active[p] else {}
  }

  predicate Enabled(s: State, step: Step) {
    match step
    case Accept(c, p) => c !in s.conns
    case Register(c) => c in s.conns && s.conns[c].phase.Accepted?
    case OpenStream(x, c) => x !in s.streams && c in s.conns && s.conns[c].phase.Serving?
    case Check(x) => x in s.streams && s.streams[x].verdict.Pending? && s.streams[x].conn in s.conns
    case VerifySecret(x) => x in s.streams && s.streams[x].verdict.Pending?
    case RefusePairing(x) => x in s.streams && s.streams[x].verdict.Pending?
    case Authorize(x) => x in s.streams && s.streams[x].verdict.Verified? && s.streams[x].conn in s.conns
    case CloseByPeer(c) => c in s.conns
    case Unregister(c) => c in s.conns && s.conns[c].phase.Serving? && s.conns[c].closed
    case RemoveRecord(o, p) => o !in s.revokes && p in s.peers
    case TakeConnections(o) => o in s.revokes && !s.revokes[o].taken
    case CloseOne(o, c) => o in s.revokes && s.revokes[o].taken && c in s.revokes[o].closing && c in s.conns
    case Return(o) => o in s.revokes && s.revokes[o].taken && s.revokes[o].closing == {}
  }

  function Apply(s: State, step: Step): State
    requires Enabled(s, step)
  {
    match step
    case Accept(c, p) => s.(conns := s.conns[c := Connection(p, Accepted, false)])
    case Register(c) =>
      var p := s.conns[c].peer;
      s.(conns := s.conns[c := s.conns[c].(phase := Serving)], active := s.active[p := ActiveOf(s, p) + {c}])
    case OpenStream(x, c) => s.(streams := s.streams[x := Stream(c, Pending)])
    case Check(x) =>
      var allowed := s.conns[s.streams[x].conn].peer in s.peers;
      s.(streams := s.streams[x := s.streams[x].(verdict := if allowed then Passed else Refused)])
    case VerifySecret(x) => s.(streams := s.streams[x := s.streams[x].(verdict := Verified)])
    case RefusePairing(x) => s.(streams := s.streams[x := s.streams[x].(verdict := Refused)])
    case Authorize(x) =>
      s.(peers := s.peers + {s.conns[s.streams[x].conn].peer}, streams := s.streams - {x})
    case CloseByPeer(c) => s.(conns := s.conns[c := s.conns[c].(closed := true)])
    case Unregister(c) =>
      var p := s.conns[c].peer;
      var rest := ActiveOf(s, p) - {c};
      s.(conns := s.conns[c := s.conns[c].(phase := Left)],
         active := if rest == {} then s.active - {p} else s.active[p := rest])
    case RemoveRecord(o, p) => s.(peers := s.peers - {p}, revokes := s.revokes[o := Revocation(p, false, {})])
    case TakeConnections(o) =>
      var p := s.revokes[o].peer;
      s.(active := s.active - {p}, revokes := s.revokes[o := Revocation(p, true, ActiveOf(s, p))])
    case CloseOne(o, c) =>
      s.(conns := s.conns[c := s.conns[c].(closed := true)],
         revokes := s.revokes[o := s.revokes[o].(closing := s.revokes[o].closing - {c})])
    case Return(o) => s.(revokes := s.revokes - {o})
  }

  predicate Runs(s: State, steps: seq<Step>)
    decreases |steps|
  {
    steps == [] || (Enabled(s, steps[0]) && Runs(Apply(s, steps[0]), steps[1..]))
  }

  function Exec(s: State, steps: seq<Step>): State
    requires Runs(s, steps)
    decreases |steps|
  {
    if steps == [] then s else Exec(Apply(s, steps[0]), steps[1..])
  }

  function Loaded(records: set<Peer>): State {
    State(records, map[], map[], map[], map[])
  }

  // ----- the invariant of every interleaving

  /** A revocation of the connection's peer has the connection on its list. */
  ghost predicate BeingClosed(s: State, c: Conn)
    requires c in s.conns
  {
    exists o :: o in s.revokes && s.revokes[o].peer == s.conns[c].peer && c in s.revokes[o].closing
  }

  predicate InActive(s: State, c: Conn)
    requires c in s.conns
  {
    c in ActiveOf(s, s.conns[c].peer)
  }

  ghost predicate Inv(s: State) {
    && (forall x :: x in s.streams ==> s.streams[x].conn in s.conns && !s.conns[s.streams[x].conn].phase.Accepted?)
    && (forall c :: c in s.conns && s.conns[c].phase.Left? ==> s.conns[c].closed)
    && (forall c :: c in s.conns && s.conns[c].phase.Serving? && !s.conns[c].closed ==>
      InActive(s, c) || BeingClosed(s, c))
    && (forall p, c :: p in s.active && c in s.active[p] ==> c in s.conns && s.conns[c].peer == p)
    && (forall o, c :: o in s.revokes && c in s.revokes[o].closing ==>
          c in s.conns && s.conns[c].peer == s.revokes[o].peer)
    && (forall o :: o in s.revokes && !s.revokes[o].taken ==> s.revokes[o].closing == {})
  }

  lemma LoadedInv(records: set<Peer>)
    ensures Inv(Loaded(records))
  {
  }

  /** No step loses an open connection that some revocation is closing. */
  lemma BeingClosedStep(s: State, step: Step, c: Conn)
    requires Inv(s) && Enabled(s, step) && c in s.conns && BeingClosed(s, c)
    ensures var s' := Apply(s, step);
      c in s'.conns && s'.conns[c].peer == s.conns[c].peer && (s'.conns[c].closed || BeingClosed(s', c))
  {
    var s' := Apply(s, step);
    var o :| o in s.revokes && s.revokes[o].peer == s.conns[c].peer && c in s.revokes[o].closing;
    assert s'.conns[c].closed
      || (o in s'.revokes && s'.revokes[o].peer == s'.conns[c].peer && c in s'.revokes[o].closing);
  }

  /** An open active connection leaves the map only into a closing list. */
  lemma ActiveStep(s: State, step: Step, c: Conn)
    requires Inv(s) && Enabled(s, step) && c in s.conns && InActive(s, c) && !s.conns[c].closed
    ensures var s' := Apply(s, step);
      c in s'.conns && s'.conns[c].peer == s.conns[c].peer &&
      (InActive(s', c) || (step.TakeConnections? && s.revokes[step.op].peer == s.conns[c].peer && BeingClosed(s', c)))
  {
    var s' := Apply(s, step);
    if step.TakeConnections? && s.revokes[step.op].peer == s.conns[c].peer {
      assert step.op in s'.revokes && s'.revokes[step.op].peer == s'.conns[c].peer && c in s'.revokes[step.op].closing;
    }
  }

  lemma StepInv(s: State, step: Step)
    requires Inv(s) && Enabled(s, step)
    ensures Inv(Apply(s, step))
  {
    var s' := Apply(s, step);
    forall c | c in s'.conns && s'.conns[c].phase.Serving? && !s'.conns[c].closed
      ensures InActive(s', c) || BeingClosed(s', c)
    {
      if step != Register(c) {
        assert c in s.conns && s.conns[c].phase.Serving? && !s.conns[c].closed;
        if InActive(s, c) { ActiveStep(s, step, c); } else { BeingClosedStep(s, step, c); }
      }
    }
    StepStreams(s, step);
    StepActive(s, step);
    StepRevokes(s, step);
  }

  lemma StepStreams(s: State, step: Step)
    requires Inv(s) && Enabled(s, step)
    ensures var s' := Apply(s, step);
      && (forall x :: x in s'.streams ==>
        s'.streams[x].conn in s'.conns && !s'.conns[s'.streams[x].conn].phase.Accepted?)
      && (forall c :: c in s'.conns && s'.conns[c].phase.Left? ==> s'.conns[c].closed)
  {
  }

  lemma StepActive(s: State, step: Step)
    requires Inv(s) && Enabled(s, step)
    ensures var s' := Apply(s, step);
      forall p, c :: p in s'.active && c in s'.active[p] ==> c in s'.conns && s'.conns[c].peer == p
  {
  }

  lemma StepRevokes(s: State, step: Step)
    requires Inv(s) && Enabled(s, step)
    ensures var s' := Apply(s, step);
      && (forall o, c :: o in s'.revokes && c in s'.revokes[o].closing ==>
            c in s'.conns && s'.conns[c].peer == s'.revokes[o].peer)
      && (forall o :: o in s'.revokes && !s'.revokes[o].taken ==> s'.revokes[o].closing == {})
  {
  }

  lemma {:induction false} RunInv(s: State, steps: seq<Step>)
    requires Inv(s) && Runs(s, steps)
    ensures Inv(Exec(s, steps))
    decreases |steps|
  {
    if steps != [] {
      StepInv(s, steps[0]);
      RunInv(Apply(s, steps[0]), steps[1..]);
    }
  }

  ghost predicate Reachable(records: set<Peer>, s: State) {
    exists steps :: Runs(Loaded(records), steps) && Exec(Loaded(records), steps) == s
  }

  lemma ReachableInv(records: set<Peer>, s: State)
    requires Reachable(records, s)
    ensures Inv(s)
  {
    var steps :| Runs(Loaded(records), steps) && Exec(Loaded(records), steps) == s;
    LoadedInv(records);
    RunInv(Loaded(records), steps);
  }

  // ----- what a returned revocation guarantees

  predicate IsPassed(s: State, x: StreamId, p: Peer) {
    x in s.streams && s.streams[x].verdict.Passed? && s.streams[x].conn in s.conns
      && s.conns[s.streams[x].conn].peer == p
  }

  /** The connection `c` of `p` is closed, or some revocation will close it, or
      the revocation `o` has yet to find it in the active map. */
  ghost predicate Cut(s: State, o: OpId, p: Peer, c: Conn) {
    && c in s.conns && s.conns[c].peer == p
    && (s.conns[c].closed || BeingClosed(s, c) ||
        (o in s.revokes && s.revokes[o].peer == p && !s.revokes[o].taken && InActive(s, c)))
  }

  lemma CutStep(s: State, step: Step, o: OpId, p: Peer, c: Conn)
    requires Inv(s) && Enabled(s, step) && Cut(s, o, p, c)
    ensures Cut(Apply(s, step), o, p, c)
  {
    if !s.conns[c].closed {
      if BeingClosed(s, c) { BeingClosedStep(s, step, c); } else { ActiveStep(s, step, c); }
    }
  }

  lemma {:induction false} CutRun(s: State, steps: seq<Step>, o: OpId, p: Peer, c: Conn)
    requires Inv(s) && Runs(s, steps) && Cut(s, o, p, c)
    ensures Cut(Exec(s, steps), o, p, c)
    decreases |steps|
  {
    if steps != [] {
      CutStep(s, steps[0], o, p, c);
      StepInv(s, steps[0]);
      CutRun(Apply(s, steps[0]), steps[1..], o, p, c);
    }
  }

  /** A passed stream's connection is cut from the moment the record is gone. */
  lemma RemovalCuts(s: State, o: OpId, p: Peer, x: StreamId)
    requires Inv(s) && Enabled(s, RemoveRecord(o, p)) && IsPassed(s, x, p)
    ensures Cut(Apply(s, RemoveRecord(o, p)), o, p, s.streams[x].conn)
  {
    var c := s.streams[x].conn;
    assert o in Apply(s, RemoveRecord(o, p)).revokes;
    if BeingClosed(s, c) { BeingClosedStep(s, RemoveRecord(o, p), c); }
  }

  /** A revocation of `p` other than `o` has an open connection left to close. */
  ghost predicate OtherStillCloses(s: State, o: OpId, c: Conn)
    requires c in s.conns
  {
    exists x :: x != o && x in s.revokes && s.revokes[x].peer == s.conns[c].peer && c in s.revokes[x].closing
  }

  /** `revoke_peer(p)` of call `o` is about to return true. */
  predicate Returning(s: State, o: OpId, p: Peer) {
    Enabled(s, Return(o)) && s.revokes[o].peer == p
  }

  /** Main result. When `revoke_peer` is about to return true, every stream of
      the peer whose check had passed when the record went is on a closed
      connection, or on one that another, still running revocation of the same
      peer took first and has yet to close. */
  lemma RevocationClosesServedStreams(records: set<Peer>, s: State, o: OpId, p: Peer, during: seq<Step>, x: StreamId)
    requires Reachable(records, s) && Enabled(s, RemoveRecord(o, p)) && IsPassed(s, x, p)
    requires Runs(Apply(s, RemoveRecord(o, p)), during)
    requires Returning(Exec(Apply(s, RemoveRecord(o, p)), during), o, p)
    ensures var end := Exec(Apply(s, RemoveRecord(o, p)), during);
      var c := s.streams[x].conn;
      c in end.conns && end.conns[c].peer == p && (end.conns[c].closed || OtherStillCloses(end, o, c))
  {
    ReachableInv(records, s);
    RemovalCuts(s, o, p, x);
    StepInv(s, RemoveRecord(o, p));
    CutRun(Apply(s, RemoveRecord(o, p)), during, o, p, s.streams[x].conn);
  }

  predicate Grants(s: State, step: Step, p: Peer)
    requires Enabled(s, step)
  {
    step.Authorize? && s.conns[s.streams[step.stream].conn].peer == p
  }

  /** No pairing of `p` is completed anywhere in the schedule. */
  predicate NeverGrants(s: State, steps: seq<Step>, p: Peer)
    requires Runs(s, steps)
    decreases |steps|
  {
    steps == [] || (!Grants(s, steps[0], p) && NeverGrants(Apply(s, steps[0]), steps[1..], p))
  }

  ghost predicate NoMorePasses(s: State, s': State, p: Peer) {
    && p !in s'.peers
    && (forall x :: IsPassed(s', x, p) ==> IsPassed(s, x, p) && s.streams[x].conn == s'.streams[x].conn)
    && (forall c :: c in s.conns && s.conns[c].closed ==> c in s'.conns && s'.conns[c].closed)
  }

  lemma NoGrantStep(s: State, step: Step, p: Peer)
    requires Inv(s) && Enabled(s, step) && !Grants(s, step, p) && p !in s.peers
    ensures NoMorePasses(s, Apply(s, step), p)
  {
    forall x | IsPassed(Apply(s, step), x, p)
      ensures IsPassed(s, x, p) && s.streams[x].conn == Apply(s, step).streams[x].conn
    {
      NoGrantStream(s, step, p, x);
    }
  }

  lemma NoGrantStream(s: State, step: Step, p: Peer, x: StreamId)
    requires Inv(s) && Enabled(s, step) && p !in s.peers && IsPassed(Apply(s, step), x, p)
    ensures IsPassed(s, x, p) && s.streams[x].conn == Apply(s, step).streams[x].conn
  {
  }

  /** Without a new grant the peer stays off the allowlist and no stream of it
      passes that had not passed before; closed connections stay closed. */
  lemma {:induction false} NoGrantNoPass(s: State, steps: seq<Step>, p: Peer)
    requires Inv(s) && Runs(s, steps) && NeverGrants(s, steps, p) && p !in s.peers
    ensures NoMorePasses(s, Exec(s, steps), p)
    decreases |steps|
  {
    if steps != [] {
      StepInv(s, steps[0]);
      NoGrantStep(s, steps[0], p);
      NoGrantNoPass(Apply(s, steps[0]), steps[1..], p);
    }
  }

  lemma {:induction false} RunsConcat(s: State, a: seq<Step>, b: seq<Step>, p: Peer)
    requires Runs(s, a + b)
    ensures Runs(s, a) && Runs(Exec(s, a), b) && Exec(s, a + b) == Exec(Exec(s, a), b)
    ensures NeverGrants(s, a + b, p) ==> NeverGrants(s, a, p) && NeverGrants(Exec(s, a), b, p)
    decreases |a|
  {
    if a == [] {
      assert a + b == b;
    } else {
      assert (a + b)[1..] == a[1..] + b;
      RunsConcat(Apply(s, a[0]), a[1..], b, p);
    }
  }

  /** Main result. Once `revoke_peer` returned true, and until the peer completes
      a pairing, no stream it was ever allowed is on an open connection and
      every permission check it makes is refused, provided no other revocation
      of it was still closing connections at the return. */
  lemma RevokedPeerIsLockedOut(records: set<Peer>, s: State, o: OpId, p: Peer, during: seq<Step>, after: seq<Step>)
    requires Reachable(records, s) && Enabled(s, RemoveRecord(o, p))
    requires var s' := Apply(s, RemoveRecord(o, p));
      && Runs(s', during + after) && NeverGrants(s', during + after, p)
      && Runs(s', during) && Returning(Exec(s', during), o, p)
      && (forall c :: c in Exec(s', during).conns && Exec(s', during).conns[c].peer == p ==>
                        !OtherStillCloses(Exec(s', during), o, c))
    ensures var end := Exec(Apply(s, RemoveRecord(o, p)), during + after);
      && (forall x :: IsPassed(end, x, p) ==> end.conns[end.streams[x].conn].closed)
      && (forall x :: Enabled(end, Check(x)) && end.conns[end.streams[x].conn].peer == p ==>
                        Apply(end, Check(x)).streams[x].verdict.Refused?)
  {
    var s' := Apply(s, RemoveRecord(o, p));
    ReachableInv(records, s);
    StepInv(s, RemoveRecord(o, p));
    RunsConcat(s', during, after, p);
    var mid := Exec(s', during);
    RunInv(s', during);
    NoGrantNoPass(s', during, p);
    NoGrantNoPass(mid, after, p);
    var end := Exec(mid, after);
    forall x | IsPassed(end, x, p) ensures end.conns[end.streams[x].conn].closed {
      assert IsPassed(mid, x, p) && IsPassed(s', x, p) && IsPassed(s, x, p);
      RevocationClosesServedStreams(records, s, o, p, during, x);
    }
    forall x | Enabled(end, Check(x)) && end.conns[end.streams[x].conn].peer == p
      ensures Apply(end, Check(x)).streams[x].verdict.Refused?
    {
      CheckPassesExactly(end, x);
    }
  }

  // ----- exactly when a revocation can return early

  /** Another revocation of `p` is running that has taken `c`, or has yet to take
      connections: the caller can look for it before the call. */
  ghost predicate Rival(s: State, o: OpId, p: Peer, c: Conn) {
    exists r :: r != o && r in s.revokes && s.revokes[r].peer == p && (!s.revokes[r].taken || c in s.revokes[r].closing)
  }

  /** Without a grant no rival appears. */
  lemma RivalsShrink(s: State, step: Step, o: OpId, p: Peer, c: Conn)
    requires Enabled(s, step) && !Grants(s, step, p) && p !in s.peers && !Rival(s, o, p, c)
    ensures p !in Apply(s, step).peers && !Rival(Apply(s, step), o, p, c)
  {
    var s' := Apply(s, step);
    forall r | r != o && r in s'.revokes && s'.revokes[r].peer == p
      ensures s'.revokes[r].taken && c !in s'.revokes[r].closing
    {
      assert r in s.revokes && s.revokes[r].peer == p && s.revokes[r].taken && c !in s.revokes[r].closing;
    }
  }

  lemma {:induction false} RivalsShrinkRun(s: State, steps: seq<Step>, o: OpId, p: Peer, c: Conn)
    requires Runs(s, steps) && NeverGrants(s, steps, p) && p !in s.peers && !Rival(s, o, p, c)
    ensures !Rival(Exec(s, steps), o, p, c)
    decreases |steps|
  {
    if steps != [] {
      RivalsShrink(s, steps[0], o, p, c);
      RivalsShrinkRun(Apply(s, steps[0]), steps[1..], o, p, c);
    }
  }

  /** A connection is registered once: what a revocation took never returns to
      the active map. */
  ghost predicate TakenOnce(s: State) {
    && (forall p, c :: p in s.active && c in s.active[p] && c in s.conns ==> !s.conns[c].phase.Accepted?)
    && (forall r, c :: r in s.revokes && c in s.revokes[r].closing && c in s.conns ==>
                         !s.conns[c].phase.Accepted? && !InActive(s, c))
  }

  lemma TakenOnceStep(s: State, step: Step)
    requires Inv(s) && TakenOnce(s) && Enabled(s, step)
    ensures TakenOnce(Apply(s, step))
  {
    var s' := Apply(s, step);
    forall r, c | r in s'.revokes && c in s'.revokes[r].closing && c in s'.conns
      ensures !s'.conns[c].phase.Accepted? && !InActive(s', c)
    {
      if step == TakeConnections(r) {
        assert c in s.active[s.revokes[r].peer];
      } else {
        StaysTaken(s, step, r, c);
      }
    }
    forall p, c | p in s'.active && c in s'.active[p] && c in s'.conns ensures !s'.conns[c].phase.Accepted? {
      StaysRegistered(s, step, p, c);
    }
  }

  lemma StaysTaken(s: State, step: Step, r: OpId, c: Conn)
    requires Inv(s) && TakenOnce(s) && Enabled(s, step) && step != TakeConnections(r)
    requires r in Apply(s, step).revokes && c in Apply(s, step).revokes[r].closing && c in Apply(s, step).conns
    ensures !Apply(s, step).conns[c].phase.Accepted? && !InActive(Apply(s, step), c)
  {
    assert r in s.revokes && c in s.revokes[r].closing;
    NeverActiveAgain(s, step, c);
  }

  lemma NeverActiveAgain(s: State, step: Step, c: Conn)
    requires Enabled(s, step) && c in s.conns && !s.conns[c].phase.Accepted? && !InActive(s, c)
    ensures var s' := Apply(s, step);
      c in s'.conns && !s'.conns[c].phase.Accepted? && !InActive(s', c)
  {
  }

  lemma StaysRegistered(s: State, step: Step, p: Peer, c: Conn)
    requires Inv(s) && TakenOnce(s) && Enabled(s, step)
    requires p in Apply(s, step).active && c in Apply(s, step).active[p] && c in Apply(s, step).conns
    ensures !Apply(s, step).conns[c].phase.Accepted?
  {
    assert step == Register(c) || (p in s.active && c in s.active[p] && c in s.conns);
  }

  lemma {:induction false} TakenOnceRun(s: State, steps: seq<Step>)
    requires Inv(s) && TakenOnce(s) && Runs(s, steps)
    ensures TakenOnce(Exec(s, steps))
    decreases |steps|
  {
    if steps != [] {
      StepInv(s, steps[0]);
      TakenOnceStep(s, steps[0]);
      TakenOnceRun(Apply(s, steps[0]), steps[1..]);
    }
  }

  /** Some schedule without a grant to `p` leads from `s` to `s'`. */
  ghost predicate Leads(s: State, s': State, p: Peer) {
    exists steps :: Runs(s, steps) && NeverGrants(s, steps, p) && Exec(s, steps) == s'
  }

  lemma LeadsThen(s: State, mid: State, step: Step, p: Peer)
    requires Leads(s, mid, p) && Enabled(mid, step) && !step.Authorize?
    ensures Leads(s, Apply(mid, step), p)
  {
    var steps :| Runs(s, steps) && NeverGrants(s, steps, p) && Exec(s, steps) == mid;
    Extend(s, steps, step, p);
  }

  /** The revocation `o` can be about to return true with `c` still open. */
  ghost predicate CanReturnEarly(s: State, o: OpId, p: Peer, c: Conn) {
    exists end :: Leads(s, end, p) && Returning(end, o, p) && c in end.conns && !end.conns[c].closed
  }

  lemma {:induction false} CloseAll(s: State, mid: State, o: OpId, p: Peer, c: Conn)
    requires Leads(s, mid, p) && o in mid.revokes && mid.revokes[o].peer == p && mid.revokes[o].taken
    requires (forall x :: x in mid.revokes[o].closing ==> x in mid.conns) && c !in mid.revokes[o].closing
    requires c in mid.conns && !mid.conns[c].closed
    ensures CanReturnEarly(s, o, p, c)
    decreases |mid.revokes[o].closing|
  {
    if mid.revokes[o].closing == {} {
      assert Returning(mid, o, p);
    } else {
      var x :| x in mid.revokes[o].closing;
      LeadsThen(s, mid, CloseOne(o, x), p);
      CloseAll(s, Apply(mid, CloseOne(o, x)), o, p, c);
    }
  }

  /** The rival holds the connection; the revocation finds it in no map. */
  lemma RivalReturnsEarly(s: State, mid: State, o: OpId, p: Peer, c: Conn)
    requires Leads(s, mid, p) && Inv(mid) && TakenOnce(mid)
    requires o in mid.revokes && mid.revokes[o].peer == p && !mid.revokes[o].taken
    requires c in mid.conns && mid.conns[c].peer == p && !mid.conns[c].closed && !InActive(mid, c)
    ensures CanReturnEarly(s, o, p, c)
  {
    LeadsThen(s, mid, TakeConnections(o), p);
    CloseAll(s, Apply(mid, TakeConnections(o)), o, p, c);
  }

  lemma RivalsReturnEarly(s: State, o: OpId, p: Peer, c: Conn)
    requires Inv(s) && TakenOnce(s) && Enabled(s, RemoveRecord(o, p)) && Rival(s, o, p, c)
    requires c in s.conns && s.conns[c].peer == p && !s.conns[c].closed
    ensures CanReturnEarly(Apply(s, RemoveRecord(o, p)), o, p, c)
  {
    var s' := Apply(s, RemoveRecord(o, p));
    StepInv(s, RemoveRecord(o, p));
    TakenOnceStep(s, RemoveRecord(o, p));
    assert Runs(s', []) && NeverGrants(s', [], p) && Exec(s', []) == s';
    var r :| r != o && r in s.revokes && s.revokes[r].peer == p && (!s.revokes[r].taken || c in s.revokes[r].closing);
    assert s'.revokes[r] == s.revokes[r];
    if s.revokes[r].taken {
      RivalReturnsEarly(s', s', o, p, c);
    } else {
      LeadsThen(s', s', TakeConnections(r), p);
      StepInv(s', TakeConnections(r));
      TakenOnceStep(s', TakeConnections(r));
      RivalReturnsEarly(s', Apply(s', TakeConnections(r)), o, p, c);
    }
  }

  lemma NoRivalNoEarlyReturn(records: set<Peer>, s: State, o: OpId, p: Peer, x: StreamId, during: seq<Step>)
    requires Reachable(records, s) && Enabled(s, RemoveRecord(o, p)) && IsPassed(s, x, p)
    requires !Rival(s, o, p, s.streams[x].conn)
    requires var s' := Apply(s, RemoveRecord(o, p));
      Runs(s', during) && NeverGrants(s', during, p) && Returning(Exec(s', during), o, p)
    ensures var end := Exec(Apply(s, RemoveRecord(o, p)), during);
      s.streams[x].conn in end.conns && end.conns[s.streams[x].conn].closed
  {
    var s' := Apply(s, RemoveRecord(o, p));
    var c := s.streams[x].conn;
    NoRivalAfterRemoval(s, o, p, c);
    RivalsShrinkRun(s', during, o, p, c);
    RevocationClosesServedStreams(records, s, o, p, during, x);
  }

  /** Main result, the exact condition. Take any reachable state, a stream whose
      check has passed and whose connection is open. Unless the peer pairs again,
      a revocation can return true with that connection still open if and only
      if a rival revocation of the peer is running when it removes the record. */
  lemma EarlyReturnExactly(records: set<Peer>, before: seq<Step>, o: OpId, p: Peer, x: StreamId)
    requires Runs(Loaded(records), before)
    requires var s := Exec(Loaded(records), before);
      Enabled(s, RemoveRecord(o, p)) && IsPassed(s, x, p) && !s.conns[s.streams[x].conn].closed
    ensures var s := Exec(Loaded(records), before);
      CanReturnEarly(Apply(s, RemoveRecord(o, p)), o, p, s.streams[x].conn) <==> Rival(s, o, p, s.streams[x].conn)
  {
    var s := Exec(Loaded(records), before);
    var c := s.streams[x].conn;
    LoadedInv(records);
    RunInv(Loaded(records), before);
    TakenOnceRun(Loaded(records), before);
    var s' := Apply(s, RemoveRecord(o, p));
    if Rival(s, o, p, c) {
      RivalsReturnEarly(s, o, p, c);
    } else {
      assert Reachable(records, s);
      forall end | Leads(s', end, p) && Returning(end, o, p) ensures c in end.conns && end.conns[c].closed {
        var during :| Runs(s', during) && NeverGrants(s', during, p) && Exec(s', during) == end;
        NoRivalNoEarlyReturn(records, s, o, p, x, during);
      }
    }
  }

  /** The same with a proviso the caller can see before the call: no other
      revocation of the peer is running when the record goes. */
  lemma UnrivalledRevocationLocksOut(records: set<Peer>, s: State, o: OpId, p: Peer,
                                     during: seq<Step>, after: seq<Step>)
    requires Reachable(records, s) && Enabled(s, RemoveRecord(o, p)) && forall c :: !Rival(s, o, p, c)
    requires var s' := Apply(s, RemoveRecord(o, p));
      && Runs(s', during + after) && NeverGrants(s', during + after, p)
      && Runs(s', during) && Returning(Exec(s', during), o, p)
    ensures var end := Exec(Apply(s, RemoveRecord(o, p)), during + after);
      && (forall x :: IsPassed(end, x, p) ==> end.conns[end.streams[x].conn].closed)
      && (forall x :: Enabled(end, Check(x)) && end.conns[end.streams[x].conn].peer == p ==>
                        Apply(end, Check(x)).streams[x].verdict.Refused?)
  {
    var s' := Apply(s, RemoveRecord(o, p));
    RunsConcat(s', during, after, p);
    var mid := Exec(s', during);
    forall c | c in mid.conns && mid.conns[c].peer == p ensures !OtherStillCloses(mid, o, c) {
      NoRivalAfterRemoval(s, o, p, c);
      RivalsShrinkRun(s', during, o, p, c);
    }
    RevokedPeerIsLockedOut(records, s, o, p, during, after);
  }

  lemma NoRivalAfterRemoval(s: State, o: OpId, p: Peer, c: Conn)
    requires Enabled(s, RemoveRecord(o, p)) && !Rival(s, o, p, c)
    ensures !Rival(Apply(s, RemoveRecord(o, p)), o, p, c)
  {
    var s' := Apply(s, RemoveRecord(o, p));
    forall r | r != o && r in s'.revokes && s'.revokes[r].peer == p
      ensures s'.revokes[r].taken && c !in s'.revokes[r].closing
    {
      assert r in s.revokes;
    }
  }

  // ----- exactly when a revoked peer can be back at the return

  predicate IsVerified(s: State, x: StreamId, p: Peer) {
    x in s.streams && s.streams[x].verdict.Verified? && s.streams[x].conn in s.conns
      && s.conns[s.streams[x].conn].peer == p
  }

  /** A secret of `p` was accepted and the record it leads to is not persisted. */
  ghost predicate PairingInFlight(s: State, p: Peer) {
    exists x :: IsVerified(s, x, p)
  }

  predicate Verifies(s: State, step: Step, p: Peer)
    requires Enabled(s, step)
  {
    step.VerifySecret? && s.streams[step.stream].conn in s.conns && s.conns[s.streams[step.stream].conn].peer == p
  }

  /** No secret of `p` is accepted anywhere in the schedule. */
  predicate NeverVerifies(s: State, steps: seq<Step>, p: Peer)
    requires Runs(s, steps)
    decreases |steps|
  {
    steps == [] || (!Verifies(s, steps[0], p) && NeverVerifies(Apply(s, steps[0]), steps[1..], p))
  }

  lemma StaysUnverified(s: State, step: Step, p: Peer)
    requires Inv(s) && Enabled(s, step) && !Verifies(s, step, p) && p !in s.peers && !PairingInFlight(s, p)
    ensures p !in Apply(s, step).peers && !PairingInFlight(Apply(s, step), p)
  {
    var s' := Apply(s, step);
    if step.Authorize? { assert !IsVerified(s, step.stream, p); }
    forall x | IsVerified(s', x, p) ensures IsVerified(s, x, p) { }
  }

  lemma {:induction false} StaysUnverifiedRun(s: State, steps: seq<Step>, p: Peer)
    requires Inv(s) && Runs(s, steps) && NeverVerifies(s, steps, p) && p !in s.peers && !PairingInFlight(s, p)
    ensures p !in Exec(s, steps).peers
    decreases |steps|
  {
    if steps != [] {
      StepInv(s, steps[0]);
      StaysUnverified(s, steps[0], p);
      StaysUnverifiedRun(Apply(s, steps[0]), steps[1..], p);
    }
  }

  /** Some schedule that accepts no secret of `p` leads from `s` to `s'`. */
  ghost predicate LeadsUnverified(s: State, s': State, p: Peer) {
    exists steps :: Runs(s, steps) && NeverVerifies(s, steps, p) && Exec(s, steps) == s'
  }

  lemma UnverifiedThen(s: State, mid: State, step: Step, p: Peer)
    requires LeadsUnverified(s, mid, p) && Enabled(mid, step) && !step.VerifySecret?
    ensures LeadsUnverified(s, Apply(mid, step), p)
  {
    var steps :| Runs(s, steps) && NeverVerifies(s, steps, p) && Exec(s, steps) == mid;
    Extend(s, steps, step, p);
  }

  /** The revocation `o` can be about to return true with `p` authorized. */
  ghost predicate CanReturnAuthorized(s: State, o: OpId, p: Peer) {
    exists end :: LeadsUnverified(s, end, p) && Returning(end, o, p) && p in end.peers
  }

  lemma {:induction false} CloseAllAuthorized(s: State, mid: State, o: OpId, p: Peer)
    requires LeadsUnverified(s, mid, p) && o in mid.revokes && mid.revokes[o].peer == p && mid.revokes[o].taken
    requires (forall x :: x in mid.revokes[o].closing ==> x in mid.conns) && p in mid.peers
    ensures CanReturnAuthorized(s, o, p)
    decreases |mid.revokes[o].closing|
  {
    if mid.revokes[o].closing == {} {
      assert Returning(mid, o, p);
    } else {
      var x :| x in mid.revokes[o].closing;
      UnverifiedThen(s, mid, CloseOne(o, x), p);
      CloseAllAuthorized(s, Apply(mid, CloseOne(o, x)), o, p);
    }
  }

  lemma InFlightReturnsAuthorized(s: State, o: OpId, p: Peer)
    requires Inv(s) && Enabled(s, RemoveRecord(o, p)) && PairingInFlight(s, p)
    ensures CanReturnAuthorized(Apply(s, RemoveRecord(o, p)), o, p)
  {
    var x :| IsVerified(s, x, p);
    var s' := Apply(s, RemoveRecord(o, p));
    StepInv(s, RemoveRecord(o, p));
    assert Runs(s', []) && NeverVerifies(s', [], p) && Exec(s', []) == s';
    assert IsVerified(s', x, p);
    RemovedReturnsAuthorized(s', o, p, x);
  }

  lemma RemovedReturnsAuthorized(s: State, o: OpId, p: Peer, x: StreamId)
    requires Inv(s) && LeadsUnverified(s, s, p) && IsVerified(s, x, p)
    requires o in s.revokes && s.revokes[o] == Revocation(p, false, {})
    ensures CanReturnAuthorized(s, o, p)
  {
    UnverifiedThen(s, s, TakeConnections(o), p);
    StepInv(s, TakeConnections(o));
    var taken := Apply(s, TakeConnections(o));
    UnverifiedThen(s, taken, Authorize(x), p);
    CloseAllAuthorized(s, Apply(taken, Authorize(x)), o, p);
  }

  /** Main result, the exact condition. In every reachable state, a revocation can
      return true with the peer authorized, although no secret of it is accepted
      meanwhile, if and only if a pairing of it whose secret was accepted is in
      flight when the record goes. */
  lemma RegainExactly(records: set<Peer>, before: seq<Step>, o: OpId, p: Peer)
    requires Runs(Loaded(records), before) && Enabled(Exec(Loaded(records), before), RemoveRecord(o, p))
    ensures var s := Exec(Loaded(records), before);
      CanReturnAuthorized(Apply(s, RemoveRecord(o, p)), o, p) <==> PairingInFlight(s, p)
  {
    var s := Exec(Loaded(records), before);
    LoadedInv(records);
    RunInv(Loaded(records), before);
    if PairingInFlight(s, p) {
      InFlightReturnsAuthorized(s, o, p);
    } else {
      var s' := Apply(s, RemoveRecord(o, p));
      StepInv(s, RemoveRecord(o, p));
      forall x ensures !IsVerified(s', x, p) { assert !IsVerified(s, x, p); }
      forall end | LeadsUnverified(s', end, p) ensures p !in end.peers {
        var steps :| Runs(s', steps) && NeverVerifies(s', steps, p) && Exec(s', steps) == end;
        StaysUnverifiedRun(s', steps, p);
      }
    }
  }

  /** The active map holds serving connections only, and no peer without one. */
  ghost predicate ActiveIsServing(s: State) {
    forall p :: p in s.active ==>
      s.active[p] != {} && forall c :: c in s.active[p] ==> c in s.conns && s.conns[c].phase.Serving?
  }

  lemma ActiveIsServingStep(s: State, step: Step)
    requires Inv(s) && ActiveIsServing(s) && Enabled(s, step)
    ensures ActiveIsServing(Apply(s, step))
  {
    var s' := Apply(s, step);
    forall p | p in s'.active ensures s'.active[p] != {} {
      if step.Register? && p == s.conns[step.conn].peer { assert step.conn in s'.active[p]; }
    }
  }

  /** Main result. In every run a connection that has left is forgotten: the active
      map holds serving connections only, and no peer without one. */
  lemma {:induction false} DepartedAreForgotten(s: State, steps: seq<Step>)
    requires Inv(s) && ActiveIsServing(s) && Runs(s, steps)
    ensures ActiveIsServing(Exec(s, steps))
    decreases |steps|
  {
    if steps != [] {
      StepInv(s, steps[0]);
      ActiveIsServingStep(s, steps[0]);
      DepartedAreForgotten(Apply(s, steps[0]), steps[1..]);
    }
  }

  // ----- what a revocation leaves alone

  predicate NeverRevokes(steps: seq<Step>, q: Peer) {
    forall i :: 0 <= i < |steps| && steps[i].RemoveRecord? ==> steps[i].peer != q
  }

  /** A permission check is decided by the allowlist alone. */
  lemma CheckPassesExactly(s: State, x: StreamId)
    requires Enabled(s, Check(x))
    ensures var s' := Apply(s, Check(x));
      && (s'.streams[x].verdict.Passed? <==> s.conns[s.streams[x].conn].peer in s.peers)
      && (s'.streams[x].verdict.Refused? <==> s.conns[s.streams[x].conn].peer !in s.peers)
      && s'.streams[x].conn == s.streams[x].conn && s'.peers == s.peers && s'.conns == s.conns
      && (forall y :: y in s.streams && y != x ==> y in s'.streams && s'.streams[y] == s.streams[y])
  {
  }

  lemma StepKeepsAllowed(s: State, step: Step, q: Peer)
    requires Enabled(s, step) && q in s.peers && !(step.RemoveRecord? && step.peer == q)
    ensures q in Apply(s, step).peers
  {
  }

  /** Main result. Whoever else is revoked, paired or disconnected, a peer on the
      allowlist stays on it as long as nobody revokes it, and a check of a stream of
      it passes. */
  lemma {:induction false} OthersStayAllowed(s: State, steps: seq<Step>, q: Peer, x: StreamId)
    requires Runs(s, steps) && q in s.peers && NeverRevokes(steps, q)
    ensures var end := Exec(s, steps);
      && q in end.peers
      && (Enabled(end, Check(x)) && end.conns[end.streams[x].conn].peer == q ==>
            Apply(end, Check(x)).streams[x].verdict.Passed?)
    decreases |steps|
  {
    if steps == [] {
      if Enabled(s, Check(x)) { CheckPassesExactly(s, x); }
    } else {
      StepKeepsAllowed(s, steps[0], q);
      OthersStayAllowed(Apply(s, steps[0]), steps[1..], q, x);
    }
  }

  /** The connection of `q` is open, no revocation of `q` runs, and a serving one
      is registered. */
  ghost predicate Connected(s: State, q: Peer, c: Conn) {
    && c in s.conns && s.conns[c].peer == q && !s.conns[c].closed
    && (forall o :: o in s.revokes ==> s.revokes[o].peer != q)
    && (s.conns[c].phase.Serving? ==> InActive(s, c))
  }

  lemma ConnectedStep(s: State, step: Step, q: Peer, c: Conn)
    requires Inv(s) && Enabled(s, step) && Connected(s, q, c)
    requires !(step.RemoveRecord? && step.peer == q) && step != CloseByPeer(c)
    ensures Connected(Apply(s, step), q, c)
  {
    if step.CloseOne? { assert s.conns[step.conn].peer == s.revokes[step.op].peer; }
  }

  /** Main result. An open connection of a peer that nobody revokes stays open and
      registered, whatever is revoked besides, until its own end closes it. */
  lemma {:induction false} OthersStayConnected(s: State, steps: seq<Step>, q: Peer, c: Conn)
    requires Inv(s) && Runs(s, steps) && Connected(s, q, c)
    requires NeverRevokes(steps, q) && CloseByPeer(c) !in steps
    ensures Connected(Exec(s, steps), q, c)
    decreases |steps|
  {
    if steps != [] {
      StepInv(s, steps[0]);
      ConnectedStep(s, steps[0], q, c);
      OthersStayConnected(Apply(s, steps[0]), steps[1..], q, c);
    }
  }

  // ----- concrete schedules

  lemma {:induction false} Extend(s: State, steps: seq<Step>, step: Step, p: Peer)
    requires Runs(s, steps) && Enabled(Exec(s, steps), step)
    ensures Runs(s, steps + [step]) && Exec(s, steps + [step]) == Apply(Exec(s, steps), step)
    ensures NeverGrants(s, steps, p) && !step.Authorize? ==> NeverGrants(s, steps + [step], p)
    ensures NeverVerifies(s, steps, p) && !step.VerifySecret? ==> NeverVerifies(s, steps + [step], p)
    decreases |steps|
  {
    if steps == [] {
      assert ([] + [step])[1..] == [];
    } else {
      Extend(Apply(s, steps[0]), steps[1..], step, p);
      assert (steps + [step])[1..] == steps[1..] + [step];
    }
  }

  lemma Then(records: set<Peer>, s: State, step: Step)
    requires Reachable(records, s) && Enabled(s, step)
    ensures Reachable(records, Apply(s, step))
  {
    var steps :| Runs(Loaded(records), steps) && Exec(Loaded(records), steps) == s;
    Extend(Loaded(records), steps, step, "");
  }

  /** An authorized peer with one connection and one stream on it. */
  function OneStream(p: Peer): State {
    State({p}, map[p := {0}], map[0 := Connection(p, Serving, false)], map[0 := Stream(0, Pending)], map[])
  }

  lemma OneStreamReachable(p: Peer)
    ensures Reachable({p}, OneStream(p))
  {
    var s0 := Loaded({p});
    assert Runs(s0, []) && Exec(s0, []) == s0;
    Then({p}, s0, Accept(0, p));
    var s1 := State({p}, map[], map[0 := Connection(p, Accepted, false)], map[], map[]);
    assert Apply(s0, Accept(0, p)) == s1;
    Then({p}, s1, Register(0));
    var s2 := OneStream(p).(streams := map[]);
    assert {} + {0} == {0};
    assert Apply(s1, Register(0)).active == s2.active && Apply(s1, Register(0)).conns == s2.conns;
    Then({p}, s2, OpenStream(0, 0));
    assert Apply(s2, OpenStream(0, 0)) == OneStream(p);
  }

  /** The stream's pairing secret was accepted, then a revocation removed the
      record and took the connection, which it has not closed yet. */
  function Taken(p: Peer): State {
    OneStream(p).(peers := {}, active := map[], streams := map[0 := Stream(0, Verified)],
                  revokes := map[0 := Revocation(p, true, {0})])
  }

  lemma TakenReachable(p: Peer)
    ensures Reachable({p}, Taken(p))
  {
    OneStreamReachable(p);
    Then({p}, OneStream(p), VerifySecret(0));
    var s1 := OneStream(p).(streams := map[0 := Stream(0, Verified)]);
    assert Apply(OneStream(p), VerifySecret(0)).streams == s1.streams;
    Then({p}, s1, RemoveRecord(0, p));
    var s2 := s1.(peers := {}, revokes := map[0 := Revocation(p, false, {})]);
    assert {p} - {p} == {};
    assert Apply(s1, RemoveRecord(0, p)) == s2;
    Then({p}, s2, TakeConnections(0));
    var s3 := Apply(s2, TakeConnections(0));
    assert s3.active == map[] && s3.revokes == Taken(p).revokes;
  }

  /** A pairing whose secret was accepted before the revocation still grants
      after it: the peer is back on the allowlist although `revoke_peer` has
      finished and no secret was accepted since the record was removed. */
  lemma PairingInFlightSurvivesRevocation(p: Peer)
    ensures exists s ::
      Reachable({p}, s) && Returning(s, 0, p) && Enabled(s, Authorize(0)) && p in Apply(s, Authorize(0)).peers
  {
    TakenReachable(p);
    Then({p}, Taken(p), CloseOne(0, 0));
    var s := Apply(Taken(p), CloseOne(0, 0));
    assert s.revokes[0].closing == {};
  }

  /** Two overlapping revocations with a re-pairing between them: the second
      returns true while a stream it should have cut is on an open connection. */
  lemma OverlappingRevocationReturnsEarly(p: Peer)
    ensures exists s ::
      Reachable({p}, s) && Returning(s, 1, p) && IsPassed(s, 1, p) && !s.conns[s.streams[1].conn].closed
  {
    ServedAgainReachable(p);
    var s0 := ServedAgain(p);
    Then({p}, s0, RemoveRecord(1, p));
    var s1 := Apply(s0, RemoveRecord(1, p));
    Then({p}, s1, TakeConnections(1));
    var s2 := Apply(s1, TakeConnections(1));
    assert s2.revokes[1] == Revocation(p, true, {});
    assert IsPassed(s2, 1, p);
  }

  function ServedAgain(p: Peer): State {
    Taken(p).(peers := {p}, streams := map[1 := Stream(0, Passed)])
  }

  lemma ServedAgainReachable(p: Peer)
    ensures Reachable({p}, ServedAgain(p))
  {
    TakenReachable(p);
    Then({p}, Taken(p), Authorize(0));
    var s1 := Taken(p).(peers := {p}, streams := map[]);
    assert {} + {p} == {p};
    assert Apply(Taken(p), Authorize(0)) == s1;
    Then({p}, s1, OpenStream(1, 0));
    var s2 := s1.(streams := map[1 := Stream(0, Pending)]);
    assert Apply(s1, OpenStream(1, 0)) == s2;
    Then({p}, s2, Check(1));
    assert Apply(s2, Check(1)).streams == ServedAgain(p).streams;
  }
}
