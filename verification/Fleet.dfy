/** The fleet monitor lifecycle: imports, start-up spawns, removals and monitor
    tasks interleave over three shared maps (`registry`, `snapshots`,
    `monitors`). Every lock-protected access of the source is one atomic step
    here, so a run is any interleaving the runtime can schedule. */
module Fleet {
  import opened Common

  type Endpoint = string
  type TaskId = nat
  type OpId = nat

  /** Where a monitor task stands: about to look its record up, or past the
      look-up and free to write its snapshot. */
  datatype TaskPc = LoopHead | InSession

  /** `polling`: a worker is executing the task right now. `aborted`: `abort()`
      was called on it. `finished`: it will never execute again. */
  datatype Task = Task(endpoint: Endpoint, pc: TaskPc, polling: bool, aborted: bool, finished: bool)

  /** The program counter of one running operation. */
  datatype Op =
    | Pairing(endpoint: Endpoint)                  // import: saw no record, talking to the machine
    | Publishing(endpoint: Endpoint)               // import: record persisted, snapshot still to insert
    | Spawning(todo: set<Endpoint>)                // import or start: monitors still to spawn
    | Tracking(endpoint: Endpoint, task: TaskId, todo: set<Endpoint>)    // spawned, handle not in the map
    | Rechecking(endpoint: Endpoint, task: TaskId, todo: set<Endpoint>)  // handle in the map, lock held
    | Unlinking(endpoint: Endpoint)                // removal: record deleted, handle still to take
    | Aborting(endpoint: Endpoint, task: TaskId)   // removal: handle taken
    | Awaiting(endpoint: Endpoint, task: TaskId)   // removal: aborted, waiting for the task to end
    | Dropping(endpoint: Endpoint)                 // removal: snapshot still to drop

  datatype State = State(
    registry: set<Endpoint>,
    snapshots: set<Endpoint>,
    monitors: map<Endpoint, TaskId>,
    lock: Option<OpId>,              // who holds the monitors mutex across two steps
    tasks: map<TaskId, Task>,
    ops: map<OpId, Op>)

  datatype Step =
    | BeginImport(op: OpId, endpoint: Endpoint)
    | AbandonImport(op: OpId)        // network failure, or the record could not be persisted
    | InsertRecord(op: OpId)
    | PublishSnapshot(op: OpId)
    | BeginStart(op: OpId)
    | Spawn(op: OpId, endpoint: Endpoint, task: TaskId)
    | Track(op: OpId)
    | Recheck(op: OpId)
    | FinishSpawns(op: OpId)
    | RemoveRecord(op: OpId, endpoint: Endpoint)
    | TakeHandle(op: OpId)
    | AbortTaken(op: OpId)
    | AwaitEnd(op: OpId)
    | DropSnapshot(op: OpId)         // the removal returns true
    | BeginPoll(task: TaskId)
    | EndPoll(task: TaskId)
    | LookUpRecord(task: TaskId)
    | WriteSnapshot(task: TaskId)
    | EndSession(task: TaskId)

  predicate IsTaskStep(step: Step) {
    step.BeginPoll? || step.EndPoll? || step.LookUpRecord? || step.WriteSnapshot? || step.EndSession?
  }

  /** `JoinHandle::abort`: an idle task never runs again; one being polled runs
      on until that poll returns. */
  function Abort(tasks: map<TaskId, Task>, t: TaskId): map<TaskId, Task> {
    if t !in tasks || tasks[t].finished then tasks
    else tasks[t := tasks[t].(aborted := true, finished := !tasks[t].polling)]
  }

  predicate Enabled(s: State, step: Step) {
    match step
    case BeginImport(o, e) => o !in s.ops && e !in s.registry
    case AbandonImport(o) => o in s.ops && s.ops[o].Pairing?
    case InsertRecord(o) => o in s.ops && s.ops[o].Pairing?
    case PublishSnapshot(o) => o in s.ops && s.ops[o].Publishing?
    case BeginStart(o) => o !in s.ops
    case Spawn(o, e, t) => o in s.ops && s.ops[o].Spawning? && e in s.ops[o].todo && t !in s.tasks
    case Track(o) => o in s.ops && s.ops[o].Tracking? && s.lock.None?
    case Recheck(o) => o in s.ops && s.ops[o].Rechecking?
    case FinishSpawns(o) => o in s.ops && s.ops[o].Spawning? && s.ops[o].todo == {}
    case RemoveRecord(o, e) => o !in s.ops && e in s.registry
    case TakeHandle(o) => o in s.ops && s.ops[o].Unlinking? && s.lock.None?
    case AbortTaken(o) => o in s.ops && s.ops[o].Aborting?
    case AwaitEnd(o) =>
      o in s.ops && s.ops[o].Awaiting? && s.ops[o].task in s.tasks && s.tasks[s.ops[o].task].finished
    case DropSnapshot(o) => o in s.ops && s.ops[o].Dropping?
    case BeginPoll(t) => t in s.tasks && !s.tasks[t].finished && !s.tasks[t].polling && !s.tasks[t].aborted
    case EndPoll(t) => t in s.tasks && !s.tasks[t].finished && s.tasks[t].polling
    case LookUpRecord(t) => t in s.tasks && !s.tasks[t].finished && s.tasks[t].polling && s.tasks[t].pc.LoopHead?
    case WriteSnapshot(t) => t in s.tasks && !s.tasks[t].finished && s.tasks[t].polling && s.tasks[t].pc.InSession?
    case EndSession(t) => t in s.tasks && !s.tasks[t].finished && s.tasks[t].polling && s.tasks[t].pc.InSession?
  }

  function Apply(s: State, step: Step): State
    requires Enabled(s, step)
  {
    match step
    case BeginImport(o, e) => s.(ops := s.ops[o := Pairing(e)])
    case AbandonImport(o) => s.(ops := s.ops - {o})
    case InsertRecord(o) =>
      s.(registry := s.registry + {s.ops[o].endpoint}, ops := s.ops[o := Publishing(s.ops[o].endpoint)])
    case PublishSnapshot(o) =>
      s.(snapshots := s.snapshots + {s.ops[o].endpoint}, ops := s.ops[o := Spawning({s.ops[o].endpoint})])
    case BeginStart(o) => s.(ops := s.ops[o := Spawning(s.registry)])
    case Spawn(o, e, t) =>
      s.(tasks := s.tasks[t := Task(e, LoopHead, false, false, false)],
         ops := s.ops[o := Tracking(e, t, s.ops[o].todo - {e})])
    case Track(o) =>
      var Tracking(e, t, todo) := s.ops[o];
      s.(tasks := if e in s.monitors then Abort(s.tasks, s.monitors[e]) else s.tasks,
         monitors := s.monitors[e := t],
         lock := Some(o),
         ops := s.ops[o := Rechecking(e, t, todo)])
    case Recheck(o) =>
      var Rechecking(e, t, todo) := s.ops[o];
      var released := s.(lock := None, ops := s.ops[o := Spawning(todo)]);
      if e !in s.registry && e in s.monitors then
        released.(monitors := s.monitors - {e}, tasks := Abort(s.tasks, s.monitors[e]))
      else
        released
    case FinishSpawns(o) => s.(ops := s.ops - {o})
    case RemoveRecord(o, e) => s.(registry := s.registry - {e}, ops := s.ops[o := Unlinking(e)])
    case TakeHandle(o) =>
      var e := s.ops[o].endpoint;
      if e in s.monitors then
        s.(monitors := s.monitors - {e}, ops := s.ops[o := Aborting(e, s.monitors[e])])
      else
        s.(ops := s.ops[o := Dropping(e)])
    case AbortTaken(o) =>
      s.(tasks := Abort(s.tasks, s.ops[o].task), ops := s.ops[o := Awaiting(s.ops[o].endpoint, s.ops[o].task)])
    case AwaitEnd(o) => s.(ops := s.ops[o := Dropping(s.ops[o].endpoint)])
    case DropSnapshot(o) => s.(snapshots := s.snapshots - {s.ops[o].endpoint}, ops := s.ops - {o})
    case BeginPoll(t) => s.(tasks := s.tasks[t := s.tasks[t].(polling := true)])
    case EndPoll(t) =>
      s.(tasks := s.tasks[t := s.tasks[t].(polling := false, finished := s.tasks[t].aborted)])
    case LookUpRecord(t) =>
      if s.tasks[t].endpoint in s.registry then
        s.(tasks := s.tasks[t := s.tasks[t].(pc := InSession)])
      else
        s.(tasks := s.tasks[t := s.tasks[t].(polling := false, finished := true)])
    case WriteSnapshot(t) => s.(snapshots := s.snapshots + {s.tasks[t].endpoint})
    case EndSession(t) => s.(tasks := s.tasks[t := s.tasks[t].(pc := LoopHead)])
  }

  /** A schedule the runtime can produce from `s`. */
  predicate Runs(s: State, steps: seq<Step>)
    decreases |steps|
  {
    steps == [] || (Enabled(s, steps[0]) && Runs(Apply(s, steps[0]), steps[1..]))
  }

  function Exec(s: State, steps: seq<Step>): State
    requires Runs(s, steps)
    decreases |steps|
  {
    if steps == [] then s else Exec(Apply(s, steps[0]), steps[1..])
  }

  /** `RemoteFleet::load`: one offline snapshot per persisted record. */
  function Loaded(records: set<Endpoint>): State {
    State(records, records, map[], None, map[], map[])
  }

  // ----- the invariant of every interleaving

  predicate Concerns(op: Op, e: Endpoint) {
    match op
    case Pairing(_) => false
    case Spawning(todo) => e in todo
    case Tracking(x, _, todo) => e == x || e in todo
    case Rechecking(x, _, todo) => e == x || e in todo
    case _ => op.endpoint == e
  }

  /** Some operation on `e` is past its first effect and has not returned. */
  ghost predicate InFlight(s: State, e: Endpoint) {
    exists o :: o in s.ops && Concerns(s.ops[o], e)
  }

  predicate Live(s: State, t: TaskId) {
    t in s.tasks && !s.tasks[t].finished
  }

  predicate Tracked(s: State, t: TaskId)
    requires t in s.tasks
  {
    s.tasks[t].endpoint in s.monitors && s.monitors[s.tasks[t].endpoint] == t
  }

  predicate Holds(op: Op, t: TaskId) {
    (op.Tracking? || op.Aborting?) && op.task == t
  }

  ghost predicate Held(s: State, t: TaskId) {
    exists o :: o in s.ops && Holds(s.ops[o], t)
  }

  predicate WillUnlink(op: Op, e: Endpoint) {
    op == Unlinking(e) || (op.Rechecking? && op.endpoint == e)
  }

  ghost predicate UnlinkPending(s: State, e: Endpoint) {
    exists o :: o in s.ops && WillUnlink(s.ops[o], e)
  }

  predicate OpOk(s: State, o: OpId)
    requires o in s.ops
  {
    var op := s.ops[o];
    && (op.Tracking? || op.Rechecking? || op.Aborting? || op.Awaiting? ==>
          op.task in s.tasks && s.tasks[op.task].endpoint == op.endpoint)
    && (op.Rechecking? ==> s.lock == Some(o) && op.endpoint in s.monitors && s.monitors[op.endpoint] == op.task)
    && (op.Awaiting? ==> s.tasks[op.task].aborted || s.tasks[op.task].finished)
  }

  ghost predicate Inv(s: State) {
    && (s.lock.Some? ==> s.lock.value in s.ops && s.ops[s.lock.value].Rechecking?)
    && (forall o :: o in s.ops ==> OpOk(s, o))
    && (forall e :: e in s.monitors ==> s.monitors[e] in s.tasks && s.tasks[s.monitors[e]].endpoint == e)
    && (forall t :: t in s.tasks && s.tasks[t].aborted && !s.tasks[t].polling ==> s.tasks[t].finished)
    && (forall t :: t in s.tasks && !s.tasks[t].finished && !s.tasks[t].aborted ==> Tracked(s, t) || Held(s, t))
    && (forall e :: e in s.monitors && e !in s.registry ==> UnlinkPending(s, e))
  }

  lemma LoadedInv(records: set<Endpoint>)
    ensures Inv(Loaded(records))
  {
  }

  /** An operation other than `o` still holds what it held. */
  lemma HeldElsewhere(s: State, s': State, o: OpId)
    requires forall x :: x in s.ops && x != o ==> x in s'.ops && s'.ops[x] == s.ops[x]
    ensures forall t :: Held(s, t) && !(o in s.ops && Holds(s.ops[o], t)) ==> Held(s', t)
    ensures forall e :: UnlinkPending(s, e) && !(o in s.ops && WillUnlink(s.ops[o], e)) ==> UnlinkPending(s', e)
  {
    forall t | Held(s, t) && !(o in s.ops && Holds(s.ops[o], t)) ensures Held(s', t) {
      var x :| x in s.ops && Holds(s.ops[x], t);
      assert x in s'.ops && Holds(s'.ops[x], t);
    }
    forall e | UnlinkPending(s, e) && !(o in s.ops && WillUnlink(s.ops[o], e)) ensures UnlinkPending(s', e) {
      var x :| x in s.ops && WillUnlink(s.ops[x], e);
      assert x in s'.ops && WillUnlink(s'.ops[x], e);
    }
  }

  /** A step that changes neither the operations nor the maps they guard. */
  lemma TaskStepInv(s: State, step: Step)
    requires Inv(s) && Enabled(s, step) && IsTaskStep(step)
    ensures Inv(Apply(s, step))
  {
    var s' := Apply(s, step);
    TaskStepMarks(s, step);
    SameOps(s, s');
  }

  lemma TaskStepMarks(s: State, step: Step)
    requires Enabled(s, step) && IsTaskStep(step)
    ensures var s' := Apply(s, step);
      var t := step.task;
      && s'.ops == s.ops && s'.monitors == s.monitors && s'.registry == s.registry && s'.lock == s.lock
      && (forall x :: x in s'.tasks <==> x in s.tasks)
      && (forall x :: x in s.tasks && x != t ==> s'.tasks[x] == s.tasks[x])
      && s'.tasks[t].endpoint == s.tasks[t].endpoint && s'.tasks[t].aborted == s.tasks[t].aborted
      && !s.tasks[t].finished
      && (s'.tasks[t].aborted && !s'.tasks[t].polling && s.tasks[t].polling ==> s'.tasks[t].finished)
      && (!s.tasks[t].polling ==> !s.tasks[t].aborted)
  {
  }

  lemma SameOps(s: State, s': State)
    requires Inv(s)
    requires s'.ops == s.ops && s'.monitors == s.monitors && s'.registry == s.registry && s'.lock == s.lock
    requires forall x :: x in s.tasks ==> x in s'.tasks && s'.tasks[x].endpoint == s.tasks[x].endpoint
                                          && s'.tasks[x].aborted == s.tasks[x].aborted
                                          && (s.tasks[x].finished ==> s'.tasks[x].finished)
    requires forall x :: x in s'.tasks ==> x in s.tasks
    requires forall x :: x in s'.tasks && s'.tasks[x].aborted && !s'.tasks[x].polling ==> s'.tasks[x].finished
    ensures Inv(s')
  {
    forall o | o in s'.ops ensures OpOk(s', o) { assert OpOk(s, o); }
    forall x | x in s'.tasks && !s'.tasks[x].finished && !s'.tasks[x].aborted ensures Tracked(s', x) || Held(s', x) {
      if Held(s, x) {
        var o :| o in s.ops && Holds(s.ops[o], x);
        assert o in s'.ops && Holds(s'.ops[o], x);
      }
    }
    forall e | e in s'.monitors && e !in s'.registry ensures UnlinkPending(s', e) {
      var o :| o in s.ops && WillUnlink(s.ops[o], e);
      assert o in s'.ops && WillUnlink(s'.ops[o], e);
    }
  }

  predicate Neutral(op: Op) {
    op.Pairing? || op.Publishing? || op.Spawning? || op.Dropping?
  }

  predicate OnlyOp(s: State, s': State, o: OpId) {
    && (forall x :: x in s.ops && x != o ==> x in s'.ops && s'.ops[x] == s.ops[x])
    && (forall x :: x in s'.ops && x != o ==> x in s.ops)
  }

  /** A step that only moves one operation between two points at which it holds
      nothing, and deletes no record. */
  lemma NeutralStepInv(s: State, s': State, o: OpId)
    requires Inv(s) && OnlyOp(s, s', o)
    requires s'.tasks == s.tasks && s'.monitors == s.monitors && s'.lock == s.lock && s.registry <= s'.registry
    requires o in s.ops ==> Neutral(s.ops[o]) || s.ops[o].Awaiting?
    requires o in s'.ops ==> Neutral(s'.ops[o])
    ensures Inv(s')
  {
    HeldElsewhere(s, s', o);
    forall x | x in s'.ops ensures OpOk(s', x) { if x != o { assert OpOk(s, x); } }
  }

  lemma SpawnInv(s: State, o: OpId, e: Endpoint, t: TaskId)
    requires Inv(s) && Enabled(s, Spawn(o, e, t))
    ensures Inv(Apply(s, Spawn(o, e, t)))
  {
    var s' := Apply(s, Spawn(o, e, t));
    assert OnlyOp(s, s', o);
    HeldElsewhere(s, s', o);
    forall x | x in s'.ops ensures OpOk(s', x) { if x != o { assert OpOk(s, x); } }
    assert o in s'.ops && Holds(s'.ops[o], t);
    forall x | x in s'.tasks && !s'.tasks[x].finished && !s'.tasks[x].aborted ensures Tracked(s', x) || Held(s', x) {
      if x != t { assert Tracked(s, x) || Held(s, x); }
    }
  }

  /** `Abort` only ever marks: endpoints and ends survive, and the aborted task
      is no longer un-aborted and live. */
  lemma AbortMarks(tasks: map<TaskId, Task>, t: TaskId)
    requires forall x :: x in tasks && tasks[x].aborted && !tasks[x].polling ==> tasks[x].finished
    ensures var after := Abort(tasks, t);
      && after.Keys == tasks.Keys
      && (forall x :: x in tasks ==> after[x].endpoint == tasks[x].endpoint && after[x].pc == tasks[x].pc
                                     && (tasks[x].finished ==> after[x].finished)
                                     && (tasks[x].aborted ==> after[x].aborted))
      && (forall x :: x in tasks && x != t ==> after[x] == tasks[x])
      && (t in tasks ==> after[t].aborted || after[t].finished)
      && (forall x :: x in after && after[x].aborted && !after[x].polling ==> after[x].finished)
  {
  }

  lemma TrackInv(s: State, o: OpId)
    requires Inv(s) && Enabled(s, Track(o))
    ensures Inv(Apply(s, Track(o)))
  {
    var s' := Apply(s, Track(o));
    var Tracking(e, t, todo) := s.ops[o];
    assert OpOk(s, o);
    if e in s.monitors { AbortMarks(s.tasks, s.monitors[e]); }
    assert OnlyOp(s, s', o);
    HeldElsewhere(s, s', o);
    assert o in s'.ops && WillUnlink(s'.ops[o], e);
    forall x | x in s'.ops ensures OpOk(s', x) { if x != o { assert OpOk(s, x); } }
    forall x | x in s'.tasks && !s'.tasks[x].finished && !s'.tasks[x].aborted ensures Tracked(s', x) || Held(s', x) {
      if x != t { assert Tracked(s, x) || Held(s, x); }
    }
  }

  /** The record is still there: the operation only lets the lock go. */
  lemma RecheckKeepsInv(s: State, s': State, o: OpId)
    requires Inv(s) && OnlyOp(s, s', o) && o in s.ops && o in s'.ops && s.ops[o].Rechecking? && s'.ops[o].Spawning?
    requires s.ops[o].endpoint in s.registry && s'.lock.None?
    requires s'.tasks == s.tasks && s'.monitors == s.monitors && s'.registry == s.registry
    ensures Inv(s')
  {
    HeldElsewhere(s, s', o);
    forall x | x in s'.ops ensures OpOk(s', x) { assert x in s.ops && OpOk(s, x); }
  }

  lemma RecheckInv(s: State, o: OpId)
    requires Inv(s) && Enabled(s, Recheck(o))
    ensures Inv(Apply(s, Recheck(o)))
  {
    var s' := Apply(s, Recheck(o));
    assert OnlyOp(s, s', o) && OpOk(s, o);
    if s.ops[o].endpoint in s.registry { RecheckKeepsInv(s, s', o); } else { RecheckDropsInv(s, s', o); }
  }

  /** The record went meanwhile: the operation takes its handle back out. */
  lemma RecheckDropsInv(s: State, s': State, o: OpId)
    requires Inv(s) && OnlyOp(s, s', o) && o in s.ops && o in s'.ops && s.ops[o].Rechecking? && s'.ops[o].Spawning?
    requires s'.lock.None? && s'.registry == s.registry
    requires s'.tasks == Abort(s.tasks, s.ops[o].task) && s'.monitors == s.monitors - {s.ops[o].endpoint}
    ensures Inv(s')
  {
    assert OpOk(s, o);
    HeldElsewhere(s, s', o);
    AbortMarks(s.tasks, s.ops[o].task);
    forall x | x in s'.ops ensures OpOk(s', x) { assert x in s.ops && OpOk(s, x); }
    forall x | x in s'.tasks && !s'.tasks[x].finished && !s'.tasks[x].aborted ensures Tracked(s', x) || Held(s', x) {
      assert Tracked(s, x) || Held(s, x);
    }
  }

  lemma RemoveRecordInv(s: State, o: OpId, e: Endpoint)
    requires Inv(s) && Enabled(s, RemoveRecord(o, e))
    ensures Inv(Apply(s, RemoveRecord(o, e)))
  {
    var s' := Apply(s, RemoveRecord(o, e));
    assert OnlyOp(s, s', o);
    HeldElsewhere(s, s', o);
    assert o in s'.ops && WillUnlink(s'.ops[o], e);
    forall x | x in s'.ops ensures OpOk(s', x) { if x != o { assert OpOk(s, x); } }
    forall x | x in s'.monitors && x !in s'.registry ensures UnlinkPending(s', x) {
      if x != e { assert UnlinkPending(s, x); }
    }
  }

  lemma TakeHandleInv(s: State, o: OpId)
    requires Inv(s) && Enabled(s, TakeHandle(o))
    ensures Inv(Apply(s, TakeHandle(o)))
  {
    var s' := Apply(s, TakeHandle(o));
    var e := s.ops[o].endpoint;
    assert OnlyOp(s, s', o);
    HeldElsewhere(s, s', o);
    if e in s.monitors { assert o in s'.ops && Holds(s'.ops[o], s.monitors[e]); }
    forall x | x in s'.ops ensures OpOk(s', x) { if x != o { assert OpOk(s, x); } }
    forall x | x in s'.tasks && !s'.tasks[x].finished && !s'.tasks[x].aborted ensures Tracked(s', x) || Held(s', x) {
      assert Tracked(s, x) || Held(s, x);
    }
  }

  lemma AbortTakenInv(s: State, o: OpId)
    requires Inv(s) && Enabled(s, AbortTaken(o))
    ensures Inv(Apply(s, AbortTaken(o)))
  {
    var s' := Apply(s, AbortTaken(o));
    assert OpOk(s, o);
    AbortMarks(s.tasks, s.ops[o].task);
    assert OnlyOp(s, s', o);
    HeldElsewhere(s, s', o);
    forall x | x in s'.ops ensures OpOk(s', x) { assert x in s.ops && OpOk(s, x); }
    forall x | x in s'.tasks && !s'.tasks[x].finished && !s'.tasks[x].aborted ensures Tracked(s', x) || Held(s', x) {
      assert Tracked(s, x) || Held(s, x);
    }
  }

  lemma StepInv(s: State, step: Step)
    requires Inv(s) && Enabled(s, step)
    ensures Inv(Apply(s, step))
  {
    if IsTaskStep(step) {
      TaskStepInv(s, step);
    } else if step.Spawn? {
      SpawnInv(s, step.op, step.endpoint, step.task);
    } else if step.Track? {
      TrackInv(s, step.op);
    } else if step.Recheck? {
      RecheckInv(s, step.op);
    } else if step.RemoveRecord? {
      RemoveRecordInv(s, step.op, step.endpoint);
    } else if step.TakeHandle? {
      TakeHandleInv(s, step.op);
    } else if step.AbortTaken? {
      AbortTakenInv(s, step.op);
    } else {
      NeutralStepInv(s, Apply(s, step), step.op);
    }
  }

  lemma {:induction false} RunInv(s: State, steps: seq<Step>)
    requires Inv(s) && Runs(s, steps)
    ensures Inv(Exec(s, steps))
    decreases |steps|
  {
    if steps != [] {
      StepInv(s, steps[0]);
      RunInv(Apply(s, steps[0]), steps[1..]);
    }
  }

  /** Only a running operation keeps an untracked monitor, or an orphaned
      handle, alive. */
  lemma LeftoversAreInFlight(s: State, t: TaskId)
    requires Inv(s) && t in s.tasks
    ensures Held(s, t) ==> InFlight(s, s.tasks[t].endpoint)
    ensures UnlinkPending(s, s.tasks[t].endpoint) ==> InFlight(s, s.tasks[t].endpoint)
  {
    var e := s.tasks[t].endpoint;
    if Held(s, t) {
      var o :| o in s.ops && Holds(s.ops[o], t);
      assert OpOk(s, o) && Concerns(s.ops[o], e);
    }
    if UnlinkPending(s, e) {
      var o :| o in s.ops && WillUnlink(s.ops[o], e);
      assert Concerns(s.ops[o], e);
    }
  }

  /** Main result. Whatever interleaved, once no operation on `e` is running an
      un-aborted live monitor of `e` belongs to a registered machine, and the
      handle tracked for `e` is that monitor's. */
  lemma QuiescentMonitorIsTheTrackedOne(records: set<Endpoint>, steps: seq<Step>, t: TaskId)
    requires Runs(Loaded(records), steps)
    ensures var s := Exec(Loaded(records), steps);
      Live(s, t) && !s.tasks[t].aborted && !InFlight(s, s.tasks[t].endpoint) ==>
        s.tasks[t].endpoint in s.registry && Tracked(s, t)
  {
    LoadedInv(records);
    RunInv(Loaded(records), steps);
    var s := Exec(Loaded(records), steps);
    if Live(s, t) { LeftoversAreInFlight(s, t); }
  }

  // ----- what a completed removal leaves behind

  predicate InsertsRecordOf(s: State, step: Step, e: Endpoint)
    requires Enabled(s, step)
  {
    step.InsertRecord? && s.ops[step.op].endpoint == e
  }

  /** No import persists a record for `e` anywhere in the schedule. */
  predicate NeverInserts(s: State, steps: seq<Step>, e: Endpoint)
    requires Runs(s, steps)
    decreases |steps|
  {
    steps == [] || (!InsertsRecordOf(s, steps[0], e) && NeverInserts(Apply(s, steps[0]), steps[1..], e))
  }

  /** A replaced or orphaned monitor of `e` that was aborted but not awaited,
      and whose current poll has not returned yet. */
  ghost predicate Straggler(s: State, e: Endpoint) {
    exists t :: t in s.tasks && s.tasks[t].endpoint == e && s.tasks[t].aborted && !s.tasks[t].finished
  }

  /** A monitor of `e` past its record look-up, which may still write. */
  predicate SessionOf(s: State, e: Endpoint, t: TaskId) {
    t in s.tasks && s.tasks[t].endpoint == e && !s.tasks[t].finished && s.tasks[t].pc.InSession?
  }

  /** The operation will still take, or replace, the handle tracked for `e`. */
  predicate Takes(op: Op, e: Endpoint) {
    match op
    case Spawning(todo) => e in todo
    case Tracking(x, _, todo) => e == x || e in todo
    case Rechecking(x, _, todo) => e == x || e in todo
    case Unlinking(x) => e == x
    case _ => false
  }

  ghost predicate Taker(s: State, e: Endpoint, o: OpId) {
    exists x :: x in s.ops && x != o && Takes(s.ops[x], e)
  }

  ghost predicate Publisher(s: State, e: Endpoint) {
    exists x :: x in s.ops && s.ops[x] == Publishing(e)
  }

  /** What a caller of `remove_machine` can look at beforehand: an import of `e`
      is about to publish its snapshot; or a monitor of `e` is mid-session and
      either is not the tracked one or may lose its place to another operation
      before the removal `o` takes it. */
  ghost predicate Revivable(s: State, e: Endpoint, o: OpId) {
    Publisher(s, e) || exists t :: SessionOf(s, e, t) && (!Tracked(s, t) || Taker(s, e, o))
  }

  // ----- otherwise nothing brings the snapshot back

  /** While the record is absent no session starts. */
  lemma SessionsShrink(s: State, step: Step, e: Endpoint, t: TaskId)
    requires Enabled(s, step) && e !in s.registry
    ensures SessionOf(Apply(s, step), e, t) ==> SessionOf(s, e, t)
  {
  }

  /** ... and no operation on `e` begins, unless an import inserts its record. */
  lemma OpsShrink(s: State, step: Step, e: Endpoint, x: OpId)
    requires Enabled(s, step) && e !in s.registry && !InsertsRecordOf(s, step, e) && !Publisher(s, e)
    ensures var s' := Apply(s, step);
      && e !in s'.registry
      && (x in s'.ops ==> s'.ops[x] != Publishing(e))
      && (x in s'.ops && Takes(s'.ops[x], e) ==> x in s.ops && Takes(s.ops[x], e))
  {
    if x in s.ops { assert s.ops[x] != Publishing(e); }
  }

  /** Nothing but the removal itself touches the handle of `e` if no other
      operation can. */
  lemma HandleStays(s: State, step: Step, e: Endpoint, o: OpId)
    requires Enabled(s, step) && e !in s.registry && !Taker(s, e, o)
    requires IsTaskStep(step) || step.op != o
    ensures var s' := Apply(s, step);
      (e in s'.monitors <==> e in s.monitors) && (e in s.monitors ==> s'.monitors[e] == s.monitors[e])
  {
    if !IsTaskStep(step) && step.op in s.ops { assert !Takes(s.ops[step.op], e); }
  }

  ghost predicate Contained(s: State, e: Endpoint, o: OpId) {
    && o in s.ops && e !in s.registry && !Publisher(s, e)
    && match s.ops[o] {
         case Unlinking(x) => x == e && forall t :: SessionOf(s, e, t) ==> Tracked(s, t) && !Taker(s, e, o)
         case Aborting(x, t') => x == e && forall t :: SessionOf(s, e, t) ==> t == t'
         case Awaiting(x, t') => x == e && forall t :: SessionOf(s, e, t) ==> t == t'
         case Dropping(x) => x == e && forall t :: !SessionOf(s, e, t)
         case _ => false
       }
  }

  /** No record, no snapshot, and nothing that could write one. */
  ghost predicate Erased(s: State, e: Endpoint) {
    e !in s.registry && e !in s.snapshots && !Publisher(s, e) && forall t :: !SessionOf(s, e, t)
  }

  lemma ErasedStep(s: State, step: Step, e: Endpoint)
    requires Erased(s, e) && Enabled(s, step) && !InsertsRecordOf(s, step, e)
    ensures Erased(Apply(s, step), e)
  {
    var s' := Apply(s, step);
    forall t ensures !SessionOf(s', e, t) { SessionsShrink(s, step, e, t); }
    forall x ensures e !in s'.registry && (x in s'.ops ==> s'.ops[x] != Publishing(e)) { OpsShrink(s, step, e, x); }
    assert step.PublishSnapshot? ==> s.ops[step.op] != Publishing(e);
    assert step.WriteSnapshot? ==> !SessionOf(s, e, step.task);
  }

  lemma ContainedBystander(s: State, step: Step, e: Endpoint, o: OpId)
    requires Contained(s, e, o) && Enabled(s, step) && !InsertsRecordOf(s, step, e)
    requires IsTaskStep(step) || step.op != o
    ensures Contained(Apply(s, step), e, o)
  {
    var s' := Apply(s, step);
    assert o in s'.ops && s'.ops[o] == s.ops[o];
    forall x ensures e !in s'.registry && (x in s'.ops ==> s'.ops[x] != Publishing(e)) { OpsShrink(s, step, e, x); }
    forall t | SessionOf(s', e, t)
      ensures SessionOf(s, e, t) && (s.ops[o].Unlinking? ==> Tracked(s', t) && !Taker(s', e, o))
    {
      SessionsShrink(s, step, e, t);
      if s.ops[o].Unlinking? {
        HandleStays(s, step, e, o);
        forall x | x in s'.ops && x != o ensures !Takes(s'.ops[x], e) { OpsShrink(s, step, e, x); }
      }
    }
  }

  lemma ContainedOwnStep(s: State, step: Step, e: Endpoint, o: OpId)
    requires Inv(s) && Contained(s, e, o) && Enabled(s, step) && !IsTaskStep(step) && step.op == o
    ensures if step.DropSnapshot? then Erased(Apply(s, step), e) else Contained(Apply(s, step), e, o)
  {
    var s' := Apply(s, step);
    assert OpOk(s, o);
    forall x ensures e !in s'.registry && (x in s'.ops ==> s'.ops[x] != Publishing(e)) { OpsShrink(s, step, e, x); }
    forall t | SessionOf(s', e, t) ensures SessionOf(s, e, t) { SessionsShrink(s, step, e, t); }
  }

  /** From the deletion of the record on, a contained removal stays contained, and
      after it returned the machine stays erased. */
  lemma {:induction false} ContainedRun(s: State, steps: seq<Step>, e: Endpoint, o: OpId)
    requires Inv(s) && Runs(s, steps) && NeverInserts(s, steps, e)
    requires Contained(s, e, o) || Erased(s, e)
    ensures DropSnapshot(o) in steps || Erased(s, e) ==> Erased(Exec(s, steps), e)
    decreases |steps|
  {
    if steps != [] {
      var step := steps[0];
      StepInv(s, step);
      if Erased(s, e) {
        ErasedStep(s, step, e);
      } else if IsTaskStep(step) || step.op != o {
        ContainedBystander(s, step, e, o);
      } else {
        ContainedOwnStep(s, step, e, o);
      }
      ContainedRun(Apply(s, step), steps[1..], e, o);
    }
  }

  lemma RemovalContained(s: State, e: Endpoint, o: OpId)
    requires Enabled(s, RemoveRecord(o, e)) && !Revivable(s, e, o)
    ensures Contained(Apply(s, RemoveRecord(o, e)), e, o)
  {
    var s' := Apply(s, RemoveRecord(o, e));
    forall x | x in s'.ops ensures s'.ops[x] != Publishing(e) { assert x != o ==> s.ops[x] != Publishing(e); }
    forall t | SessionOf(s', e, t) ensures Tracked(s', t) && !Taker(s', e, o) {
      assert SessionOf(s, e, t);
      forall x | x in s'.ops && x != o ensures !Takes(s'.ops[x], e) { assert x in s.ops; }
    }
  }

  // ----- schedules that bring it back

  lemma {:induction false} Extend(s: State, steps: seq<Step>, step: Step, e: Endpoint)
    requires Runs(s, steps) && Enabled(Exec(s, steps), step)
    ensures Runs(s, steps + [step]) && Exec(s, steps + [step]) == Apply(Exec(s, steps), step)
    ensures NeverInserts(s, steps, e) && !step.InsertRecord? ==> NeverInserts(s, steps + [step], e)
    decreases |steps|
  {
    if steps == [] {
      assert ([] + [step])[1..] == [];
    } else {
      Extend(Apply(s, steps[0]), steps[1..], step, e);
      assert (steps + [step])[1..] == steps[1..] + [step];
    }
  }

  /** Some schedule without an import of `e` leads from `s` to `s'`, and in it
      the removal `o` returned if `returned` says so. */
  ghost predicate Leads(s: State, s': State, e: Endpoint, o: OpId, returned: bool) {
    exists steps :: Runs(s, steps) && NeverInserts(s, steps, e) && Exec(s, steps) == s' &&
                    (returned ==> DropSnapshot(o) in steps)
  }

  lemma LeadsNowhere(s: State, e: Endpoint, o: OpId)
    ensures Leads(s, s, e, o, false)
  {
    assert Runs(s, []) && NeverInserts(s, [], e) && Exec(s, []) == s;
  }

  lemma Then(s: State, mid: State, step: Step, e: Endpoint, o: OpId, returned: bool)
    requires Leads(s, mid, e, o, returned) && Enabled(mid, step) && !step.InsertRecord?
    ensures Leads(s, Apply(mid, step), e, o, returned || step == DropSnapshot(o))
  {
    var steps :| Runs(s, steps) && NeverInserts(s, steps, e) && Exec(s, steps) == mid &&
                 (returned ==> DropSnapshot(o) in steps);
    Extend(s, steps, step, e);
    assert step in steps + [step];
  }

  /** The removal `o` can return and a snapshot of the machine exist afterwards,
      although no import inserted its record again. */
  ghost predicate CanRevive(s: State, e: Endpoint, o: OpId) {
    exists s' :: Leads(s, s', e, o, true) && e in s'.snapshots && e !in s'.registry
  }

  /** Each handle reaches the map once: a task on its way into the map is not in
      it, and only one operation brings it there. */
  ghost predicate HandlesFresh(s: State) {
    && (forall o :: o in s.ops && s.ops[o].Tracking? && s.ops[o].endpoint in s.monitors ==>
                      s.monitors[s.ops[o].endpoint] != s.ops[o].task)
    && (forall o, p :: o in s.ops && p in s.ops && o != p && s.ops[o].Tracking? && s.ops[p].Tracking? ==>
                         s.ops[o].task != s.ops[p].task)
  }

  lemma HandlesFreshStep(s: State, step: Step)
    requires Inv(s) && HandlesFresh(s) && Enabled(s, step)
    ensures HandlesFresh(Apply(s, step))
  {
    var s' := Apply(s, step);
    assert forall o :: o in s.ops ==> OpOk(s, o);
    if step.Track? { assert OpOk(s, step.op); }
  }

  /** The removal `o` stands right after the deletion of the record. */
  ghost predicate Stage(s: State, mid: State, e: Endpoint, o: OpId) {
    && Leads(s, mid, e, o, false) && Inv(mid) && HandlesFresh(mid)
    && o in mid.ops && mid.ops[o] == Unlinking(e) && e !in mid.registry
  }

  /** A session of `e` that a worker is executing: no abort can stop it before its
      poll returns. */
  predicate Writing(s: State, e: Endpoint, t: TaskId) {
    SessionOf(s, e, t) && s.tasks[t].polling
  }

  lemma StageStep(s: State, mid: State, step: Step, e: Endpoint, o: OpId)
    requires Stage(s, mid, e, o) && Enabled(mid, step) && !step.InsertRecord? && (IsTaskStep(step) || step.op != o)
    ensures Stage(s, Apply(mid, step), e, o)
  {
    Then(s, mid, step, e, o, false);
    StepInv(mid, step);
    HandlesFreshStep(mid, step);
    ForeignStep(mid, step, o);
  }

  lemma ForeignStep(s: State, step: Step, o: OpId)
    requires Enabled(s, step) && o in s.ops && (IsTaskStep(step) || step.op != o)
    ensures o in Apply(s, step).ops && Apply(s, step).ops[o] == s.ops[o]
    ensures !step.InsertRecord? ==> Apply(s, step).registry <= s.registry
  {
  }

  /** Waiting for the handle map to be unlocked. */
  lemma Unlocked(s: State, mid: State, e: Endpoint, o: OpId) returns (free: State)
    requires Stage(s, mid, e, o)
    ensures Stage(s, free, e, o) && free.lock.None? && free.tasks.Keys == mid.tasks.Keys
    ensures forall t :: Writing(mid, e, t) ==> Writing(free, e, t) && (Tracked(free, t) ==> Tracked(mid, t))
    ensures forall x :: x in mid.ops && !mid.ops[x].Rechecking? ==> x in free.ops && free.ops[x] == mid.ops[x]
  {
    free := mid;
    if mid.lock.Some? {
      var step := Recheck(mid.lock.value);
      StageStep(s, mid, step, e, o);
      free := Apply(mid, step);
    }
  }

  /** The removal runs to its end: it awaits only the task it took, so a session
      it did not track is still writing. */
  lemma FinishRemoval(s: State, mid: State, e: Endpoint, o: OpId) returns (done: State)
    requires Stage(s, mid, e, o)
    ensures Leads(s, done, e, o, true) && e !in done.registry
    ensures forall t :: Writing(mid, e, t) && !Tracked(mid, t) ==> Writing(done, e, t)
    ensures forall x :: x in mid.ops && mid.ops[x].Publishing? ==> x in done.ops && done.ops[x] == mid.ops[x]
  {
    var free := Unlocked(s, mid, e, o);
    Then(s, free, TakeHandle(o), e, o, false);
    var taken := Apply(free, TakeHandle(o));
    if e in free.monitors { taken := AwaitTaken(s, taken, e, o, free.monitors[e]); }
    Then(s, taken, DropSnapshot(o), e, o, false);
    done := Apply(taken, DropSnapshot(o));
  }

  lemma AwaitTaken(s: State, mid: State, e: Endpoint, o: OpId, m: TaskId) returns (ended: State)
    requires Leads(s, mid, e, o, false) && o in mid.ops && mid.ops[o] == Aborting(e, m) && m in mid.tasks
    ensures Leads(s, ended, e, o, false) && ended.registry == mid.registry && ended.ops == mid.ops[o := Dropping(e)]
    ensures forall t :: t in mid.tasks && t != m ==> t in ended.tasks && ended.tasks[t] == mid.tasks[t]
  {
    Then(s, mid, AbortTaken(o), e, o, false);
    ended := Apply(mid, AbortTaken(o));
    if !ended.tasks[m].finished {
      Then(s, ended, EndPoll(m), e, o, false);
      ended := Apply(ended, EndPoll(m));
    }
    Then(s, ended, AwaitEnd(o), e, o, false);
    ended := Apply(ended, AwaitEnd(o));
    assert mid.ops[o := Awaiting(e, m)][o := Dropping(e)] == mid.ops[o := Dropping(e)];
  }

  lemma PublisherRevives(s: State, mid: State, e: Endpoint, o: OpId, x: OpId)
    requires Stage(s, mid, e, o) && x in mid.ops && mid.ops[x] == Publishing(e)
    ensures CanRevive(s, e, o)
  {
    var done := FinishRemoval(s, mid, e, o);
    Then(s, done, PublishSnapshot(x), e, o, true);
    var end := Apply(done, PublishSnapshot(x));
    assert e in end.snapshots && e !in end.registry;
  }

  lemma UntrackedRevives(s: State, mid: State, e: Endpoint, o: OpId, t: TaskId)
    requires Stage(s, mid, e, o) && Writing(mid, e, t) && !Tracked(mid, t)
    ensures CanRevive(s, e, o)
  {
    var done := FinishRemoval(s, mid, e, o);
    Then(s, done, WriteSnapshot(t), e, o, true);
    var end := Apply(done, WriteSnapshot(t));
    assert e in end.snapshots && e !in end.registry;
  }

  /** A second removal takes the handle first; this one finds none to await. */
  lemma UnlinkingRevives(s: State, mid: State, e: Endpoint, o: OpId, x: OpId, t: TaskId)
    requires Stage(s, mid, e, o) && Writing(mid, e, t) && x != o && x in mid.ops && mid.ops[x] == Unlinking(e)
    ensures CanRevive(s, e, o)
  {
    var free := Unlocked(s, mid, e, o);
    StageStep(s, free, TakeHandle(x), e, o);
    UntrackedRevives(s, Apply(free, TakeHandle(x)), e, o, t);
  }

  /** A spawn replaces the handle; the replaced task is aborted, not awaited. */
  lemma TrackingRevives(s: State, mid: State, e: Endpoint, o: OpId, x: OpId, t: TaskId)
    requires Stage(s, mid, e, o) && Writing(mid, e, t) && x in mid.ops && mid.ops[x].Tracking?
      && mid.ops[x].endpoint == e
    ensures CanRevive(s, e, o)
  {
    var free := Unlocked(s, mid, e, o);
    if Tracked(free, t) {
      StageStep(s, free, Track(x), e, o);
      UntrackedRevives(s, Apply(free, Track(x)), e, o, t);
    } else {
      UntrackedRevives(s, free, e, o, t);
    }
  }

  lemma {:induction false} FreshTask(used: set<TaskId>) returns (t: TaskId)
    ensures forall x :: x in used ==> x < t
    decreases |used|
  {
    t := 0;
    if used != {} {
      var y :| y in used;
      var rest := FreshTask(used - {y});
      t := if y < rest then rest else y + 1;
      assert forall x :: x in used ==> x == y || x in used - {y};
    }
  }

  lemma SpawningRevives(s: State, mid: State, e: Endpoint, o: OpId, x: OpId, t: TaskId)
    requires Stage(s, mid, e, o) && Writing(mid, e, t) && x in mid.ops && mid.ops[x].Spawning? && e in mid.ops[x].todo
    ensures CanRevive(s, e, o)
  {
    var next := FreshTask(mid.tasks.Keys);
    StageStep(s, mid, Spawn(x, e, next), e, o);
    TrackingRevives(s, Apply(mid, Spawn(x, e, next)), e, o, x, t);
  }

  /** A recheck takes the handle of a machine without a record, or goes on to the
      next spawn. */
  lemma RecheckingRevives(s: State, mid: State, e: Endpoint, o: OpId, x: OpId, t: TaskId)
    requires Stage(s, mid, e, o) && Writing(mid, e, t) && x in mid.ops && mid.ops[x].Rechecking? && Takes(mid.ops[x], e)
    ensures CanRevive(s, e, o)
  {
    StageStep(s, mid, Recheck(x), e, o);
    var next := Apply(mid, Recheck(x));
    if mid.ops[x].endpoint == e {
      UntrackedRevives(s, next, e, o, t);
    } else {
      SpawningRevives(s, next, e, o, x, t);
    }
  }

  lemma TakerRevives(s: State, mid: State, e: Endpoint, o: OpId, x: OpId, t: TaskId)
    requires Stage(s, mid, e, o) && Writing(mid, e, t) && x != o && x in mid.ops && Takes(mid.ops[x], e)
    ensures CanRevive(s, e, o)
  {
    match mid.ops[x]
    case Unlinking(_) => UnlinkingRevives(s, mid, e, o, x, t);
    case Spawning(_) => SpawningRevives(s, mid, e, o, x, t);
    case Rechecking(_, _, _) => RecheckingRevives(s, mid, e, o, x, t);
    case Tracking(y, _, _) =>
      if y == e {
        TrackingRevives(s, mid, e, o, x, t);
      } else {
        var free := Unlocked(s, mid, e, o);
        StageStep(s, free, Track(x), e, o);
        RecheckingRevives(s, Apply(free, Track(x)), e, o, x, t);
      }
  }

  /** A worker picks the session up, if none is executing it yet. */
  lemma StartWriting(s: State, mid: State, e: Endpoint, o: OpId, t: TaskId) returns (polled: State)
    requires Stage(s, mid, e, o) && SessionOf(mid, e, t)
    ensures Stage(s, polled, e, o) && Writing(polled, e, t) && polled.monitors == mid.monitors && polled.ops == mid.ops
  {
    polled := mid;
    if !mid.tasks[t].polling {
      StageStep(s, mid, BeginPoll(t), e, o);
      polled := Apply(mid, BeginPoll(t));
    }
  }

  lemma RevivableRevives(s: State, e: Endpoint, o: OpId)
    requires Inv(s) && HandlesFresh(s) && Enabled(s, RemoveRecord(o, e)) && Revivable(s, e, o)
    ensures CanRevive(Apply(s, RemoveRecord(o, e)), e, o)
  {
    var mid := Apply(s, RemoveRecord(o, e));
    LeadsNowhere(mid, e, o);
    StepInv(s, RemoveRecord(o, e));
    HandlesFreshStep(s, RemoveRecord(o, e));
    if Publisher(s, e) {
      var x :| x in s.ops && s.ops[x] == Publishing(e);
      PublisherRevives(mid, mid, e, o, x);
    } else {
      var t :| SessionOf(s, e, t) && (!Tracked(s, t) || Taker(s, e, o));
      var polled := StartWriting(mid, mid, e, o, t);
      if Tracked(s, t) {
        var x :| x in s.ops && x != o && Takes(s.ops[x], e);
        TakerRevives(mid, polled, e, o, x, t);
      } else {
        UntrackedRevives(mid, polled, e, o, t);
      }
    }
  }

  lemma {:induction false} RunHandlesFresh(s: State, steps: seq<Step>)
    requires Inv(s) && HandlesFresh(s) && Runs(s, steps)
    ensures HandlesFresh(Exec(s, steps))
    decreases |steps|
  {
    if steps != [] {
      StepInv(s, steps[0]);
      HandlesFreshStep(s, steps[0]);
      RunHandlesFresh(Apply(s, steps[0]), steps[1..]);
    }
  }

  /** Main result: exactly when a removal is final. In every reachable state, a
      removal of `e` can return and see the snapshot come back without a new
      import if and only if `Revivable` holds when it deletes the record. */
  lemma RemovalErasesExactly(records: set<Endpoint>, before: seq<Step>, o: OpId, e: Endpoint)
    requires Runs(Loaded(records), before) && Enabled(Exec(Loaded(records), before), RemoveRecord(o, e))
    ensures var s := Exec(Loaded(records), before);
      CanRevive(Apply(s, RemoveRecord(o, e)), e, o) <==> Revivable(s, e, o)
  {
    var s := Exec(Loaded(records), before);
    LoadedInv(records);
    RunInv(Loaded(records), before);
    RunHandlesFresh(Loaded(records), before);
    if Revivable(s, e, o) {
      RevivableRevives(s, e, o);
    } else {
      var removed := Apply(s, RemoveRecord(o, e));
      StepInv(s, RemoveRecord(o, e));
      RemovalContained(s, e, o);
      forall s' | Leads(removed, s', e, o, true) ensures e !in s'.snapshots {
        var steps :| Runs(removed, steps) && NeverInserts(removed, steps, e) && Exec(removed, steps) == s' &&
                     DropSnapshot(o) in steps;
        ContainedRun(removed, steps, e, o);
      }
    }
  }

  /** Only a running operation or a straggler can make a removal revivable. */
  lemma RevivableNeedsOverlap(s: State, e: Endpoint, o: OpId)
    requires Inv(s) && !InFlight(s, e) && !Straggler(s, e)
    ensures !Revivable(s, e, o)
  {
    forall x | x in s.ops ensures s.ops[x] != Publishing(e) && !Takes(s.ops[x], e) { assert !Concerns(s.ops[x], e); }
    forall t | SessionOf(s, e, t) ensures Tracked(s, t) { LeftoversAreInFlight(s, t); }
  }

  /** Main result. A removal that starts while no other operation on `e` runs and
      no straggler of `e` is still being polled, and that no import of `e`
      overlaps, erases the machine: once it returned, record and snapshot are
      gone, no session of `e` is alive, and all stays so until `e` is imported
      again. */
  lemma RemovalErasesTheMachine(records: set<Endpoint>, before: seq<Step>, o: OpId, e: Endpoint, after: seq<Step>)
    requires Runs(Loaded(records), before)
    requires var s := Exec(Loaded(records), before);
      && Enabled(s, RemoveRecord(o, e))
      && !InFlight(s, e) && !Straggler(s, e)
      && Runs(Apply(s, RemoveRecord(o, e)), after)
      && NeverInserts(Apply(s, RemoveRecord(o, e)), after, e)
      && DropSnapshot(o) in after
    ensures var end := Exec(Apply(Exec(Loaded(records), before), RemoveRecord(o, e)), after);
      e !in end.snapshots && e !in end.registry && forall t :: !SessionOf(end, e, t)
  {
    var s := Exec(Loaded(records), before);
    LoadedInv(records);
    RunInv(Loaded(records), before);
    RevivableNeedsOverlap(s, e, o);
    RemovalContained(s, e, o);
    StepInv(s, RemoveRecord(o, e));
    ContainedRun(Apply(s, RemoveRecord(o, e)), after, e, o);
  }

  // ----- schedules two clients of the agent can produce

  ghost predicate Reached(records: set<Endpoint>, s: State) {
    exists steps :: Runs(Loaded(records), steps) && Exec(Loaded(records), steps) == s
  }

  lemma ReachedThen(records: set<Endpoint>, s: State, step: Step)
    requires Reached(records, s) && Enabled(s, step)
    ensures Reached(records, Apply(s, step))
  {
    var steps :| Runs(Loaded(records), steps) && Exec(Loaded(records), steps) == s;
    Extend(Loaded(records), steps, step, "");
  }

  /** A removal that starts in `s` can return and be undone. */
  ghost predicate RemovalFails(records: set<Endpoint>, s: State, o: OpId, e: Endpoint) {
    Reached(records, s) && Enabled(s, RemoveRecord(o, e)) && CanRevive(Apply(s, RemoveRecord(o, e)), e, o)
  }

  lemma RevivableFails(records: set<Endpoint>, s: State, o: OpId, e: Endpoint)
    requires Reached(records, s) && Enabled(s, RemoveRecord(o, e)) && Revivable(s, e, o)
    ensures RemovalFails(records, s, o, e)
  {
    var steps :| Runs(Loaded(records), steps) && Exec(Loaded(records), steps) == s;
    RemovalErasesExactly(records, steps, o, e);
  }

  /** An import of `e` that has published its snapshot. */
  lemma Published(records: set<Endpoint>, s: State, o: OpId, e: Endpoint)
    requires Reached(records, s) && o !in s.ops && e !in s.registry
    ensures Reached(records,
      s.(registry := s.registry + {e}, snapshots := s.snapshots + {e}, ops := s.ops[o := Spawning({e})]))
  {
    ReachedThen(records, s, BeginImport(o, e));
    var s1 := Apply(s, BeginImport(o, e));
    ReachedThen(records, s1, InsertRecord(o));
    var s2 := Apply(s1, InsertRecord(o));
    ReachedThen(records, s2, PublishSnapshot(o));
    assert s.ops[o := Pairing(e)][o := Publishing(e)][o := Spawning({e})] == s.ops[o := Spawning({e})];
  }

  /** A worker takes the task up and it finds its record. */
  lemma SessionStarts(records: set<Endpoint>, s: State, t: TaskId, e: Endpoint)
    requires Reached(records, s) && t in s.tasks && s.tasks[t] == Task(e, LoopHead, false, false, false)
      && e in s.registry
    ensures Reached(records, s.(tasks := s.tasks[t := Task(e, InSession, true, false, false)]))
  {
    ReachedThen(records, s, BeginPoll(t));
    var s1 := Apply(s, BeginPoll(t));
    ReachedThen(records, s1, LookUpRecord(t));
    assert s1.tasks[t := Task(e, InSession, true, false, false)] ==
      s.tasks[t := Task(e, InSession, true, false, false)];
  }

  /** A removal that overlaps the import it undoes: the imported machine's monitor
      passes its look-up before the record goes and is not yet in the handle map,
      so the removal does not await it. */
  lemma OverlappingImportRevivesTheSnapshot(e: Endpoint)
    ensures exists s :: RemovalFails({}, s, 1, e)
  {
    var s0 := Loaded({});
    assert Runs(s0, []) && Exec(s0, []) == s0;
    Published({}, s0, 0, e);
    var s1 := s0.(registry := s0.registry + {e}, snapshots := s0.snapshots + {e}, ops := s0.ops[0 := Spawning({e})]);
    ReachedThen({}, s1, Spawn(0, e, 0));
    var s2 := Apply(s1, Spawn(0, e, 0));
    SessionStarts({}, s2, 0, e);
    var s3 := s2.(tasks := s2.tasks[0 := Task(e, InSession, true, false, false)]);
    assert SessionOf(s3, e, 0) && !Tracked(s3, 0);
    RevivableFails({}, s3, 1, e);
  }

  /** A machine that was removed and imported again, its monitor tracked and in a
      session, while the first removal still has to take a handle. */
  function Reimported(e: Endpoint): State {
    State({e}, {e}, map[e := 0], None, map[0 := Task(e, InSession, true, false, false)], map[0 := Unlinking(e)])
  }

  lemma ReimportedReached(e: Endpoint)
    ensures Reached({e}, Reimported(e))
  {
    var s0 := Loaded({e});
    assert Runs(s0, []) && Exec(s0, []) == s0;
    ReachedThen({e}, s0, RemoveRecord(0, e));
    var s1 := State({}, {e}, map[], None, map[], map[0 := Unlinking(e)]);
    assert {e} - {e} == {} && Apply(s0, RemoveRecord(0, e)) == s1;
    Published({e}, s1, 2, e);
    var s2 := s1.(registry := {e}, ops := s1.ops[2 := Spawning({e})]);
    assert {} + {e} == {e} && {e} + {e} == {e};
    ReachedThen({e}, s2, Spawn(2, e, 0));
    var s3 := s2.(tasks := map[0 := Task(e, LoopHead, false, false, false)], ops := s1.ops[2 := Tracking(e, 0, {})]);
    assert {e} - {e} == {} && Apply(s2, Spawn(2, e, 0)).ops == s3.ops;
    ReimportTracked(e, s3);
  }

  lemma ReimportTracked(e: Endpoint, s: State)
    requires Reached({e}, s) && s.registry == {e} && s.snapshots == {e} && s.monitors == map[] && s.lock.None?
    requires s.tasks == map[0 := Task(e, LoopHead, false, false, false)]
    requires s.ops == map[0 := Unlinking(e)][2 := Tracking(e, 0, {})]
    ensures Reached({e}, Reimported(e))
  {
    ReachedThen({e}, s, Track(2));
    var s1 := Apply(s, Track(2));
    ReachedThen({e}, s1, Recheck(2));
    var s2 := Apply(s1, Recheck(2));
    ReachedThen({e}, s2, FinishSpawns(2));
    var s3 := Apply(s2, FinishSpawns(2));
    assert s3.ops == map[0 := Unlinking(e)] && s3.monitors == map[e := 0];
    SessionStarts({e}, s3, 0, e);
    assert s3.tasks[0 := Task(e, InSession, true, false, false)] == Reimported(e).tasks;
  }

  /** A second removal with no import under way: the first one takes the handle it
      should have awaited. */
  lemma SecondRemovalRevivesTheSnapshot(e: Endpoint)
    ensures RemovalFails({e}, Reimported(e), 1, e)
  {
    ReimportedReached(e);
    var s := Reimported(e);
    assert SessionOf(s, e, 0);
    assert 0 in s.ops && Takes(s.ops[0], e);
    RevivableFails({e}, s, 1, e);
  }
}
