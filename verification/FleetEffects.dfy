/** What the fleet operations do to their own machine, and that they leave every
    other machine alone. */
module FleetEffects {
  import opened Common
  import opened Fleet

  // ----- one step is about one machine

  /** The step may touch the record, snapshot, handle or monitors of `f`. */
  predicate ActsOn(s: State, step: Step, f: Endpoint)
    requires Enabled(s, step)
  {
    match step
    case Spawn(_, e, _) => e == f
    case RemoveRecord(_, e) => e == f
    case InsertRecord(o) => s.ops[o].endpoint == f
    case PublishSnapshot(o) => s.ops[o].endpoint == f
    case Track(o) => s.ops[o].endpoint == f
    case Recheck(o) => s.ops[o].endpoint == f
    case TakeHandle(o) => s.ops[o].endpoint == f
    case AbortTaken(o) => s.ops[o].endpoint == f
    case DropSnapshot(o) => s.ops[o].endpoint == f
    case BeginPoll(t) => s.tasks[t].endpoint == f
    case EndPoll(t) => s.tasks[t].endpoint == f
    case LookUpRecord(t) => s.tasks[t].endpoint == f
    case WriteSnapshot(t) => s.tasks[t].endpoint == f
    case EndSession(t) => s.tasks[t].endpoint == f
    case _ => false
  }

  predicate SameMaps(s: State, s': State, f: Endpoint) {
    && (f in s'.registry <==> f in s.registry) && (f in s'.snapshots <==> f in s.snapshots)
    && (f in s'.monitors <==> f in s.monitors) && (f in s.monitors ==> s'.monitors[f] == s.monitors[f])
  }

  predicate SameTask(s: State, s': State, f: Endpoint, t: TaskId) {
    && (t in s.tasks && s.tasks[t].endpoint == f ==> t in s'.tasks && s'.tasks[t] == s.tasks[t])
    && (t in s'.tasks && s'.tasks[t].endpoint == f ==> t in s.tasks && s.tasks[t].endpoint == f)
  }

  /** Main result. A step that does not act on `f` changes nothing of `f`: not its
      record, its snapshot, its handle or any of its monitors. */
  lemma StepIsLocal(s: State, step: Step, f: Endpoint, t: TaskId)
    requires Inv(s) && Enabled(s, step) && !ActsOn(s, step, f)
    ensures SameMaps(s, Apply(s, step), f) && SameTask(s, Apply(s, step), f, t)
  {
    if !IsTaskStep(step) && step.op in s.ops { assert OpOk(s, step.op); }
  }

  /** The step deletes the record of `f`, or its snapshot. */
  predicate Removes(s: State, step: Step, f: Endpoint)
    requires Enabled(s, step)
  {
    (step.RemoveRecord? && step.endpoint == f) || (step.DropSnapshot? && s.ops[step.op].endpoint == f)
  }

  predicate NeverRemoves(s: State, steps: seq<Step>, f: Endpoint)
    requires Runs(s, steps)
    decreases |steps|
  {
    steps == [] || (!Removes(s, steps[0], f) && NeverRemoves(Apply(s, steps[0]), steps[1..], f))
  }

  lemma StepKeeps(s: State, step: Step, f: Endpoint)
    requires Enabled(s, step) && !Removes(s, step, f)
    ensures f in s.registry ==> f in Apply(s, step).registry
    ensures f in s.snapshots ==> f in Apply(s, step).snapshots
  {
  }

  /** Main result. In every schedule in which no removal deletes the record or the
      snapshot of `f`, whatever is removed, imported or monitored besides, a
      registered `f` stays registered and a listed one stays listed. */
  lemma {:induction false} OthersAreKept(s: State, steps: seq<Step>, f: Endpoint)
    requires Runs(s, steps) && NeverRemoves(s, steps, f)
    ensures f in s.registry ==> f in Exec(s, steps).registry
    ensures f in s.snapshots ==> f in Exec(s, steps).snapshots
    decreases |steps|
  {
    if steps != [] {
      StepKeeps(s, steps[0], f);
      OthersAreKept(Apply(s, steps[0]), steps[1..], f);
    }
  }

  /** No operation on `f` is in flight anywhere in the schedule. */
  ghost predicate Quiet(s: State, steps: seq<Step>, f: Endpoint)
    requires Runs(s, steps)
    decreases |steps|
  {
    !InFlight(s, f) && (steps != [] ==> Quiet(Apply(s, steps[0]), steps[1..], f))
  }

  /** The machine is registered and monitored by `t`. */
  predicate Watched(s: State, f: Endpoint, t: TaskId) {
    && f in s.registry && f in s.monitors && s.monitors[f] == t
    && t in s.tasks && s.tasks[t].endpoint == f && !s.tasks[t].aborted && !s.tasks[t].finished
  }

  lemma QuietStep(s: State, step: Step, f: Endpoint, t: TaskId)
    requires Inv(s) && Enabled(s, step) && !InFlight(s, f) && !InFlight(Apply(s, step), f) && Watched(s, f, t)
    ensures Watched(Apply(s, step), f, t)
  {
    var s' := Apply(s, step);
    if IsTaskStep(step) {
      TaskStepMarks(s, step);
    } else {
      if step.op in s.ops { assert !Concerns(s.ops[step.op], f); }
      if step.op in s'.ops { assert !Concerns(s'.ops[step.op], f); }
      StepIsLocal(s, step, f, t);
    }
  }

  /** Main result. While no operation on `f` is in flight, nothing that happens to
      other machines, and nothing its own monitor does, stops or replaces the
      monitor of `f`. */
  lemma {:induction false} MonitorIsUndisturbed(s: State, steps: seq<Step>, f: Endpoint, t: TaskId)
    requires Inv(s) && Runs(s, steps) && Quiet(s, steps, f) && Watched(s, f, t)
    ensures Watched(Exec(s, steps), f, t)
    decreases |steps|
  {
    if steps != [] {
      StepInv(s, steps[0]);
      QuietStep(s, steps[0], f, t);
      MonitorIsUndisturbed(Apply(s, steps[0]), steps[1..], f, t);
    }
  }

  // ----- what an undisturbed operation amounts to

  predicate Walks(s: State, steps: seq<Step>, s': State) {
    Runs(s, steps) && Exec(s, steps) == s'
  }

  lemma WalkThen(s: State, steps: seq<Step>, mid: State, step: Step)
    requires Walks(s, steps, mid) && Enabled(mid, step)
    ensures Walks(s, steps + [step], Apply(mid, step))
  {
    Extend(s, steps, step, "");
  }

  function NewTask(e: Endpoint): Task {
    Task(e, LoopHead, false, false, false)
  }

  /** The first three steps of an import, and its whole effect so far. */
  lemma ImportPublishes(s: State, o: OpId, e: Endpoint)
    requires o !in s.ops && e !in s.registry
    ensures Walks(s, [BeginImport(o, e), InsertRecord(o), PublishSnapshot(o)],
                  s.(registry := s.registry + {e}, snapshots := s.snapshots + {e}, ops := s.ops[o := Spawning({e})]))
  {
    var s1 := Apply(s, BeginImport(o, e));
    var s2 := Apply(s1, InsertRecord(o));
    var s3 := Apply(s2, PublishSnapshot(o));
    assert Walks(s, [], s);
    WalkThen(s, [], s, BeginImport(o, e));
    WalkThen(s, [] + [BeginImport(o, e)], s1, InsertRecord(o));
    WalkThen(s, [] + [BeginImport(o, e)] + [InsertRecord(o)], s2, PublishSnapshot(o));
    assert [] + [BeginImport(o, e)] + [InsertRecord(o)] + [PublishSnapshot(o)]
        == [BeginImport(o, e), InsertRecord(o), PublishSnapshot(o)];
    assert s3.ops == s.ops[o := Spawning({e})];
  }

  /** `spawn_monitor` of a registered machine that has no monitor yet. */
  lemma SpawnTracks(s: State, o: OpId, e: Endpoint, t: TaskId)
    requires o in s.ops && s.ops[o].Spawning? && e in s.ops[o].todo && s.lock.None?
    requires e in s.registry && e !in s.monitors && t !in s.tasks
    ensures Walks(s, [Spawn(o, e, t), Track(o), Recheck(o)],
                  s.(monitors := s.monitors[e := t], tasks := s.tasks[t := NewTask(e)],
                     ops := s.ops[o := Spawning(s.ops[o].todo - {e})]))
  {
    var s1 := Apply(s, Spawn(o, e, t));
    var s2 := Apply(s1, Track(o));
    var s3 := Apply(s2, Recheck(o));
    assert Walks(s, [], s);
    WalkThen(s, [], s, Spawn(o, e, t));
    WalkThen(s, [] + [Spawn(o, e, t)], s1, Track(o));
    WalkThen(s, [] + [Spawn(o, e, t)] + [Track(o)], s2, Recheck(o));
    assert [] + [Spawn(o, e, t)] + [Track(o)] + [Recheck(o)] == [Spawn(o, e, t), Track(o), Recheck(o)];
    assert s3.ops == s.ops[o := Spawning(s.ops[o].todo - {e})];
  }

  lemma {:induction false} WalkConcat(s: State, a: seq<Step>, mid: State, b: seq<Step>, s': State)
    requires Walks(s, a, mid) && Walks(mid, b, s')
    ensures Walks(s, a + b, s')
    decreases |a|
  {
    if a == [] {
      assert a + b == b;
    } else {
      WalkConcat(Apply(s, a[0]), a[1..], mid, b, s');
      assert (a + b)[1..] == a[1..] + b;
    }
  }

  function ImportSteps(o: OpId, e: Endpoint, t: TaskId): seq<Step> {
    [BeginImport(o, e), InsertRecord(o), PublishSnapshot(o)] + [Spawn(o, e, t), Track(o), Recheck(o)] +
      [FinishSpawns(o)]
  }

  /** Main result. An import that nothing disturbs adds exactly one record, one
      snapshot and one tracked monitor, all of its own machine, and leaves the rest
      of the fleet as it was. A machine that is already paired is not imported. */
  lemma ImportBringsUp(s: State, o: OpId, e: Endpoint, t: TaskId)
    requires o !in s.ops && t !in s.tasks && e !in s.monitors && s.lock.None?
    ensures e in s.registry ==> !Runs(s, ImportSteps(o, e, t))
    ensures e !in s.registry ==>
      Walks(s, ImportSteps(o, e, t),
            s.(registry := s.registry + {e}, snapshots := s.snapshots + {e},
               monitors := s.monitors[e := t], tasks := s.tasks[t := NewTask(e)]))
  {
    var steps := ImportSteps(o, e, t);
    if e in s.registry {
      assert steps[0] == BeginImport(o, e);
    } else {
      ImportPublishes(s, o, e);
      var s1 := s.(registry := s.registry + {e}, snapshots := s.snapshots + {e}, ops := s.ops[o := Spawning({e})]);
      SpawnTracks(s1, o, e, t);
      var s2 := s1.(monitors := s1.monitors[e := t], tasks := s1.tasks[t := NewTask(e)],
                    ops := s1.ops[o := Spawning({e} - {e})]);
      WalkConcat(s, [BeginImport(o, e), InsertRecord(o), PublishSnapshot(o)], s1,
                 [Spawn(o, e, t), Track(o), Recheck(o)], s2);
      assert {e} - {e} == {};
      WalkThen(s, [BeginImport(o, e), InsertRecord(o), PublishSnapshot(o)] + [Spawn(o, e, t), Track(o), Recheck(o)],
               s2, FinishSpawns(o));
      assert s2.ops - {o} == s.ops;
    }
  }

  /** Main result. A removal of a machine with an idle monitor that nothing
      disturbs takes away exactly its record, its snapshot and its handle, ends
      that monitor, and leaves the rest of the fleet as it was. */
  lemma RemovalTakesDown(s: State, o: OpId, e: Endpoint, m: TaskId)
    requires o !in s.ops && e in s.registry && s.lock.None? && e in s.monitors && s.monitors[e] == m
    requires m in s.tasks && !s.tasks[m].polling && !s.tasks[m].finished
    ensures Walks(s, [RemoveRecord(o, e), TakeHandle(o), AbortTaken(o), AwaitEnd(o), DropSnapshot(o)],
                  s.(registry := s.registry - {e}, snapshots := s.snapshots - {e}, monitors := s.monitors - {e},
                     tasks := s.tasks[m := s.tasks[m].(aborted := true, finished := true)]))
  {
    var s1 := Apply(s, RemoveRecord(o, e));
    var s2 := Apply(s1, TakeHandle(o));
    var s3 := Apply(s2, AbortTaken(o));
    var s4 := Apply(s3, AwaitEnd(o));
    var s5 := Apply(s4, DropSnapshot(o));
    var steps: seq<Step> := [];
    assert Walks(s, steps, s);
    WalkThen(s, steps, s, RemoveRecord(o, e));
    steps := steps + [RemoveRecord(o, e)];
    WalkThen(s, steps, s1, TakeHandle(o));
    steps := steps + [TakeHandle(o)];
    WalkThen(s, steps, s2, AbortTaken(o));
    steps := steps + [AbortTaken(o)];
    WalkThen(s, steps, s3, AwaitEnd(o));
    steps := steps + [AwaitEnd(o)];
    WalkThen(s, steps, s4, DropSnapshot(o));
    assert steps + [DropSnapshot(o)] ==
      [RemoveRecord(o, e), TakeHandle(o), AbortTaken(o), AwaitEnd(o), DropSnapshot(o)];
    assert s5.ops == s.ops;
  }

  // ----- start-up

  predicate StillToSpawn(s: State, o: OpId, e: Endpoint) {
    && o in s.ops && (s.ops[o].Spawning? || s.ops[o].Tracking? || s.ops[o].Rechecking?)
    && e in s.ops[o].todo
  }

  lemma {:induction false} SpawnsWhatIsToDo(s: State, steps: seq<Step>, o: OpId, e: Endpoint)
    returns (i: nat, t: TaskId)
    requires Runs(s, steps) && StillToSpawn(s, o, e) && FinishSpawns(o) in steps
    ensures i < |steps| && steps[i] == Spawn(o, e, t)
    decreases |steps|
  {
    var step := steps[0];
    if step.Spawn? && step.op == o && step.endpoint == e {
      i, t := 0, step.task;
    } else {
      assert StillToSpawn(Apply(s, step), o, e) by {
        if IsTaskStep(step) || step.op != o { ForeignStep(s, step, o); }
      }
      assert step != FinishSpawns(o);
      i, t := SpawnsWhatIsToDo(Apply(s, step), steps[1..], o, e);
      i := i + 1;
    }
  }

  /** Main result. However a start-up interleaves with everything else, by the time
      it has returned it has spawned a monitor for every record there was when it
      began. */
  lemma StartSpawnsEveryRecord(s: State, steps: seq<Step>, o: OpId, e: Endpoint) returns (i: nat, t: TaskId)
    requires Enabled(s, BeginStart(o)) && Runs(Apply(s, BeginStart(o)), steps)
    requires e in s.registry && FinishSpawns(o) in steps
    ensures i < |steps| && steps[i] == Spawn(o, e, t)
  {
    i, t := SpawnsWhatIsToDo(Apply(s, BeginStart(o)), steps, o, e);
  }

  /** A monitor whose machine lost its record ends at its next look-up. */
  lemma MonitorEndsWithoutARecord(s: State, t: TaskId)
    requires t in s.tasks && s.tasks[t].polling && !s.tasks[t].finished && s.tasks[t].pc.InSession?
    requires s.tasks[t].endpoint !in s.registry
    ensures Runs(s, [EndSession(t), LookUpRecord(t)])
    ensures Exec(s, [EndSession(t), LookUpRecord(t)]) ==
      s.(tasks := s.tasks[t := s.tasks[t].(pc := LoopHead, polling := false, finished := true)])
  {
    var s1 := Apply(s, EndSession(t));
    var s2 := Apply(s1, LookUpRecord(t));
    assert Walks(s, [], s);
    WalkThen(s, [], s, EndSession(t));
    WalkThen(s, [] + [EndSession(t)], s1, LookUpRecord(t));
    assert [] + [EndSession(t)] + [LookUpRecord(t)] == [EndSession(t), LookUpRecord(t)];
    assert s2.tasks == s.tasks[t := s.tasks[t].(pc := LoopHead, polling := false, finished := true)];
  }
}
