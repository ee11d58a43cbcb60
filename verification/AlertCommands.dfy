/** The `rackio alerts` commands: edit the configuration, validate it, save it,
    then publish the effective rules to the running sampler. */
module AlertCommands {
  import opened Common
  import opened Metrics
  import opened AlertRules
  import Engine = AlertEngine

  /** The alert part of the agent's configuration file. */
  datatype Config = Config(alertsEnabled: bool, alerts: seq<Override>)

  datatype Command =
    | List
    | Set(change: Override)                       // `change.enabled` is not a field of this command
    | RuleEnabled(id: string, enabled: bool)
    | Reset(target: Option<string>)
    | Enabled(enabled: bool)

  function RulesOf(resolved: seq<ResolvedRule>): seq<AlertRule> {
    if resolved == [] then []
    else
      RulesOf(resolved[..|resolved| - 1]) +
      if resolved[|resolved| - 1].enabled then [resolved[|resolved| - 1].rule] else []
  }

  /** `AgentConfig::alert_rules`: nothing is resolved while alerts are off. */
  function EffectiveRules(c: Config): Option<seq<AlertRule>> {
    if !c.alertsEnabled then Some([])
    else
      var resolved := Resolve(c.alerts);
      if resolved.None? then None else Some(RulesOf(resolved.value))
  }

  // ----- the edit each command makes

  function Blank(id: string): Override {
    Override(id, None, None, None, None, None, None)
  }

  /** The index of the operator's entry for `id`, or the length. */
  function EntryIndex(alerts: seq<Override>, id: string): (i: nat)
    ensures i <= |alerts|
    ensures i < |alerts| ==> alerts[i].id == id
    ensures forall k :: 0 <= k < i ==> alerts[k].id != id
  {
    IndexWhere(alerts, (entry: Override) => entry.id == id)
  }

  /** `alert_entry` followed by an edit of the entry it returns. */
  function Edit(alerts: seq<Override>, id: string, edit: Override -> Override): seq<Override> {
    var i := EntryIndex(alerts, id);
    if i < |alerts| then alerts[i := edit(alerts[i])] else alerts + [edit(Blank(id))]
  }

  function Prefer<T>(a: Option<T>, b: Option<T>): Option<T> {
    if a.Some? then a else b
  }

  /** Absent means "leave as is". */
  function SetFields(entry: Override, change: Override): Override {
    Override(entry.id, Prefer(change.metric, entry.metric), Prefer(change.comparison, entry.comparison),
             Prefer(change.threshold, entry.threshold), Prefer(change.consecutiveSamples, entry.consecutiveSamples),
             Prefer(change.severity, entry.severity), entry.enabled)
  }

  function Without(alerts: seq<Override>, id: string): seq<Override> {
    if alerts == [] then []
    else
      Without(alerts[..|alerts| - 1], id) + if alerts[|alerts| - 1].id != id then [alerts[|alerts| - 1]] else []
  }

  function EditAlerts(alerts: seq<Override>, command: Command): seq<Override> {
    match command
    case List => alerts
    case Set(change) => Edit(alerts, change.id, entry => SetFields(entry, change))
    case RuleEnabled(id, enabled) => Edit(alerts, id, (entry: Override) => entry.(enabled := Some(enabled)))
    case Reset(target) => if target.Some? then Without(alerts, target.value) else []
    case Enabled(_) => alerts
  }

  function Changed(c: Config, command: Command): Config {
    Config(if command.Enabled? then command.enabled else c.alertsEnabled, EditAlerts(c.alerts, command))
  }

  // ----- the transaction

  /** How the environment treats one command. */
  datatype Faults = Faults(loadOk: bool, saveOk: bool, samplerLive: bool)

  datatype System = System(file: Config, published: seq<AlertRule>)

  datatype Response = Success(rules: seq<ResolvedRule>) | Failure

  function Listing(c: Config): Response {
    var resolved := Resolve(c.alerts);
    if resolved.None? then Failure else Success(resolved.value)
  }

  function Handle(sys: System, command: Command, f: Faults): (System, Response) {
    if !f.loadOk then (sys, Failure)
    else if command.List? then (sys, Listing(sys.file))
    else
      var next := Changed(sys.file, command);
      var effective := EffectiveRules(next);
      if effective.None? || !f.saveOk then (sys, Failure)
      else if !f.samplerLive then (sys.(file := next), Failure)
      else (System(next, effective.value), Listing(next))
  }

  class AlertControl {
    var file: Config
    var published: seq<AlertRule>

    method UpdateAlerts(next: Config, saveOk: bool, samplerLive: bool) returns (response: Response)
      modifies this
      ensures (System(file, published), response) ==
        var effective := EffectiveRules(next);
        if effective.None? || !saveOk then (old(System(file, published)), Failure)
        else if !samplerLive then (System(next, old(published)), Failure)
        else (System(next, effective.value), Listing(next))
    {
      var effective := EffectiveRules(next);
      if effective.None? {
        return Failure;
      }
      if !saveOk {
        return Failure;
      }
      file := next;
      if !samplerLive {
        return Failure;
      }
      published := effective.value;
      return Listing(file);
    }

    method HandleAlerts(command: Command, f: Faults) returns (response: Response)
      modifies this
      ensures (System(file, published), response) == Handle(old(System(file, published)), command, f)
    {
      if !f.loadOk {
        return Failure;
      }
      if command.List? {
        return Listing(file);
      }
      var config := file;
      match command {
        case List =>
        case Set(change) =>
          config := config.(alerts := Edit(config.alerts, change.id, entry => SetFields(entry, change)));
        case RuleEnabled(id, enabled) =>
          config := config.(alerts := Edit(config.alerts, id, (entry: Override) => entry.(enabled := Some(enabled))));
        case Reset(target) =>
          config := config.(alerts := if target.Some? then Without(config.alerts, target.value) else []);
        case Enabled(enabled) =>
          config := config.(alertsEnabled := enabled);
      }
      response := UpdateAlerts(config, f.saveOk, f.samplerLive);
    }
  }

  // ----- published rules and saved file

  datatype Call = Call(command: Command, faults: Faults)

  function Run(start: System, calls: seq<Call>): System {
    if calls == [] then start
    else Handle(Run(start, calls[..|calls| - 1]), calls[|calls| - 1].command, calls[|calls| - 1].faults).0
  }

  /** Main result. Over every sequential run of commands with a live sampler and
      any load and save failures, the published rules stay the effective rules of
      the saved file, and what is published is what the evaluator needs: unique
      ids and valid rules only. */
  lemma {:induction false} PublishedTracksTheFile(start: System, calls: seq<Call>)
    requires EffectiveRules(start.file) == Some(start.published)
    requires forall i :: 0 <= i < |calls| ==> calls[i].faults.samplerLive
    ensures var sys := Run(start, calls);
      EffectiveRules(sys.file) == Some(sys.published) && Engine.UniqueRules(sys.published)
      && forall i :: 0 <= i < |sys.published| ==> ValidRule(sys.published[i])
    decreases |calls|
  {
    if calls != [] { PublishedTracksTheFile(start, calls[..|calls| - 1]); }
    EffectiveRulesAreUsable(Run(start, calls).file);
  }

  lemma EffectiveRulesAreUsable(c: Config)
    requires EffectiveRules(c).Some?
    ensures Engine.UniqueRules(EffectiveRules(c).value)
    ensures forall i :: 0 <= i < |EffectiveRules(c).value| ==> ValidRule(EffectiveRules(c).value[i])
  {
    if c.alertsEnabled {
      ResolutionIsRuleByRule(c.alerts);
      RulesOfUsable(Resolve(c.alerts).value);
    }
  }

  lemma {:induction false} RulesOfUsable(resolved: seq<ResolvedRule>)
    requires UniqueIds(resolved) && AllValid(resolved)
    ensures Engine.UniqueRules(RulesOf(resolved))
    ensures forall i :: 0 <= i < |RulesOf(resolved)| ==>
      ValidRule(RulesOf(resolved)[i]) && exists k :: 0 <= k < |resolved| && resolved[k].rule == RulesOf(resolved)[i]
  {
    if resolved != [] {
      var n := |resolved| - 1;
      RulesOfUsable(resolved[..n]);
      var before := RulesOf(resolved[..n]);
      forall i | 0 <= i < |before| ensures exists k :: 0 <= k < n && resolved[k].rule == before[i] {
        var k :| 0 <= k < n && resolved[..n][k].rule == before[i];
        assert resolved[k].rule == before[i];
      }
      forall i | 0 <= i < |RulesOf(resolved)|
        ensures exists k :: 0 <= k < |resolved| && resolved[k].rule == RulesOf(resolved)[i]
      {
        if i == |before| {
          assert resolved[n].rule == RulesOf(resolved)[i];
        } else {
          assert RulesOf(resolved)[i] == before[i];
        }
      }
    }
  }

  /** Main result, the exact condition. With a live sampler a failure response
      goes with a changed file or changed running rules if and only if an accepted
      edit left alerts switched off with overrides that do not resolve: only then
      is something saved that the closing listing cannot show. */
  lemma FailureChangesSomethingExactly(sys: System, command: Command, f: Faults)
    requires f.samplerLive
    ensures Handle(sys, command, f).1.Failure? && Handle(sys, command, f).0 != sys <==>
      var next := Changed(sys.file, command);
      && f.loadOk && f.saveOk && !command.List?
      && !next.alertsEnabled && Resolve(next.alerts).None?
      && (next != sys.file || sys.published != [])
  {
  }

  /** So while alerts are on after the change, failing means changing nothing. */
  lemma FailureWhileEnabledChangesNothing(sys: System, command: Command, f: Faults)
    requires f.samplerLive && Changed(sys.file, command).alertsEnabled
    ensures Handle(sys, command, f).1.Failure? ==> Handle(sys, command, f).0 == sys
  {
    FailureChangesSomethingExactly(sys, command, f);
  }

  lemma IncompleteRuleIsRefused(entry: Override)
    requires !IsShipped(entry.id) && !Complete(entry)
    ensures Resolve([entry]).None?
  {
    assert [entry][..0] == [];
    assert MergeAll([entry]) == Merge(Shipped(), entry);
  }

  /** And off, it need not: switching an unknown rule on is saved and then
      reported as a failure. */
  lemma SwitchedOffFailureSaves()
    ensures var sys := System(Config(false, []), []);
      var r := Handle(sys, RuleEnabled("x", true), Faults(true, true, true));
      r.1.Failure? && r.0 != sys
  {
    var entry := Blank("x").(enabled := Some(true));
    assert EditAlerts([], RuleEnabled("x", true)) == [entry];
    assert !IsShipped("x") by {
      forall i | 0 <= i < |DefaultRules()| ensures DefaultRules()[i].id != "x" { assert |DefaultRules()[i].id| > 1; }
    }
    IncompleteRuleIsRefused(entry);
  }

  // ----- what is published, and what a command writes

  /** `rules` are the rules of the entries at `places`, in their order, and these are
      exactly the enabled ones. */
  predicate AreTheEnabled(resolved: seq<ResolvedRule>, rules: seq<AlertRule>, places: seq<nat>) {
    && |places| == |rules| && Increasing(places, |resolved|)
    && (forall i :: 0 <= i < |rules| ==> resolved[places[i]].enabled && rules[i] == resolved[places[i]].rule)
    && (forall k: nat :: k < |resolved| && resolved[k].enabled ==> k in places)
  }

  lemma OneMoreEntry(resolved: seq<ResolvedRule>, rules: seq<AlertRule>, places: seq<nat>, entry: ResolvedRule)
    requires AreTheEnabled(resolved, rules, places)
    ensures entry.enabled ==> AreTheEnabled(resolved + [entry], rules + [entry.rule], places + [|resolved|])
    ensures !entry.enabled ==> AreTheEnabled(resolved + [entry], rules, places)
  {
  }

  lemma {:induction false} RulesOfSelects(resolved: seq<ResolvedRule>) returns (places: seq<nat>)
    ensures AreTheEnabled(resolved, RulesOf(resolved), places)
  {
    if resolved == [] {
      places := [];
    } else {
      var before, entry := resolved[..|resolved| - 1], resolved[|resolved| - 1];
      places := RulesOfSelects(before);
      assert resolved == before + [entry];
      OneMoreEntry(before, RulesOf(before), places, entry);
      if entry.enabled { places := places + [|before|]; }
      assert RulesOf(before) + [] == RulesOf(before);
    }
  }

  /** Main result. The sampler is given nothing while alerts are off, and otherwise
      exactly the rules whose resolved entry is enabled, in resolved order; it is
      refused exactly when alerts are on and the overrides do not resolve. */
  lemma EffectiveRulesExactly(c: Config) returns (places: seq<nat>)
    ensures EffectiveRules(c).None? <==> c.alertsEnabled && Resolve(c.alerts).None?
    ensures !c.alertsEnabled ==> EffectiveRules(c) == Some([])
    ensures c.alertsEnabled && Resolve(c.alerts).Some? ==>
      AreTheEnabled(Resolve(c.alerts).value, EffectiveRules(c).value, places)
  {
    places := [];
    if c.alertsEnabled && Resolve(c.alerts).Some? { places := RulesOfSelects(Resolve(c.alerts).value); }
  }

  /** `after` is `alerts` with the first entry of `id`, or a new last one, at `i`. */
  predicate OnlyEntry(alerts: seq<Override>, after: seq<Override>, id: string, i: nat) {
    && i < |after| && after[i].id == id && i <= |alerts| && (forall k :: 0 <= k < i ==> alerts[k].id != id)
    && (if i < |alerts| then |after| == |alerts| && alerts[i].id == id else |after| == |alerts| + 1)
    && (forall k :: 0 <= k < |alerts| && k != i ==> after[k] == alerts[k])
  }

  /** Main result. Setting a rule writes the fields the command has into the
      operator's entry for it, leaves its other fields and whether it is on as they
      were, and touches no other entry. */
  lemma SetExactly(alerts: seq<Override>, change: Override) returns (i: nat)
    ensures OnlyEntry(alerts, EditAlerts(alerts, Set(change)), change.id, i)
    ensures var entry := EditAlerts(alerts, Set(change))[i];
      var was := if i < |alerts| then alerts[i] else Override(change.id, None, None, None, None, None, None);
      && (change.metric.Some? ==> entry.metric == change.metric)
      && (change.metric.None? ==> entry.metric == was.metric)
      && (change.comparison.Some? ==> entry.comparison == change.comparison)
      && (change.comparison.None? ==> entry.comparison == was.comparison)
      && (change.threshold.Some? ==> entry.threshold == change.threshold)
      && (change.threshold.None? ==> entry.threshold == was.threshold)
      && (change.consecutiveSamples.Some? ==> entry.consecutiveSamples == change.consecutiveSamples)
      && (change.consecutiveSamples.None? ==> entry.consecutiveSamples == was.consecutiveSamples)
      && (change.severity.Some? ==> entry.severity == change.severity)
      && (change.severity.None? ==> entry.severity == was.severity)
      && entry.enabled == was.enabled
  {
    i := EntryIndex(alerts, change.id);
  }

  /** Switching one rule on or off writes that and nothing else. */
  lemma RuleEnabledExactly(alerts: seq<Override>, id: string, enabled: bool) returns (i: nat)
    ensures OnlyEntry(alerts, EditAlerts(alerts, RuleEnabled(id, enabled)), id, i)
    ensures var entry := EditAlerts(alerts, RuleEnabled(id, enabled))[i];
      var was := if i < |alerts| then alerts[i] else Override(id, None, None, None, None, None, None);
      && entry.enabled == Some(enabled) && entry.metric == was.metric && entry.comparison == was.comparison
      && entry.threshold == was.threshold && entry.consecutiveSamples == was.consecutiveSamples
      && entry.severity == was.severity
  {
    i := EntryIndex(alerts, id);
  }

  /** Resetting one rule drops its entries and keeps all others in order; resetting
      without a rule drops everything. */
  lemma {:induction false} ResetExactly(alerts: seq<Override>, id: string) returns (places: seq<nat>)
    ensures Selects(alerts, (entry: Override) => entry.id != id, EditAlerts(alerts, Reset(Some(id))), places)
    ensures EditAlerts(alerts, Reset(None)) == []
  {
    if alerts == [] {
      places := [];
    } else {
      var before, entry := alerts[..|alerts| - 1], alerts[|alerts| - 1];
      places := ResetExactly(before, id);
      assert alerts == before + [entry];
      SelectsSnoc(before, (entry: Override) => entry.id != id, Without(before, id), places, entry);
      if entry.id != id { places := places + [|before|]; }
      assert Without(before, id) + [] == Without(before, id);
    }
  }

  /** Main result. What each command leaves behind: listing changes nothing; any
      other saves its edit exactly when the file loads, the result can be published
      and saving succeeds; only the master switch changes whether alerts are on; the
      sampler gets the new rules if it lives; and a success lists the saved file. */
  lemma HandleExactly(sys: System, command: Command, f: Faults)
    ensures var r := Handle(sys, command, f);
      var on := if command.Enabled? then command.enabled else sys.file.alertsEnabled;
      var next := Config(on, if command.Enabled? then sys.file.alerts else EditAlerts(sys.file.alerts, command));
      var saved := f.loadOk && !command.List? && f.saveOk && EffectiveRules(next).Some?;
      && (saved ==> r.0.file == next) && (!saved ==> r.0 == sys)
      && (saved && f.samplerLive ==> EffectiveRules(next) == Some(r.0.published))
      && (saved && !f.samplerLive ==> r.0.published == sys.published && r.1.Failure?)
      && (r.1.Success? <==> f.loadOk && Resolve(r.0.file.alerts).Some? && (command.List? || (saved && f.samplerLive)))
      && (r.1.Success? ==> Resolve(r.0.file.alerts) == Some(r.1.rules))
  {
  }

  // ----- resetting a rule

  /** The command edits the entry of `id` and of no other rule. */
  predicate Names(command: Command, id: string) {
    match command
    case Set(change) => change.id == id
    case RuleEnabled(x, _) => x == id
    case Reset(target) => target == Some(id)
    case _ => false
  }

  function Forget(commands: seq<Command>, id: string): seq<Command> {
    if commands == [] then []
    else
      Forget(commands[..|commands| - 1], id) +
      if Names(commands[|commands| - 1], id) then [] else [commands[|commands| - 1]]
  }

  function Replay(alerts: seq<Override>, commands: seq<Command>): seq<Override> {
    if commands == [] then alerts
    else EditAlerts(Replay(alerts, commands[..|commands| - 1]), commands[|commands| - 1])
  }

  lemma {:induction false} WithoutConcat(a: seq<Override>, b: seq<Override>, id: string)
    ensures Without(a + b, id) == Without(a, id) + Without(b, id)
    decreases |b|
  {
    if b == [] {
      assert a + b == a;
    } else {
      assert (a + b)[..|a + b| - 1] == a + b[..|b| - 1];
      WithoutConcat(a, b[..|b| - 1], id);
    }
  }

  lemma WithoutOne(entry: Override, id: string)
    ensures Without([entry], id) == if entry.id == id then [] else [entry]
  {
    assert [entry][..0] == [];
  }

  lemma EntryIndexIs(alerts: seq<Override>, id: string, i: nat)
    requires i <= |alerts| && (forall k :: 0 <= k < i ==> alerts[k].id != id)
    requires i == |alerts| || alerts[i].id == id
    ensures EntryIndex(alerts, id) == i
  {
  }

  lemma WithoutHasNone(alerts: seq<Override>, id: string, other: string)
    requires forall k :: 0 <= k < |alerts| ==> alerts[k].id != other
    ensures forall k :: 0 <= k < |Without(alerts, id)| ==> Without(alerts, id)[k].id != other
  {
    WithoutKeepsOnly(alerts, id);
    forall k | 0 <= k < |Without(alerts, id)| ensures Without(alerts, id)[k].id != other {
      assert Without(alerts, id)[k] in Without(alerts, id);
    }
  }

  lemma {:induction false} WithoutKeepsOnly(alerts: seq<Override>, id: string)
    ensures forall x :: x in Without(alerts, id) <==> x in alerts && x.id != id
  {
    if alerts != [] {
      WithoutKeepsOnly(alerts[..|alerts| - 1], id);
      assert alerts == alerts[..|alerts| - 1] + [alerts[|alerts| - 1]];
    }
  }

  ghost predicate KeepsId(edit: Override -> Override, id: string) {
    forall x: Override :: x.id == id ==> edit(x).id == id
  }

  /** An edit replaces the first entry of its rule and nothing else. */
  lemma EditSplit(head: seq<Override>, entry: Override, tail: seq<Override>, edit: Override -> Override)
    requires forall k :: 0 <= k < |head| ==> head[k].id != entry.id
    ensures Edit(head + [entry] + tail, entry.id, edit) == head + [edit(entry)] + tail
  {
    EntryIndexIs(head + [entry] + tail, entry.id, |head|);
  }

  /** Editing another rule commutes with forgetting `id`. */
  lemma EditOther(alerts: seq<Override>, id: string, other: string, edit: Override -> Override)
    requires id != other && KeepsId(edit, other)
    ensures Without(Edit(alerts, other, edit), id) == Edit(Without(alerts, id), other, edit)
  {
    var i := EntryIndex(alerts, other);
    if i < |alerts| {
      var head, entry, tail := alerts[..i], alerts[i], alerts[i + 1..];
      assert alerts == head + [entry] + tail;
      assert Without(Edit(alerts, other, edit), id) == Without(head, id) + [edit(entry)] + Without(tail, id) by {
        EditSplit(head, entry, tail, edit);
        SplitWithout(head, edit(entry), tail, id);
      }
      assert Edit(Without(alerts, id), other, edit) == Without(head, id) + [edit(entry)] + Without(tail, id) by {
        SplitWithout(head, entry, tail, id);
        WithoutHasNone(head, id, other);
        EditSplit(Without(head, id), entry, Without(tail, id), edit);
      }
    } else {
      EditNewOther(alerts, id, other, edit);
    }
  }

  lemma EditNewOther(alerts: seq<Override>, id: string, other: string, edit: Override -> Override)
    requires id != other && KeepsId(edit, other) && EntryIndex(alerts, other) == |alerts|
    ensures Without(Edit(alerts, other, edit), id) == Edit(Without(alerts, id), other, edit)
  {
    WithoutHasNone(alerts, id, other);
    EntryIndexIs(Without(alerts, id), other, |Without(alerts, id)|);
    WithoutConcat(alerts, [edit(Blank(other))], id);
    WithoutOne(edit(Blank(other)), id);
  }

  lemma SplitWithout(head: seq<Override>, entry: Override, tail: seq<Override>, id: string)
    requires entry.id != id
    ensures Without(head + [entry] + tail, id) == Without(head, id) + [entry] + Without(tail, id)
  {
    WithoutConcat(head + [entry], tail, id);
    WithoutConcat(head, [entry], id);
    WithoutOne(entry, id);
  }

  /** Editing `id` itself leaves the others as they were. */
  lemma EditSame(alerts: seq<Override>, id: string, edit: Override -> Override)
    requires KeepsId(edit, id)
    ensures Without(Edit(alerts, id, edit), id) == Without(alerts, id)
  {
    var i := EntryIndex(alerts, id);
    if i < |alerts| {
      var head, tail := alerts[..i], alerts[i + 1..];
      assert alerts == head + [alerts[i]] + tail;
      assert Edit(alerts, id, edit) == head + [edit(alerts[i])] + tail;
      DropWithout(head, alerts[i], tail, id);
      DropWithout(head, edit(alerts[i]), tail, id);
    } else {
      WithoutConcat(alerts, [edit(Blank(id))], id);
      WithoutOne(edit(Blank(id)), id);
    }
  }

  lemma DropWithout(head: seq<Override>, entry: Override, tail: seq<Override>, id: string)
    requires entry.id == id
    ensures Without(head + [entry] + tail, id) == Without(head, id) + Without(tail, id)
  {
    WithoutConcat(head + [entry], tail, id);
    WithoutConcat(head, [entry], id);
    WithoutOne(entry, id);
  }

  lemma {:induction false} WithoutTwice(alerts: seq<Override>, a: string, b: string)
    ensures Without(Without(alerts, a), b) == Without(Without(alerts, b), a)
    ensures Without(Without(alerts, a), a) == Without(alerts, a)
  {
    if alerts != [] {
      var n := |alerts| - 1;
      WithoutTwice(alerts[..n], a, b);
      WithoutOne(alerts[n], a);
      WithoutOne(alerts[n], b);
      WithoutConcat(Without(alerts[..n], a), if alerts[n].id != a then [alerts[n]] else [], b);
      WithoutConcat(Without(alerts[..n], b), if alerts[n].id != b then [alerts[n]] else [], a);
      WithoutConcat(Without(alerts[..n], a), if alerts[n].id != a then [alerts[n]] else [], a);
    }
  }

  lemma CommandWithout(alerts: seq<Override>, command: Command, id: string)
    ensures Without(EditAlerts(alerts, command), id) ==
      if Names(command, id) then Without(alerts, id) else EditAlerts(Without(alerts, id), command)
  {
    match command
    case Set(change) =>
      var edit := entry => SetFields(entry, change);
      if change.id == id { EditSame(alerts, id, edit); } else { EditOther(alerts, id, change.id, edit); }
    case RuleEnabled(x, enabled) =>
      var edit := (entry: Override) => entry.(enabled := Some(enabled));
      if x == id { EditSame(alerts, id, edit); } else { EditOther(alerts, id, x, edit); }
    case Reset(target) =>
      if target.Some? { WithoutTwice(alerts, target.value, id); }
    case _ =>
  }

  /** Main result. Resetting a rule gives the override list that replaying the
      same commands without the ones naming that rule would have given. */
  lemma {:induction false} ResetIsReplayWithout(alerts: seq<Override>, commands: seq<Command>, id: string)
    ensures EditAlerts(Replay(alerts, commands), Reset(Some(id))) == Replay(Without(alerts, id), Forget(commands, id))
    decreases |commands|
  {
    if commands != [] {
      var n := |commands| - 1;
      ResetIsReplayWithout(alerts, commands[..n], id);
      CommandWithout(Replay(alerts, commands[..n]), commands[n], id);
      var before := Forget(commands[..n], id);
      if Names(commands[n], id) {
        assert Forget(commands, id) == before;
      } else {
        assert (before + [commands[n]])[..|before|] == before;
      }
    }
  }

  /** The command got past loading, validation and saving. */
  predicate Saves(sys: System, call: Call) {
    call.faults.loadOk && !call.command.List? && EffectiveRules(Changed(sys.file, call.command)).Some?
      && call.faults.saveOk
  }

  function Accepted(start: System, calls: seq<Call>): seq<Command> {
    if calls == [] then []
    else
      var before := calls[..|calls| - 1];
      Accepted(start, before) + if Saves(Run(start, before), calls[|calls| - 1]) then [calls[|calls| - 1].command]
        else []
  }

  lemma {:induction false} FileReplaysAccepted(start: System, calls: seq<Call>)
    ensures Run(start, calls).file.alerts == Replay(start.file.alerts, Accepted(start, calls))
    decreases |calls|
  {
    if calls != [] {
      var before, call := calls[..|calls| - 1], calls[|calls| - 1];
      FileReplaysAccepted(start, before);
      var accepted := Accepted(start, before);
      if Saves(Run(start, before), call) {
        assert (accepted + [call.command])[..|accepted|] == accepted;
      } else {
        assert accepted + [] == accepted;
      }
    }
  }

  /** Main result, in terms of a run: once a reset of `id` is saved, the file's
      overrides are what replaying the accepted commands without the ones naming
      `id` gives. */
  lemma SavedResetForgetsTheRule(start: System, calls: seq<Call>, id: string, f: Faults)
    requires Saves(Run(start, calls), Call(Reset(Some(id)), f))
    ensures Handle(Run(start, calls), Reset(Some(id)), f).0.file.alerts
      == Replay(Without(start.file.alerts, id), Forget(Accepted(start, calls), id))
  {
    FileReplaysAccepted(start, calls);
    ResetIsReplayWithout(start.file.alerts, Accepted(start, calls), id);
  }

  lemma {:induction false} NamedWithout(alerts: seq<Override>, id: string, other: string)
    ensures Named(Without(alerts, id), other) == if id == other then [] else Named(alerts, other)
  {
    if alerts != [] {
      var n := |alerts| - 1;
      NamedWithout(alerts[..n], id, other);
      if alerts[n].id != id {
        NamedSnoc(Without(alerts[..n], id), alerts[n], other);
      } else {
        assert Without(alerts, id) == Without(alerts[..n], id);
      }
    }
  }

  /** A reset never invalidates what is left: overrides that resolve still do. */
  lemma ResetKeepsResolving(alerts: seq<Override>, id: string)
    requires Resolve(alerts).Some?
    ensures Resolve(Without(alerts, id)).Some?
  {
    var left := Without(alerts, id);
    ResolutionIsRuleByRule(alerts);
    ResolutionIsRuleByRule(left);
    WithoutKeepsOnly(alerts, id);
    forall k | 0 <= k < |left| ensures ValidAlone(left, k) {
      assert left[k] in left;
      var j :| 0 <= j < |alerts| && alerts[j] == left[k];
      NamedWithout(alerts, id, left[k].id);
      assert ValidAlone(alerts, j);
    }
  }
}
