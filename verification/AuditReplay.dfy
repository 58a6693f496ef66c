/** Rebuilding lifecycle stages from the audit log alone. */
module AuditReplay {
  import opened Wrappers
  import opened Domain
  import opened Registry
  import opened RegistryInvariants

  /** An event identifies a model by name and version only. */
  type LogName = (string, string)

  function NameOf(m: ModelVersion): LogName {
    (m.identity.name, m.version)
  }

  type Stages = map<LogName, Stage>

  /** `previous` is not used: for a rollback it is the stage of the outgoing model, not of the named one. */
  function ReplayEvent(stages: Stages, e: AuditEvent): Stages {
    var others :=
      if e.kind in {ModelPromoted, ModelRollback} && e.otherVersion.Some?
      then stages[(e.modelName, e.otherVersion.value) := Champion]
      else stages;
    others[(e.modelName, e.modelVersion) := e.next]
  }

  function Replay(events: seq<AuditEvent>): Stages {
    if events == [] then map[] else ReplayEvent(Replay(events[..|events| - 1]), events[|events| - 1])
  }

  ghost predicate NamesOnly(stages: Stages, models: seq<ModelVersion>) {
    forall n :: n in stages ==> exists i :: 0 <= i < |models| && NameOf(models[i]) == n
  }

  ghost predicate GivesStages(stages: Stages, models: seq<ModelVersion>) {
    forall i :: 0 <= i < |models| ==> NameOf(models[i]) in stages && stages[NameOf(models[i])] == models[i].stage
  }

  /** The replayed map is exactly the stage of every record. */
  ghost predicate Rebuilds(stages: Stages, models: seq<ModelVersion>) {
    NamesOnly(stages, models) && GivesStages(stages, models)
  }

  lemma NamesOnlyPersists(before: Stages, models: seq<ModelVersion>, after: Stages, changed: seq<ModelVersion>)
    requires NamesOnly(before, models) && after.Keys <= before.Keys && |models| <= |changed|
    requires forall i :: 0 <= i < |models| ==> NameOf(changed[i]) == NameOf(models[i])
    ensures NamesOnly(after, changed)
  {
    hide NameOf;
    forall n | n in after ensures exists i :: 0 <= i < |changed| && NameOf(changed[i]) == n {
      var i :| 0 <= i < |models| && NameOf(models[i]) == n;
      assert NameOf(changed[i]) == n;
    }
  }

  ghost predicate NamesDistinct(models: seq<ModelVersion>) {
    forall i, j :: 0 <= i < |models| && 0 <= j < |models| && i != j ==> NameOf(models[i]) != NameOf(models[j])
  }

  /** What the log can tell apart: no two records share name and version, and one key means one name. */
  ghost predicate LogNamesDistinct(models: seq<ModelVersion>) {
    && NamesDistinct(models)
    && (forall i, j :: 0 <= i < j < |models| && models[i].identity.Key() == models[j].identity.Key()
                       ==> models[i].identity.name == models[j].identity.name)
  }

  lemma EarlierNamesDistinct(doc: Document, op: Op)
    requires LogNamesDistinct(Next(doc, op).models)
    ensures LogNamesDistinct(doc.models)
  {
    hide Identity.Key, ModelVersion.Ref, Register, Transition, Promote, Rollback;
    StepFrame(doc, op);
    var before, after := doc.models, Next(doc, op).models;
    forall i | 0 <= i < |before|
      ensures after[i].identity == before[i].identity && NameOf(after[i]) == NameOf(before[i])
    {
      assert Evolves(before[i], after[i]);
    }
  }

  lemma ReplayOneMore(events: seq<AuditEvent>, e: AuditEvent)
    ensures Replay(events + [e]) == ReplayEvent(Replay(events), e)
  {
    assert (events + [e])[..|events|] == events;
  }

  /** One event that names the record at `up`, and possibly the one at `down`, carries a rebuilt map over. */
  lemma EventRebuilds(doc: Document, models: seq<ModelVersion>, e: AuditEvent, up: nat, down: Option<nat>)
    requires NamesDistinct(models) && Rebuilds(Replay(doc.events), doc.models)
    requires |doc.models| <= |models| && up < |models|
        && (|models| > |doc.models| ==> up == |doc.models| && |models| == up + 1)
    requires NameOf(models[up]) == (e.modelName, e.modelVersion) && models[up].stage == e.next
    requires match down
             case None => e.otherVersion == None
             case Some(d) =>
               && e.kind in {ModelPromoted, ModelRollback}
               && d < |doc.models| && d != up && models[d].stage == Champion
               && e.otherVersion == Some(models[d].version) && models[d].identity.name == e.modelName
    requires forall i :: 0 <= i < |doc.models| ==> NameOf(models[i]) == NameOf(doc.models[i])
    requires forall i :: 0 <= i < |doc.models| && i != up && Some(i) != down ==> models[i] == doc.models[i]
    ensures Rebuilds(Replay(doc.events + [e]), models)
  {
    hide Replay, Identity.Key, ModelVersion.Ref;
    ReplayOneMore(doc.events, e);
    var before, after := Replay(doc.events), Replay(doc.events + [e]);
    assert after == ReplayEvent(before, e);
    assert down.Some? ==> NameOf(models[down.value]) == (e.modelName, e.otherVersion.value);
    hide NameOf;
    forall n | n in after ensures exists i :: 0 <= i < |models| && NameOf(models[i]) == n {
      if n in before {
        var i :| 0 <= i < |doc.models| && NameOf(doc.models[i]) == n;
        assert NameOf(models[i]) == n;
      }
    }
    forall i | 0 <= i < |models|
      ensures NameOf(models[i]) in after && after[NameOf(models[i])] == models[i].stage
    {
      if i != up && Some(i) != down {
        assert NameOf(models[i]) != NameOf(models[up]);
        assert NameOf(models[i]) == NameOf(doc.models[i]);
      }
    }
  }

  lemma SwapRebuilds(doc: Document, e: AuditEvent, up: nat, down: seq<nat>)
    requires LogNamesDistinct(doc.models) && Rebuilds(Replay(doc.events), doc.models)
    requires up < |doc.models| && doc.models[up].stage == Champion && |down| <= 1
    requires forall i {:trigger i in down} :: i in down ==>
               i < |doc.models| && Matches(InProduction(doc.models[up].identity.Key()), doc.models[i])
    requires (e.modelName, e.modelVersion) == NameOf(doc.models[up]) && e.next == Production
    requires e.kind in {ModelPromoted, ModelRollback}
    requires down == [] ==> e.otherVersion == None
    requires down != [] ==> down[0] < |doc.models| && e.otherVersion == Some(doc.models[down[0]].version)
    ensures Rebuilds(Replay(doc.events + [e]), Swap(doc.models, up, down))
  {
    hide Identity.Key, ModelVersion.Ref;
    var models := Swap(doc.models, up, down);
    SameNames(doc.models, models);
    if down == [] {
      EventRebuilds(doc, models, e, up, None);
    } else {
      var d := down[0];
      assert d in down;
      assert doc.models[d].identity.name == doc.models[up].identity.name by {
        if d < up {
        } else {
          assert up < d;
        }
      }
      EventRebuilds(doc, models, e, up, Some(d));
    }
  }

  lemma SameNames(before: seq<ModelVersion>, after: seq<ModelVersion>)
    requires LogNamesDistinct(before) && |before| == |after|
    requires forall i :: 0 <= i < |before| ==> after[i] == AtStage(before[i], after[i].stage)
    ensures LogNamesDistinct(after)
  {
    hide Identity.Key;
    forall i | 0 <= i < |before|
      ensures after[i].identity == before[i].identity && NameOf(after[i]) == NameOf(before[i])
    {
    }
  }

  lemma StepRebuilds(doc: Document, op: Op)
    requires Inv(doc) && LogNamesDistinct(Next(doc, op).models)
    requires Rebuilds(Replay(doc.events), doc.models)
    ensures Rebuilds(Replay(Next(doc, op).events), Next(doc, op).models)
  {
    hide Identity.Key, ModelVersion.Ref, Indices, Locate, Replay, Rebuilds;
    EarlierNamesDistinct(doc, op);
    if Apply(doc, op).Ok? {
      var next := Next(doc, op);
      var e := next.events[|doc.events|];
      match op
      case DoRegister(m) => EventRebuilds(doc, next.models, e, |doc.models|, None);
      case DoTransition(ref, target) => EventRebuilds(doc, next.models, e, Locate(doc.models, ref).value, None);
      case DoPromote(ref) =>
        var up := Locate(doc.models, ref).value;
        SwapRebuilds(doc, e, up, Indices(doc.models, InProduction(doc.models[up].identity.Key())));
      case DoRollback(identity, toVersion) =>
        var up := Indices(doc.models, WithVersion(identity.Key(), toVersion))[0];
        SwapRebuilds(doc, e, up, Indices(doc.models, InProduction(identity.Key())));
    }
  }

  /** In every run whose records the log can tell apart, replaying the log from empty rebuilds
      exactly the stage of every registered version. */
  lemma {:induction false} ReplayRebuildsStages(ops: seq<Op>)
    requires LogNamesDistinct(Run(ops).models)
    ensures Rebuilds(Replay(Run(ops).events), Run(ops).models)
  {
    if ops != [] {
      var before := ops[..|ops| - 1];
      RunKeepsInv(before);
      EarlierNamesDistinct(Run(before), ops[|ops| - 1]);
      ReplayRebuildsStages(before);
      StepRebuilds(Run(before), ops[|ops| - 1]);
    }
  }

  // ----- what one event says -----

  /** The event is about the record at i: it names it, and gives the stage it has now. */
  ghost predicate Names(e: AuditEvent, models: seq<ModelVersion>, i: nat) {
    i < |models| && NameOf(models[i]) == (e.modelName, e.modelVersion) && models[i].stage == e.next
  }

  ghost predicate WasAt(doc: Document, i: nat, stage: Stage) {
    i < |doc.models| && doc.models[i].stage == stage
  }

  /** Each successful operation logs an event of its kind about the record it moved, with the stage it had
      before; a promotion adds the version it replaced, if any. A rollback is the exception: it gives the
      stage of the outgoing production record, and adds that record's version. */
  ghost predicate Describes(doc: Document, op: Op, next: Document, e: AuditEvent, i: nat) {
    Names(e, next.models, i) &&
    match op
    case DoRegister(_) =>
      e.kind == ModelRegistered && i == |doc.models| && e.previous == Created && e.otherVersion == None
    case DoTransition(ref, target) =>
      e.kind == LifecycleTransition && next.models[i].Ref() == ref && WasAt(doc, i, e.previous) && e.next == target
      && e.otherVersion == None
    case DoPromote(ref) =>
      && e.kind == ModelPromoted && next.models[i].Ref() == ref && WasAt(doc, i, e.previous)
      && e.otherVersion == (match ProductionOf(doc, next.models[i].identity.Key())
                            case Ok(m) => Some(m.version) case Err(_) => None)
    case DoRollback(identity, toVersion) =>
      && e.kind == ModelRollback && Matches(WithVersion(identity.Key(), toVersion), next.models[i])
      && WasAt(doc, i, Champion) && e.previous == Production && ProductionOf(doc, identity.Key()).Ok?
      && e.otherVersion == Some(ProductionOf(doc, identity.Key()).value.version)
  }

  lemma EventDescribesStep(doc: Document, op: Op)
    requires Inv(doc) && Apply(doc, op).Ok?
    ensures Appended(doc.events, Next(doc, op).events)
    ensures exists i :: Describes(doc, op, Next(doc, op), Next(doc, op).events[|doc.events|], i)
  {
    hide Identity.Key, Locate, Indices, Inv;
    StepFrame(doc, op);
    var next := Next(doc, op);
    var e := next.events[|doc.events|];
    match op
    case DoRegister(m) => assert Describes(doc, op, next, e, |doc.models|);
    case DoTransition(ref, target) =>
      var i := Locate(doc.models, ref).value;
      StageKeepsRef(doc.models[i], target);
      assert Describes(doc, op, next, e, i);
    case DoPromote(ref) =>
      var i := Locate(doc.models, ref).value;
      StageKeepsRef(doc.models[i], Production);
      SearchesAreUnique(doc, InProduction(doc.models[i].identity.Key()));
      assert Describes(doc, op, next, e, i);
    case DoRollback(identity, toVersion) =>
      var i := Indices(doc.models, WithVersion(identity.Key(), toVersion))[0];
      assert i in Indices(doc.models, WithVersion(identity.Key(), toVersion));
      var down := Indices(doc.models, InProduction(identity.Key()))[0];
      assert down in Indices(doc.models, InProduction(identity.Key()));
      assert Describes(doc, op, next, e, i);
  }

  // ----- exactly when the log is enough -----

  /** No other record has the name and version of the one at i. */
  ghost predicate Alone(models: seq<ModelVersion>, i: nat)
    requires i < |models|
  {
    forall j :: 0 <= j < |models| && j != i ==> NameOf(models[j]) != NameOf(models[i])
  }

  /** The swapped records share the name the event gives, and no third record has the name and version of either. */
  ghost predicate SwapLogged(models: seq<ModelVersion>, up: nat, down: nat)
    requires up < |models| && down < |models|
  {
    && models[down].identity.name == models[up].identity.name
    && forall j :: 0 <= j < |models| && j != up && j != down ==>
         NameOf(models[j]) != NameOf(models[up]) && NameOf(models[j]) != NameOf(models[down])
  }

  /** What a successful operation asks of the records, for its event to describe it. */
  ghost predicate Logged(doc: Document, op: Op)
    requires Apply(doc, op).Ok?
  {
    match op
    case DoRegister(m) =>
      forall j :: 0 <= j < |doc.models| && NameOf(doc.models[j]) == NameOf(m) ==> doc.models[j].stage == Registered
    case DoTransition(ref, _) => Alone(doc.models, Locate(doc.models, ref).value)
    case DoPromote(ref) =>
      var up := Locate(doc.models, ref).value;
      var down := Indices(doc.models, InProduction(doc.models[up].identity.Key()));
      if down == [] then Alone(doc.models, up) else SwapLogged(doc.models, up, down[0])
    case DoRollback(identity, toVersion) =>
      SwapLogged(doc.models, Indices(doc.models, WithVersion(identity.Key(), toVersion))[0],
                 Indices(doc.models, InProduction(identity.Key()))[0])
  }

  /** A map rebuilt for some records, with one entry set, is rebuilt for the records with one stage set
      exactly when that record is alone under its name. */
  lemma OneChangeIsLoggedExactly(before: Stages, models: seq<ModelVersion>, i: nat, target: Stage)
    requires i < |models| && Rebuilds(before, models) && models[i].stage != target
    ensures Rebuilds(before[NameOf(models[i]) := target], models[i := AtStage(models[i], target)]) <==> Alone(models, i)
  {
    hide Identity.Key, ModelVersion.Ref;
    var after, changed := before[NameOf(models[i]) := target], models[i := AtStage(models[i], target)];
    forall j | 0 <= j < |models| ensures NameOf(changed[j]) == NameOf(models[j]) {
    }
    hide NameOf;
    NamesOnlyPersists(before, models, after, changed);
    hide NamesOnly;
    if j :| 0 <= j < |models| && j != i && NameOf(models[j]) == NameOf(models[i]) {
      assert changed[j] == models[j] && before[NameOf(models[j])] == models[i].stage;
    }
  }

  /** The map after a swap event: it names the incumbent by the promoted model's name and its own version. */
  function SwappedStages(before: Stages, models: seq<ModelVersion>, up: nat, down: nat): Stages
    requires up < |models| && down < |models|
  {
    before[(models[up].identity.name, models[down].version) := Champion][NameOf(models[up]) := Production]
  }

  lemma SwapIsLoggedExactly(before: Stages, models: seq<ModelVersion>, up: nat, down: nat)
    requires up < |models| && down < |models| && Rebuilds(before, models)
    requires models[up].stage == Champion && models[down].stage == Production
    ensures Rebuilds(SwappedStages(before, models, up, down), Swap(models, up, [down]))
       <==> SwapLogged(models, up, down)
  {
    hide Identity.Key, ModelVersion.Ref;
    assert NameOf(models[up]) != NameOf(models[down]);
    if models[down].identity.name != models[up].identity.name {
      // The incumbent is a champion now, yet its own entry still says production.
      assert Swap(models, up, [down])[down] == AtStage(models[down], Champion);
      assert SwappedStages(before, models, up, down)[NameOf(models[down])] == Production;
    } else {
      assert NameOf(models[down]) == (models[up].identity.name, models[down].version);
      hide NameOf;
      TwoChangesAreLoggedExactly(before, models, up, down);
    }
  }

  lemma TwoChangesAreLoggedExactly(before: Stages, models: seq<ModelVersion>, up: nat, down: nat)
    requires up < |models| && down < |models| && Rebuilds(before, models)
    requires models[up].stage == Champion && models[down].stage == Production
    ensures Rebuilds(before[NameOf(models[down]) := Champion][NameOf(models[up]) := Production],
        Swap(models, up, [down]))
       <==> forall j :: 0 <= j < |models| && j != up && j != down ==>
              NameOf(models[j]) != NameOf(models[up]) && NameOf(models[j]) != NameOf(models[down])
  {
    var after, swapped := before[NameOf(models[down]) := Champion][NameOf(models[up]) := Production],
        Swap(models, up, [down]);
    assert NameOf(models[up]) != NameOf(models[down]);
    forall i | 0 <= i < |models|
      ensures NameOf(swapped[i]) == NameOf(models[i])
      ensures i != up && i != down ==> swapped[i] == models[i]
    {
    }
    assert swapped[up].stage == Production && swapped[down].stage == Champion;
    hide NameOf, Swap;
    NamesOnlyPersists(before, models, after, swapped);
    hide NamesOnly;
    if j :| 0 <= j < |models| && j != up && j != down
            && (NameOf(models[j]) == NameOf(models[up]) || NameOf(models[j]) == NameOf(models[down])) {
      assert before[NameOf(models[j])] == models[j].stage == swapped[j].stage;
    }
  }

  lemma AddIsLoggedExactly(before: Stages, models: seq<ModelVersion>, m: ModelVersion)
    requires Rebuilds(before, models)
    ensures Rebuilds(before[NameOf(m) := m.stage], models + [m])
       <==> forall j :: 0 <= j < |models| && NameOf(models[j]) == NameOf(m) ==> models[j].stage == m.stage
  {
    hide NameOf;
    var after, more := before[NameOf(m) := m.stage], models + [m];
    if j :| 0 <= j < |models| && NameOf(models[j]) == NameOf(m) && models[j].stage != m.stage {
      assert more[j] == models[j];
    } else {
      forall n | n in after ensures exists j :: 0 <= j < |more| && NameOf(more[j]) == n {
        if n == NameOf(m) {
          assert NameOf(more[|models|]) == n;
        } else {
          var j :| 0 <= j < |models| && NameOf(models[j]) == n;
          assert NameOf(more[j]) == n;
        }
      }
    }
  }

  /** From a state the log describes, a registration stays described exactly when every record of that name
      and version is still at registered. */
  lemma RegistrationIsLoggedExactly(doc: Document, m: ModelVersion)
    requires Rebuilds(Replay(doc.events), doc.models) && Register(doc, m).Ok?
    ensures var next := Register(doc, m).value;
            Rebuilds(Replay(next.events), next.models) <==> Logged(doc, DoRegister(m))
  {
    hide Identity.Key, ModelVersion.Ref, Locate, Rebuilds;
    var next := Register(doc, m).value;
    ReplayOneMore(doc.events, next.events[|doc.events|]);
    hide Replay;
    AddIsLoggedExactly(Replay(doc.events), doc.models, AtStage(m, Registered));
  }

  /** From a state the log describes, a transition stays described exactly when no other record
      has the moved record's name and version. */
  lemma TransitionIsLoggedExactly(doc: Document, ref: string, target: Stage)
    requires Rebuilds(Replay(doc.events), doc.models) && Transition(doc, ref, target).Ok?
    ensures var next, i := Transition(doc, ref, target).value, Locate(doc.models, ref).value;
            Rebuilds(Replay(next.events), next.models)
            <==> forall j :: 0 <= j < |doc.models| && j != i ==> NameOf(doc.models[j]) != NameOf(doc.models[i])
  {
    hide Identity.Key, ModelVersion.Ref, Locate;
    var next, i := Transition(doc, ref, target).value, Locate(doc.models, ref).value;
    ReplayOneMore(doc.events, next.events[|doc.events|]);
    hide Replay, Rebuilds;
    OneChangeIsLoggedExactly(Replay(doc.events), doc.models, i, target);
  }

  /** From a state the log describes, promotion over an incumbent stays described exactly when the incumbent
      has the promoted model's name, since the event records only its version, and no third record has the
      name and version of either. */
  lemma PromotionIsLoggedExactly(doc: Document, ref: string)
    requires Inv(doc) && Rebuilds(Replay(doc.events), doc.models) && Promote(doc, ref).Ok?
    requires ProductionOf(doc, Get(doc, ref).value.identity.Key()).Ok?
    ensures var next, up := Promote(doc, ref).value, Locate(doc.models, ref).value;
            Rebuilds(Replay(next.events), next.models)
            <==> SwapLogged(doc.models, up, Indices(doc.models, InProduction(doc.models[up].identity.Key()))[0])
  {
    hide Identity.Key, ModelVersion.Ref, Locate, Indices, Rebuilds;
    var next, up := Promote(doc, ref).value, Locate(doc.models, ref).value;
    var down := Indices(doc.models, InProduction(doc.models[up].identity.Key()))[0];
    assert Indices(doc.models, InProduction(doc.models[up].identity.Key())) == [down];
    ReplayOneMore(doc.events, next.events[|doc.events|]);
    hide Replay;
    assert down in Indices(doc.models, InProduction(doc.models[up].identity.Key()));
    SwapIsLoggedExactly(Replay(doc.events), doc.models, up, down);
  }

  /** A first promotion stays described exactly when no other record has the promoted record's name and version. */
  lemma FirstPromotionIsLoggedExactly(doc: Document, ref: string)
    requires Inv(doc) && Rebuilds(Replay(doc.events), doc.models) && Promote(doc, ref).Ok?
    requires ProductionOf(doc, Get(doc, ref).value.identity.Key()).Err?
    ensures var next, up := Promote(doc, ref).value, Locate(doc.models, ref).value;
            Rebuilds(Replay(next.events), next.models) <==> Alone(doc.models, up)
  {
    hide Identity.Key, ModelVersion.Ref, Locate, Indices, Rebuilds;
    var next, up := Promote(doc, ref).value, Locate(doc.models, ref).value;
    SearchesAreUnique(doc, InProduction(doc.models[up].identity.Key()));
    assert next.models == doc.models[up := AtStage(doc.models[up], Production)];
    ReplayOneMore(doc.events, next.events[|doc.events|]);
    hide Replay;
    OneChangeIsLoggedExactly(Replay(doc.events), doc.models, up, Production);
  }

  /** A rollback stays described under the same condition as a promotion over an incumbent. */
  lemma RollbackIsLoggedExactly(doc: Document, identity: Identity, toVersion: string)
    requires Rebuilds(Replay(doc.events), doc.models) && Rollback(doc, identity, toVersion).Ok?
    ensures var next := Rollback(doc, identity, toVersion).value;
            Rebuilds(Replay(next.events), next.models) <==> Logged(doc, DoRollback(identity, toVersion))
  {
    hide Identity.Key, ModelVersion.Ref, Indices, Rebuilds, SwapLogged;
    var next := Rollback(doc, identity, toVersion).value;
    var up := Indices(doc.models, WithVersion(identity.Key(), toVersion))[0];
    var down := Indices(doc.models, InProduction(identity.Key()))[0];
    assert Indices(doc.models, InProduction(identity.Key())) == [down];
    ReplayOneMore(doc.events, next.events[|doc.events|]);
    hide Replay;
    SwapIsLoggedExactly(Replay(doc.events), doc.models, up, down);
  }

  /** Every successful operation from a state the log describes stays described exactly when it meets its
      condition. */
  lemma StepIsLoggedExactly(doc: Document, op: Op)
    requires Inv(doc) && Rebuilds(Replay(doc.events), doc.models) && Apply(doc, op).Ok?
    ensures Rebuilds(Replay(Next(doc, op).events), Next(doc, op).models) <==> Logged(doc, op)
  {
    hide Identity.Key, ModelVersion.Ref, Locate, Indices, Replay, Rebuilds, Inv, Alone, SwapLogged;
    match op
    case DoRegister(m) => RegistrationIsLoggedExactly(doc, m);
    case DoTransition(ref, target) =>
      TransitionIsLoggedExactly(doc, ref, target);
      AloneIs(doc.models, Locate(doc.models, ref).value);
    case DoPromote(ref) =>
      SearchesAreUnique(doc, InProduction(Get(doc, ref).value.identity.Key()));
      if ProductionOf(doc, Get(doc, ref).value.identity.Key()).Ok? {
        PromotionIsLoggedExactly(doc, ref);
      } else {
        FirstPromotionIsLoggedExactly(doc, ref);
      }
    case DoRollback(identity, toVersion) => RollbackIsLoggedExactly(doc, identity, toVersion);
  }

  lemma AloneIs(models: seq<ModelVersion>, i: nat)
    requires i < |models|
    ensures Alone(models, i) <==> forall j :: 0 <= j < |models| && j != i ==> NameOf(models[j]) != NameOf(models[i])
  {
  }

  /** The log describes the document at every moment of the run. */
  ghost predicate AlwaysRebuilt(ops: seq<Op>) {
    forall k :: 0 <= k <= |ops| ==> Rebuilds(Replay(Run(ops[..k]).events), Run(ops[..k]).models)
  }

  /** Every operation of the run that succeeds meets its condition. */
  ghost predicate AlwaysLogged(ops: seq<Op>) {
    forall k :: 0 <= k < |ops| && Apply(Run(ops[..k]), ops[k]).Ok? ==> Logged(Run(ops[..k]), ops[k])
  }

  lemma ShorterRun(ops: seq<Op>)
    requires ops != []
    ensures var before, n := ops[..|ops| - 1], |ops| - 1;
            && (AlwaysRebuilt(ops) <==> AlwaysRebuilt(before) && Rebuilds(Replay(Run(ops).events), Run(ops).models))
            && (AlwaysLogged(ops) <==>
                  AlwaysLogged(before) && (Apply(Run(before), ops[n]).Ok? ==> Logged(Run(before), ops[n])))
  {
    hide Apply, Logged, Rebuilds, Replay, Run;
    var n := |ops| - 1;
    assert ops[..n + 1] == ops;
    forall k | 0 <= k <= n ensures ops[..n][..k] == ops[..k] {
    }
  }

  /** The log describes a whole run, at every moment of it, exactly when each operation that succeeds meets
      its condition. */
  lemma {:induction false} RunIsLoggedExactly(ops: seq<Op>)
    ensures AlwaysRebuilt(ops) <==> AlwaysLogged(ops)
  {
    if ops == [] {
      assert Run(ops[..0]) == EMPTY;
    } else {
      var before, op := ops[..|ops| - 1], ops[|ops| - 1];
      RunIsLoggedExactly(before);
      ShorterRun(ops);
      RunKeepsInv(before);
      assert before[..|before|] == before;
      assert AlwaysRebuilt(before) ==> Rebuilds(Replay(Run(before).events), Run(before).models);
      hide Apply, Logged, Rebuilds, Replay, Inv, AlwaysRebuilt, AlwaysLogged;
      if AlwaysRebuilt(before) && Apply(Run(before), op).Ok? {
        StepIsLoggedExactly(Run(before), op);
      }
    }
  }

  /** Two trusted models with different references: the log describes the run that registers both and
      validates the first exactly when they differ in name or version. The same version registered in
      two environments is the run it cannot describe. */
  lemma LogTellsTwoModelsApart(a: ModelVersion, b: ModelVersion)
    requires ArtifactsTrusted(a) && ArtifactsTrusted(b) && a.Ref() != b.Ref()
    ensures var doc := Run([DoRegister(a), DoRegister(b), DoTransition(a.Ref(), Validated)]);
            Rebuilds(Replay(doc.events), doc.models) <==> NameOf(a) != NameOf(b)
  {
    hide Identity.Key, ModelVersion.Ref, Locate, Replay;
    var ops := [DoRegister(a), DoRegister(b)];
    var two := TwoRegistered(a, b);
    RunKeepsInv(ops);
    StageKeepsRef(a, Registered);
    LocateFinds(two, 0);
    assert (ops + [DoTransition(a.Ref(), Validated)])[..2] == ops;
    assert ops + [DoTransition(a.Ref(), Validated)] == [DoRegister(a), DoRegister(b), DoTransition(a.Ref(), Validated)];
    TransitionIsLoggedExactly(two, a.Ref(), Validated);
    assert NameOf(two.models[0]) == NameOf(a) && NameOf(two.models[1]) == NameOf(b);
  }

  /** No replay at all can do better: the runs that validate the first and the second of the two leave
      different records, and equal logs exactly when name and version agree. */
  lemma LogsAgreeExactly(a: ModelVersion, b: ModelVersion)
    requires ArtifactsTrusted(a) && ArtifactsTrusted(b) && a.Ref() != b.Ref()
    ensures var first := Run([DoRegister(a), DoRegister(b), DoTransition(a.Ref(), Validated)]);
            var second := Run([DoRegister(a), DoRegister(b), DoTransition(b.Ref(), Validated)]);
            && first.models == [AtStage(a, Validated), AtStage(b, Registered)]
            && second.models == [AtStage(a, Registered), AtStage(b, Validated)]
            && (first.events == second.events <==> NameOf(a) == NameOf(b))
  {
    hide Identity.Key, ModelVersion.Ref, Locate, Replay, Rebuilds;
    var two := TwoRegistered(a, b);
    StageKeepsRef(a, Registered);
    StageKeepsRef(b, Registered);
    ValidatedInTwo(a, b, two, 0);
    ValidatedInTwo(a, b, two, 1);
    var ea := Event(LifecycleTransition, a, Registered, Validated, None);
    var eb := Event(LifecycleTransition, b, Registered, Validated, None);
    assert (two.events + [ea])[|two.events|] == ea && (two.events + [eb])[|two.events|] == eb;
    assert ea == eb <==> NameOf(a) == NameOf(b);
    hide Run;
    assert two.events + [ea] == two.events + [eb] <==> ea == eb;
  }

  lemma ValidatedInTwo(a: ModelVersion, b: ModelVersion, two: Document, i: nat)
    requires i < 2 && two == Run([DoRegister(a), DoRegister(b)])
    requires two.models == [AtStage(a, Registered), AtStage(b, Registered)] && a.Ref() != b.Ref()
    ensures var m := if i == 0 then a else b;
            var next := Run([DoRegister(a), DoRegister(b), DoTransition(m.Ref(), Validated)]);
            && next.models == two.models[i := AtStage(m, Validated)]
            && next.events == two.events + [Event(LifecycleTransition, m, Registered, Validated, None)]
  {
    hide Identity.Key, ModelVersion.Ref, Locate;
    var m := if i == 0 then a else b;
    StageKeepsRef(a, Registered);
    StageKeepsRef(b, Registered);
    LocateFinds(two, i);
    var ops := [DoRegister(a), DoRegister(b)];
    assert (ops + [DoTransition(m.Ref(), Validated)])[..2] == ops;
    assert ops + [DoTransition(m.Ref(), Validated)] == [DoRegister(a), DoRegister(b), DoTransition(m.Ref(), Validated)];
  }

  lemma TwoRegistered(a: ModelVersion, b: ModelVersion) returns (two: Document)
    requires ArtifactsTrusted(a) && ArtifactsTrusted(b) && a.Ref() != b.Ref()
    ensures two == Run([DoRegister(a), DoRegister(b)])
    ensures two.models == [AtStage(a, Registered), AtStage(b, Registered)]
    ensures Rebuilds(Replay(two.events), two.models)
  {
    hide Identity.Key, ModelVersion.Ref, Locate, Replay;
    LocateIn([], a.Ref());
    LocateIn([AtStage(a, Registered)], b.Ref());
    StageKeepsRef(a, Registered);
    var one := Run([DoRegister(a)]);
    two := Run([DoRegister(a), DoRegister(b)]);
    assert [DoRegister(a)][..0] == [] && [DoRegister(a), DoRegister(b)][..1] == [DoRegister(a)];
    assert Run([]) == EMPTY;
    assert one.models == [AtStage(a, Registered)];
    var ea, eb := Event(ModelRegistered, a, Created, Registered, None),
        Event(ModelRegistered, b, Created, Registered, None);
    assert one.events == [] + [ea];
    assert two.events == one.events + [eb];
    ReplayOfNothing();
    ReplayOneMore([], ea);
    ReplayOneMore(one.events, eb);
    assert NameOf(two.models[0]) == NameOf(a) && NameOf(two.models[1]) == NameOf(b);
  }

  lemma LocateIn(models: seq<ModelVersion>, ref: string)
    requires |models| <= 1
    ensures Locate(models, ref) == if models != [] && models[0].Ref() == ref then Some(0) else None
  {
  }

  lemma StageKeepsRef(m: ModelVersion, s: Stage)
    ensures AtStage(m, s).Ref() == m.Ref()
  {
  }

  lemma ReplayOfNothing()
    ensures Replay([]) == map[]
  {
  }
}
