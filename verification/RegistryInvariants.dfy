/** What every registry operation keeps, and what that gives over whole runs. */
module RegistryInvariants {
  import opened Wrappers
  import opened Domain
  import opened Registry

  // ----- the global invariant -----

  ghost predicate RefsDistinct(models: seq<ModelVersion>) {
    forall i, j :: 0 <= i < j < |models| ==> models[i].Ref() != models[j].Ref()
  }

  ghost predicate OneProductionPerKey(models: seq<ModelVersion>) {
    forall i, j :: 0 <= i < j < |models| && models[i].stage == Production && models[j].stage == Production
                   ==> models[i].identity.Key() != models[j].identity.Key()
  }

  ghost predicate RecordsAdmitted(models: seq<ModelVersion>) {
    forall i :: 0 <= i < |models| ==> models[i].stage != Created && ArtifactsTrusted(models[i])
  }

  ghost predicate Inv(doc: Document) {
    && RefsDistinct(doc.models)
    && OneProductionPerKey(doc.models)
    && RecordsAdmitted(doc.models)
  }

  // ----- one step -----

  /** A record keeps every field but its stage, and the stage moves along the lifecycle graph or not at all. */
  ghost predicate Evolves(before: ModelVersion, after: ModelVersion) {
    && after == AtStage(before, after.stage)
    && (after.stage == before.stage || ValidateTransition(before.stage, after.stage).None?)
  }

  ghost predicate Appended<T>(before: seq<T>, after: seq<T>) {
    |after| == |before| + 1 && after[..|before|] == before
  }

  /** Frame of every operation: records stay in place and evolve legally, at most one record is added,
      and the log grows by exactly one event when the operation succeeds. */
  lemma StepFrame(doc: Document, op: Op)
    ensures var next := Next(doc, op);
            && |doc.models| <= |next.models| <= |doc.models| + 1
            && (forall i :: 0 <= i < |doc.models| ==> Evolves(doc.models[i], next.models[i]))
            && (|next.models| > |doc.models| ==>
                  op.DoRegister? && next.models[|doc.models|] == AtStage(op.model, Registered))
            && (Apply(doc, op).Ok? ==> Appended(doc.events, next.events))
            && (Apply(doc, op).Err? ==> next == doc)
  {
    hide Identity.Key, ModelVersion.Ref, Indices, Locate;
  }

  lemma NextKeepsRefsDistinct(doc: Document, op: Op)
    requires RefsDistinct(doc.models)
    ensures RefsDistinct(Next(doc, op).models)
  {
    StepFrame(doc, op);
    var before, after := doc.models, Next(doc, op).models;
    forall i, j | 0 <= i < j < |after| ensures after[i].Ref() != after[j].Ref() {
      assert after[i].Ref() == before[i].Ref();
      if j < |before| {
        assert after[j].Ref() == before[j].Ref();
      }
    }
  }

  lemma TransitionKeepsOneProduction(doc: Document, ref: string, target: Stage)
    requires RefsDistinct(doc.models) && OneProductionPerKey(doc.models)
    ensures OneProductionPerKey(Next(doc, DoTransition(ref, target)).models)
  {
    var after := Next(doc, DoTransition(ref, target)).models;
    var located := Locate(doc.models, ref);
    forall i, j | 0 <= i < j < |after| && after[i].stage == Production && after[j].stage == Production
      ensures after[i].identity.Key() != after[j].identity.Key()
    {
      if after != doc.models && target == Production && (i == located.value || j == located.value) {
        var other := if i == located.value then j else i;
        assert doc.models[other].Ref() != doc.models[located.value].Ref();
        assert !Matches(InProduction(doc.models[located.value].identity.Key()), doc.models[other]);
      }
    }
  }

  lemma SwapKeepsOneProduction(models: seq<ModelVersion>, up: nat, down: seq<nat>)
    requires OneProductionPerKey(models) && up < |models|
    requires forall i :: i in down <==>
               0 <= i < |models| && Matches(InProduction(models[up].identity.Key()), models[i])
    ensures OneProductionPerKey(Swap(models, up, down))
  {
  }

  lemma NextKeepsOneProduction(doc: Document, op: Op)
    requires RefsDistinct(doc.models) && OneProductionPerKey(doc.models)
    ensures OneProductionPerKey(Next(doc, op).models)
  {
    match op
    case DoRegister(m) =>
    case DoTransition(ref, target) => TransitionKeepsOneProduction(doc, ref, target);
    case DoPromote(ref) => PromoteKeepsOneProduction(doc, ref);
    case DoRollback(identity, toVersion) => RollbackKeepsOneProduction(doc, identity, toVersion);
  }

  lemma PromoteKeepsOneProduction(doc: Document, ref: string)
    requires OneProductionPerKey(doc.models)
    ensures OneProductionPerKey(Next(doc, DoPromote(ref)).models)
  {
    if Promote(doc, ref).Ok? {
      var i := Locate(doc.models, ref).value;
      SwapKeepsOneProduction(doc.models, i, Indices(doc.models, InProduction(doc.models[i].identity.Key())));
    }
  }

  lemma RollbackKeepsOneProduction(doc: Document, identity: Identity, toVersion: string)
    requires OneProductionPerKey(doc.models)
    ensures OneProductionPerKey(Next(doc, DoRollback(identity, toVersion)).models)
  {
    if Rollback(doc, identity, toVersion).Ok? {
      var i := Indices(doc.models, WithVersion(identity.Key(), toVersion))[0];
      SwapKeepsOneProduction(doc.models, i, Indices(doc.models, InProduction(identity.Key())));
    }
  }

  lemma NextKeepsRecords(doc: Document, op: Op)
    requires RecordsAdmitted(doc.models)
    ensures RecordsAdmitted(Next(doc, op).models)
  {
    hide Transition, Promote, Rollback, Identity.Key;
    StepFrame(doc, op);
    var before, after := doc.models, Next(doc, op).models;
    forall i | 0 <= i < |before| ensures after[i].stage != Created && ArtifactsTrusted(after[i]) {
      assert Evolves(before[i], after[i]);
    }
  }

  lemma NextKeepsInv(doc: Document, op: Op)
    requires Inv(doc)
    ensures Inv(Next(doc, op))
  {
    NextKeepsRefsDistinct(doc, op);
    NextKeepsOneProduction(doc, op);
    NextKeepsRecords(doc, op);
  }

  /** In every run, references stay distinct and each key has at most one production version. */
  lemma {:induction false} RunKeepsInv(ops: seq<Op>)
    ensures Inv(Run(ops))
  {
    if ops != [] {
      RunKeepsInv(ops[..|ops| - 1]);
      NextKeepsInv(Run(ops[..|ops| - 1]), ops[|ops| - 1]);
    }
  }

  // ----- consequences: searches and outcomes -----

  lemma MatchIsUnique(doc: Document, q: Query, i: nat, j: nat)
    requires Inv(doc) && i < |doc.models| && j < |doc.models|
    requires Matches(q, doc.models[i]) && Matches(q, doc.models[j])
    ensures i == j
  {
    if q.WithVersion? {
      assert doc.models[i].Ref() == q.key + "@" + q.version == doc.models[j].Ref();
    }
  }

  /** Under the invariant no search returns two positions: the multiple-production branch of
      promote_to_production is unreachable. */
  lemma SearchesAreUnique(doc: Document, q: Query)
    requires Inv(doc)
    ensures |Indices(doc.models, q)| <= 1
  {
    hide Identity.Key, ModelVersion.Ref, Indices;
    var found := Indices(doc.models, q);
    if |found| > 1 {
      MatchIsUnique(doc, q, found[0], found[1]);
    }
  }

  /** The position of a matching record is the whole search result. */
  lemma SearchFinds(doc: Document, q: Query, i: nat)
    requires Inv(doc) && i < |doc.models| && Matches(q, doc.models[i])
    ensures Indices(doc.models, q) == [i]
  {
    SearchesAreUnique(doc, q);
    assert i in Indices(doc.models, q);
  }

  lemma LocateFinds(doc: Document, i: nat)
    requires RefsDistinct(doc.models) && i < |doc.models|
    ensures Locate(doc.models, doc.models[i].Ref()) == Some(i)
  {
    assert Locate(doc.models, doc.models[i].Ref()).Some?;
  }

  /** production() answers with m exactly when m is a record of that key in production,
      so it fails exactly when there is none. */
  lemma ProductionIsExact(doc: Document, key: string)
    requires Inv(doc)
    ensures forall m :: ProductionOf(doc, key) == Ok(m) <==> m in doc.models && Matches(InProduction(key), m)
    ensures ProductionOf(doc, key).Err? <==> forall m :: m in doc.models ==> !Matches(InProduction(key), m)
  {
    var found := Indices(doc.models, InProduction(key));
    SearchesAreUnique(doc, InProduction(key));
    forall m | m in doc.models && Matches(InProduction(key), m) ensures ProductionOf(doc, key) == Ok(m) {
      var i :| 0 <= i < |doc.models| && doc.models[i] == m;
      SearchFinds(doc, InProduction(key), i);
    }
    if |found| == 1 {
      assert doc.models[found[0]] in doc.models;
    }
  }

  /** A model without artifacts, or with one whose checksum is missing or empty, is refused, and only such a one
      for that reason. */
  lemma ChecksumsAreDemanded(doc: Document, m: ModelVersion)
    ensures Register(doc, m) == Err(ArtifactIntegrityError) <==>
              m.artifacts == [] || exists a :: a in m.artifacts && (a.checksum == None || a.checksum == Some(""))
  {
  }

  /** Which error each refused operation raises. */
  lemma ErrorsAreExact(doc: Document, ref: string, target: Stage, identity: Identity, toVersion: string)
    requires Inv(doc)
    ensures var unknown := forall m :: m in doc.models ==> m.Ref() != ref;
            && (Get(doc, ref) == Err(ModelNotFoundError) <==> unknown)
            && (Transition(doc, ref, target) == Err(ModelNotFoundError) <==> unknown)
            && (Promote(doc, ref) == Err(ModelNotFoundError) <==> unknown)
    ensures Get(doc, ref).Ok? ==>
              var m := Get(doc, ref).value;
              && (Transition(doc, ref, target) == Err(InvalidLifecycleTransitionError) <==>
                    ValidateTransition(m.stage, target).Some?)
              && (Transition(doc, ref, target) == Err(ModelVersionConflictError) <==>
                    ValidateTransition(m.stage, target).None? && target == Production
                    && ProductionOf(doc, m.identity.Key()).Ok?)
              && (Promote(doc, ref) == Err(ModelRegistryError) <==> m.stage != Champion)
    ensures Rollback(doc, identity, toVersion).Err? ==> Rollback(doc, identity, toVersion).error == RollbackError
    ensures ProductionOf(doc, identity.Key()).Err? ==> ProductionOf(doc, identity.Key()).error == ModelNotFoundError
  {
    hide Identity.Key, ModelVersion.Ref, Indices;
    if i :| 0 <= i < |doc.models| && doc.models[i].Ref() == ref {
      LocateFinds(doc, i);
      assert doc.models[i] in doc.models;
      SearchesAreUnique(doc, InProduction(doc.models[i].identity.Key()));
      if target == Production && ValidateTransition(doc.models[i].stage, target).None? {
        OtherIsProduction(doc, i);
      }
    }
  }

  /** A stored document with two production records of one key, which no operation writes, is not repaired by
      guessing: nothing is in production, and promotions and rollbacks of the key are refused. */
  lemma TwoInProductionIsRefused(doc: Document, a: nat, b: nat, identity: Identity, ref: string, toVersion: string)
    requires a < b < |doc.models| && doc.models[a].stage == Production && doc.models[b].stage == Production
    requires doc.models[a].identity.Key() == doc.models[b].identity.Key() == identity.Key()
    ensures ProductionOf(doc, identity.Key()) == Err(ModelNotFoundError)
    ensures Rollback(doc, identity, toVersion) == Err(RollbackError)
    ensures Get(doc, ref).Ok? && Get(doc, ref).value.identity.Key() == identity.Key() ==>
              Promote(doc, ref) ==
                Err(if Get(doc, ref).value.stage == Champion then ModelVersionConflictError else ModelRegistryError)
  {
    hide Identity.Key, ModelVersion.Ref, Locate;
    var found := Indices(doc.models, InProduction(identity.Key()));
    assert a in found && b in found;
    assert |found| > 1;
  }

  /** Registration succeeds exactly for a model with trusted artifacts whose reference is new. */
  lemma RegisterSucceedsExactly(doc: Document, m: ModelVersion)
    ensures Register(doc, m).Ok? <==> ArtifactsTrusted(m) && forall r :: r in doc.models ==> r.Ref() != m.Ref()
  {
    if r :| r in doc.models && r.Ref() == m.Ref() {
      var i :| 0 <= i < |doc.models| && doc.models[i] == r;
      assert Locate(doc.models, m.Ref()).Some?;
    }
  }

  /** For a model whose reference names one version, it is refused as a conflict exactly when that very version
      of that identity is registered. */
  lemma RegisterRefusesDuplicatesExactly(doc: Document, m: ModelVersion)
    requires ArtifactsTrusted(m) && RefSafe(m.identity, m.version)
    ensures Register(doc, m) == Err(ModelVersionConflictError) <==>
              exists r :: r in doc.models && r.identity == m.identity && r.version == m.version
  {
    RegisterSucceedsExactly(doc, m);
    forall r | r in doc.models ensures r.Ref() == m.Ref() <==> r.identity == m.identity && r.version == m.version {
      assert r.Ref() == RefOf(r.identity, r.version) && m.Ref() == RefOf(m.identity, m.version);
      if r.Ref() == m.Ref() {
        SafeRefIsUnique(m.identity, m.version, r.identity, r.version);
      }
    }
    hide Identity.Key, ModelVersion.Ref;
  }

  /** A transition succeeds exactly for a registered record that may legally move to the target, where
      production also demands that no version of the key is there yet. */
  lemma TransitionSucceedsExactly(doc: Document, ref: string, target: Stage)
    requires Inv(doc)
    ensures Transition(doc, ref, target).Ok? <==>
              exists m :: m in doc.models && m.Ref() == ref && ValidateTransition(m.stage, target).None?
                          && (target == Production ==> ProductionOf(doc, m.identity.Key()).Err?)
  {
    if i :| 0 <= i < |doc.models| && doc.models[i].Ref() == ref {
      LocateFinds(doc, i);
      assert doc.models[i] in doc.models;
      if target == Production && ValidateTransition(doc.models[i].stage, target).None? {
        OtherIsProduction(doc, i);
      }
      forall m | m in doc.models && m.Ref() == ref ensures m == doc.models[i] {
        var j :| 0 <= j < |doc.models| && doc.models[j] == m;
        LocateFinds(doc, j);
      }
    }
  }

  /** For a record outside production, another one is in production exactly when production() answers. */
  lemma OtherIsProduction(doc: Document, i: nat)
    requires Inv(doc) && i < |doc.models| && doc.models[i].stage != Production
    ensures OtherInProduction(doc.models, doc.models[i]) <==> ProductionOf(doc, doc.models[i].identity.Key()).Ok?
  {
    hide Identity.Key, ModelVersion.Ref;
    var q := InProduction(doc.models[i].identity.Key());
    if j :| 0 <= j < |doc.models| && Matches(q, doc.models[j]) {
      SearchFinds(doc, q, j);
      assert doc.models[j].Ref() != doc.models[i].Ref() by {
        LocateFinds(doc, i);
        LocateFinds(doc, j);
      }
    }
  }

  /** Promotion succeeds exactly for a registered champion. */
  lemma PromoteSucceedsExactly(doc: Document, ref: string)
    requires Inv(doc)
    ensures Promote(doc, ref).Ok? <==> exists m :: m in doc.models && m.Ref() == ref && m.stage == Champion
  {
    hide Identity.Key, ModelVersion.Ref, Indices;
    if i :| 0 <= i < |doc.models| && doc.models[i].Ref() == ref {
      LocateFinds(doc, i);
      SearchesAreUnique(doc, InProduction(doc.models[i].identity.Key()));
      assert doc.models[i] in doc.models;
    }
  }

  /** Rollback succeeds exactly when the key has a production version and the target is a champion of it. */
  lemma RollbackSucceedsExactly(doc: Document, identity: Identity, toVersion: string)
    requires Inv(doc)
    ensures Rollback(doc, identity, toVersion).Ok? <==>
              && (exists m :: m in doc.models && Matches(InProduction(identity.Key()), m))
              && (exists m :: m in doc.models && m.stage == Champion
                              && Matches(WithVersion(identity.Key(), toVersion), m))
  {
    hide Identity.Key, ModelVersion.Ref, Indices;
    var current := Indices(doc.models, InProduction(identity.Key()));
    var target := Indices(doc.models, WithVersion(identity.Key(), toVersion));
    SearchesAreUnique(doc, InProduction(identity.Key()));
    SearchesAreUnique(doc, WithVersion(identity.Key(), toVersion));
    if |current| == 1 {
      assert doc.models[current[0]] in doc.models;
    }
    if |target| == 1 {
      assert doc.models[target[0]] in doc.models;
    }
  }

  lemma {:induction false} SameSearch(before: seq<ModelVersion>, after: seq<ModelVersion>, q: Query)
    requires |before| == |after|
    requires forall i :: 0 <= i < |before| ==> (Matches(q, after[i]) <==> Matches(q, before[i]))
    ensures Indices(after, q) == Indices(before, q)
  {
    if before != [] {
      SameSearch(before[..|before| - 1], after[..|before| - 1], q);
    }
  }

  /** Entering production by a swap leaves exactly the entering record there, and touches no other key. */
  lemma SwapDecidesProduction(doc: Document, next: Document, up: nat)
    requires Inv(doc) && Inv(next) && up < |doc.models|
    requires next.models == Swap(doc.models, up, Indices(doc.models, InProduction(doc.models[up].identity.Key())))
    ensures var key := doc.models[up].identity.Key();
            && ProductionOf(next, key) == Ok(AtStage(doc.models[up], Production))
            && forall other :: other != key ==> ProductionOf(next, other) == ProductionOf(doc, other)
  {
    hide Identity.Key, ModelVersion.Ref;
    SearchFinds(next, InProduction(doc.models[up].identity.Key()), up);
    forall other | other != doc.models[up].identity.Key()
      ensures ProductionOf(next, other) == ProductionOf(doc, other)
    {
      SameSearch(doc.models, next.models, InProduction(other));
    }
  }

  /** After promote_to_production, production() of the key answers with the promoted record,
      and every other key answers as before. */
  lemma PromoteDecidesProduction(doc: Document, ref: string)
    requires Inv(doc) && Promote(doc, ref).Ok?
    ensures var next, target := Promote(doc, ref).value, Get(doc, ref).value;
            && ProductionOf(next, target.identity.Key()) == Ok(AtStage(target, Production))
            && forall other :: other != target.identity.Key() ==> ProductionOf(next, other) == ProductionOf(doc, other)
  {
    hide Identity.Key, ModelVersion.Ref, Indices;
    NextKeepsInv(doc, DoPromote(ref));
    SwapDecidesProduction(doc, Promote(doc, ref).value, Locate(doc.models, ref).value);
  }

  /** After rollback, production() of the key answers with the requested version,
      and every other key answers as before. */
  lemma RollbackDecidesProduction(doc: Document, identity: Identity, toVersion: string)
    requires Inv(doc) && Rollback(doc, identity, toVersion).Ok?
    ensures var next := Rollback(doc, identity, toVersion).value;
            && ProductionOf(next, identity.Key()).Ok?
            && ProductionOf(next, identity.Key()).value.version == toVersion
            && forall other :: other != identity.Key() ==> ProductionOf(next, other) == ProductionOf(doc, other)
  {
    hide Identity.Key, ModelVersion.Ref, Indices;
    NextKeepsInv(doc, DoRollback(identity, toVersion));
    SwapDecidesProduction(doc, Rollback(doc, identity, toVersion).value,
                          Indices(doc.models, WithVersion(identity.Key(), toVersion))[0]);
  }

  // ----- promotion and rollback undo each other -----

  lemma SwapBack(models: seq<ModelVersion>, up: nat, down: nat)
    requires up < |models| && down < |models|
    requires models[up].stage == Champion && models[down].stage == Production
    ensures Swap(Swap(models, up, [down]), down, [up]) == models
  {
  }

  /** The unique production record of a key is found at one position. */
  lemma ProductionPosition(doc: Document, m: ModelVersion) returns (i: nat)
    requires Inv(doc) && ProductionOf(doc, m.identity.Key()) == Ok(m)
    ensures i < |doc.models| && doc.models[i] == m && m.stage == Production
    ensures Indices(doc.models, InProduction(m.identity.Key())) == [i]
  {
    i := Indices(doc.models, InProduction(m.identity.Key()))[0];
  }

  /** Promoting a champion over an incumbent and rolling back to that incumbent restores every record,
      field by field and in order; the log holds two more events. */
  lemma RollbackUndoesPromotion(doc: Document, ref: string, incumbent: ModelVersion)
    requires Inv(doc) && Promote(doc, ref).Ok?
    requires ProductionOf(doc, incumbent.identity.Key()) == Ok(incumbent)
    requires Get(doc, ref).value.identity.Key() == incumbent.identity.Key()
    ensures var promoted := Promote(doc, ref).value;
            var undone := Rollback(promoted, incumbent.identity, incumbent.version);
            && undone.Ok?
            && undone.value.models == doc.models
            && |undone.value.events| == |doc.events| + 2
            && undone.value.events[..|doc.events|] == doc.events
  {
    hide Identity.Key, ModelVersion.Ref, Indices, Locate;
    var key, up := incumbent.identity.Key(), Locate(doc.models, ref).value;
    var down := ProductionPosition(doc, incumbent);
    var promoted := Promote(doc, ref).value;
    assert promoted.models == Swap(doc.models, up, [down]);
    NextKeepsInv(doc, DoPromote(ref));
    SearchFinds(promoted, InProduction(key), up);
    SearchFinds(promoted, WithVersion(key, incumbent.version), down);
    SwapBack(doc.models, up, down);
  }

  lemma RollbackShape(doc: Document, identity: Identity, toVersion: string) returns (up: nat, down: nat)
    requires Rollback(doc, identity, toVersion).Ok?
    ensures up < |doc.models| && Matches(WithVersion(identity.Key(), toVersion), doc.models[up])
    ensures down < |doc.models| && Matches(InProduction(identity.Key()), doc.models[down])
    ensures Indices(doc.models, InProduction(identity.Key())) == [down]
    ensures doc.models[up].identity.Key() == doc.models[down].identity.Key()
    ensures doc.models[up].stage == Champion
    ensures var next := Rollback(doc, identity, toVersion).value;
            next.models == Swap(doc.models, up, [down]) && |next.events| == |doc.events| + 1
  {
    up := Indices(doc.models, WithVersion(identity.Key(), toVersion))[0];
    down := Indices(doc.models, InProduction(identity.Key()))[0];
  }

  /** The converse pair: promoting the version a rollback took out restores every record. */
  lemma PromotionUndoesRollback(doc: Document, identity: Identity, toVersion: string)
    requires Inv(doc) && Rollback(doc, identity, toVersion).Ok?
    ensures ProductionOf(doc, identity.Key()).Ok?
    ensures var rolledBack := Rollback(doc, identity, toVersion).value;
            var redone := Promote(rolledBack, ProductionOf(doc, identity.Key()).value.Ref());
            && redone.Ok?
            && redone.value.models == doc.models
            && |redone.value.events| == |doc.events| + 2
  {
    hide Identity.Key, ModelVersion.Ref, Indices, Locate;
    var up, down := RollbackShape(doc, identity, toVersion);
    var rolledBack := Rollback(doc, identity, toVersion).value;
    NextKeepsInv(doc, DoRollback(identity, toVersion));
    UndoSwapByPromotion(doc, rolledBack, up, down);
  }

  lemma UndoSwapByPromotion(doc: Document, swapped: Document, up: nat, down: nat)
    requires Inv(swapped) && up < |doc.models| && down < |doc.models|
    requires doc.models[up].stage == Champion && doc.models[down].stage == Production
    requires doc.models[up].identity.Key() == doc.models[down].identity.Key()
    requires swapped.models == Swap(doc.models, up, [down])
    ensures var redone := Promote(swapped, doc.models[down].Ref());
            && redone.Ok?
            && redone.value.models == doc.models
            && |redone.value.events| == |swapped.events| + 1
  {
    SearchFinds(swapped, InProduction(doc.models[up].identity.Key()), up);
    assert swapped.models[down] == AtStage(doc.models[down], Champion);
    PromoteAt(swapped, down, up);
    SwapBack(doc.models, up, down);
  }

  lemma PromoteAt(doc: Document, up: nat, down: nat)
    requires RefsDistinct(doc.models) && up < |doc.models| && doc.models[up].stage == Champion
    requires Indices(doc.models, InProduction(doc.models[up].identity.Key())) == [down]
    ensures var promoted := Promote(doc, doc.models[up].Ref());
            && promoted.Ok?
            && promoted.value.models == Swap(doc.models, up, [down])
            && |promoted.value.events| == |doc.events| + 1
            && promoted.value.events[..|doc.events|] == doc.events
  {
    LocateFinds(doc, up);
  }
}
