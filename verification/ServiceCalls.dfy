/** The two services run without interference: what one call does, and what a chain of promotions bounds. */
module ServiceCalls {
  import opened Wrappers
  import opened Domain
  import opened Registry
  import opened RegistryInvariants
  import opened Promotion
  import opened FileRegistry
  import opened Services

  /** A promotion call with no other call in between. */
  function PromoteUninterrupted(config: PolicyConfig, doc: Document, ref: string): Result<Document> {
    match Get(doc, ref)
    case Err(error) => Err(error)
    case Ok(candidate) =>
      if candidate.stage != Champion then Err(PromotionRejectedError)
      else if !Approves(config, candidate.metrics, MetricsOf(Incumbent(doc, candidate.identity)))
          then Err(PromotionRejectedError)
      else Promote(doc, ref)
  }

  function Settled(before: Document, r: Result<Document>): Document {
    match r case Ok(next) => next case Err(_) => before
  }

  /** It is the thread's three steps taken back to back. */
  lemma UninterruptedIsThreeSteps(config: PolicyConfig, doc: Document, ref: string)
    ensures var one := StepSystem(config, System(doc, [PromoteStart(ref)]), Advance(0));
            var two := StepSystem(config, one, Advance(0));
            var three := StepSystem(config, two, Advance(0));
            && three.doc == Settled(doc, PromoteUninterrupted(config, doc, ref))
            && three.threads == [Done(match PromoteUninterrupted(config, doc, ref)
                                      case Err(error) => Err(error)
                                      case Ok(next) => Get(next, ref))]
  {
    hide Approves, Incumbent, Promote, Get, StepSystem;
    var t1 := Advanced(config, doc, PromoteStart(ref));
    var t2 := Advanced(config, doc, t1);
    LoneThreadStep(config, doc, PromoteStart(ref));
    LoneThreadStep(config, doc, t1);
    LoneThreadStep(config, doc, t2);
    if t2.Done? {
      assert Settled(doc, PromoteUninterrupted(config, doc, ref)) == doc;
    } else if Promote(doc, ref).Ok? {
      PromotedIsStored(doc, ref);
    }
  }

  /** The incumbent is the key's record in production, and there is none exactly when no record is. */
  lemma IncumbentIsInProduction(doc: Document, identity: Identity)
    requires Inv(doc)
    ensures forall m :: Incumbent(doc, identity) == Some(m) <==>
              m in doc.models && m.stage == Production && m.identity.Key() == identity.Key()
  {
    hide Identity.Key, ProductionOf, Inv;
    ProductionIsExact(doc, identity.Key());
  }

  /** Of every limited metric that both report, `m` loses at most the allowed drop to `p`. */
  ghost predicate LosesLittleTo(config: PolicyConfig, m: ModelVersion, p: ModelVersion) {
    forall metric, drop | (metric, drop) in config.maxDrop && metric in m.metrics && metric in p.metrics ::
      p.metrics[metric] <= m.metrics[metric] + drop
  }

  ghost predicate MeetsMinimums(config: PolicyConfig, m: ModelVersion) {
    forall metric, minimum | (metric, minimum) in config.required ::
      metric in m.metrics && minimum <= m.metrics[metric]
  }

  /** An uninterrupted promotion succeeds exactly for a registered champion that meets every minimum and loses
      no more than allowed to the version its key has in production, if there is one. An unknown reference is
      not found, and any other refusal is a rejection. */
  lemma PromotionSucceedsExactly(config: PolicyConfig, doc: Document, ref: string)
    requires Inv(doc)
    ensures PromoteUninterrupted(config, doc, ref).Ok? <==>
              exists m :: m in doc.models && m.Ref() == ref && m.stage == Champion && MeetsMinimums(config, m)
                          && forall p | p in doc.models && p.stage == Production && p.identity.Key() == m.identity.Key()
                               :: LosesLittleTo(config, m, p)
    ensures PromoteUninterrupted(config, doc, ref).Err? ==>
              PromoteUninterrupted(config, doc, ref).error ==
                if forall m :: m in doc.models ==> m.Ref() != ref then ModelNotFoundError else PromotionRejectedError
  {
    hide Identity.Key, ModelVersion.Ref, Inv, Promote, Approves, Incumbent, LosesLittleTo, MeetsMinimums;
    PromoteSucceedsExactly(doc, ref);
    if Get(doc, ref).Ok? {
      var c := Get(doc, ref).value;
      FoundIsStored(doc, ref);
      IncumbentIsInProduction(doc, c.identity);
      ApprovalIsExact(config, c, Incumbent(doc, c.identity));
    } else {
      NothingFound(doc, ref);
    }
  }

  lemma FoundIsStored(doc: Document, ref: string)
    requires Inv(doc) && Get(doc, ref).Ok?
    ensures forall m :: m in doc.models && m.Ref() == ref <==> Get(doc, ref) == Ok(m)
  {
    hide ModelVersion.Ref;
    forall m | m in doc.models && m.Ref() == ref ensures Get(doc, ref) == Ok(m) {
      var i :| 0 <= i < |doc.models| && doc.models[i] == m;
      LocateFinds(doc, i);
    }
  }

  lemma NothingFound(doc: Document, ref: string)
    requires Get(doc, ref).Err?
    ensures Get(doc, ref) == Err(ModelNotFoundError) && forall m :: m in doc.models ==> m.Ref() != ref
  {
    hide ModelVersion.Ref;
  }

  lemma ApprovalIsExact(config: PolicyConfig, m: ModelVersion, p: Option<ModelVersion>)
    ensures Approves(config, m.metrics, MetricsOf(p)) <==>
              MeetsMinimums(config, m) && (p.Some? ==> LosesLittleTo(config, m, p.value))
  {
    if Approves(config, m.metrics, MetricsOf(p)) {
      forall metric, minimum | (metric, minimum) in config.required
        ensures metric in m.metrics && minimum <= m.metrics[metric]
      {
        var i :| 0 <= i < |config.required| && config.required[i] == (metric, minimum);
        assert MeetsFloor(m.metrics, config.required[i]);
      }
      if p.Some? {
        forall metric, drop | (metric, drop) in config.maxDrop && metric in m.metrics && metric in p.value.metrics
          ensures p.value.metrics[metric] <= m.metrics[metric] + drop
        {
          var i :| 0 <= i < |config.maxDrop| && config.maxDrop[i] == (metric, drop);
          assert WithinDrop(m.metrics, p.value.metrics, config.maxDrop[i]);
        }
      }
    }
    if MeetsMinimums(config, m) && (p.Some? ==> LosesLittleTo(config, m, p.value)) {
      forall i | 0 <= i < |config.required| ensures MeetsFloor(m.metrics, config.required[i]) {
        var (metric, minimum) := config.required[i];
        assert (metric, minimum) in config.required;
      }
      forall i | p.Some? && 0 <= i < |config.maxDrop|
        ensures WithinDrop(m.metrics, p.value.metrics, config.maxDrop[i])
      {
        var (metric, drop) := config.maxDrop[i];
        assert (metric, drop) in config.maxDrop;
      }
    }
  }

  /** A rollback call with no other call in between. */
  function RollbackUninterrupted(doc: Document, identity: Identity, fromVersion: string,
                                 toVersion: string): Result<Document>
  {
    match ProductionOf(doc, identity.Key())
    case Err(error) => Err(error)
    case Ok(current) =>
      if current.version != fromVersion then Err(RollbackError) else Rollback(doc, identity, toVersion)
  }

  /** It is the thread's two steps taken back to back; when it succeeds, the named version was in production
      and the target is. */
  lemma UninterruptedRollbackIsTwoSteps(config: PolicyConfig, doc: Document, identity: Identity, fromVersion: string,
                                        toVersion: string)
    requires Inv(doc)
    ensures var r := RollbackUninterrupted(doc, identity, fromVersion, toVersion);
            var one := StepSystem(config, System(doc, [RollbackStart(identity, fromVersion, toVersion)]), Advance(0));
            var two := StepSystem(config, one, Advance(0));
            && two.doc == Settled(doc, r)
            && |two.threads| == 1 && two.threads[0].Done?
            && (two.threads[0].result.Ok? <==> r.Ok?)
            && (r.Err? ==> two.threads[0].result == Err(r.error))
            && (r.Ok? ==> ProductionOf(doc, identity.Key()).value.version == fromVersion
                          && two.threads[0].result.value.version == toVersion)
  {
    hide Identity.Key, ProductionOf, Rollback, StepSystem, Inv;
    if Rollback(doc, identity, toVersion).Ok? {
      RollbackAnswers(doc, identity, toVersion);
    }
    var t1 := Advanced(config, doc, RollbackStart(identity, fromVersion, toVersion));
    LoneThreadStep(config, doc, RollbackStart(identity, fromVersion, toVersion));
    LoneThreadStep(config, doc, t1);
  }

  /** An uninterrupted rollback succeeds exactly when the named version is its key's in production and the target
      is a champion of it. Without a production version nothing is found, and any other refusal is a rollback
      error. */
  lemma RollbackCallSucceedsExactly(doc: Document, identity: Identity, fromVersion: string, toVersion: string)
    requires Inv(doc)
    ensures var r := RollbackUninterrupted(doc, identity, fromVersion, toVersion);
            var vacant := forall m :: m in doc.models ==> m.stage != Production || m.identity.Key() != identity.Key();
            && (r.Ok? <==>
                  && (exists m :: m in doc.models && m.stage == Production && m.identity.Key() == identity.Key()
                                  && m.version == fromVersion)
                  && (exists m :: m in doc.models && m.stage == Champion && m.identity.Key() == identity.Key()
                                  && m.version == toVersion))
            && (r.Err? ==> r.error == if vacant then ModelNotFoundError else RollbackError)
  {
    hide Identity.Key, ModelVersion.Ref, Inv, ProductionOf, Rollback;
    ProductionIsExact(doc, identity.Key());
    RollbackSucceedsExactly(doc, identity, toVersion);
    ErrorsAreExact(doc, "", Production, identity, toVersion);
    var production := ProductionOf(doc, identity.Key());
    if production.Ok? {
      assert production == Ok(production.value);
    }
  }

  lemma RollbackAnswers(doc: Document, identity: Identity, toVersion: string)
    requires Inv(doc) && Rollback(doc, identity, toVersion).Ok?
    ensures var after := ProductionOf(Rollback(doc, identity, toVersion).value, identity.Key());
            after.Ok? && after.value.version == toVersion
  {
    hide Identity.Key, ProductionOf, Rollback, Inv;
    RollbackDecidesProduction(doc, identity, toVersion);
  }

  lemma LoneThreadStep(config: PolicyConfig, doc: Document, t: Thread)
    ensures StepSystem(config, System(doc, [t]), Advance(0))
         == System(match Act(t) case Some(op) => Next(doc, op) case None => doc, [Advanced(config, doc, t)])
  {
    hide Advanced, Apply, Next;
  }

  lemma PromotedIsStored(doc: Document, ref: string)
    requires Promote(doc, ref).Ok?
    ensures Get(Promote(doc, ref).value, ref) == Ok(AtStage(Get(doc, ref).value, Production))
  {
    hide Identity.Key, ModelVersion.Ref, Indices, Locate;
    SameRefs(doc.models, Promote(doc, ref).value.models, ref);
  }

  // ----- bounded degradation -----

  datatype GovernedOp = Plain(op: Op) | Service(ref: string)

  predicate Allowed(g: GovernedOp) {
    g.Plain? ==> g.op.DoRegister? || (g.op.DoTransition? && g.op.target != Production)
  }

  /** Value at the last entry into production without an incumbent, and the replacements since. */
  datatype Tenure = Tenure(first: real, replacements: nat)

  datatype Chain = Chain(doc: Document, tenures: map<string, Tenure>)

  function Recorded(m: ModelVersion, metric: string): real {
    if metric in m.metrics then m.metrics[metric] else 0.0
  }

  function ChainStep(config: PolicyConfig, metric: string, c: Chain, g: GovernedOp): Chain {
    match g
    case Plain(op) => Chain(Next(c.doc, op), c.tenures)
    case Service(ref) =>
      match PromoteUninterrupted(config, c.doc, ref)
      case Err(_) => c
      case Ok(next) =>
        var candidate := Get(c.doc, ref).value;
        var key := candidate.identity.Key();
        var tenure :=
          if Incumbent(c.doc, candidate.identity).Some? && key in c.tenures
          then Tenure(c.tenures[key].first, c.tenures[key].replacements + 1)
          else Tenure(Recorded(candidate, metric), 0);
        Chain(next, c.tenures[key := tenure])
  }

  function ChainRun(config: PolicyConfig, metric: string, ops: seq<GovernedOp>): Chain {
    if ops == [] then Chain(EMPTY, map[])
    else ChainStep(config, metric, ChainRun(config, metric, ops[..|ops| - 1]), ops[|ops| - 1])
  }

  ghost predicate Bounded(c: Chain, m: ModelVersion, metric: string, drop: real) {
    && m.identity.Key() in c.tenures
    && metric in m.metrics
    && m.metrics[metric] >=
         c.tenures[m.identity.Key()].first - (c.tenures[m.identity.Key()].replacements as real) * drop
  }

  ghost predicate ChainSound(config: PolicyConfig, c: Chain, metric: string, drop: real) {
    && Inv(c.doc)
    && forall i :: 0 <= i < |c.doc.models| && c.doc.models[i].stage == Production ==>
         MeetsFloors(config, c.doc.models[i].metrics) && Bounded(c, c.doc.models[i], metric, drop)
  }

  ghost predicate FlooredAndLimited(config: PolicyConfig, metric: string, drop: real) {
    (exists floor :: (metric, floor) in config.required) && (metric, drop) in config.maxDrop
  }

  lemma PlainStepIsSound(config: PolicyConfig, c: Chain, op: Op, metric: string, drop: real)
    requires ChainSound(config, c, metric, drop) && Allowed(Plain(op))
    ensures ChainSound(config, Chain(Next(c.doc, op), c.tenures), metric, drop)
  {
    NextKeepsInv(c.doc, op);
    hide Identity.Key, MeetsFloors, Inv, Apply;
    var next := Next(c.doc, op);
    forall i | 0 <= i < |next.models| && next.models[i].stage == Production
      ensures MeetsFloors(config, next.models[i].metrics)
          && Bounded(Chain(next, c.tenures), next.models[i], metric, drop)
    {
      EntersByPromotionOnly(c.doc, op, i);
    }
  }

  /** The tenure of the promoted model's key bounds its value. */
  lemma PromotedIsBounded(config: PolicyConfig, c: Chain, ref: string, metric: string, drop: real)
    requires ChainSound(config, c, metric, drop) && FlooredAndLimited(config, metric, drop)
    requires PromoteUninterrupted(config, c.doc, ref).Ok?
    ensures MeetsFloors(config, Get(c.doc, ref).value.metrics)
    ensures Bounded(ChainStep(config, metric, c, Service(ref)), Get(c.doc, ref).value, metric, drop)
  {
    hide Identity.Key, Promote;
    var candidate := Get(c.doc, ref).value;
    var floor :| (metric, floor) in config.required;
    var i :| 0 <= i < |config.required| && config.required[i] == (metric, floor);
    assert MeetsFloor(candidate.metrics, config.required[i]);
    var incumbent := Incumbent(c.doc, candidate.identity);
    if incumbent.Some? {
      ProductionIsExact(c.doc, candidate.identity.Key());
      var k :| 0 <= k < |c.doc.models| && c.doc.models[k] == incumbent.value;
      assert Bounded(c, c.doc.models[k], metric, drop);
      ApprovedDropIsBounded(config, candidate.metrics, incumbent.value.metrics, metric, drop);
      var n := c.tenures[candidate.identity.Key()].replacements;
      assert ((n + 1) as real) * drop == (n as real) * drop + drop;
    }
  }

  lemma ServiceStepIsSound(config: PolicyConfig, c: Chain, ref: string, metric: string, drop: real)
    requires ChainSound(config, c, metric, drop) && FlooredAndLimited(config, metric, drop)
    requires PromoteUninterrupted(config, c.doc, ref).Ok?
    ensures ChainSound(config, ChainStep(config, metric, c, Service(ref)), metric, drop)
  {
    NextKeepsInv(c.doc, DoPromote(ref));
    PromotedIsBounded(config, c, ref, metric, drop);
    hide Identity.Key, ModelVersion.Ref, MeetsFloors, Inv, Approves, Incumbent, Indices, Locate, Recorded, Bounded;
    var next := ChainStep(config, metric, c, Service(ref));
    var up := Locate(c.doc.models, ref).value;
    var down := Indices(c.doc.models, InProduction(c.doc.models[up].identity.Key()));
    SwapIsSound(config, c, next, up, down, metric, drop);
  }

  lemma SwapIsSound(config: PolicyConfig, c: Chain, next: Chain, up: nat, down: seq<nat>, metric: string, drop: real)
    requires ChainSound(config, c, metric, drop) && Inv(next.doc) && up < |c.doc.models|
    requires next.doc.models == Swap(c.doc.models, up, down)
    requires forall i | 0 <= i < |c.doc.models| ::
               Matches(InProduction(c.doc.models[up].identity.Key()), c.doc.models[i]) ==> i in down
    requires forall key :: key != c.doc.models[up].identity.Key() && key in c.tenures ==>
               key in next.tenures && next.tenures[key] == c.tenures[key]
    requires MeetsFloors(config, c.doc.models[up].metrics) && Bounded(next, c.doc.models[up], metric, drop)
    ensures ChainSound(config, next, metric, drop)
  {
    hide Identity.Key, ModelVersion.Ref, MeetsFloors, Inv;
    forall i | 0 <= i < |next.doc.models| && next.doc.models[i].stage == Production
      ensures MeetsFloors(config, next.doc.models[i].metrics) && Bounded(next, next.doc.models[i], metric, drop)
    {
      if i != up {
        assert i !in down && next.doc.models[i] == c.doc.models[i];
        assert c.doc.models[i].identity.Key() != c.doc.models[up].identity.Key();
      }
    }
  }

  /** When production is entered by uninterrupted promotions only, then in every run, for a metric both
      floored and drop-limited, a production value is at least the first one of its tenure less the
      allowed drop for each replacement since. */
  lemma {:induction false} DegradationIsBounded(config: PolicyConfig, ops: seq<GovernedOp>, metric: string, drop: real)
    requires FlooredAndLimited(config, metric, drop) && forall g :: g in ops ==> Allowed(g)
    ensures ChainSound(config, ChainRun(config, metric, ops), metric, drop)
  {
    if ops != [] {
      var before, g := ops[..|ops| - 1], ops[|ops| - 1];
      assert forall o :: o in before ==> o in ops;
      DegradationIsBounded(config, before, metric, drop);
      var c := ChainRun(config, metric, before);
      match g
      case Plain(op) => PlainStepIsSound(config, c, op, metric, drop);
      case Service(ref) =>
        if PromoteUninterrupted(config, c.doc, ref).Ok? {
          ServiceStepIsSound(config, c, ref, metric, drop);
        }
    }
  }

  // ----- the service objects -----

  function StoredAfter(file: FileContent, r: Result<Document>, diskOk: bool): FileContent {
    if r.Ok? && diskOk then Json(SCHEMA_VERSION, r.value) else file
  }

  datatype Promoted = Promoted(model: ModelVersion, decision: Promotion.Decision)

  /** The decision that approves a candidate: no reasons, and the versions compared. */
  function Approval(doc: Document, candidate: ModelVersion): Promotion.Decision {
    var incumbent := Incumbent(doc, candidate.identity);
    Promotion.Decision(true, [], candidate.version, if incumbent.Some? then Some(incumbent.value.version) else None)
  }

  class PromotionService {
    const registry: FileModelRegistry
    const config: PolicyConfig

    constructor (registry: FileModelRegistry, config: PolicyConfig)
      ensures this.registry == registry && this.config == config
    {
      this.registry := registry;
      this.config := config;
    }

    /** Changes the stored registry exactly as the uninterrupted promotion does, and answers with the stored
        record and the approving decision, or with the first error. */
    method Promote(candidateRef: string, diskOk: bool) returns (r: Result<Promoted>)
      modifies registry
      ensures match Read(old(registry.file))
              case Err(error) => r == Err(error) && registry.file == old(registry.file)
              case Ok(doc) =>
                var outcome := PromoteUninterrupted(config, doc, candidateRef);
                && registry.file == StoredAfter(old(registry.file), outcome, diskOk)
                && (outcome.Err? ==> r == Err(outcome.error))
                && (outcome.Ok? && !diskOk ==> r == Err(ModelRegistryError))
                && (outcome.Ok? && diskOk ==>
                      && r.Ok? && Get(outcome.value, candidateRef) == Ok(r.value.model)
                      && r.value.decision == Approval(doc, Get(doc, candidateRef).value))
      ensures old(registry.Valid()) ==> registry.Valid()
    {
      hide Inv, Identity.Key, ModelVersion.Ref, Approves;
      var candidate := registry.GetModel(candidateRef);
      if candidate.Err? {
        return Err(candidate.error);
      }
      if candidate.value.stage != Champion {
        return Err(PromotionRejectedError);
      }
      var current := registry.ProductionModel(candidate.value.identity);
      var incumbent := if current.Ok? then Some(current.value) else None;
      var decision := Evaluate(config, candidate.value, incumbent);
      if !decision.approved {
        return Err(PromotionRejectedError);
      }
      ghost var doc := Read(registry.file).value;
      if Registry.Promote(doc, candidateRef).Ok? {
        PromotedIsStored(doc, candidateRef);
      }
      var promoted := registry.PromoteToProduction(candidateRef, diskOk);
      r := if promoted.Ok? then Ok(Promoted(promoted.value, decision)) else Err(promoted.error);
    }
  }

  class RollbackService {
    const registry: FileModelRegistry

    constructor (registry: FileModelRegistry)
      ensures this.registry == registry
    {
      this.registry := registry;
    }

    /** Succeeds exactly when the named version is in production and the registry can roll back to the target;
        so an uninterrupted call takes out exactly the version the request names. */
    method Execute(identity: Identity, fromVersion: string, toVersion: string, diskOk: bool)
      returns (r: Result<ModelVersion>)
      modifies registry
      ensures r.Ok? <==>
                && diskOk && Read(old(registry.file)).Ok?
                && ProductionOf(Read(old(registry.file)).value, identity.Key()).Ok?
                && ProductionOf(Read(old(registry.file)).value, identity.Key()).value.version == fromVersion
                && Rollback(Read(old(registry.file)).value, identity, toVersion).Ok?
      ensures r.Ok? ==>
                && Read(old(registry.file)).Ok? && Read(registry.file).Ok?
                && Rollback(Read(old(registry.file)).value, identity, toVersion) == Ok(Read(registry.file).value)
                && Matches(WithVersion(identity.Key(), toVersion), r.value) && r.value.stage == Production
      ensures r.Err? ==> registry.file == old(registry.file)
      ensures match Read(old(registry.file))
              case Err(error) => r == Err(error)
              case Ok(doc) =>
                var outcome := RollbackUninterrupted(doc, identity, fromVersion, toVersion);
                && registry.file == StoredAfter(old(registry.file), outcome, diskOk)
                && (outcome.Err? ==> r == Err(outcome.error))
                && (outcome.Ok? && !diskOk ==> r == Err(ModelRegistryError))
      ensures old(registry.Valid()) ==> registry.Valid()
    {
      hide Inv, Identity.Key, ModelVersion.Ref, ProductionOf;
      var current := registry.ProductionModel(identity);
      if current.Err? {
        return Err(current.error);
      }
      if current.value.version != fromVersion {
        return Err(RollbackError);
      }
      FailedCallChangesNothing(registry.file, DoRollback(identity, toVersion), diskOk);
      r := registry.Rollback(identity, toVersion, diskOk);
    }
  }
}
