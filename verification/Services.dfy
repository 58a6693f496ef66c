/** Promotion and rollback services: they read the registry in one call and act on it in a later one,
    so other callers may run in between. */
module Services {
  import opened Wrappers
  import opened Domain
  import opened Registry
  import opened RegistryInvariants
  import opened Promotion

  // ----- threads -----

  /** A service call between two of its registry accesses. */
  datatype Thread =
    | PromoteStart(ref: string)
    | PromoteRead(ref: string, candidate: ModelVersion)
    | PromoteReady(ref: string, candidate: ModelVersion)
    | RollbackStart(identity: Identity, fromVersion: string, toVersion: string)
    | RollbackReady(identity: Identity, fromVersion: string, toVersion: string)
    | Done(result: Result<ModelVersion>)

  function Incumbent(doc: Document, identity: Identity): Option<ModelVersion> {
    match ProductionOf(doc, identity.Key()) case Ok(m) => Some(m) case Err(_) => None
  }

  /** The registry operation a thread's next access performs, if it is the acting one. */
  function Act(t: Thread): Option<Op> {
    match t
    case PromoteReady(ref, _) => Some(DoPromote(ref))
    case RollbackReady(identity, _, toVersion) => Some(DoRollback(identity, toVersion))
    case _ => None
  }

  function Advanced(config: PolicyConfig, doc: Document, t: Thread): Thread {
    match t
    case PromoteStart(ref) =>
      (match Get(doc, ref)
       case Err(error) => Done(Err(error))
       case Ok(candidate) =>
         if candidate.stage != Champion then Done(Err(PromotionRejectedError)) else PromoteRead(ref, candidate))
    case PromoteRead(ref, candidate) =>
      if Approves(config, candidate.metrics, MetricsOf(Incumbent(doc, candidate.identity)))
      then PromoteReady(ref, candidate)
      else Done(Err(PromotionRejectedError))
    case PromoteReady(ref, _) =>
      (match Promote(doc, ref) case Err(error) => Done(Err(error)) case Ok(next) => Done(Get(next, ref)))
    case RollbackStart(identity, fromVersion, toVersion) =>
      (match ProductionOf(doc, identity.Key())
       case Err(error) => Done(Err(error))
       case Ok(current) =>
         if current.version != fromVersion then Done(Err(RollbackError))
         else RollbackReady(identity, fromVersion, toVersion))
    case RollbackReady(identity, _, toVersion) =>
      (match Rollback(doc, identity, toVersion)
       case Err(error) => Done(Err(error))
       case Ok(next) => Done(ProductionOf(next, identity.Key())))
    case Done(_) => t
  }

  // ----- interleavings -----

  datatype System = System(doc: Document, threads: seq<Thread>)

  datatype Event =
    | Call(op: Op)
    | Spawn(thread: Thread)
    | Advance(index: nat)

  /** The registry operation an event performs. */
  function OpOf(sys: System, e: Event): Option<Op> {
    match e
    case Call(op) => Some(op)
    case Spawn(_) => None
    case Advance(i) => if i < |sys.threads| then Act(sys.threads[i]) else None
  }

  function StepSystem(config: PolicyConfig, sys: System, e: Event): System {
    var doc := match OpOf(sys, e) case Some(op) => Next(sys.doc, op) case None => sys.doc;
    match e
    case Call(_) => System(doc, sys.threads)
    case Spawn(t) => System(doc, if t.PromoteStart? || t.RollbackStart? then sys.threads + [t] else sys.threads)
    case Advance(i) =>
      System(doc,
             if i < |sys.threads| then sys.threads[i := Advanced(config, sys.doc, sys.threads[i])] else sys.threads)
  }

  function RunSystem(config: PolicyConfig, events: seq<Event>): System {
    if events == [] then System(EMPTY, [])
    else StepSystem(config, RunSystem(config, events[..|events| - 1]), events[|events| - 1])
  }

  /** The registry operations an interleaving performs, in order. */
  function OpsOf(config: PolicyConfig, events: seq<Event>): seq<Op> {
    if events == [] then []
    else
      var before := events[..|events| - 1];
      OpsOf(config, before) +
      match OpOf(RunSystem(config, before), events[|events| - 1]) case Some(op) => [op] case None => []
  }

  /** Every interleaving of services and direct callers is a run of the atomic registry: whatever is
      proved of registry runs holds in it. In particular references stay distinct and each key has at most
      one production version at every moment. */
  lemma {:induction false} InterleavingIsARun(config: PolicyConfig, events: seq<Event>)
    ensures RunSystem(config, events).doc == Run(OpsOf(config, events))
    ensures Inv(RunSystem(config, events).doc)
  {
    RunKeepsInv(OpsOf(config, events));
    if events != [] {
      var before := events[..|events| - 1];
      InterleavingIsARun(config, before);
      var op := OpOf(RunSystem(config, before), events[|events| - 1]);
      if op.Some? {
        assert (OpsOf(config, before) + [op.value])[..|OpsOf(config, before)|] == OpsOf(config, before);
      } else {
        assert OpsOf(config, events) == OpsOf(config, before);
      }
    }
  }

  // ----- floors hold in every interleaving -----

  /** Events that enter production through the promotion service only. */
  predicate Governed(e: Event) {
    match e
    case Call(DoRegister(_)) => true
    case Call(DoTransition(_, target)) => target != Production
    case Call(_) => false
    case Spawn(t) => t.PromoteStart?
    case Advance(_) => true
  }

  /** The record stored under `ref` is `m` but for its stage. */
  ghost predicate StoredAs(doc: Document, ref: string, m: ModelVersion) {
    var found := Locate(doc.models, ref);
    found.Some? && doc.models[found.value] == AtStage(m, doc.models[found.value].stage)
  }

  ghost predicate FloorsHold(config: PolicyConfig, sys: System) {
    && (forall i :: 0 <= i < |sys.doc.models| && sys.doc.models[i].stage == Production
                    ==> MeetsFloors(config, sys.doc.models[i].metrics))
    && (forall t :: t in sys.threads ==>
          && (t.PromoteRead? ==> StoredAs(sys.doc, t.ref, t.candidate))
          && (t.PromoteReady? ==> StoredAs(sys.doc, t.ref, t.candidate) && MeetsFloors(config, t.candidate.metrics))
          && !t.RollbackStart? && !t.RollbackReady?)
  }

  lemma StoredAsPersists(doc: Document, op: Op, ref: string, m: ModelVersion)
    requires Inv(doc) && StoredAs(doc, ref, m)
    ensures StoredAs(Next(doc, op), ref, m)
  {
    var i := Locate(doc.models, ref).value;
    StepFrame(doc, op);
    NextKeepsInv(doc, op);
    assert Evolves(doc.models[i], Next(doc, op).models[i]);
    assert Next(doc, op).models[i].Ref() == ref;
    LocateFinds(Next(doc, op), i);
  }

  /** Of the governed operations only a promotion can bring a record into production. */
  lemma EntersByPromotionOnly(doc: Document, op: Op, i: nat)
    requires i < |Next(doc, op).models| && Next(doc, op).models[i].stage == Production
    requires op.DoRegister? || (op.DoTransition? && op.target != Production) || op.DoPromote?
    requires op.DoPromote? ==> Locate(doc.models, op.ref) != Some(i)
    ensures i < |doc.models| && doc.models[i] == Next(doc, op).models[i]
  {
    hide Identity.Key, ModelVersion.Ref;
    StepFrame(doc, op);
  }

  lemma StepKeepsFloors(config: PolicyConfig, sys: System, e: Event)
    requires Inv(sys.doc) && FloorsHold(config, sys) && Governed(e)
    ensures FloorsHold(config, StepSystem(config, sys, e))
  {
    var next := StepSystem(config, sys, e);
    DocumentKeepsFloors(config, sys, e);
    forall t | t in next.threads
      ensures t.PromoteRead? ==> StoredAs(next.doc, t.ref, t.candidate)
      ensures t.PromoteReady? ==> StoredAs(next.doc, t.ref, t.candidate) && MeetsFloors(config, t.candidate.metrics)
      ensures !t.RollbackStart? && !t.RollbackReady?
    {
      ThreadKeepsFloors(config, sys, e, t);
    }
  }

  lemma DocumentKeepsFloors(config: PolicyConfig, sys: System, e: Event)
    requires Inv(sys.doc) && FloorsHold(config, sys) && Governed(e)
    ensures var doc := StepSystem(config, sys, e).doc;
            forall i :: 0 <= i < |doc.models| && doc.models[i].stage == Production
                ==> MeetsFloors(config, doc.models[i].metrics)
  {
    hide Identity.Key, ModelVersion.Ref, MeetsFloors, Locate, Apply;
    var op := OpOf(sys, e);
    if op.Some? {
      var doc := StepSystem(config, sys, e).doc;
      assert op.value.DoPromote? ==> sys.threads[e.index] in sys.threads;
      assert op.value.DoRegister? || (op.value.DoTransition? && op.value.target != Production) || op.value.DoPromote?;
      StepFrame(sys.doc, op.value);
      forall i | 0 <= i < |doc.models| && doc.models[i].stage == Production
        ensures MeetsFloors(config, doc.models[i].metrics)
      {
        if op.value.DoPromote? && Locate(sys.doc.models, op.value.ref) == Some(i) {
          var t := sys.threads[e.index];
          assert StoredAs(sys.doc, t.ref, t.candidate) && MeetsFloors(config, t.candidate.metrics);
          assert Evolves(sys.doc.models[i], doc.models[i]);
        } else {
          EntersByPromotionOnly(sys.doc, op.value, i);
        }
      }
    }
  }

  lemma ThreadKeepsFloors(config: PolicyConfig, sys: System, e: Event, t: Thread)
    requires Inv(sys.doc) && FloorsHold(config, sys) && Governed(e)
    requires t in StepSystem(config, sys, e).threads
    ensures var doc := StepSystem(config, sys, e).doc;
            && (t.PromoteRead? ==> StoredAs(doc, t.ref, t.candidate))
            && (t.PromoteReady? ==> StoredAs(doc, t.ref, t.candidate) && MeetsFloors(config, t.candidate.metrics))
            && !t.RollbackStart? && !t.RollbackReady?
  {
    hide Identity.Key, ModelVersion.Ref, Locate, Apply;
    var doc := StepSystem(config, sys, e).doc;
    if t in sys.threads {
      var op := OpOf(sys, e);
      if op.Some? && (t.PromoteRead? || t.PromoteReady?) {
        StoredAsPersists(sys.doc, op.value, t.ref, t.candidate);
      }
    } else if e.Advance? {
      var was := sys.threads[e.index];
      assert was in sys.threads && t == Advanced(config, sys.doc, was);
    }
  }

  /** In every interleaving in which production is entered through the promotion service only, every
      production model meets every metric floor, however stale the incumbent a thread compared with. */
  lemma {:induction false} GovernedProductionMeetsFloors(config: PolicyConfig, events: seq<Event>)
    requires forall e :: e in events ==> Governed(e)
    ensures FloorsHold(config, RunSystem(config, events))
  {
    if events != [] {
      var before := events[..|events| - 1];
      assert forall e :: e in before ==> e in events;
      GovernedProductionMeetsFloors(config, before);
      InterleavingIsARun(config, before);
      StepKeepsFloors(config, RunSystem(config, before), events[|events| - 1]);
    }
  }

  // ----- what a rollback check does not protect -----

  /** A rollback from p to t is checked, then q is promoted, then the rollback acts. */
  function Race(config: PolicyConfig, doc: Document, p: ModelVersion, q: ModelVersion, t: ModelVersion): System {
    var request := RollbackStart(p.identity, p.version, t.version);
    var checked := StepSystem(config, System(doc, [request]), Advance(0));
    var raced := StepSystem(config, checked, Call(DoPromote(q.Ref())));
    StepSystem(config, raced, Advance(0))
  }

  /** Between a rollback's check and its act another caller may promote: the rollback then succeeds and
      takes out a version other than the one the request named. */
  lemma RollbackMayReplaceAnotherVersion(config: PolicyConfig, doc: Document, p: nat, q: nat, t: nat)
    requires Inv(doc) && p < |doc.models| && q < |doc.models| && t < |doc.models| && q != t
    requires doc.models[p].stage == Production && doc.models[q].stage == Champion && doc.models[t].stage == Champion
    requires doc.models[q].identity.Key() == doc.models[p].identity.Key() == doc.models[t].identity.Key()
    ensures var acted := Race(config, doc, doc.models[p], doc.models[q], doc.models[t]);
            && acted.threads == [Done(Ok(AtStage(doc.models[t], Production)))]
            && acted.doc.models == Swap(Swap(doc.models, q, [p]), t, [q])
            && |acted.doc.events| == |doc.events| + 2
            && acted.doc.events[|doc.events| + 1].otherVersion == Some(doc.models[q].version)
    ensures doc.models[q].version != doc.models[p].version
  {
    PromoteAt(doc, q, p) by {
      SearchFinds(doc, InProduction(doc.models[p].identity.Key()), p);
    }
    DifferentVersions(doc, p, q);
    RollbackCheckPasses(config, doc, p, doc.models[t].version);
    hide Identity.Key, ModelVersion.Ref, Inv, Indices, Locate, Promote, Rollback, Advanced;
    var promoted := Next(doc, DoPromote(doc.models[q].Ref()));
    assert promoted.models == Swap(doc.models, q, [p]);
    NextKeepsInv(doc, DoPromote(doc.models[q].Ref()));
    RollbackAt(promoted, doc.models[p].identity, t, q);
    RollbackThreadActs(config, promoted, doc.models[p].identity, doc.models[p].version, doc.models[t].version);
  }

  lemma RollbackCheckPasses(config: PolicyConfig, doc: Document, p: nat, toVersion: string)
    requires Inv(doc) && p < |doc.models| && doc.models[p].stage == Production
    ensures var (identity, version) := (doc.models[p].identity, doc.models[p].version);
            StepSystem(config, System(doc, [RollbackStart(identity, version, toVersion)]), Advance(0))
            == System(doc, [RollbackReady(identity, version, toVersion)])
  {
    SearchFinds(doc, InProduction(doc.models[p].identity.Key()), p);
  }

  lemma RollbackThreadActs(config: PolicyConfig, doc: Document, identity: Identity, fromVersion: string,
                           toVersion: string)
    requires Rollback(doc, identity, toVersion).Ok?
    ensures var next := Rollback(doc, identity, toVersion).value;
            StepSystem(config, System(doc, [RollbackReady(identity, fromVersion, toVersion)]), Advance(0))
            == System(next, [Done(ProductionOf(next, identity.Key()))])
  {
    hide Identity.Key, Rollback, ProductionOf;
  }

  lemma DifferentVersions(doc: Document, p: nat, q: nat)
    requires Inv(doc) && p < |doc.models| && q < |doc.models| && p != q
    requires doc.models[q].identity.Key() == doc.models[p].identity.Key()
    ensures doc.models[q].version != doc.models[p].version
  {
    assert doc.models[p].Ref() != doc.models[q].Ref();
  }

  lemma RollbackAt(doc: Document, identity: Identity, up: nat, down: nat)
    requires Inv(doc) && up < |doc.models| && down < |doc.models|
    requires doc.models[up].stage == Champion && doc.models[down].stage == Production
    requires doc.models[up].identity.Key() == identity.Key() == doc.models[down].identity.Key()
    ensures var r := Rollback(doc, identity, doc.models[up].version);
            && r.Ok?
            && r.value.models == Swap(doc.models, up, [down])
            && |r.value.events| == |doc.events| + 1
            && r.value.events[|doc.events|].otherVersion == Some(doc.models[down].version)
            && ProductionOf(r.value, identity.Key()) == Ok(AtStage(doc.models[up], Production))
  {
    hide Identity.Key, ModelVersion.Ref, Inv, Indices, Locate;
    SearchFinds(doc, InProduction(identity.Key()), down);
    SearchFinds(doc, WithVersion(identity.Key(), doc.models[up].version), up);
    NextKeepsInv(doc, DoRollback(identity, doc.models[up].version));
    SearchFinds(Rollback(doc, identity, doc.models[up].version).value, InProduction(identity.Key()), up);
  }
}
