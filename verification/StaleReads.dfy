/** What a service's earlier read still says when the service acts: which interposed calls leave the production
    record it read in place. */
module StaleReads {
  import opened Wrappers
  import opened Domain
  import opened Registry
  import opened RegistryInvariants
  import opened Promotion
  import opened Services

  // ----- one interposed operation -----

  ghost predicate Serves(doc: Document, i: nat) {
    i < |doc.models| && doc.models[i].stage == Production
  }

  /** The operation succeeds and takes record i, if it is in production, out of it: a transition of it, or a
      promotion or a rollback of its key. */
  ghost predicate Takes(doc: Document, op: Op, i: nat)
    requires i < |doc.models|
  {
    Apply(doc, op).Ok? &&
    match op
    case DoRegister(_) => false
    case DoTransition(ref, _) => ref == doc.models[i].Ref()
    case DoPromote(ref) => Get(doc, ref).Ok? && Get(doc, ref).value.identity.Key() == doc.models[i].identity.Key()
    case DoRollback(identity, _) => identity.Key() == doc.models[i].identity.Key()
  }

  /** The operation succeeds and brings record i into production. */
  ghost predicate Brings(doc: Document, op: Op, i: nat)
    requires i < |doc.models|
  {
    Apply(doc, op).Ok? &&
    match op
    case DoRegister(_) => false
    case DoTransition(ref, target) => ref == doc.models[i].Ref() && target == Production
    case DoPromote(ref) => ref == doc.models[i].Ref()
    case DoRollback(identity, toVersion) => Matches(WithVersion(identity.Key(), toVersion), doc.models[i])
  }

  lemma TransitionMoves(doc: Document, ref: string, target: Stage, i: nat)
    requires Inv(doc) && i < |doc.models| && Transition(doc, ref, target).Ok?
    ensures var next := Transition(doc, ref, target).value;
            && |next.models| == |doc.models|
            && next.models[i].stage == (if ref == doc.models[i].Ref() then target else doc.models[i].stage)
            && (ref == doc.models[i].Ref() ==> doc.models[i].stage != target)
  {
    hide Identity.Key, ModelVersion.Ref, Locate, OtherInProduction;
    LocateFinds(doc, i);
  }

  lemma SwapMoves(doc: Document, up: nat, i: nat)
    requires Inv(doc) && up < |doc.models| && i < |doc.models| && doc.models[up].stage == Champion
    ensures var key := doc.models[up].identity.Key();
            var next := Swap(doc.models, up, Indices(doc.models, InProduction(key)));
            next[i].stage == Production <==>
              i == up || (doc.models[i].stage == Production && doc.models[i].identity.Key() != key)
  {
    hide Identity.Key, ModelVersion.Ref, Inv;
  }

  /** After one operation record i serves exactly when it did and the operation does not take it out, or the
      operation brings it in; an operation that brings it in finds it elsewhere. */
  lemma ServesAfterExactly(doc: Document, op: Op, i: nat)
    requires Inv(doc) && i < |doc.models|
    ensures Serves(Next(doc, op), i) <==> (Serves(doc, i) && !Takes(doc, op, i)) || Brings(doc, op, i)
    ensures Brings(doc, op, i) ==> !Serves(doc, i)
  {
    hide Identity.Key, ModelVersion.Ref, Locate, Indices, Inv;
    StepFrame(doc, op);
    match op
    case DoRegister(_) => RegisterMoves(doc, op, i);
    case DoTransition(ref, target) =>
      if Transition(doc, ref, target).Ok? {
        TransitionMoves(doc, ref, target, i);
      }
    case DoPromote(ref) =>
      if Promote(doc, ref).Ok? {
        PromoteMoves(doc, ref, i);
      }
    case DoRollback(identity, toVersion) =>
      if Rollback(doc, identity, toVersion).Ok? {
        RollbackMoves(doc, identity, toVersion, i);
      }
  }

  lemma RegisterMoves(doc: Document, op: Op, i: nat)
    requires i < |doc.models| && op.DoRegister?
    ensures |Next(doc, op).models| >= |doc.models| && Next(doc, op).models[i] == doc.models[i]
  {
    hide Identity.Key, ModelVersion.Ref, Locate;
  }

  lemma PromoteMoves(doc: Document, ref: string, i: nat)
    requires Inv(doc) && i < |doc.models| && Promote(doc, ref).Ok?
    ensures var next := Promote(doc, ref).value;
            && |next.models| == |doc.models|
            && (Serves(next, i) <==> (Serves(doc, i) && !Takes(doc, DoPromote(ref), i)) || ref == doc.models[i].Ref())
            && (ref == doc.models[i].Ref() ==> !Serves(doc, i))
  {
    var up := Locate(doc.models, ref).value;
    LocateFinds(doc, i);
    hide Identity.Key, ModelVersion.Ref, Locate, Indices, Inv;
    SwapMoves(doc, up, i);
    assert ref == doc.models[i].Ref() <==> i == up;
  }

  lemma RollbackMoves(doc: Document, identity: Identity, toVersion: string, i: nat)
    requires Inv(doc) && i < |doc.models| && Rollback(doc, identity, toVersion).Ok?
    ensures var next, op := Rollback(doc, identity, toVersion).value, DoRollback(identity, toVersion);
            && |next.models| == |doc.models|
            && (Serves(next, i) <==> (Serves(doc, i) && !Takes(doc, op, i)) || Brings(doc, op, i))
            && (Brings(doc, op, i) ==> !Serves(doc, i))
  {
    hide Identity.Key, ModelVersion.Ref, Locate, Indices, Inv;
    var up := Indices(doc.models, WithVersion(identity.Key(), toVersion))[0];
    assert up in Indices(doc.models, WithVersion(identity.Key(), toVersion));
    SwapMoves(doc, up, i);
    if Matches(WithVersion(identity.Key(), toVersion), doc.models[i]) {
      SearchFinds(doc, WithVersion(identity.Key(), toVersion), i);
    }
  }

  // ----- any interposed operations -----

  function RunFrom(doc: Document, ops: seq<Op>): Document {
    if ops == [] then doc else Next(RunFrom(doc, ops[..|ops| - 1]), ops[|ops| - 1])
  }

  lemma {:induction false} RunFromKeeps(doc: Document, ops: seq<Op>, i: nat)
    requires Inv(doc) && i < |doc.models|
    ensures var after := RunFrom(doc, ops);
            && Inv(after) && i < |after.models|
            && after.models[i] == AtStage(doc.models[i], after.models[i].stage)
  {
    hide Apply, Identity.Key, ModelVersion.Ref, Inv;
    if ops != [] {
      var before := RunFrom(doc, ops[..|ops| - 1]);
      RunFromKeeps(doc, ops[..|ops| - 1], i);
      NextKeepsInv(before, ops[|ops| - 1]);
      StepFrame(before, ops[|ops| - 1]);
      assert Evolves(before.models[i], RunFrom(doc, ops).models[i]);
    }
  }

  ghost predicate TakesAt(doc: Document, ops: seq<Op>, n: nat, i: nat) {
    n < |ops| && i < |RunFrom(doc, ops[..n]).models| && Takes(RunFrom(doc, ops[..n]), ops[n], i)
  }

  ghost predicate BringsAt(doc: Document, ops: seq<Op>, n: nat, i: nat) {
    n < |ops| && i < |RunFrom(doc, ops[..n]).models| && Brings(RunFrom(doc, ops[..n]), ops[n], i)
  }

  ghost function Takings(doc: Document, ops: seq<Op>, i: nat): nat -> bool {
    (n: nat) => TakesAt(doc, ops, n, i)
  }

  ghost function Bringings(doc: Document, ops: seq<Op>, i: nat): nat -> bool {
    (n: nat) => BringsAt(doc, ops, n, i)
  }

  /** Among the first `len` moments, each that switches off is, or is followed by, one that switches on. */
  ghost predicate Undone(off: nat -> bool, on: nat -> bool, len: nat) {
    forall n: nat | n < len && off(n) :: exists m: nat | n <= m < len :: on(m)
  }

  lemma UndoneStep(off: nat -> bool, on: nat -> bool, len: nat)
    ensures Undone(off, on, len + 1) <==> on(len) || (Undone(off, on, len) && !off(len))
  {
    if Undone(off, on, len + 1) && !on(len) {
      forall n: nat | n < len && off(n) ensures exists m: nat | n <= m < len :: on(m) {
        var m: nat :| n <= m < len + 1 && on(m);
        assert m < len;
      }
    }
  }

  /** No operation takes record i out without its being brought back later. */
  ghost predicate Restored(doc: Document, ops: seq<Op>, i: nat) {
    Undone(Takings(doc, ops, i), Bringings(doc, ops, i), |ops|)
  }

  lemma RunFromOneMore(doc: Document, ops: seq<Op>, n: nat)
    requires n < |ops|
    ensures RunFrom(doc, ops[..n + 1]) == Next(RunFrom(doc, ops[..n]), ops[n])
  {
    assert ops[..n + 1][..n] == ops[..n];
  }

  lemma {:induction false} ServesUpTo(doc: Document, ops: seq<Op>, i: nat, len: nat)
    requires Inv(doc) && Serves(doc, i) && len <= |ops|
    ensures Serves(RunFrom(doc, ops[..len]), i) <==>
              Undone(Takings(doc, ops, i), Bringings(doc, ops, i), len)
  {
    if len == 0 {
      assert ops[..0] == [];
    } else {
      var n := len - 1;
      ServesUpTo(doc, ops, i, n);
      RunFromKeeps(doc, ops[..n], i);
      RunFromOneMore(doc, ops, n);
      ServesAfterExactly(RunFrom(doc, ops[..n]), ops[n], i);
      UndoneStep(Takings(doc, ops, i), Bringings(doc, ops, i), n);
      assert Takings(doc, ops, i)(n) == TakesAt(doc, ops, n, i);
      assert Bringings(doc, ops, i)(n) == BringsAt(doc, ops, n, i);
      hide Inv, Takes, Brings, Serves, Next, Undone, RunFrom, Takings, Bringings;
    }
  }

  /** A serving record serves after any operations exactly when none took it out without its being brought
      back later. */
  lemma StillServesExactly(doc: Document, ops: seq<Op>, i: nat)
    requires Inv(doc) && Serves(doc, i)
    ensures Serves(RunFrom(doc, ops), i) <==> Restored(doc, ops, i)
  {
    ServesUpTo(doc, ops, i, |ops|);
    assert ops[..|ops|] == ops;
  }

  // ----- a key without a production record -----

  ghost predicate Vacant(doc: Document, key: string) {
    ProductionOf(doc, key).Err?
  }

  /** The operation succeeds and leaves the key with a production record it may not have had. */
  ghost predicate Fills(doc: Document, op: Op, key: string) {
    Apply(doc, op).Ok? &&
    match op
    case DoRegister(_) => false
    case DoTransition(ref, target) =>
      target == Production && Get(doc, ref).Ok? && Get(doc, ref).value.identity.Key() == key
    case DoPromote(ref) => Get(doc, ref).Ok? && Get(doc, ref).value.identity.Key() == key
    case DoRollback(identity, _) => identity.Key() == key
  }

  /** The operation succeeds and moves the key's production record elsewhere. */
  ghost predicate Empties(doc: Document, op: Op, key: string) {
    Apply(doc, op).Ok? && op.DoTransition? && Get(doc, op.ref).Ok? && Matches(InProduction(key), Get(doc, op.ref).value)
  }

  lemma VacantIsNoRecord(doc: Document, key: string)
    requires Inv(doc)
    ensures Vacant(doc, key) <==> forall i :: 0 <= i < |doc.models| ==> !Matches(InProduction(key), doc.models[i])
  {
    hide Identity.Key, ModelVersion.Ref, Inv;
    ProductionIsExact(doc, key);
    hide ProductionOf;
    if i :| 0 <= i < |doc.models| && Matches(InProduction(key), doc.models[i]) {
      assert doc.models[i] in doc.models;
    }
  }

  lemma RegisterKeepsVacancy(doc: Document, op: Op, key: string)
    requires Inv(doc) && op.DoRegister?
    ensures Vacant(Next(doc, op), key) <==> Vacant(doc, key)
  {
    NextKeepsInv(doc, op);
    StepFrame(doc, op);
    VacantIsNoRecord(doc, key);
    VacantIsNoRecord(Next(doc, op), key);
    hide Identity.Key, ModelVersion.Ref, Inv, Locate, Vacant;
    forall i: nat | i < |doc.models| ensures Next(doc, op).models[i] == doc.models[i] {
      RegisterMoves(doc, op, i);
    }
  }

  lemma TransitionVacatesExactly(doc: Document, ref: string, target: Stage, key: string)
    requires Inv(doc) && Transition(doc, ref, target).Ok?
    ensures var op := DoTransition(ref, target);
            Vacant(Next(doc, op), key) <==> (Vacant(doc, key) && !Fills(doc, op, key)) || Empties(doc, op, key)
  {
    var op, next := DoTransition(ref, target), Transition(doc, ref, target).value;
    var at := Locate(doc.models, ref).value;
    NextKeepsInv(doc, op);
    VacantIsNoRecord(doc, key);
    VacantIsNoRecord(next, key);
    forall i: nat | i < |doc.models|
      ensures next.models[i].identity == doc.models[i].identity
      ensures next.models[i].stage == if i == at then target else doc.models[i].stage
    {
      TransitionMoves(doc, ref, target, i);
      LocateFinds(doc, i);
    }
    TransitionMoves(doc, ref, target, at);
    assert Get(doc, ref) == Ok(doc.models[at]);
    OneMoveVacatesExactly(doc, next.models, at, target, key);
  }

  lemma OneMoveVacatesExactly(doc: Document, after: seq<ModelVersion>, at: nat, target: Stage, key: string)
    requires Inv(doc) && |after| == |doc.models| && at < |after| && doc.models[at].stage != target
    requires forall i: nat :: i < |after| ==> after[i].identity == doc.models[i].identity
    requires forall i: nat :: i < |after| ==> after[i].stage == if i == at then target else doc.models[i].stage
    ensures var q := InProduction(key);
            (forall i :: 0 <= i < |after| ==> !Matches(q, after[i])) <==>
              || ((forall i :: 0 <= i < |after| ==> !Matches(q, doc.models[i]))
                  && !(target == Production && doc.models[at].identity.Key() == key))
              || Matches(q, doc.models[at])
  {
    hide Identity.Key, ModelVersion.Ref, Inv;
    if Matches(InProduction(key), doc.models[at]) {
      forall i: nat | i < |after| ensures !Matches(InProduction(key), after[i]) {
        if Matches(InProduction(key), after[i]) {
          MatchIsUnique(doc, InProduction(key), i, at);
        }
      }
    } else if target == Production && doc.models[at].identity.Key() == key {
      assert Matches(InProduction(key), after[at]);
    } else {
      forall i: nat | i < |after|
        ensures Matches(InProduction(key), after[i]) <==> Matches(InProduction(key), doc.models[i])
      {
      }
    }
  }

  /** After one operation a key is without production record exactly when it was and the operation does not
      fill it, or the operation empties it. */
  lemma VacantAfterExactly(doc: Document, op: Op, key: string)
    requires Inv(doc)
    ensures Vacant(Next(doc, op), key) <==> (Vacant(doc, key) && !Fills(doc, op, key)) || Empties(doc, op, key)
  {
    hide Identity.Key, ModelVersion.Ref, Inv, Locate, Indices, Transition, Register, ProductionOf;
    if Apply(doc, op).Ok? {
      match op
      case DoRegister(_) => RegisterKeepsVacancy(doc, op, key);
      case DoTransition(ref, target) => TransitionVacatesExactly(doc, ref, target, key);
      case DoPromote(ref) => PromoteDecidesProduction(doc, ref);
      case DoRollback(identity, toVersion) => RollbackDecidesProduction(doc, identity, toVersion);
    }
  }

  ghost predicate FillsAt(doc: Document, ops: seq<Op>, n: nat, key: string) {
    n < |ops| && Fills(RunFrom(doc, ops[..n]), ops[n], key)
  }

  ghost predicate EmptiesAt(doc: Document, ops: seq<Op>, n: nat, key: string) {
    n < |ops| && Empties(RunFrom(doc, ops[..n]), ops[n], key)
  }

  ghost function Fillings(doc: Document, ops: seq<Op>, key: string): nat -> bool {
    (n: nat) => FillsAt(doc, ops, n, key)
  }

  ghost function Emptyings(doc: Document, ops: seq<Op>, key: string): nat -> bool {
    (n: nat) => EmptiesAt(doc, ops, n, key)
  }

  /** No operation fills the key without its being emptied later. */
  ghost predicate Emptied(doc: Document, ops: seq<Op>, key: string) {
    Undone(Fillings(doc, ops, key), Emptyings(doc, ops, key), |ops|)
  }

  lemma {:induction false} RunFromKeepsInv(doc: Document, ops: seq<Op>)
    requires Inv(doc)
    ensures Inv(RunFrom(doc, ops))
  {
    hide Inv, Next;
    if ops != [] {
      RunFromKeepsInv(doc, ops[..|ops| - 1]);
      NextKeepsInv(RunFrom(doc, ops[..|ops| - 1]), ops[|ops| - 1]);
    }
  }

  lemma {:induction false} VacantUpTo(doc: Document, ops: seq<Op>, key: string, len: nat)
    requires Inv(doc) && Vacant(doc, key) && len <= |ops|
    ensures Vacant(RunFrom(doc, ops[..len]), key) <==>
              Undone(Fillings(doc, ops, key), Emptyings(doc, ops, key), len)
  {
    if len == 0 {
      assert ops[..0] == [];
    } else {
      var n := len - 1;
      VacantUpTo(doc, ops, key, n);
      RunFromKeepsInv(doc, ops[..n]);
      RunFromOneMore(doc, ops, n);
      VacantAfterExactly(RunFrom(doc, ops[..n]), ops[n], key);
      UndoneStep(Fillings(doc, ops, key), Emptyings(doc, ops, key), n);
      assert Fillings(doc, ops, key)(n) == FillsAt(doc, ops, n, key);
      assert Emptyings(doc, ops, key)(n) == EmptiesAt(doc, ops, n, key);
      hide Inv, Fills, Empties, Vacant, Next, Undone, RunFrom, Fillings, Emptyings;
    }
  }

  /** A vacant key is vacant after any operations exactly when none filled it without its being emptied later. */
  lemma StillVacantExactly(doc: Document, ops: seq<Op>, key: string)
    requires Inv(doc) && Vacant(doc, key)
    ensures Vacant(RunFrom(doc, ops), key) <==> Emptied(doc, ops, key)
  {
    VacantUpTo(doc, ops, key, |ops|);
    assert ops[..|ops|] == ops;
  }

  // ----- what the services' acts hit -----

  /** The version the last event says was replaced or rolled back from. */
  function Outgoing(doc: Document): Option<string> {
    if doc.events == [] then None else doc.events[|doc.events| - 1].otherVersion
  }

  lemma SameKeySameVersion(doc: Document, i: nat, j: nat)
    requires Inv(doc) && i < |doc.models| && j < |doc.models|
    requires doc.models[i].identity.Key() == doc.models[j].identity.Key()
    ensures doc.models[i].version == doc.models[j].version <==> i == j
  {
    if i != j {
      assert doc.models[i].Ref() != doc.models[j].Ref();
    }
  }

  /** A rollback takes out the record i of its key exactly when i is the one in production. */
  lemma RollbackTakesOutServing(doc: Document, identity: Identity, toVersion: string, i: nat)
    requires Inv(doc) && i < |doc.models| && doc.models[i].identity.Key() == identity.Key()
    requires Rollback(doc, identity, toVersion).Ok?
    ensures Outgoing(Rollback(doc, identity, toVersion).value) == Some(doc.models[i].version) <==> Serves(doc, i)
  {
    var up, down := RollbackShape(doc, identity, toVersion);
    SameKeySameVersion(doc, i, down);
    if Serves(doc, i) {
      SearchFinds(doc, InProduction(identity.Key()), i);
    }
  }

  /** A promotion replaces the record i of its key exactly when i is the one in production. */
  lemma PromotionReplacesServing(doc: Document, ref: string, i: nat)
    requires Inv(doc) && i < |doc.models| && Promote(doc, ref).Ok?
    requires Get(doc, ref).value.identity.Key() == doc.models[i].identity.Key()
    ensures Outgoing(Promote(doc, ref).value) == Some(doc.models[i].version) <==> Serves(doc, i)
  {
    var q := InProduction(doc.models[i].identity.Key());
    var found := Indices(doc.models, q);
    if found != [] {
      assert found[0] in found;
      SameKeySameVersion(doc, i, found[0]);
    }
    if Serves(doc, i) {
      SearchFinds(doc, q, i);
    }
  }

  // ----- service calls with other calls in between -----

  function Resume(config: PolicyConfig, sys: System, events: seq<Event>): System {
    if events == [] then sys
    else StepSystem(config, Resume(config, sys, events[..|events| - 1]), events[|events| - 1])
  }

  /** The registry operations performed on the way. */
  function OpsBetween(config: PolicyConfig, sys: System, events: seq<Event>): seq<Op> {
    if events == [] then []
    else
      var before := events[..|events| - 1];
      OpsBetween(config, sys, before) +
      match OpOf(Resume(config, sys, before), events[|events| - 1]) case Some(op) => [op] case None => []
  }

  lemma OtherThreadsStay(config: PolicyConfig, sys: System, e: Event, j: nat)
    requires j < |sys.threads| && e != Advance(j)
    ensures var next := StepSystem(config, sys, e);
            && j < |next.threads| && next.threads[j] == sys.threads[j]
            && next.doc == match OpOf(sys, e) case Some(op) => Next(sys.doc, op) case None => sys.doc
  {
    hide Next, Advanced;
  }

  lemma {:induction false} ResumeIsRunFrom(config: PolicyConfig, sys: System, events: seq<Event>, j: nat)
    requires j < |sys.threads| && Advance(j) !in events
    ensures var after := Resume(config, sys, events);
            && after.doc == RunFrom(sys.doc, OpsBetween(config, sys, events))
            && j < |after.threads| && after.threads[j] == sys.threads[j]
  {
    hide Next, Advanced, StepSystem, OpOf;
    if events != [] {
      var before, e := events[..|events| - 1], events[|events| - 1];
      assert e in events && forall x | x in before :: x in events;
      ResumeIsRunFrom(config, sys, before, j);
      OtherThreadsStay(config, Resume(config, sys, before), e, j);
      var ops := OpsBetween(config, sys, before);
      match OpOf(Resume(config, sys, before), e)
      case Some(op) => assert (ops + [op])[..|ops|] == ops;
      case None => assert OpsBetween(config, sys, events) == ops + [] == ops;
    }
  }

  lemma ReadyThreadActs(config: PolicyConfig, sys: System, j: nat)
    requires j < |sys.threads| && Act(sys.threads[j]).Some?
    ensures StepSystem(config, sys, Advance(j)).doc == Next(sys.doc, Act(sys.threads[j]).value)
  {
    hide Next, Advanced;
  }

  lemma RollbackAfterExactly(doc: Document, ops: seq<Op>, p: nat, identity: Identity, toVersion: string)
    requires Inv(doc) && Serves(doc, p) && doc.models[p].identity.Key() == identity.Key()
    requires Rollback(RunFrom(doc, ops), identity, toVersion).Ok?
    ensures Outgoing(Rollback(RunFrom(doc, ops), identity, toVersion).value) == Some(doc.models[p].version)
       <==> Restored(doc, ops, p)
  {
    hide Identity.Key, ModelVersion.Ref, Inv, Rollback, Restored, RunFrom, Outgoing;
    RunFromKeeps(doc, ops, p);
    StillServesExactly(doc, ops, p);
    SameIdentity(doc.models[p], RunFrom(doc, ops).models[p]);
    RollbackTakesOutServing(RunFrom(doc, ops), identity, toVersion, p);
  }

  /** The check of a rollback passes exactly when the version it names is in production, and finds that record. */
  lemma CheckFindsServing(config: PolicyConfig, sys: System, j: nat)
    requires Inv(sys.doc) && j < |sys.threads| && sys.threads[j].RollbackStart?
    ensures var t := sys.threads[j];
            var checked := StepSystem(config, sys, Advance(j));
            && checked.doc == sys.doc
            && (checked.threads[j] == RollbackReady(t.identity, t.fromVersion, t.toVersion) <==>
                  exists p: nat :: Serves(sys.doc, p) && sys.doc.models[p].identity.Key() == t.identity.Key()
                                   && sys.doc.models[p].version == t.fromVersion)
  {
    hide Identity.Key, ModelVersion.Ref, Inv;
    var t := sys.threads[j];
    var q := InProduction(t.identity.Key());
    var found := Indices(sys.doc.models, q);
    if p: nat :| Serves(sys.doc, p) && sys.doc.models[p].identity.Key() == t.identity.Key()
                 && sys.doc.models[p].version == t.fromVersion {
      SearchFinds(sys.doc, q, p);
    }
    if |found| == 1 && sys.doc.models[found[0]].version == t.fromVersion {
      assert Matches(q, sys.doc.models[found[0]]);
      assert Serves(sys.doc, found[0]);
    }
  }

  /** A rollback that was checked while record p was in production, and that succeeds after other calls, takes
      out the version its request named exactly when none of them took p out without its being brought back. */
  lemma RollbackTakesOutTheNamedExactly(config: PolicyConfig, sys: System, j: nat, p: nat, events: seq<Event>)
    requires Inv(sys.doc) && j < |sys.threads| && sys.threads[j].RollbackReady? && Advance(j) !in events
    requires Serves(sys.doc, p) && sys.doc.models[p].version == sys.threads[j].fromVersion
    requires sys.doc.models[p].identity.Key() == sys.threads[j].identity.Key()
    requires var t := sys.threads[j]; Rollback(Resume(config, sys, events).doc, t.identity, t.toVersion).Ok?
    ensures var acted := StepSystem(config, Resume(config, sys, events), Advance(j));
            Outgoing(acted.doc) == Some(sys.threads[j].fromVersion)
            <==> Restored(sys.doc, OpsBetween(config, sys, events), p)
  {
    hide Identity.Key, ModelVersion.Ref, Inv, Serves, Rollback, Restored, Resume, OpsBetween, RunFrom, StepSystem,
        Outgoing;
    var ops, t := OpsBetween(config, sys, events), sys.threads[j];
    ResumeIsRunFrom(config, sys, events, j);
    ReadyThreadActs(config, Resume(config, sys, events), j);
    RollbackAfterExactly(sys.doc, ops, p, t.identity, t.toVersion);
  }

  lemma SameIdentity(m: ModelVersion, n: ModelVersion)
    requires n == AtStage(m, n.stage)
    ensures n.identity == m.identity && n.version == m.version && n.metrics == m.metrics
  {
  }

  lemma StaysLocated(before: Document, after: Document, ref: string, i: nat)
    requires Inv(after) && Locate(before.models, ref) == Some(i) && i < |after.models|
    requires after.models[i] == AtStage(before.models[i], after.models[i].stage)
    ensures Get(after, ref) == Ok(after.models[i])
  {
    assert after.models[i].Ref() == ref;
    LocateFinds(after, i);
  }

  /** The record stored under a reference stays there with all but its stage. */
  lemma CandidateStays(doc: Document, ops: seq<Op>, ref: string, candidate: ModelVersion)
    requires Inv(doc) && StoredAs(doc, ref, candidate)
    ensures Get(RunFrom(doc, ops), ref).Ok?
    ensures var now := Get(RunFrom(doc, ops), ref).value;
            now.identity == candidate.identity && now.metrics == candidate.metrics
  {
    hide Identity.Key, ModelVersion.Ref, Inv, RunFrom, Locate;
    var i := Locate(doc.models, ref).value;
    RunFromKeeps(doc, ops, i);
    StaysLocated(doc, RunFrom(doc, ops), ref, i);
  }

  lemma PromotionAfterExactly(doc: Document, ops: seq<Op>, p: nat, ref: string, candidate: ModelVersion)
    requires Inv(doc) && Serves(doc, p) && StoredAs(doc, ref, candidate)
    requires doc.models[p].identity.Key() == candidate.identity.Key()
    requires Promote(RunFrom(doc, ops), ref).Ok?
    ensures Outgoing(Promote(RunFrom(doc, ops), ref).value) == Some(doc.models[p].version) <==> Restored(doc, ops, p)
  {
    hide Identity.Key, ModelVersion.Ref, Inv, Promote, Restored, RunFrom, Outgoing, StoredAs;
    RunFromKeeps(doc, ops, p);
    StillServesExactly(doc, ops, p);
    SameIdentity(doc.models[p], RunFrom(doc, ops).models[p]);
    CandidateStays(doc, ops, ref, candidate);
    PromotionReplacesServing(RunFrom(doc, ops), ref, p);
  }

  /** The model a promotion brought in and the one it replaced differ by at most the allowed drops. */
  ghost predicate DropsWithin(config: PolicyConfig, promoted: Metrics, replaced: Metrics) {
    forall i :: 0 <= i < |config.maxDrop| ==> WithinDrop(promoted, replaced, config.maxDrop[i])
  }

  /** A promotion that was approved against record p, and that succeeds after other calls, replaces p exactly
      under the same condition; then what it promotes is within every allowed drop of what it replaces.
      Otherwise it replaces a model it was not compared with, or none. */
  lemma PromotionReplacesTheComparedExactly(config: PolicyConfig, sys: System, j: nat, p: nat, events: seq<Event>)
    requires Inv(sys.doc) && j < |sys.threads| && sys.threads[j].PromoteReady? && Advance(j) !in events
    requires Serves(sys.doc, p) && StoredAs(sys.doc, sys.threads[j].ref, sys.threads[j].candidate)
    requires sys.doc.models[p].identity.Key() == sys.threads[j].candidate.identity.Key()
    requires Approves(config, sys.threads[j].candidate.metrics, Some(sys.doc.models[p].metrics))
    requires Promote(Resume(config, sys, events).doc, sys.threads[j].ref).Ok?
    ensures var before := Resume(config, sys, events);
            var acted := StepSystem(config, before, Advance(j));
            && (Outgoing(acted.doc) == Some(sys.doc.models[p].version)
                <==> Restored(sys.doc, OpsBetween(config, sys, events), p))
            && Get(before.doc, sys.threads[j].ref).Ok? && p < |before.doc.models|
            && DropsWithin(config, Get(before.doc, sys.threads[j].ref).value.metrics, before.doc.models[p].metrics)
  {
    hide Identity.Key, ModelVersion.Ref, Inv, Promote, Restored, Resume, OpsBetween, RunFrom, StepSystem, Outgoing;
    hide StoredAs;
    var ops, t := OpsBetween(config, sys, events), sys.threads[j];
    ResumeIsRunFrom(config, sys, events, j);
    ReadyThreadActs(config, Resume(config, sys, events), j);
    PromotionAfterExactly(sys.doc, ops, p, t.ref, t.candidate);
    CandidateStays(sys.doc, ops, t.ref, t.candidate);
    RunFromKeeps(sys.doc, ops, p);
    SameIdentity(sys.doc.models[p], RunFrom(sys.doc, ops).models[p]);
  }

  lemma PromotionReplacesNone(doc: Document, ref: string)
    requires Inv(doc) && Promote(doc, ref).Ok?
    ensures Outgoing(Promote(doc, ref).value) == None <==> Vacant(doc, Get(doc, ref).value.identity.Key())
  {
    hide Identity.Key, ModelVersion.Ref, Indices, Locate, Inv;
  }

  /** A promotion that was approved with no incumbent to compare with, and that succeeds after other calls,
      replaces none exactly when no call in between filled the key without its being emptied later. */
  lemma PromotionReplacesNoneExactly(config: PolicyConfig, sys: System, j: nat, events: seq<Event>)
    requires Inv(sys.doc) && j < |sys.threads| && sys.threads[j].PromoteReady? && Advance(j) !in events
    requires StoredAs(sys.doc, sys.threads[j].ref, sys.threads[j].candidate)
    requires Vacant(sys.doc, sys.threads[j].candidate.identity.Key())
    requires Promote(Resume(config, sys, events).doc, sys.threads[j].ref).Ok?
    ensures var acted := StepSystem(config, Resume(config, sys, events), Advance(j));
            Outgoing(acted.doc) == None
            <==> Emptied(sys.doc, OpsBetween(config, sys, events), sys.threads[j].candidate.identity.Key())
  {
    hide Identity.Key, ModelVersion.Ref, Inv, Vacant, Promote, Emptied, Resume, OpsBetween, RunFrom, StepSystem;
    hide Outgoing, StoredAs;
    var ops, t := OpsBetween(config, sys, events), sys.threads[j];
    ResumeIsRunFrom(config, sys, events, j);
    ReadyThreadActs(config, Resume(config, sys, events), j);
    CandidateStays(sys.doc, ops, t.ref, t.candidate);
    RunFromKeepsInv(sys.doc, ops);
    PromotionReplacesNone(RunFrom(sys.doc, ops), t.ref);
    StillVacantExactly(sys.doc, ops, t.candidate.identity.Key());
  }
}
