/** Properties of whole registry runs: where a version has been, and what can no longer change. */
module RegistryHistory {
  import opened Wrappers
  import opened Domain
  import opened Registry
  import opened RegistryInvariants

  /** The document after the first k operations of a run. */
  function After(ops: seq<Op>, k: nat): Document
    requires k <= |ops|
  {
    Run(ops[..k])
  }

  lemma AfterStep(ops: seq<Op>, k: nat)
    requires k < |ops|
    ensures After(ops, k + 1) == Next(After(ops, k), ops[k])
  {
    assert ops[..k + 1][..k] == ops[..k];
  }

  /** Records are never removed or moved: between two points of a run every record evolves in place. */
  lemma {:induction false} RecordsPersist(ops: seq<Op>, j: nat, k: nat)
    requires j <= k <= |ops|
    ensures |After(ops, j).models| <= |After(ops, k).models|
    ensures forall i :: 0 <= i < |After(ops, j).models| ==>
              After(ops, k).models[i] == AtStage(After(ops, j).models[i], After(ops, k).models[i].stage)
    decreases k - j
  {
    hide Apply, Identity.Key, ModelVersion.Ref;
    if j < k {
      RecordsPersist(ops, j, k - 1);
      AfterStep(ops, k - 1);
      StepFrame(After(ops, k - 1), ops[k - 1]);
      forall i | 0 <= i < |After(ops, j).models|
        ensures After(ops, k).models[i] == AtStage(After(ops, j).models[i], After(ops, k).models[i].stage)
      {
        assert Evolves(After(ops, k - 1).models[i], After(ops, k).models[i]);
      }
    }
  }

  /** Once archived, rejected or retired, a record is never changed again by any operation. */
  lemma {:induction false} TerminalIsFinal(ops: seq<Op>, j: nat, k: nat, i: nat)
    requires j <= k <= |ops| && i < |After(ops, j).models|
    requires IsTerminal(After(ops, j).models[i].stage)
    ensures i < |After(ops, k).models| && After(ops, k).models[i] == After(ops, j).models[i]
    decreases k - j
  {
    hide Apply, Identity.Key, ModelVersion.Ref;
    if j < k {
      TerminalIsFinal(ops, j, k - 1, i);
      AfterStep(ops, k - 1);
      StepFrame(After(ops, k - 1), ops[k - 1]);
      var before, after := After(ops, k - 1).models[i], After(ops, k).models[i];
      assert Evolves(before, after);
      if after.stage != before.stage {
        TransitionsClimbOneRank(before.stage, after.stage);
      }
    }
  }

  // ----- the road to production -----

  /** Position i holds stage s after k operations. */
  ghost predicate Visits(ops: seq<Op>, k: nat, i: nat, s: Stage) {
    k <= |ops| && i < |After(ops, k).models| && After(ops, k).models[i].stage == s
  }

  ghost predicate FirstVisit(ops: seq<Op>, k: nat, i: nat, s: Stage) {
    Visits(ops, k, i, s) && forall j :: 0 <= j < k ==> !Visits(ops, j, i, s)
  }

  const ROAD: seq<Stage> := [Registered, Validated, Stage.Staging, Challenger, Champion, Production]

  /** Before any visit to a stage of the road there is a visit to the stage one rank below. */
  lemma {:induction false} LowerRankWasVisited(ops: seq<Op>, k: nat, i: nat, r: nat) returns (j: nat)
    requires 0 < r < |ROAD| && Visits(ops, k, i, ROAD[r])
    ensures j < k && Visits(ops, j, i, ROAD[r - 1])
    decreases k, 0
  {
    hide Apply, Identity.Key, ModelVersion.Ref;
    if k > 0 {
      AfterStep(ops, k - 1);
      StepFrame(After(ops, k - 1), ops[k - 1]);
      var before, after := After(ops, k - 1).models, After(ops, k).models;
      assert Rank(ROAD[r]) == Some(r);
      if i < |before| {
        assert Evolves(before[i], after[i]);
        if before[i].stage != after[i].stage {
          TransitionsClimbOneRank(before[i].stage, after[i].stage);
        }
        NeverCreated(ops, k - 1, i);
        j := DescendTo(ops, k - 1, i, r);
      }
    }
  }

  lemma NeverCreated(ops: seq<Op>, k: nat, i: nat)
    requires k <= |ops| && i < |After(ops, k).models|
    ensures After(ops, k).models[i].stage != Created
  {
    RunKeepsInv(ops[..k]);
  }

  /** A record ranked at least r - 1 after k operations was ranked exactly r - 1 by then. */
  lemma {:induction false} DescendTo(ops: seq<Op>, k: nat, i: nat, r: nat) returns (j: nat)
    requires 0 < r < |ROAD| && k <= |ops| && i < |After(ops, k).models|
    requires Rank(After(ops, k).models[i].stage).Some? && Rank(After(ops, k).models[i].stage).value >= r - 1
    ensures j <= k && Visits(ops, j, i, ROAD[r - 1])
    decreases k, 1
  {
    var rank := Rank(After(ops, k).models[i].stage).value;
    assert After(ops, k).models[i].stage == ROAD[rank];
    if rank == r - 1 {
      j := k;
    } else {
      var below := LowerRankWasVisited(ops, k, i, rank);
      j := DescendTo(ops, below, i, r);
    }
  }

  lemma {:induction false} EarliestVisit(ops: seq<Op>, k: nat, i: nat, s: Stage) returns (j: nat)
    requires Visits(ops, k, i, s)
    ensures j <= k && FirstVisit(ops, j, i, s)
    decreases k
  {
    if earlier :| 0 <= earlier < k && Visits(ops, earlier, i, s) {
      j := EarliestVisit(ops, earlier, i, s);
    } else {
      j := k;
    }
  }

  /** In every run, a record that reaches rank r has first visits to ranks 0..r in increasing order. */
  lemma {:induction false} RoadIsWalkedInOrder(ops: seq<Op>, k: nat, i: nat, r: nat) returns (visits: seq<nat>)
    requires r < |ROAD| && Visits(ops, k, i, ROAD[r])
    ensures |visits| == r + 1 && visits[r] <= k
    ensures forall q :: 0 <= q <= r ==> FirstVisit(ops, visits[q], i, ROAD[q])
    ensures forall q :: 0 <= q < r ==> visits[q] < visits[q + 1]
    decreases r
  {
    var first := EarliestVisit(ops, k, i, ROAD[r]);
    if r == 0 {
      visits := [first];
    } else {
      var below := LowerRankWasVisited(ops, first, i, r);
      visits := RoadIsWalkedInOrder(ops, below, i, r - 1);
      visits := visits + [first];
    }
  }

  /** Any version in production was first registered, then validated, then staged, then challenger,
      then champion, before it was first in production. */
  lemma ProductionWasEarned(ops: seq<Op>, i: nat)
    requires i < |Run(ops).models| && Run(ops).models[i].stage == Production
    ensures exists visits: seq<nat> ::
              && |visits| == |ROAD|
              && (forall q :: 0 <= q < |ROAD| ==> FirstVisit(ops, visits[q], i, ROAD[q]))
              && (forall q :: 0 <= q < |ROAD| - 1 ==> visits[q] < visits[q + 1])
  {
    assert ops[..|ops|] == ops;
    assert Visits(ops, |ops|, i, ROAD[5]);
    var visits := RoadIsWalkedInOrder(ops, |ops|, i, 5);
  }

  // ----- the road is open -----

  /** The record stored under its reference, at this stage. */
  ghost predicate StandsAt(doc: Document, m: ModelVersion, stage: Stage) {
    Get(doc, m.Ref()) == Ok(AtStage(m, stage))
  }

  lemma RunOneMore(ops: seq<Op>, op: Op)
    ensures Run(ops + [op]) == Next(Run(ops), op)
  {
    assert (ops + [op])[..|ops|] == ops;
  }

  lemma RegisterStands(ops: seq<Op>, m: ModelVersion)
    requires ArtifactsTrusted(m) && Get(Run(ops), m.Ref()).Err?
    ensures StandsAt(Run(ops + [DoRegister(m)]), m, Registered)
  {
    RunOneMore(ops, DoRegister(m));
    RunKeepsInv(ops + [DoRegister(m)]);
    var models := Run(ops).models;
    assert AtStage(m, Registered).Ref() == m.Ref();
    LocateFinds(Run(ops + [DoRegister(m)]), |models|);
  }

  lemma ClimbStands(ops: seq<Op>, m: ModelVersion, r: nat)
    requires r < 4 && StandsAt(Run(ops), m, ROAD[r])
    ensures StandsAt(Run(ops + [DoTransition(m.Ref(), ROAD[r + 1])]), m, ROAD[r + 1])
  {
    var op := DoTransition(m.Ref(), ROAD[r + 1]);
    RunOneMore(ops, op);
    RunKeepsInv(ops + [op]);
    GraphIsExact(ROAD[r], ROAD[r + 1]);
    var i := Locate(Run(ops).models, m.Ref()).value;
    hide Run, Inv, Locate;
    assert AtStage(m, ROAD[r + 1]).Ref() == m.Ref();
    LocateFinds(Run(ops + [op]), i);
  }

  lemma {:induction false} RoadToChampion(ops: seq<Op>, m: ModelVersion, r: nat) returns (more: seq<Op>)
    requires r <= 4 && StandsAt(Run(ops), m, ROAD[r])
    ensures StandsAt(Run(ops + more), m, Champion)
    decreases 4 - r
  {
    hide StandsAt, Run;
    if r == 4 {
      more := [];
      assert ops + more == ops;
    } else {
      var op := DoTransition(m.Ref(), ROAD[r + 1]);
      ClimbStands(ops, m, r);
      var rest := RoadToChampion(ops + [op], m, r + 1);
      more := [op] + rest;
      assert ops + more == ops + [op] + rest;
    }
  }

  lemma ChampionCanServe(ops: seq<Op>, m: ModelVersion)
    requires StandsAt(Run(ops), m, Champion)
    ensures ProductionOf(Run(ops + [DoPromote(m.Ref())]), m.identity.Key()) == Ok(AtStage(m, Production))
  {
    RunOneMore(ops, DoPromote(m.Ref()));
    RunKeepsInv(ops);
    var doc := Run(ops);
    hide Identity.Key, ModelVersion.Ref, Run, Inv, Indices;
    assert doc.models[Locate(doc.models, m.Ref()).value] in doc.models;
    PromoteSucceedsExactly(doc, m.Ref());
    PromoteDecidesProduction(doc, m.Ref());
  }

  lemma JoinRuns(ops: seq<Op>, first: Op, climb: seq<Op>, last: Op)
    ensures ops + ([first] + climb + [last]) == ops + [first] + climb + [last]
  {
  }

  lemma RunToProduction(ops: seq<Op>, m: ModelVersion) returns (more: seq<Op>)
    requires ArtifactsTrusted(m) && Get(Run(ops), m.Ref()).Err?
    ensures ProductionOf(Run(ops + more), m.identity.Key()) == Ok(AtStage(m, Production))
  {
    hide Identity.Key, ModelVersion.Ref, StandsAt, Run, Get, ProductionOf, ArtifactsTrusted;
    RegisterStands(ops, m);
    var climb := RoadToChampion(ops + [DoRegister(m)], m, 0);
    ChampionCanServe(ops + [DoRegister(m)] + climb, m);
    more := [DoRegister(m)] + climb + [DoPromote(m.Ref())];
    JoinRuns(ops, DoRegister(m), climb, DoPromote(m.Ref()));
  }

  /** From every run a trusted model with a new reference can be brought into production, whatever serves its
      key by then. */
  lemma ProductionIsReachable(ops: seq<Op>, m: ModelVersion)
    requires ArtifactsTrusted(m) && forall r :: r in Run(ops).models ==> r.Ref() != m.Ref()
    ensures exists more :: ProductionOf(Run(ops + more), m.identity.Key()) == Ok(AtStage(m, Production))
  {
    var more := RunToProduction(ops, m);
  }
}
