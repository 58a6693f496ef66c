/** Loan transitions of concurrent sessions: each reads the loan's status without locking it, checks the move
    against what it read, and writes the new status later. */
module LoanConcurrency {
  import opened LoanWorkflow
  import opened Wrappers

  /** The stored loan, and the status each session read and has not acted on yet. */
  datatype Shared = Shared(status: Status, events: seq<WorkflowEvent>, seen: map<nat, Status>)

  const NEW_LOAN := Shared(Draft, [], map[])

  datatype Act = Read(session: nat) | Write(session: nat, move: Move)

  /** The write is allowed by the status its session read. */
  predicate Records(s: Shared, a: Act) {
    a.Write? && a.session in s.seen && MayMove(a.move.settings, a.move.amount, s.seen[a.session], a.move.to)
  }

  function StepShared(s: Shared, a: Act): Shared {
    match a
    case Read(k) => s.(seen := s.seen[k := s.status])
    case Write(k, move) =>
      var rest := s.seen - {k};
      if Records(s, a) then Shared(move.to, s.events + [WorkflowEvent(s.seen[k], move.to)], rest)
      else s.(seen := rest)
  }

  function RunShared(acts: seq<Act>): Shared {
    if acts == [] then NEW_LOAN else StepShared(RunShared(acts[..|acts| - 1]), acts[|acts| - 1])
  }

  /** Each event starts where the one before it led. */
  ghost predicate Chained(events: seq<WorkflowEvent>) {
    forall i :: 0 <= i < |events| ==> events[i].from == Visited(events)[i]
  }

  ghost predicate EdgesAreLegal(events: seq<WorkflowEvent>) {
    forall e :: e in events ==> e.to in Transitions(e.from)
  }

  lemma VisitedAppend(events: seq<WorkflowEvent>, e: WorkflowEvent)
    ensures Visited(events + [e]) == Visited(events) + [e.to]
  {
    assert (events + [e])[..|events|] == events;
  }

  lemma ChainedAppend(events: seq<WorkflowEvent>, e: WorkflowEvent)
    ensures Chained(events + [e]) <==> Chained(events) && e.from == Last(Visited(events))
  {
    VisitedAppend(events, e);
    var more := events + [e];
    forall i | 0 <= i < |events| ensures more[i] == events[i] && Visited(more)[i] == Visited(events)[i] {
    }
    assert more[|events|] == e && Visited(more)[|events|] == Last(Visited(events));
    hide Visited;
    if Chained(more) {
      assert more[|events|].from == Visited(more)[|events|];
      forall i | 0 <= i < |events| ensures events[i].from == Visited(events)[i] {
        assert more[i].from == Visited(more)[i];
      }
    }
  }

  /** In every interleaving the status is where the last event led, and every event is a legal move from the
      status its session read. */
  lemma {:induction false} EveryEventIsLegal(acts: seq<Act>)
    ensures var s := RunShared(acts); s.status == Last(Visited(s.events)) && EdgesAreLegal(s.events)
  {
    if acts != [] {
      var before := RunShared(acts[..|acts| - 1]);
      EveryEventIsLegal(acts[..|acts| - 1]);
      var a := acts[|acts| - 1];
      if Records(before, a) {
        VisitedAppend(before.events, WorkflowEvent(before.seen[a.session], a.move.to));
      }
      hide Transitions, Visited, RunShared;
    }
  }

  function Reads(acts: seq<Act>): nat {
    if acts == [] then 0 else Reads(acts[..|acts| - 1]) + if acts[|acts| - 1].Read? then 1 else 0
  }

  /** Each recorded write has used up a read of its session: there are no more events than reads. */
  lemma {:induction false} EveryWriteUsesARead(acts: seq<Act>)
    ensures |RunShared(acts).events| + |RunShared(acts).seen.Keys| <= Reads(acts)
  {
    if acts != [] {
      var before, a := RunShared(acts[..|acts| - 1]), acts[|acts| - 1];
      EveryWriteUsesARead(acts[..|acts| - 1]);
      hide MayMove;
      match a
      case Read(k) =>
        assert before.seen[k := before.status].Keys == before.seen.Keys + {k};
      case Write(k, move) =>
        assert (before.seen - {k}).Keys == before.seen.Keys - {k};
    }
  }

  /** The loan still has the status the writing session read. */
  ghost predicate Fresh(s: Shared, a: Act) {
    a.Write? && a.session in s.seen ==> s.seen[a.session] == s.status
  }

  ghost predicate AlwaysFresh(acts: seq<Act>) {
    forall n :: 0 <= n < |acts| && Records(RunShared(acts[..n]), acts[n]) ==> Fresh(RunShared(acts[..n]), acts[n])
  }

  lemma FreshStep(acts: seq<Act>)
    requires acts != []
    ensures var before, a := acts[..|acts| - 1], acts[|acts| - 1];
            AlwaysFresh(acts) <==>
              AlwaysFresh(before) && (Records(RunShared(before), a) ==> Fresh(RunShared(before), a))
  {
    hide RunShared, Records, Fresh;
    forall n | 0 <= n < |acts| ensures acts[..|acts| - 1][..n] == acts[..n] {
    }
  }

  /** The recorded events form one history exactly when no session's write was recorded after the status it
      read had changed. */
  lemma {:induction false} HistoryIsChainedExactly(acts: seq<Act>)
    ensures Chained(RunShared(acts).events) <==> AlwaysFresh(acts)
  {
    if acts != [] {
      var before, a := acts[..|acts| - 1], acts[|acts| - 1];
      var s := RunShared(before);
      HistoryIsChainedExactly(before);
      EveryEventIsLegal(before);
      FreshStep(acts);
      if Records(s, a) {
        ChainedAppend(s.events, WorkflowEvent(s.seen[a.session], a.move.to));
      }
      hide Chained, AlwaysFresh, Visited, MayMove, EdgesAreLegal;
    }
  }

  /** Such a history is a walk of the workflow graph, so what holds of every walk holds of it: a loan is
      decided once. */
  lemma FreshRunsDecideOnce(acts: seq<Act>, i: nat, j: nat)
    requires AlwaysFresh(acts)
    requires var t := Visited(RunShared(acts).events); i < j < |t| && Decided(t[i])
    ensures var t := Visited(RunShared(acts).events); t[i] != t[j] && t[j] in {Disbursed, Active, Defaulted, Closed}
  {
    var events := RunShared(acts).events;
    HistoryIsChainedExactly(acts);
    EveryEventIsLegal(acts);
    ChainedIsWalk(events);
    hide RunShared, Visited, Walk, Chained, EdgesAreLegal, AlwaysFresh, Decided, Rank;
    DecidedOnlyClimbs(Visited(events), i, j);
    LaterDecision(Visited(events)[i], Visited(events)[j]);
  }

  lemma LaterDecision(a: Status, b: Status)
    requires Decided(a) && Decided(b) && Rank(a) < Rank(b)
    ensures a != b && b in {Disbursed, Active, Defaulted, Closed}
  {
  }

  lemma {:induction false} VisitedAt(events: seq<WorkflowEvent>, i: nat)
    requires i < |events|
    ensures Visited(events)[0] == Draft && Visited(events)[i + 1] == events[i].to
  {
    if i < |events| - 1 {
      VisitedAt(events[..|events| - 1], i);
    } else if i > 0 {
      VisitedAt(events[..|events| - 1], i - 1);
    }
  }

  lemma ChainedIsWalk(events: seq<WorkflowEvent>)
    requires Chained(events) && EdgesAreLegal(events)
    ensures Walk(Visited(events))
  {
    hide Transitions;
    var t := Visited(events);
    if events != [] {
      VisitedAt(events, 0);
    }
    forall i | 0 < i < |t| ensures t[i] in Transitions(t[i - 1]) {
      VisitedAt(events, i - 1);
      assert events[i - 1] in events;
    }
  }

  /** Two sessions that both read a loan in officer review can both decide it: it ends rejected, and the
      history holds an approval and a rejection of the same review. */
  lemma ConcurrentDecisionsBothRecord(s: Shared)
    requires s.status == OfficerReview
    ensures var approve, reject := Move(OPEN, 0.0, Approved), Move(OPEN, 0.0, Rejected);
            var read := StepShared(StepShared(s, Read(0)), Read(1));
            var written := StepShared(StepShared(read, Write(0, approve)), Write(1, reject));
            && written.status == Rejected
            && written.events ==
                 s.events + [WorkflowEvent(OfficerReview, Approved), WorkflowEvent(OfficerReview, Rejected)]
            && !Chained(written.events)
  {
    OfficerMayDecide();
    hide MayMove, Transitions, Visited, Chained;
    var first, second := WorkflowEvent(OfficerReview, Approved), WorkflowEvent(OfficerReview, Rejected);
    VisitedAppend(s.events, first);
    ChainedAppend(s.events + [first], second);
    assert s.events + [first] + [second] == s.events + [first, second];
    assert Last(Visited(s.events + [first])) == Approved;
  }

  lemma OfficerMayDecide()
    ensures MayMove(OPEN, 0.0, OfficerReview, Approved) && MayMove(OPEN, 0.0, OfficerReview, Rejected)
  {
  }
}
