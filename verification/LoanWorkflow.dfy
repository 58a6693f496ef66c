/** The loan workflow: the mandatory graph of statuses, the tenant's settings on top of it, and every run of
    attempted transitions from draft. */
module LoanWorkflow {
  import opened Wrappers

  datatype Status =
    | Draft | Submitted | UnderReview | AiRiskAnalysis | FraudScreening | OfficerReview | AnalystReview
    | NeedsMoreInfo | Approved | Rejected | Disbursed | Active | Closed | Defaulted

  function Transitions(s: Status): set<Status> {
    match s
    case Draft => {Submitted}
    case Submitted => {UnderReview}
    case UnderReview => {AiRiskAnalysis, NeedsMoreInfo}
    case AiRiskAnalysis => {FraudScreening}
    case FraudScreening => {OfficerReview}
    case OfficerReview => {AnalystReview, NeedsMoreInfo, Approved, Rejected}
    case AnalystReview => {Approved, Rejected, NeedsMoreInfo}
    case NeedsMoreInfo => {UnderReview}
    case Approved => {Disbursed}
    case Disbursed => {Active}
    case Active => {Closed, Defaulted}
    case Defaulted => {Closed}
    case Rejected => {}
    case Closed => {}
  }

  datatype AnalystPolicy = Optional | Required | AmountThreshold

  datatype Settings = Settings(
    analystReview: AnalystPolicy, threshold: Option<real>, allowNeedsMoreInfo: bool, allowDefault: bool)

  predicate AnalystRequired(s: Settings, amount: real) {
    match s.analystReview
    case Required => true
    case AmountThreshold => s.threshold.Some? && amount >= s.threshold.value
    case Optional => false
  }

  /** What the settings forbid on top of the graph. */
  predicate Withheld(s: Settings, amount: real, from: Status, to: Status) {
    || (to == NeedsMoreInfo && !s.allowNeedsMoreInfo)
    || (to == Defaulted && !s.allowDefault)
    || (from == OfficerReview && to in {Approved, Rejected} && AnalystRequired(s, amount))
  }

  predicate MayMove(s: Settings, amount: real, from: Status, to: Status) {
    to in Transitions(from) && !Withheld(s, amount, from, to)
  }

  class LoanWorkflowPolicy {
    const settings: Settings

    constructor (settings: Settings)
      ensures this.settings == settings
    {
      this.settings := settings;
    }

    /** Exactly the statuses the graph offers and the settings do not withhold. */
    method Allowed(current: Status, amount: real) returns (allowed: set<Status>)
      ensures forall to :: to in allowed <==> MayMove(settings, amount, current, to)
    {
      allowed := Transitions(current);
      if !settings.allowNeedsMoreInfo {
        allowed := allowed - {NeedsMoreInfo};
      }
      if !settings.allowDefault {
        allowed := allowed - {Defaulted};
      }
      if current == OfficerReview && AnalystRequired(settings, amount) {
        allowed := allowed - {Approved};
        allowed := allowed - {Rejected};
      }
    }
  }

  datatype WorkflowEvent = WorkflowEvent(from: Status, to: Status)

  /** A loan application: its status, and the workflow events recorded for it. */
  class Loan {
    var status: Status
    var events: seq<WorkflowEvent>

    ghost predicate Valid()
      reads this
    {
      |events| < |Visited(events)| && status == Visited(events)[|events|]
    }

    constructor ()
      ensures Valid() && status == Draft && events == []
    {
      status, events := Draft, [];
    }

    /** Moves and records the move if the organization's settings allow it; otherwise fails and changes nothing. */
    method Transition(settings: Settings, amount: real, to: Status) returns (moved: bool)
      requires Valid()
      modifies this
      ensures Valid()
      ensures moved == MayMove(settings, amount, old(status), to)
      ensures moved ==> status == to && events == old(events) + [WorkflowEvent(old(status), to)]
      ensures !moved ==> status == old(status) && events == old(events)
      ensures Visited(events) == Attempt(Visited(old(events)), Move(settings, amount, to))
    {
      var policy := new LoanWorkflowPolicy(settings);
      var allowed := policy.Allowed(status, amount);
      moved := to in allowed;
      if moved {
        events := events + [WorkflowEvent(status, to)];
        status := to;
        assert events[..|events| - 1] == old(events);
      }
    }
  }

  /** The statuses the recorded events went through, from draft. */
  function Visited(events: seq<WorkflowEvent>): (t: seq<Status>)
    ensures |t| == |events| + 1
  {
    if events == [] then [Draft] else Visited(events[..|events| - 1]) + [events[|events| - 1].to]
  }

  /** One attempted transition, under the settings and the amount in force at that moment. */
  datatype Move = Move(settings: Settings, amount: real, to: Status)

  function Last(t: seq<Status>): Status
    requires t != []
  {
    t[|t| - 1]
  }

  function Attempt(t: seq<Status>, m: Move): seq<Status>
    requires t != []
  {
    if MayMove(m.settings, m.amount, Last(t), m.to) then t + [m.to] else t
  }

  /** The statuses a run of attempts goes through. */
  function Trail(moves: seq<Move>): (t: seq<Status>)
    ensures t != []
  {
    if moves == [] then [Draft] else Attempt(Trail(moves[..|moves| - 1]), moves[|moves| - 1])
  }

  ghost predicate Walk(t: seq<Status>) {
    t != [] && t[0] == Draft && forall i :: 0 < i < |t| ==> t[i] in Transitions(t[i - 1])
  }

  lemma {:induction false} TrailIsWalk(moves: seq<Move>)
    ensures Walk(Trail(moves))
  {
    if moves != [] {
      TrailIsWalk(moves[..|moves| - 1]);
    }
  }

  // ----- safety: no settings bypass the screening stages -----

  predicate Screening(t: seq<Status>) {
    t == [UnderReview, AiRiskAnalysis, FraudScreening, OfficerReview]
  }

  /** Whatever the settings were at each step, the stages before an approval are review, AI analysis, fraud
      screening and officer review, in that order and without a break, and at most an analyst review after
      them. So each was passed since the start and since the last request for more information. */
  lemma ApprovalWasScreened(moves: seq<Move>, j: nat)
    requires var t := Trail(moves); j < |t| && t[j] == Approved
    ensures var t := Trail(moves);
            || (j >= 4 && Screening(t[j - 4..j]))
            || (j >= 5 && Screening(t[j - 5..j - 1]) && t[j - 1] == AnalystReview)
  {
    TrailIsWalk(moves);
    var t := Trail(moves);
    assert t[j] in Transitions(t[j - 1]);
    var o := if t[j - 1] == AnalystReview then j - 2 else j - 1;
    assert t[o + 1] in Transitions(t[o]);
    assert t[o] in Transitions(t[o - 1]);
    assert t[o - 1] in Transitions(t[o - 2]);
    assert t[o - 2] in Transitions(t[o - 3]);
  }

  /** An attempt under settings that require an analyst for the amount approves or rejects only a loan that
      is in analyst review, and that the officer had passed on. */
  lemma AnalystDecidesWhenRequired(moves: seq<Move>, m: Move)
    requires AnalystRequired(m.settings, m.amount) && m.to in {Approved, Rejected}
    requires Trail(moves + [m]) != Trail(moves)
    ensures var t := Trail(moves); |t| >= 2 && t[|t| - 2..] == [OfficerReview, AnalystReview]
  {
    AttemptAllowed(moves, m);
    OnlyAnalystDecides(m, Last(Trail(moves)));
    TrailIsWalk(moves);
    EntersAnalystReview(Trail(moves));
  }

  lemma OnlyAnalystDecides(m: Move, from: Status)
    requires AnalystRequired(m.settings, m.amount) && m.to in {Approved, Rejected}
    requires MayMove(m.settings, m.amount, from, m.to)
    ensures from == AnalystReview
  {
  }

  lemma EntersAnalystReview(t: seq<Status>)
    requires Walk(t) && Last(t) == AnalystReview
    ensures |t| >= 2 && t[|t| - 2..] == [OfficerReview, AnalystReview]
  {
    assert t[|t| - 1] in Transitions(t[|t| - 2]);
  }

  lemma AttemptAllowed(moves: seq<Move>, m: Move)
    requires Trail(moves + [m]) != Trail(moves)
    ensures MayMove(m.settings, m.amount, Last(Trail(moves)), m.to)
  {
    assert (moves + [m])[..|moves|] == moves;
  }

  // ----- progress: how far a run can go -----

  /** Every transition climbs, except a request for more information. */
  function Rank(s: Status): (r: nat)
    ensures r <= 11
  {
    match s
    case Draft => 0
    case Submitted => 1
    case NeedsMoreInfo => 1
    case UnderReview => 2
    case AiRiskAnalysis => 3
    case FraudScreening => 4
    case OfficerReview => 5
    case AnalystReview => 6
    case Approved => 7
    case Rejected => 7
    case Disbursed => 8
    case Active => 9
    case Defaulted => 10
    case Closed => 11
  }

  predicate Decided(s: Status) {
    s.Approved? || s.Rejected? || s.Disbursed? || s.Active? || s.Defaulted? || s.Closed?
  }

  lemma {:induction false} DecidedOnlyClimbs(t: seq<Status>, i: nat, j: nat)
    requires Walk(t) && i < j < |t| && Decided(t[i])
    ensures Decided(t[j]) && Rank(t[i]) < Rank(t[j])
  {
    if i + 1 < j {
      DecidedOnlyClimbs(t, i, j - 1);
    }
    assert t[j] in Transitions(t[j - 1]);
  }

  /** A loan is approved, rejected, disbursed, activated, defaulted and closed at most once, and never decided
      again: no run is both approved and rejected. */
  lemma DecidedAtMostOnce(moves: seq<Move>, i: nat, j: nat)
    requires var t := Trail(moves); i < j < |t| && Decided(t[i])
    ensures var t := Trail(moves); t[i] != t[j] && t[j] in {Disbursed, Active, Defaulted, Closed}
  {
    TrailIsWalk(moves);
    DecidedOnlyClimbs(Trail(moves), i, j);
  }

  /** The graph, by rank: a status leads to the next rank, back for more information from the three reviews,
      to rejection from the officer's and the analyst's, past the analyst to approval, and past a default to
      the close; rejection leads nowhere. */
  lemma GraphIsExact(from: Status, to: Status)
    ensures to in Transitions(from) <==>
              || (from != Rejected && to !in {NeedsMoreInfo, Rejected} && Rank(to) == Rank(from) + 1)
              || (to == NeedsMoreInfo && from in {UnderReview, OfficerReview, AnalystReview})
              || (to == Rejected && from in {OfficerReview, AnalystReview})
              || (to == Approved && from == OfficerReview)
              || (to == Closed && from == Active)
  {
  }

  /** What the settings leave of the graph: open ones all of it; the officer decides when no analyst is
      required, which a threshold does from its own amount on; requests for information and defaults need
      their permission; no setting touches any other move. */
  lemma SettingsDecideExactly(s: Settings, amount: real, from: Status, to: Status)
    ensures MayMove(OPEN, amount, from, to) <==> to in Transitions(from)
    ensures from == OfficerReview && to in {Approved, Rejected} ==>
              (MayMove(s, amount, from, to) <==>
                s.analystReview == Optional
                || (s.analystReview == AmountThreshold && (s.threshold == None || amount < s.threshold.value)))
    ensures to == NeedsMoreInfo || to == Defaulted ==>
              (MayMove(s, amount, from, to) <==>
                to in Transitions(from) && if to == Defaulted then s.allowDefault else s.allowNeedsMoreInfo)
    ensures to !in {NeedsMoreInfo, Defaulted} && !(from == OfficerReview && to in {Approved, Rejected}) ==>
              (MayMove(s, amount, from, to) <==> to in Transitions(from))
  {
  }

  function Requests(t: seq<Status>): nat {
    if t == [] then 0 else Requests(t[..|t| - 1]) + if Last(t) == NeedsMoreInfo then 1 else 0
  }

  lemma {:induction false} WalkIsBounded(t: seq<Status>)
    requires Walk(t)
    ensures |t| - 1 <= Rank(Last(t)) + 6 * Requests(t)
  {
    if |t| > 1 {
      var rest := t[..|t| - 1];
      assert Walk(rest) by {
        forall i | 0 < i < |rest| ensures rest[i] in Transitions(rest[i - 1]) {
          assert t[i] in Transitions(t[i - 1]);
        }
      }
      WalkIsBounded(rest);
      assert t[|t| - 1] in Transitions(t[|t| - 2]);
    }
  }

  /** A run that asks k times for more information makes at most 11 + 6k transitions. */
  lemma RunsAreBounded(moves: seq<Move>)
    ensures |Trail(moves)| - 1 <= 11 + 6 * Requests(Trail(moves))
  {
    TrailIsWalk(moves);
    WalkIsBounded(Trail(moves));
  }

  /** A stage that every step's settings forbid is never entered; without requests for information a run
      makes at most 11 transitions. */
  lemma {:induction false} ForbiddenStagesAreAvoided(moves: seq<Move>)
    ensures (forall m <- moves :: !m.settings.allowNeedsMoreInfo)
        ==> NeedsMoreInfo !in Trail(moves) && |Trail(moves)| <= 12
    ensures (forall m <- moves :: !m.settings.allowDefault) ==> Defaulted !in Trail(moves)
  {
    hide Transitions;
    if moves != [] {
      var before := moves[..|moves| - 1];
      assert moves[|moves| - 1] in moves && forall m <- before :: m in moves;
      ForbiddenStagesAreAvoided(before);
    }
    RunsAreBounded(moves);
    if NeedsMoreInfo !in Trail(moves) {
      NoRequests(Trail(moves));
    }
  }

  lemma {:induction false} NoRequests(t: seq<Status>)
    requires NeedsMoreInfo !in t
    ensures Requests(t) == 0
  {
    if t != [] {
      NoRequests(t[..|t| - 1]);
    }
  }

  // ----- the bound is met, and no settings block a decision -----

  lemma AttemptLast(moves: seq<Move>, m: Move)
    requires MayMove(m.settings, m.amount, Last(Trail(moves)), m.to)
    ensures Trail(moves + [m]) == Trail(moves) + [m.to]
    ensures Requests(Trail(moves + [m])) == Requests(Trail(moves)) + if m.to == NeedsMoreInfo then 1 else 0
  {
    assert (moves + [m])[..|moves|] == moves;
    assert (Trail(moves) + [m.to])[..|Trail(moves)|] == Trail(moves);
  }

  /** The longest way on from a status. */
  function Onward(s: Status): (next: Status)
    requires s !in {Rejected, Closed}
    ensures next in Transitions(s) && Rank(next) == Rank(s) + 1
  {
    match s
    case Draft => Submitted
    case Submitted => UnderReview
    case NeedsMoreInfo => UnderReview
    case UnderReview => AiRiskAnalysis
    case AiRiskAnalysis => FraudScreening
    case FraudScreening => OfficerReview
    case OfficerReview => AnalystReview
    case AnalystReview => Approved
    case Approved => Disbursed
    case Disbursed => Active
    case Active => Defaulted
    case Defaulted => Closed
  }

  predicate Uniform(moves: seq<Move>, settings: Settings, amount: real) {
    forall m <- moves :: m.settings == settings && m.amount == amount
  }

  lemma ClimbOnce(moves: seq<Move>, settings: Settings, amount: real) returns (m: Move)
    requires Last(Trail(moves)) != Rejected && Rank(Last(Trail(moves))) < if settings.allowDefault then 11 else 9
    ensures m.settings == settings && m.amount == amount
    ensures Trail(moves + [m]) == Trail(moves) + [m.to]
    ensures m.to != Rejected && Rank(m.to) == Rank(Last(Trail(moves))) + 1
    ensures Requests(Trail(moves + [m])) == Requests(Trail(moves))
  {
    var from := Last(Trail(moves));
    m := Move(settings, amount, Onward(from));
    assert MayMove(settings, amount, from, m.to) && m.to !in {NeedsMoreInfo, Rejected} by {
      hide Trail, Requests;
    }
    hide Trail, Requests, MayMove, Onward, Transitions;
    AttemptLast(moves, m);
  }

  /** Under any settings `n` attempts climb `n` ranks, up to an active loan; to the end if defaults are classified. */
  lemma {:induction false} Climb(moves: seq<Move>, settings: Settings, amount: real, n: nat) returns (more: seq<Move>)
    requires Last(Trail(moves)) != Rejected && Rank(Last(Trail(moves))) + n <= if settings.allowDefault then 11 else 9
    ensures Uniform(more, settings, amount)
    ensures Last(Trail(moves + more)) != Rejected && Rank(Last(Trail(moves + more))) == Rank(Last(Trail(moves))) + n
    ensures |Trail(moves + more)| == |Trail(moves)| + n && Requests(Trail(moves + more)) == Requests(Trail(moves))
    decreases n
  {
    hide Trail, Requests, Rank, Uniform;
    if n == 0 {
      more := [];
      assert moves + more == moves;
      UniformNone(settings, amount);
    } else {
      var rest := Climb(moves, settings, amount, n - 1);
      var m := ClimbOnce(moves + rest, settings, amount);
      more := rest + [m];
      assert moves + more == moves + rest + [m];
      UniformAppend(rest, m);
    }
  }

  lemma UniformNone(settings: Settings, amount: real)
    ensures Uniform([], settings, amount)
  {
  }

  lemma UniformAppend(moves: seq<Move>, m: Move)
    requires Uniform(moves, m.settings, m.amount)
    ensures Uniform(moves + [m], m.settings, m.amount)
  {
  }

  const OPEN := Settings(Optional, None, true, true)

  lemma {:induction false} ReviewedAgain(k: nat) returns (moves: seq<Move>)
    ensures Last(Trail(moves)) == AnalystReview
    ensures Requests(Trail(moves)) == k && |Trail(moves)| == 7 + 6 * k
  {
    var before: seq<Move> := [];
    if k > 0 {
      before := ReviewedAgain(k - 1);
      var ask := Move(OPEN, 0.0, NeedsMoreInfo);
      AttemptLast(before, ask);
      before := before + [ask];
    }
    var more := Climb(before, OPEN, 0.0, if k == 0 then 6 else 5);
    moves := before + more;
  }

  /** The bound cannot be lowered: for every k some run asks k times and makes 11 + 6k transitions. */
  lemma RunsMeetTheBound(k: nat)
    ensures exists moves :: Requests(Trail(moves)) == k && |Trail(moves)| - 1 == 11 + 6 * k
  {
    var before := ReviewedAgain(k);
    var more := Climb(before, OPEN, 0.0, 5);
    assert Requests(Trail(before + more)) == k;
  }

  lemma AnalystMayDecide(m: Move, from: Status)
    requires Rank(from) == 6 && m.to in {Approved, Rejected}
    ensures MayMove(m.settings, m.amount, from, m.to)
  {
  }

  /** No settings strand a loan: from every run that is not decided, under any settings and amount from here
      on, it can still be approved and it can still be rejected. */
  lemma DecisionStaysReachable(moves: seq<Move>, settings: Settings, amount: real, decision: Status)
    requires !Decided(Last(Trail(moves))) && decision in {Approved, Rejected}
    ensures exists more :: Uniform(more, settings, amount) && Last(Trail(moves + more)) == decision
  {
    var climb := Climb(moves, settings, amount, 6 - Rank(Last(Trail(moves))));
    var m := Move(settings, amount, decision);
    var reviewed := moves + climb;
    AnalystMayDecide(m, Last(Trail(reviewed)));
    hide Trail, Requests, MayMove, Transitions;
    AttemptLast(reviewed, m);
    assert moves + (climb + [m]) == reviewed + [m];
    UniformAppend(climb, m);
  }
}
