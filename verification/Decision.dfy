/** The unified lending decision: policy over a credit band and a fraud level, inside a fail-safe engine. */
module Decision {
  import opened Bands
  import opened FraudScoring
  import opened Rounding
  import opened Wrappers

  const APPROVE := "approve"
  const REJECT := "reject"
  const REVIEW := "review"

  datatype PolicyConfig = PolicyConfig(
    creditRecommendation: map<string, string>,
    rejectLevels: set<Level>,
    blockLevels: set<Level>,
    blockAction: string,
    onFraudFailure: string,
    onCreditFailure: string,
    onIncompleteData: string
  )

  datatype Inputs = Inputs(creditBand: string, fraudLevel: Option<Level>, creditOk: bool, fraudOk: bool,
                           dataComplete: bool)

  datatype Reason =
    | IncompleteRequiredData
    | CreditUnavailable
    | CreditRisk(band: string, action: string)
    | RejectOverride(level: Level)
    | BlockAutoApproval(level: Level)
    | FraudRisk(level: Level)
    | FraudUnavailable

  function Base(config: PolicyConfig, band: string): string {
    if band in config.creditRecommendation then config.creditRecommendation[band] else REVIEW
  }

  // ----- specification -----

  /** The recommendation, by what is available. */
  function Recommendation(config: PolicyConfig, i: Inputs): string {
    var base := Base(config, i.creditBand);
    if !i.dataComplete then config.onIncompleteData
    else if !i.creditOk then config.onCreditFailure
    else if !i.fraudOk then (if base == APPROVE then config.onFraudFailure else base)
    else if i.fraudLevel.None? then base
    else if i.fraudLevel.value in config.rejectLevels then REJECT
    else if i.fraudLevel.value in config.blockLevels && base == APPROVE then config.blockAction
    else base
  }

  /** Which reasons are given, credit's before fraud's. */
  ghost predicate Explains(config: PolicyConfig, i: Inputs, reasons: seq<Reason>) {
    var assessed := i.dataComplete && i.creditOk;
    var base := Base(config, i.creditBand);
    && (IncompleteRequiredData in reasons <==> !i.dataComplete)
    && (CreditUnavailable in reasons <==> i.dataComplete && !i.creditOk)
    && (forall band, a :: CreditRisk(band, a) in reasons <==> assessed && band == i.creditBand && a == base)
    && (FraudUnavailable in reasons <==> assessed && !i.fraudOk)
    && (forall l :: RejectOverride(l) in reasons <==>
          assessed && i.fraudOk && i.fraudLevel == Some(l) && l in config.rejectLevels)
    && (forall l :: BlockAutoApproval(l) in reasons <==>
          assessed && i.fraudOk && i.fraudLevel == Some(l) && l !in config.rejectLevels
          && l in config.blockLevels && base == APPROVE)
    && (forall l :: FraudRisk(l) in reasons <==>
          assessed && i.fraudOk && i.fraudLevel == Some(l) && l !in config.rejectLevels
          && !(l in config.blockLevels && base == APPROVE))
    && |reasons| == (if assessed && (!i.fraudOk || i.fraudLevel.Some?) then 2 else 1)
    && (assessed ==> reasons[0] == CreditRisk(i.creditBand, base))
  }

  method Recommend(config: PolicyConfig, i: Inputs) returns (action: string, reasons: seq<Reason>)
    ensures action == Recommendation(config, i)
    ensures Explains(config, i, reasons)
  {
    if !i.dataComplete {
      return config.onIncompleteData, [IncompleteRequiredData];
    }
    if !i.creditOk {
      return config.onCreditFailure, [CreditUnavailable];
    }
    var base := Base(config, i.creditBand);
    reasons := [CreditRisk(i.creditBand, base)];
    if i.fraudOk && i.fraudLevel.Some? {
      var level := i.fraudLevel.value;
      if level in config.rejectLevels {
        return REJECT, reasons + [RejectOverride(level)];
      }
      if level in config.blockLevels && base == APPROVE {
        return config.blockAction, reasons + [BlockAutoApproval(level)];
      }
      reasons := reasons + [FraudRisk(level)];
    } else if !i.fraudOk {
      reasons := reasons + [FraudUnavailable];
      if base == APPROVE {
        return config.onFraudFailure, reasons;
      }
    }
    action := base;
  }

  /** The reasons tell the recommendation: each kind of reason that overrides credit's own recommendation
      names what replaced it, and without one credit's recommendation stands. */
  lemma ReasonsDecide(config: PolicyConfig, i: Inputs, reasons: seq<Reason>)
    requires Explains(config, i, reasons)
    ensures var action := Recommendation(config, i);
            && (IncompleteRequiredData in reasons ==> action == config.onIncompleteData)
            && (CreditUnavailable in reasons ==> action == config.onCreditFailure)
            && forall band, base :: CreditRisk(band, base) in reasons ==>
                 action == if exists l :: RejectOverride(l) in reasons then REJECT
                           else if exists l :: BlockAutoApproval(l) in reasons then config.blockAction
                           else if FraudUnavailable in reasons && base == APPROVE then config.onFraudFailure
                           else base
    ensures IncompleteRequiredData in reasons || CreditUnavailable in reasons
            || exists band, base :: CreditRisk(band, base) in reasons
  {
    var base := Base(config, i.creditBand);
    assert i.dataComplete && i.creditOk ==> CreditRisk(i.creditBand, base) in reasons;
    if i.fraudLevel.Some? {
      var l := i.fraudLevel.value;
      assert RejectOverride(l) in reasons <==>
          i.dataComplete && i.creditOk && i.fraudOk && l in config.rejectLevels;
      assert BlockAutoApproval(l) in reasons <==>
          i.dataComplete && i.creditOk && i.fraudOk && l !in config.rejectLevels
          && l in config.blockLevels && base == APPROVE;
    }
  }

  /** A configured band is recommended as configured, and any other band is reviewed. */
  lemma BaseIsConfigured(config: PolicyConfig, band: string, action: string)
    ensures (band, action) in config.creditRecommendation.Items ==> Base(config, band) == action
    ensures band !in config.creditRecommendation.Keys ==> Base(config, band) == REVIEW
  {
  }

  // ----- conservativeness -----

  /** A ranking of actions in which approval is the least conservative and rejection the most. */
  ghost predicate Ranks(rank: string -> int) {
    forall a :: rank(APPROVE) <= rank(a) <= rank(REJECT)
  }

  /** Whatever the fraud side reports, the recommendation is never less conservative than credit alone gives. */
  lemma FraudOnlyTightens(config: PolicyConfig, i: Inputs, rank: string -> int)
    requires Ranks(rank) && i.dataComplete && i.creditOk
    ensures rank(Recommendation(config, i)) >= rank(Base(config, i.creditBand))
  {
  }

  /** A level set is upward closed along the score bands. */
  ghost predicate UpwardClosed(levels: set<Level>, bands: seq<Band<Level>>) {
    forall a, b :: a in bands && b in bands && a.minScore <= b.minScore && a.level in levels ==> b.level in levels
  }

  function Assessed(band: string, level: Level): Inputs {
    Inputs(band, Some(level), true, true, true)
  }

  /** Raising any fraud signal never makes the recommendation less conservative, when the reject levels and
      the reject-or-block levels are upward closed. */
  lemma MoreFraudIsNeverMilder(config: PolicyConfig, scoring: ScoringConfig, creditBand: string, s: Signals,
                               t: Signals, rank: string -> int)
    requires Ranks(rank) && NonNegative(scoring.weights) && AtMost(s, t)
    requires scoring.scoreMin <= scoring.scoreMax && scoring.bands != []
    requires UpwardClosed(config.rejectLevels, scoring.bands)
    requires UpwardClosed(config.rejectLevels + config.blockLevels, scoring.bands)
    ensures rank(Recommendation(config, Assessed(creditBand, LevelOf(scoring, Score(scoring, s)).level)))
         <= rank(Recommendation(config, Assessed(creditBand, LevelOf(scoring, Score(scoring, t)).level)))
  {
    hide BandOf, Score, LevelOf;
    var low, high := LevelOf(scoring, Score(scoring, s)), LevelOf(scoring, Score(scoring, t));
    ScoreIsMonotone(scoring, s, t);
    LevelIsConfigured(scoring, Score(scoring, s));
    LevelIsConfigured(scoring, Score(scoring, t));
    assert low.level in config.rejectLevels ==> high.level in config.rejectLevels;
    assert low.level in config.rejectLevels + config.blockLevels
        ==> high.level in config.rejectLevels + config.blockLevels;
  }

  lemma LevelIsConfigured(scoring: ScoringConfig, score: int)
    requires scoring.bands != []
    ensures LevelOf(scoring, score) in scoring.bands
  {
    BandIsBest(scoring.bands, score);
  }

  // ----- when worse credit is never milder -----

  /** Worse credit never gives a milder outcome, whatever the fraud side reports. */
  ghost predicate CreditMonotone(config: PolicyConfig, rank: string -> int) {
    forall good, bad, i: Inputs ::
      i.dataComplete && i.creditOk && rank(Base(config, good)) <= rank(Base(config, bad)) ==>
        rank(Recommendation(config, i.(creditBand := good))) <= rank(Recommendation(config, i.(creditBand := bad)))
  }

  /** The actions credit can recommend: the configured ones, and review for any other band. */
  function BaseActions(config: PolicyConfig): set<string> {
    config.creditRecommendation.Values + {REVIEW}
  }

  /** An action that stands in for approval is not harsher than another action credit can recommend. */
  ghost predicate StandsInMildly(config: PolicyConfig, rank: string -> int, action: string) {
    APPROVE in BaseActions(config) ==>
      forall other :: other in BaseActions(config) && other != APPROVE ==> rank(action) <= rank(other)
  }

  lemma {:induction false} LongerThanAll(keys: set<string>) returns (n: nat)
    ensures forall k :: k in keys ==> |k| < n
  {
    if keys == {} {
      n := 0;
    } else {
      var k :| k in keys;
      n := LongerThanAll(keys - {k});
      n := if |k| < n then n else |k| + 1;
    }
  }

  /** Every action that credit can recommend is the recommendation of some band. */
  lemma BaseIsReached(config: PolicyConfig, action: string) returns (band: string)
    requires action in BaseActions(config)
    ensures Base(config, band) == action
  {
    if action in config.creditRecommendation.Values {
      band :| band in config.creditRecommendation && config.creditRecommendation[band] == action;
    } else {
      var n := LongerThanAll(config.creditRecommendation.Keys);
      band := seq(n, _ => 'x');
    }
  }

  lemma BaseIsBaseAction(config: PolicyConfig, band: string)
    ensures Base(config, band) in BaseActions(config)
  {
  }

  /** Inputs under which an approval is replaced by the block action, or by the failure action. */
  function Blocked(level: Level): Inputs {
    Assessed("", level)
  }

  const BLIND := Inputs("", None, true, false, true)

  lemma StandInIsNeeded(config: PolicyConfig, rank: string -> int, i: Inputs, action: string)
    requires Ranks(rank) && CreditMonotone(config, rank)
    requires i.dataComplete && i.creditOk
    requires forall band :: Recommendation(config, i.(creditBand := band)) ==
                              if Base(config, band) == APPROVE then action else Base(config, band)
    ensures StandsInMildly(config, rank, action)
  {
    forall other | APPROVE in BaseActions(config) && other in BaseActions(config) && other != APPROVE
      ensures rank(action) <= rank(other)
    {
      var good := BaseIsReached(config, APPROVE);
      var bad := BaseIsReached(config, other);
      hide Recommendation, Base;
      assert rank(Recommendation(config, i.(creditBand := good)))
          <= rank(Recommendation(config, i.(creditBand := bad)));
    }
  }

  /** For every ranking of actions, worse credit never gives a milder outcome exactly when each action that
      stands in for approval, for a blocking level that does not force rejection and for a failed fraud
      assessment, ranks no higher than any other action credit can recommend. */
  lemma CreditMonotoneExactly(config: PolicyConfig, rank: string -> int)
    requires Ranks(rank)
    ensures CreditMonotone(config, rank) <==>
              && (config.blockLevels <= config.rejectLevels || StandsInMildly(config, rank, config.blockAction))
              && StandsInMildly(config, rank, config.onFraudFailure)
  {
    if CreditMonotone(config, rank) {
      if !(config.blockLevels <= config.rejectLevels) {
        var level :| level in config.blockLevels && level !in config.rejectLevels;
        StandInIsNeeded(config, rank, Blocked(level), config.blockAction);
      }
      StandInIsNeeded(config, rank, BLIND, config.onFraudFailure);
    }
    if (config.blockLevels <= config.rejectLevels || StandsInMildly(config, rank, config.blockAction))
       && StandsInMildly(config, rank, config.onFraudFailure) {
      forall good, bad, i: Inputs
        | i.dataComplete && i.creditOk && rank(Base(config, good)) <= rank(Base(config, bad))
        ensures rank(Recommendation(config, i.(creditBand := good)))
             <= rank(Recommendation(config, i.(creditBand := bad)))
      {
        BaseIsBaseAction(config, good);
        BaseIsBaseAction(config, bad);
        hide BaseActions, Base;
      }
    }
  }

  /** The ranking the configuration gives its actions; an unknown one ranks below rejection. */
  function DefaultRank(action: string): int {
    if action == APPROVE then 0 else if action == REVIEW then 1 else if action == REJECT then 3 else 2
  }

  const MANUAL_REVIEW := "manual_review"

  const SHIPPED_POLICY := PolicyConfig(
    map["very_low" := APPROVE, "low" := APPROVE, "medium" := REVIEW, "high" := REJECT, "very_high" := REJECT],
    {Critical}, {High, Critical}, MANUAL_REVIEW, MANUAL_REVIEW, MANUAL_REVIEW, MANUAL_REVIEW)

  /** The shipped policy fails the condition: under a high fraud level low credit risk goes to manual review
      and medium credit risk to the milder review. */
  lemma WorseCreditMayRelax()
    ensures Ranks(DefaultRank) && !CreditMonotone(SHIPPED_POLICY, DefaultRank)
    ensures DefaultRank(Base(SHIPPED_POLICY, "low")) < DefaultRank(Base(SHIPPED_POLICY, "medium"))
    ensures Recommendation(SHIPPED_POLICY, Assessed("low", High)) == MANUAL_REVIEW
    ensures Recommendation(SHIPPED_POLICY, Assessed("medium", High)) == REVIEW
    ensures DefaultRank(MANUAL_REVIEW) > DefaultRank(REVIEW)
  {
    var i := Assessed("", High);
    assert i.(creditBand := "low") == Assessed("low", High);
    assert i.(creditBand := "medium") == Assessed("medium", High);
    assert Recommendation(SHIPPED_POLICY, i.(creditBand := "low")) == MANUAL_REVIEW;
    assert Recommendation(SHIPPED_POLICY, i.(creditBand := "medium")) == REVIEW;
  }

  // ----- when approval is safe -----

  /** Complete data, both assessments working, an approving band, and a level in neither set. */
  ghost predicate Safe(config: PolicyConfig, i: Inputs) {
    && i.dataComplete && i.creditOk && i.fraudOk
    && Base(config, i.creditBand) == APPROVE
    && (i.fraudLevel.Some? ==> i.fraudLevel.value !in config.rejectLevels + config.blockLevels)
  }

  predicate FallbacksHold(config: PolicyConfig) {
    && config.onIncompleteData != APPROVE
    && config.onCreditFailure != APPROVE
    && ((exists band :: band in config.creditRecommendation && config.creditRecommendation[band] == APPROVE) ==>
          && config.onFraudFailure != APPROVE
          && (config.blockLevels <= config.rejectLevels || config.blockAction != APPROVE))
  }

  /** Approval is given only to safe inputs exactly when no fallback that can be reached is itself approval. */
  lemma ApprovalIsSafeExactly(config: PolicyConfig)
    ensures (forall i :: Recommendation(config, i) == APPROVE ==> Safe(config, i)) <==> FallbacksHold(config)
  {
    if forall i :: Recommendation(config, i) == APPROVE ==> Safe(config, i) {
      var incomplete, failed := Inputs("", None, true, true, false), Inputs("", None, false, true, true);
      assert !Safe(config, incomplete) && !Safe(config, failed);
      if band :| band in config.creditRecommendation && config.creditRecommendation[band] == APPROVE {
        var blind := Inputs(band, None, true, false, true);
        assert !Safe(config, blind);
        if !(config.blockLevels <= config.rejectLevels) {
          var level :| level in config.blockLevels && level !in config.rejectLevels;
          assert !Safe(config, Assessed(band, level));
        }
      }
    }
  }

  // ----- the scorecard -----

  datatype CreditConfig = CreditConfig(
    minScore: int, maxScore: int, baseScore: int, scale: real, logBaseOdds: real, bands: seq<Band<string>>)

  function Bounded(p: real): real {
    if p < 0.000001 then 0.000001 else if p > 0.999999 then 0.999999 else p
  }

  function RawScore(config: CreditConfig, ln: real -> real, odds: real): real {
    config.baseScore as real + config.scale * (ln(odds) - config.logBaseOdds)
  }

  function Odds(p: real): (odds: real)
    ensures odds > 0.0
  {
    var q := Bounded(p);
    assert (1.0 - q) / q > 0.0;
    (1.0 - q) / q
  }

  function Clip(config: CreditConfig, n: int): int {
    var raised := if n < config.minScore then config.minScore else n;
    if raised > config.maxScore then config.maxScore else raised
  }

  /** `ln` is the natural logarithm, of which only growth is used; `scale` is the points per log-odds unit. */
  function CreditScore(config: CreditConfig, ln: real -> real, p: real): int {
    Clip(config, Round(RawScore(config, ln, Odds(p))))
  }

  lemma OddsFall(p: real, q: real)
    requires 0.0 < p <= q < 1.0
    ensures 0.0 < (1.0 - q) / q <= (1.0 - p) / p
  {
    assert (1.0 - p) / p == 1.0 / p - 1.0;
    assert (1.0 - q) / q == 1.0 / q - 1.0;
    ReciprocalFalls(p, q);
    assert (1.0 - q) / q > 0.0;
  }

  lemma ReciprocalFalls(p: real, q: real)
    requires 0.0 < p <= q
    ensures 1.0 / q <= 1.0 / p
  {
    var x, y := 1.0 / p, 1.0 / q;
    assert x * p == 1.0 && y * q == 1.0;
    if y > x {
      assert y * q >= y * p > x * p;
    }
  }

  lemma RawScoreGrows(config: CreditConfig, ln: real -> real, low: real, high: real)
    requires config.scale >= 0.0 && ln(low) <= ln(high)
    ensures RawScore(config, ln, low) <= RawScore(config, ln, high)
  {
    Scale(config.scale, ln(low) - config.logBaseOdds, ln(high) - config.logBaseOdds);
  }

  /** What the scorecard's parameters mean: base odds give the base score, and with `scale` set to pdo / ln 2,
      doubling the odds adds pdo points. */
  lemma ScorecardLaw(config: CreditConfig, ln: real -> real, baseOdds: real, pdo: real, odds: real)
    requires config.logBaseOdds == ln(baseOdds) && ln(2.0) > 0.0 && config.scale == pdo / ln(2.0)
    requires ln(2.0 * odds) == ln(2.0) + ln(odds)
    ensures RawScore(config, ln, baseOdds) == config.baseScore as real
    ensures RawScore(config, ln, 2.0 * odds) == RawScore(config, ln, odds) + pdo
  {
    var l, x, b := ln(2.0), ln(odds), config.logBaseOdds;
    assert config.scale * l == pdo;
    assert config.scale * (l + x - b) == config.scale * l + config.scale * (x - b);
  }

  /** A higher probability of default never gives a higher credit score, and scores stay in range. */
  lemma CreditScoreFalls(config: CreditConfig, ln: real -> real, p: real, q: real)
    requires p <= q && config.scale >= 0.0 && config.minScore <= config.maxScore
    requires forall x, y :: 0.0 < x <= y ==> ln(x) <= ln(y)
    ensures config.minScore <= CreditScore(config, ln, q) <= CreditScore(config, ln, p) <= config.maxScore
  {
    OddsFall(Bounded(p), Bounded(q));
    assert Odds(q) <= Odds(p);
    hide Odds, RawScore, Round;
    RawScoreGrows(config, ln, Odds(q), Odds(p));
    RoundIsMonotone(RawScore(config, ln, Odds(q)), RawScore(config, ln, Odds(p)));
  }

  const UNKNOWN_BAND := "unknown"

  function CreditBand(config: CreditConfig, score: int): string {
    if config.bands == [] then UNKNOWN_BAND else BandOf(config.bands, score).level
  }

  /** So a higher probability of default never gives a band with a higher minimum. */
  lemma CreditBandFalls(config: CreditConfig, ln: real -> real, p: real, q: real)
    requires p <= q && config.scale >= 0.0 && config.minScore <= config.maxScore && config.bands != []
    requires forall x, y :: 0.0 < x <= y ==> ln(x) <= ln(y)
    ensures BandOf(config.bands, CreditScore(config, ln, q)).minScore
         <= BandOf(config.bands, CreditScore(config, ln, p)).minScore
  {
    CreditScoreFalls(config, ln, p, q);
    BandIsMonotone(config.bands, CreditScore(config, ln, q), CreditScore(config, ln, p));
  }

  /** The credit band is the best one the score reaches, or the least one; without bands it is unknown. */
  lemma CreditBandIsBest(config: CreditConfig, score: int)
    ensures config.bands == [] ==> CreditBand(config, score) == UNKNOWN_BAND
    ensures config.bands != [] ==> exists b :: IsBandFor(config.bands, score, b) && b.level == CreditBand(config, score)
  {
    if config.bands != [] {
      BandIsBest(config.bands, score);
      assert IsBandFor(config.bands, score, BandOf(config.bands, score));
    }
  }

  /** The odds are those of not defaulting, with the probability held a millionth away from certainty. */
  lemma OddsAreOfNotDefaulting(p: real)
    ensures 0.000001 <= p <= 0.999999 ==> Odds(p) * p == 1.0 - p
    ensures p <= 0.000001 ==> Odds(p) == 999999.0
    ensures p >= 0.999999 ==> Odds(p) * 999999.0 == 1.0
  {
    var q := Bounded(p);
    Cancel(1.0 - q, q);
  }

  /** The score is within half a point of the raw one, unless the range ends stop it. */
  lemma CreditScoreIsNear(config: CreditConfig, ln: real -> real, p: real)
    requires config.minScore <= config.maxScore
    ensures var raw, score := RawScore(config, ln, Odds(p)), CreditScore(config, ln, p);
            && (config.minScore as real <= raw <= config.maxScore as real ==> -0.5 <= score as real - raw <= 0.5)
            && (raw <= config.minScore as real ==> score == config.minScore)
            && (raw >= config.maxScore as real ==> score == config.maxScore)
  {
    hide Odds, RawScore;
    var raw := RawScore(config, ln, Odds(p));
    TiesGoToEven(raw, 0);
    RoundFixesIntegers(config.minScore);
    RoundFixesIntegers(config.maxScore);
    if config.minScore as real <= raw {
      RoundIsMonotone(config.minScore as real, raw);
    } else {
      RoundIsMonotone(raw, config.minScore as real);
    }
    if raw <= config.maxScore as real {
      RoundIsMonotone(raw, config.maxScore as real);
    } else {
      RoundIsMonotone(config.maxScore as real, raw);
    }
  }

  // ----- confidence -----

  /** Configured weights of the two assessments in the confidence. */
  datatype ConfidenceWeights = ConfidenceWeights(credit: real, fraud: real)

  function Distance(x: real): real {
    if x < 0.0 then -x else x
  }

  /** How far a probability is from even odds. */
  function Decisiveness(p: real): real {
    Clamp01(2.0 * Distance(p - 0.5))
  }

  /** Nothing without a credit assessment; credit alone without a fraud one; otherwise the weighted mean. */
  function Confidence(w: ConfidenceWeights, pd: real, fraudProbability: Option<real>, creditOk: bool): real {
    if !creditOk then 0.0
    else if fraudProbability.Some? then
      var total := if w.credit + w.fraud == 0.0 then 1.0 else w.credit + w.fraud;
      (w.credit * Decisiveness(pd) + w.fraud * Decisiveness(fraudProbability.value)) / total
    else Decisiveness(pd)
  }

  /** With non-negative weights, not both zero, the confidence lies between the two assessments' own, so
      within 0 and 1. */
  lemma ConfidenceIsBetween(w: ConfidenceWeights, pd: real, f: real)
    requires w.credit >= 0.0 && w.fraud >= 0.0 && w.credit + w.fraud > 0.0
    ensures var c, a, b := Confidence(w, pd, Some(f), true), Decisiveness(pd), Decisiveness(f);
            && 0.0 <= c <= 1.0
            && (a <= b ==> a <= c <= b) && (b <= a ==> b <= c <= a)
  {
    var a, b, total := Decisiveness(pd), Decisiveness(f), w.credit + w.fraud;
    var low, high := if a <= b then a else b, if a <= b then b else a;
    hide Decisiveness;
    Scale(w.credit, low, a);
    Scale(w.credit, a, high);
    Scale(w.fraud, low, b);
    Scale(w.fraud, b, high);
    assert total * low == w.credit * low + w.fraud * low;
    assert total * high == w.credit * high + w.fraud * high;
    QuotientBetween(w.credit * a + w.fraud * b, total, low, high);
    DecisivenessIsUnit(pd);
    DecisivenessIsUnit(f);
  }

  lemma DecisivenessIsUnit(p: real)
    ensures 0.0 <= Decisiveness(p) <= 1.0
  {
  }

  /** Even odds are not decisive at all and certainty is fully so; in between the decisiveness is what the
      likelier outcome leaves over twice the other. */
  lemma DecisivenessLaw(p: real)
    requires Unit(p)
    ensures Decisiveness(p) + 2.0 * (if p <= 0.5 then p else 1.0 - p) == 1.0
    ensures Decisiveness(p) == 0.0 <==> p == 0.5
    ensures Decisiveness(p) == 1.0 <==> p == 0.0 || p == 1.0
  {
  }

  /** No credit assessment gives no confidence; where credit is the only assessment, or only one carries
      weight, its decisiveness is the confidence. */
  lemma SoleAssessmentDecides(w: ConfidenceWeights, pd: real, fraud: Option<real>)
    ensures Confidence(w, pd, fraud, false) == 0.0
    ensures fraud.None? || w.credit != 0.0 == w.fraud ==> Confidence(w, pd, fraud, true) == Decisiveness(pd)
    ensures fraud.Some? && w.credit == 0.0 != w.fraud ==> Confidence(w, pd, fraud, true) == Decisiveness(fraud.value)
    ensures w.credit == 0.0 == w.fraud && fraud.Some? ==> Confidence(w, pd, fraud, true) == 0.0
  {
    hide Decisiveness;
    if fraud.Some? && w.credit != 0.0 == w.fraud {
      DivideOut(Decisiveness(pd), w.credit);
    } else if fraud.Some? && w.credit == 0.0 != w.fraud {
      DivideOut(Decisiveness(fraud.value), w.fraud);
    }
  }

  lemma DivideOut(x: real, n: real)
    requires n != 0.0
    ensures n * x / n == x
  {
  }

  lemma QuotientBetween(x: real, n: real, low: real, high: real)
    requires n > 0.0 && n * low <= x <= n * high
    ensures low <= x / n <= high
  {
    assert x / n - low == (x - n * low) / n >= 0.0;
    assert high - x / n == (n * high - x) / n >= 0.0;
  }

  // ----- the engine -----

  /** What an injected callable does: answer, fail artifact integrity, or fail otherwise. */
  datatype Call<T> = Answers(value: T) | IntegrityFailure | OtherFailure

  datatype Warning = CreditUnavailableWarning | FraudUnavailableWarning | MonitoringUnavailableWarning

  datatype EngineConfig = EngineConfig(
    policy: PolicyConfig, scoring: ScoringConfig, credit: CreditConfig, weights: ConfidenceWeights)

  datatype Request = Request(
    dataComplete: bool,
    predictor: Call<real>,
    assessor: Option<Call<Signals>>,
    monitor: Option<bool>,
    modelVersions: map<string, string>,
    featureVersion: Option<string>
  )

  datatype Unified = Unified(
    creditScore: int,
    probabilityOfDefault: real,
    creditBand: string,
    fraud: Option<Assessment>,
    recommendation: string,
    confidence: real,
    reasons: seq<Reason>,
    modelVersions: map<string, string>,
    featureVersion: Option<string>,
    warnings: seq<Warning>,
    degraded: bool
  )

  const FOUR_DECIMALS := 10000

  function PdOf(predictor: Call<real>): real {
    if predictor.Answers? then Clamp01(predictor.value) else 1.0
  }

  /** The fraud assessment, if there is an assessor and both it and the scoring of its signals work. */
  function FraudOf(scoring: ScoringConfig, assessor: Option<Call<Signals>>): Option<Assessment>
    requires scoring.bands != []
  {
    if assessor.Some? && assessor.value.Answers? then Assess(scoring, assessor.value.value) else None
  }

  function LevelIn(fraud: Option<Assessment>): Option<Level> {
    match fraud case None => None case Some(a) => Some(a.level)
  }

  function ProbabilityIn(fraud: Option<Assessment>): Option<real> {
    match fraud case None => None case Some(a) => Some(a.probability)
  }

  /** The policy's inputs, for what was available. */
  function PolicyInputs(d: Unified, request: Request): Inputs {
    Inputs(d.creditBand, LevelIn(d.fraud), request.predictor.Answers?, d.fraud.Some?, request.dataComplete)
  }

  /** `ln` is the natural logarithm. */
  ghost predicate Decides(config: EngineConfig, ln: real -> real, request: Request, d: Unified)
    requires config.scoring.bands != []
  {
    var pd := PdOf(request.predictor);
    && d.creditScore == CreditScore(config.credit, ln, pd)
    && d.probabilityOfDefault == RoundTo(pd, FOUR_DECIMALS)
    && d.creditBand == CreditBand(config.credit, d.creditScore)
    && d.fraud == FraudOf(config.scoring, request.assessor)
    && d.recommendation == Recommendation(config.policy, PolicyInputs(d, request))
    && Explains(config.policy, PolicyInputs(d, request), d.reasons)
    && d.confidence ==
         RoundTo(Confidence(config.weights, pd, ProbabilityIn(d.fraud), request.predictor.Answers?), FOUR_DECIMALS)
    && d.modelVersions == request.modelVersions && d.featureVersion == request.featureVersion
    && (CreditUnavailableWarning in d.warnings <==> !request.predictor.Answers?)
    && (FraudUnavailableWarning in d.warnings <==> request.assessor.Some? && d.fraud.None?)
    && (MonitoringUnavailableWarning in d.warnings <==> request.monitor == Some(false))
    && (d.degraded <==> (request.assessor.Some? && d.fraud.None?) || request.monitor == Some(false))
  }

  /** A request is refused exactly when a reached model fails its integrity check; any other failure degrades,
      is warned about, and is decided by the policy; a failing monitor never changes the recommendation. */
  method Decide(config: EngineConfig, ln: real -> real, request: Request) returns (r: Result<Unified>)
    requires config.scoring.bands != []
    ensures r.Err? <==> request.predictor.IntegrityFailure? || request.assessor == Some(IntegrityFailure)
    ensures r.Err? ==> r.error == ArtifactIntegrityError
    ensures r.Ok? ==> Decides(config, ln, request, r.value)
  {
    hide CreditScore, CreditBand, Assess, Recommendation, Explains, Confidence, RoundTo;
    var warnings: seq<Warning>, degraded := [], false;
    var creditOk, pd := true, 1.0;
    match request.predictor {
      case Answers(p) => pd := Clamp01(p);
      case IntegrityFailure => return Err(ArtifactIntegrityError);
      case OtherFailure =>
        creditOk, pd := false, 1.0;
        warnings := warnings + [CreditUnavailableWarning];
    }
    var score := CreditScore(config.credit, ln, pd);
    var band := CreditBand(config.credit, score);
    var fraud: Option<Assessment> := None;
    if request.assessor.Some? {
      match request.assessor.value {
        case Answers(signals) => fraud := Assess(config.scoring, signals);
        case IntegrityFailure => return Err(ArtifactIntegrityError);
        case OtherFailure =>
      }
      if fraud.None? {
        degraded := true;
        warnings := warnings + [FraudUnavailableWarning];
      }
    }
    var inputs := Inputs(band, LevelIn(fraud), creditOk, fraud.Some?, request.dataComplete);
    var action, reasons := Recommend(config.policy, inputs);
    var confidence := Confidence(config.weights, pd, ProbabilityIn(fraud), creditOk);
    if request.monitor == Some(false) {
      warnings, degraded := warnings + [MonitoringUnavailableWarning], true;
    }
    r := Ok(Unified(score, RoundTo(pd, FOUR_DECIMALS), band, fraud, action, RoundTo(confidence, FOUR_DECIMALS), reasons,
                    request.modelVersions, request.featureVersion, warnings, degraded));
  }

  /** A failed credit assessment is decided as the worst one: no answer of the predictor gives a lower score
      or a higher probability of default, and there is no confidence in it. */
  lemma FailedCreditIsWorst(config: EngineConfig, ln: real -> real, failed: Request, other: Request, d: Unified,
                            e: Unified)
    requires config.scoring.bands != []
    requires config.credit.scale >= 0.0 && config.credit.minScore <= config.credit.maxScore
    requires forall x, y :: 0.0 < x <= y ==> ln(x) <= ln(y)
    requires failed.predictor.OtherFailure? && Decides(config, ln, failed, d) && Decides(config, ln, other, e)
    ensures d.creditScore <= e.creditScore && d.probabilityOfDefault == 1.0 >= e.probabilityOfDefault >= 0.0
    ensures d.confidence == 0.0 && CreditUnavailableWarning in d.warnings
    ensures failed.dataComplete ==> d.recommendation == config.policy.onCreditFailure
  {
    hide CreditBand, Explains, CreditScore, RoundTo;
    CreditScoreFalls(config.credit, ln, PdOf(other.predictor), PdOf(failed.predictor));
    RoundToIsMonotone(PdOf(other.predictor), 1.0, FOUR_DECIMALS);
    RoundToIsMonotone(0.0, PdOf(other.predictor), FOUR_DECIMALS);
    RoundToFixesIntegers(1, FOUR_DECIMALS);
    RoundToFixesIntegers(0, FOUR_DECIMALS);
  }

  /** An answered probability within 0 to 1 is the one reported, to four decimals; the fraud assessment is
      present exactly when its assessor answers and the score is within 0 to 1000. */
  lemma AnswersAreReported(config: EngineConfig, ln: real -> real, request: Request, d: Unified)
    requires config.scoring.bands != [] && Decides(config, ln, request, d)
    ensures request.predictor.Answers? && Unit(request.predictor.value) ==>
              var gap := Scaled(d.probabilityOfDefault, FOUR_DECIMALS)
                         - Scaled(request.predictor.value, FOUR_DECIMALS);
              -0.5 <= gap <= 0.5
    ensures d.fraud.Some? <==> request.assessor.Some? && request.assessor.value.Answers?
                               && 0 <= Score(config.scoring, request.assessor.value.value) <= 1000
  {
    hide CreditBand, Explains, CreditScore, RoundTo, Recommendation, Confidence, Score;
    RoundToIsNear(PdOf(request.predictor), FOUR_DECIMALS);
  }

  /** The monitor has no say: whether it works, fails or is absent changes nothing but the warning and the
      degradation, and a decision is degraded exactly when the fraud side or the monitor is warned about. */
  lemma MonitorHasNoSay(config: EngineConfig, ln: real -> real, request: Request, monitor: Option<bool>, d: Unified,
                        e: Unified)
    requires config.scoring.bands != []
    requires Decides(config, ln, request, d) && Decides(config, ln, request.(monitor := monitor), e)
    ensures d.(reasons := e.reasons, warnings := e.warnings, degraded := e.degraded) == e
    ensures forall reason :: reason in d.reasons <==> reason in e.reasons
    ensures forall w :: w != MonitoringUnavailableWarning ==> (w in d.warnings <==> w in e.warnings)
    ensures d.degraded <==> FraudUnavailableWarning in d.warnings || MonitoringUnavailableWarning in d.warnings
  {
    hide CreditBand, CreditScore, RoundTo, Confidence, Recommendation, Base;
    var i := PolicyInputs(d, request);
    assert PolicyInputs(e, request.(monitor := monitor)) == i;
    forall reason ensures reason in d.reasons <==> reason in e.reasons {
      SameReasons(config.policy, i, d.reasons, e.reasons, reason);
    }
  }

  lemma SameReasons(config: PolicyConfig, i: Inputs, a: seq<Reason>, b: seq<Reason>, reason: Reason)
    requires Explains(config, i, a) && Explains(config, i, b)
    ensures reason in a <==> reason in b
  {
    match reason
    case IncompleteRequiredData =>
    case CreditUnavailable =>
    case CreditRisk(band, action) =>
    case RejectOverride(l) =>
    case BlockAutoApproval(l) =>
    case FraudRisk(l) =>
    case FraudUnavailable =>
  }
}
