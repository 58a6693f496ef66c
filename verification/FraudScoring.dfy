/** Fraud signals to a banded score: weighted mean, clamp, half-even rounding, first matching band. */
module FraudScoring {
  import opened Bands
  import opened Rounding
  import opened Wrappers

  datatype Level = VeryLow | Low | Moderate | High | Critical

  datatype Signals = Signals(anomaly: real, rules: real, behaviour: real)

  /** Configured weights; `others` is the sum over keys that name no signal. A missing key weighs nothing. */
  datatype Weights = Weights(anomaly: real, rules: real, behaviour: real, others: real)

  datatype ScoringConfig = ScoringConfig(scoreMin: int, scoreMax: int, weights: Weights, bands: seq<Band<Level>>)

  function Clamp01(x: real): real {
    if x < 0.0 then 0.0 else if x > 1.0 then 1.0 else x
  }

  function TotalWeight(w: Weights): real {
    var total := w.anomaly + w.rules + w.behaviour + w.others;
    if total == 0.0 then 1.0 else total
  }

  function Contribution(weight: real, signal: real): real {
    weight * signal
  }

  function WeightedSum(w: Weights, s: Signals): real {
    Contribution(w.anomaly, s.anomaly) + Contribution(w.rules, s.rules) + Contribution(w.behaviour, s.behaviour)
  }

  function Probability(config: ScoringConfig, s: Signals): real {
    Clamp01(WeightedSum(config.weights, s) / TotalWeight(config.weights))
  }

  function Interpolate(low: int, high: int, p: real): real {
    low as real + p * (high - low) as real
  }

  function Score(config: ScoringConfig, s: Signals): int {
    Round(Interpolate(config.scoreMin, config.scoreMax, Probability(config, s)))
  }

  function LevelOf(config: ScoringConfig, score: int): Band<Level>
    requires config.bands != []
  {
    BandOf(config.bands, score)
  }

  /** The result type admits scores from 0 to 1000 only, so scoring fails outside of that. */
  datatype Assessment = Assessment(score: int, probability: real, level: Level)

  function Assess(config: ScoringConfig, s: Signals): Option<Assessment>
    requires config.bands != []
  {
    var score := Score(config, s);
    if 0 <= score <= 1000
    then Some(Assessment(score, RoundTo(Probability(config, s), 10000), LevelOf(config, score).level))
    else None
  }

  predicate AreUnit(s: Signals) {
    Unit(s.anomaly) && Unit(s.rules) && Unit(s.behaviour)
  }

  const NO_SIGNAL := Signals(0.0, 0.0, 0.0)
  const FULL_SIGNAL := Signals(1.0, 1.0, 1.0)

  /** Every triple of signals is assessed exactly when the least and the greatest score the configuration can
      give lie within 0 to 1000. */
  lemma AssessNeverFailsExactly(config: ScoringConfig)
    requires config.bands != [] && NonNegative(config.weights) && config.scoreMin <= config.scoreMax
    ensures (forall s | AreUnit(s) :: Assess(config, s).Some?)
       <==> 0 <= Score(config, NO_SIGNAL) && Score(config, FULL_SIGNAL) <= 1000
  {
    hide Score, LevelOf, Probability;
    ScoreIsMonotone(config, NO_SIGNAL, FULL_SIGNAL);
    assert AreUnit(NO_SIGNAL) && AreUnit(FULL_SIGNAL);
    assert Assess(config, NO_SIGNAL).Some? <==> 0 <= Score(config, NO_SIGNAL) <= 1000;
    assert Assess(config, FULL_SIGNAL).Some? <==> 0 <= Score(config, FULL_SIGNAL) <= 1000;
    forall s | AreUnit(s) ensures Score(config, NO_SIGNAL) <= Score(config, s) <= Score(config, FULL_SIGNAL) {
      ScoreIsMonotone(config, NO_SIGNAL, s);
      ScoreIsMonotone(config, s, FULL_SIGNAL);
    }
  }

  // ----- monotonicity and range -----

  predicate NonNegative(w: Weights) {
    w.anomaly >= 0.0 && w.rules >= 0.0 && w.behaviour >= 0.0 && w.others >= 0.0
  }

  predicate AtMost(s: Signals, t: Signals) {
    s.anomaly <= t.anomaly && s.rules <= t.rules && s.behaviour <= t.behaviour
  }

  lemma Scale(w: real, x: real, y: real)
    requires w >= 0.0 && x <= y
    ensures w * x <= w * y
  {
  }

  lemma ContributionIsMonotone(weight: real, x: real, y: real)
    requires weight >= 0.0 && x <= y
    ensures Contribution(weight, x) <= Contribution(weight, y)
  {
    Scale(weight, x, y);
  }

  lemma ContributionEnds(weight: real)
    ensures Contribution(weight, 0.0) == 0.0 && Contribution(weight, 1.0) == weight
  {
  }

  lemma SumIsMonotone(w: Weights, s: Signals, t: Signals)
    requires NonNegative(w) && AtMost(s, t)
    ensures WeightedSum(w, s) <= WeightedSum(w, t)
  {
    hide Contribution;
    ContributionIsMonotone(w.anomaly, s.anomaly, t.anomaly);
    ContributionIsMonotone(w.rules, s.rules, t.rules);
    ContributionIsMonotone(w.behaviour, s.behaviour, t.behaviour);
  }

  lemma ClampedQuotientIsMonotone(x: real, y: real, total: real)
    requires total > 0.0 && x <= y
    ensures 0.0 <= Clamp01(x / total) <= Clamp01(y / total) <= 1.0
  {
    assert y / total - x / total == (y - x) / total >= 0.0;
  }

  lemma ProbabilityIsMonotone(config: ScoringConfig, s: Signals, t: Signals)
    requires NonNegative(config.weights) && AtMost(s, t)
    ensures 0.0 <= Probability(config, s) <= Probability(config, t) <= 1.0
  {
    SumIsMonotone(config.weights, s, t);
    assert TotalWeight(config.weights) > 0.0;
    hide WeightedSum, Clamp01, TotalWeight;
    ClampedQuotientIsMonotone(WeightedSum(config.weights, s), WeightedSum(config.weights, t),
        TotalWeight(config.weights));
  }

  predicate Unit(x: real) {
    0.0 <= x <= 1.0
  }

  /** A signal that alone carries weight is the probability. */
  lemma SoleWeightDecides(config: ScoringConfig, s: Signals)
    requires AreUnit(s)
    ensures var w := config.weights;
            && (w.anomaly > 0.0 == w.rules == w.behaviour == w.others ==> Probability(config, s) == s.anomaly)
            && (w.rules > 0.0 == w.anomaly == w.behaviour == w.others ==> Probability(config, s) == s.rules)
            && (w.behaviour > 0.0 == w.anomaly == w.rules == w.others ==> Probability(config, s) == s.behaviour)
  {
    var w := config.weights;
    if w.anomaly > 0.0 == w.rules == w.behaviour == w.others {
      SoleQuotient(config, s, w.anomaly, s.anomaly);
    } else if w.rules > 0.0 == w.anomaly == w.behaviour == w.others {
      SoleQuotient(config, s, w.rules, s.rules);
    } else if w.behaviour > 0.0 == w.anomaly == w.rules == w.others {
      SoleQuotient(config, s, w.behaviour, s.behaviour);
    }
  }

  lemma SoleQuotient(config: ScoringConfig, s: Signals, weight: real, signal: real)
    requires weight > 0.0 && Unit(signal)
    requires TotalWeight(config.weights) == weight && WeightedSum(config.weights, s) == weight * signal
    ensures Probability(config, s) == signal
  {
    hide TotalWeight, WeightedSum;
    Cancel(signal, weight);
  }

  lemma Portion(weight: real, signal: real)
    requires weight >= 0.0 && Unit(signal)
    ensures 0.0 <= Contribution(weight, signal) <= weight
  {
    ContributionEnds(weight);
    hide Contribution;
    ContributionIsMonotone(weight, 0.0, signal);
    ContributionIsMonotone(weight, signal, 1.0);
  }

  lemma SumIsPortion(w: Weights, s: Signals)
    requires NonNegative(w) && AreUnit(s)
    ensures 0.0 <= WeightedSum(w, s) <= w.anomaly + w.rules + w.behaviour
  {
    hide Contribution;
    Portion(w.anomaly, s.anomaly);
    Portion(w.rules, s.rules);
    Portion(w.behaviour, s.behaviour);
  }

  lemma PortionOfTotal(sum: real, total: real)
    requires 0.0 <= sum <= total
    ensures total > 0.0 ==> Clamp01(sum / total) * total == sum
  {
    if total > 0.0 {
      Cancel(sum, total);
      Cancel(1.0, total);
      QuotientIsMonotone(0.0, sum, total);
      QuotientIsMonotone(sum, total, total);
    }
  }

  lemma ProbabilityPortion(config: ScoringConfig, s: Signals)
    requires AreUnit(s) && NonNegative(config.weights)
    ensures var w := config.weights;
            var total := w.anomaly + w.rules + w.behaviour + w.others;
            if total > 0.0 then Probability(config, s) * total == WeightedSum(w, s)
            else Probability(config, s) == 0.0 == WeightedSum(w, s)
  {
    var w := config.weights;
    SumIsPortion(w, s);
    hide WeightedSum, Clamp01;
    PortionOfTotal(WeightedSum(w, s), w.anomaly + w.rules + w.behaviour + w.others);
    NothingIsNothing();
  }

  /** The probability of unit signals is the weighted mean: it splits into what each signal contributes, and
      weight on other keys dilutes it. Without any weight it is 0. */
  lemma SignalsContribute(config: ScoringConfig, s: Signals)
    requires AreUnit(s) && NonNegative(config.weights)
    ensures var w := config.weights;
            Probability(config, s) * (w.anomaly + w.rules + w.behaviour + w.others)
              == w.anomaly * s.anomaly + w.rules * s.rules + w.behaviour * s.behaviour
    ensures config.weights == Weights(0.0, 0.0, 0.0, 0.0) ==> Probability(config, s) == 0.0
  {
    hide Probability;
    ProbabilityPortion(config, s);
  }

  lemma Distributes(w: Weights, x: real)
    ensures w.anomaly * x + w.rules * x + w.behaviour * x == x * (w.anomaly + w.rules + w.behaviour)
  {
  }

  lemma NothingIsNothing()
    ensures Clamp01(0.0 / 1.0) == 0.0
  {
  }

  /** With all weight on the signals, equal signals are the probability; so the score takes the whole range. */
  lemma EqualSignalsDecide(config: ScoringConfig, x: real)
    requires Unit(x) && NonNegative(config.weights) && config.weights.others == 0.0
    requires config.weights.anomaly + config.weights.rules + config.weights.behaviour > 0.0
    ensures Probability(config, Signals(x, x, x)) == x
    ensures x == 0.0 ==> Score(config, Signals(x, x, x)) == config.scoreMin
    ensures x == 1.0 ==> Score(config, Signals(x, x, x)) == config.scoreMax
  {
    var w := config.weights;
    var named := w.anomaly + w.rules + w.behaviour;
    var p := Probability(config, Signals(x, x, x));
    SignalsContribute(config, Signals(x, x, x));
    hide Probability;
    Distributes(w, x);
    Cancel(x, named);
    Cancel(p, named);
    RoundFixesIntegers(config.scoreMin);
    RoundFixesIntegers(config.scoreMax);
    hide Round;
    assert 0.0 * (config.scoreMax - config.scoreMin) as real == 0.0;
  }

  /** The score divides the range as the probability divides the unit: it is within half a point of that. */
  lemma ScoreIsProportional(config: ScoringConfig, s: Signals)
    ensures var p, span := Probability(config, s), (config.scoreMax - config.scoreMin) as real;
            -0.5 <= (Score(config, s) - config.scoreMin) as real - p * span <= 0.5
  {
    hide Probability, Round;
    TiesGoToEven(Interpolate(config.scoreMin, config.scoreMax, Probability(config, s)), 0);
  }

  /** An assessment reports that score, the probability to four decimals, and the level of a band for it. */
  lemma AssessmentReports(config: ScoringConfig, s: Signals)
    requires config.bands != [] && Assess(config, s).Some?
    ensures var a := Assess(config, s).value;
            && a.score == Score(config, s) && 0 <= a.score <= 1000
            && -0.5 <= Scaled(a.probability, 10000) - Scaled(Probability(config, s), 10000) <= 0.5
            && exists b :: IsBandFor(config.bands, a.score, b) && b.level == a.level
  {
    hide Probability, Score, RoundTo;
    RoundToIsNear(Probability(config, s), 10000);
    BandIsBest(config.bands, Score(config, s));
    assert IsBandFor(config.bands, Score(config, s), BandOf(config.bands, Score(config, s)));
  }

  lemma InterpolationIsMonotone(low: int, high: int, p: real, q: real)
    requires low <= high && 0.0 <= p <= q <= 1.0
    ensures low as real <= Interpolate(low, high, p) <= Interpolate(low, high, q) <= high as real
  {
    var span := (high - low) as real;
    Scale(span, 0.0, p);
    Scale(span, p, q);
    Scale(span, q, 1.0);
  }

  /** Raising any signal never lowers the score or its band, and the score stays in the configured range. */
  lemma ScoreIsMonotone(config: ScoringConfig, s: Signals, t: Signals)
    requires NonNegative(config.weights) && AtMost(s, t) && config.scoreMin <= config.scoreMax
    ensures config.scoreMin <= Score(config, s) <= Score(config, t) <= config.scoreMax
    ensures config.bands != []
        ==> LevelOf(config, Score(config, s)).minScore <= LevelOf(config, Score(config, t)).minScore
  {
    hide Round, Probability, Interpolate, BandOf;
    ProbabilityIsMonotone(config, s, t);
    var p, q := Probability(config, s), Probability(config, t);
    InterpolationIsMonotone(config.scoreMin, config.scoreMax, p, q);
    RoundsInRange(config.scoreMin, config.scoreMax,
                  Interpolate(config.scoreMin, config.scoreMax, p), Interpolate(config.scoreMin, config.scoreMax, q));
    if config.bands != [] {
      BandIsMonotone(config.bands, Score(config, s), Score(config, t));
    }
  }

  lemma RoundsInRange(low: int, high: int, x: real, y: real)
    requires low as real <= x <= y <= high as real
    ensures low <= Round(x) <= Round(y) <= high
  {
    hide Round;
    RoundFixesIntegers(low);
    RoundFixesIntegers(high);
    RoundIsMonotone(low as real, x);
    RoundIsMonotone(x, y);
    RoundIsMonotone(y, high as real);
  }
}
