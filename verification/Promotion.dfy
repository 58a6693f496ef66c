/** The promotion policy: absolute metric floors, and bounded regression from the incumbent. */
module Promotion {
  import opened Wrappers
  import opened Domain

  type Metrics = map<string, real>

  /** Configuration mappings in their iteration order. */
  datatype PolicyConfig = PolicyConfig(required: seq<(string, real)>, maxDrop: seq<(string, real)>)

  datatype Reason = BelowMinimum(metric: string) | Regression(metric: string)

  datatype Decision = Decision(
    approved: bool,
    reasons: seq<Reason>,
    candidateVersion: string,
    incumbentVersion: Option<string>
  )

  // ----- specification -----

  predicate MeetsFloor(metrics: Metrics, floor: (string, real)) {
    floor.0 in metrics && metrics[floor.0] >= floor.1
  }

  /** A drop limit binds only when both models report the metric. */
  predicate WithinDrop(metrics: Metrics, incumbent: Metrics, limit: (string, real)) {
    limit.0 in metrics && limit.0 in incumbent ==> incumbent[limit.0] - metrics[limit.0] <= limit.1
  }

  predicate MeetsFloors(config: PolicyConfig, metrics: Metrics) {
    forall i :: 0 <= i < |config.required| ==> MeetsFloor(metrics, config.required[i])
  }

  predicate Approves(config: PolicyConfig, metrics: Metrics, incumbent: Option<Metrics>) {
    && MeetsFloors(config, metrics)
    && (incumbent.Some? ==>
          forall i :: 0 <= i < |config.maxDrop| ==> WithinDrop(metrics, incumbent.value, config.maxDrop[i]))
  }

  function MetricsOf(m: Option<ModelVersion>): Option<Metrics> {
    match m case None => None case Some(model) => Some(model.metrics)
  }

  // ----- the evaluation loop -----

  /** Approval exactly when every floor is met and no limited metric drops too far; each reason names a
      configured metric that failed its test. */
  method Evaluate(config: PolicyConfig, candidate: ModelVersion, incumbent: Option<ModelVersion>) returns (d: Decision)
    ensures d.approved <==> Approves(config, candidate.metrics, MetricsOf(incumbent))
    ensures d.approved <==> d.reasons == []
    ensures forall metric :: BelowMinimum(metric) in d.reasons <==>
              exists i :: 0 <= i < |config.required| && config.required[i].0 == metric
                          && !MeetsFloor(candidate.metrics, config.required[i])
    ensures forall metric :: Regression(metric) in d.reasons <==>
              incumbent.Some? &&
              exists i :: 0 <= i < |config.maxDrop| && config.maxDrop[i].0 == metric
                          && !WithinDrop(candidate.metrics, incumbent.value.metrics, config.maxDrop[i])
    ensures d.candidateVersion == candidate.version
    ensures d.incumbentVersion == match incumbent case None => None case Some(m) => Some(m.version)
  {
    var reasons: seq<Reason> := [];
    var metrics := candidate.metrics;
    for i := 0 to |config.required|
      invariant forall metric :: BelowMinimum(metric) in reasons <==>
                  exists k :: 0 <= k < i && config.required[k].0 == metric && !MeetsFloor(metrics, config.required[k])
      invariant forall metric :: Regression(metric) !in reasons
      invariant reasons == [] <==> forall k :: 0 <= k < i ==> MeetsFloor(metrics, config.required[k])
    {
      var (metric, minimum) := config.required[i];
      if metric !in metrics || metrics[metric] < minimum {
        assert !MeetsFloor(metrics, config.required[i]);
        reasons := reasons + [BelowMinimum(metric)];
      }
    }
    var floors := reasons;
    if incumbent.Some? {
      var previous := incumbent.value.metrics;
      for i := 0 to |config.maxDrop|
        invariant forall metric :: BelowMinimum(metric) in reasons <==> BelowMinimum(metric) in floors
        invariant forall metric :: Regression(metric) in reasons <==>
                    exists k :: 0 <= k < i && config.maxDrop[k].0 == metric
                        && !WithinDrop(metrics, previous, config.maxDrop[k])
        invariant reasons == [] <==>
                    floors == [] && forall k :: 0 <= k < i ==> WithinDrop(metrics, previous, config.maxDrop[k])
      {
        var (metric, allowedDrop) := config.maxDrop[i];
        if metric in metrics && metric in previous && previous[metric] - metrics[metric] > allowedDrop {
          assert !WithinDrop(metrics, previous, config.maxDrop[i]);
          reasons := reasons + [Regression(metric)];
        }
      }
    }
    d := Decision(reasons == [], reasons, candidate.version,
                  if incumbent.Some? then Some(incumbent.value.version) else None);
  }

  /** A metric both floored and drop-limited can lose at most the allowed drop per replacement. */
  lemma ApprovedDropIsBounded(config: PolicyConfig, metrics: Metrics, incumbent: Metrics, metric: string, drop: real)
    requires Approves(config, metrics, Some(incumbent)) && MeetsFloors(config, incumbent)
    requires exists floor :: (metric, floor) in config.required
    requires (metric, drop) in config.maxDrop
    ensures metric in metrics && metric in incumbent && metrics[metric] >= incumbent[metric] - drop
  {
    var floor :| (metric, floor) in config.required;
    var i :| 0 <= i < |config.required| && config.required[i] == (metric, floor);
    var k :| 0 <= k < |config.maxDrop| && config.maxDrop[k] == (metric, drop);
    assert MeetsFloor(metrics, config.required[i]) && MeetsFloor(incumbent, config.required[i]);
    assert WithinDrop(metrics, incumbent, config.maxDrop[k]);
  }

  ghost predicate AtLeast(better: Metrics, metrics: Metrics) {
    better.Keys == metrics.Keys && forall k :: k in metrics ==> better[k] >= metrics[k]
  }

  /** Better metrics are approved when worse ones are, against the same or a worse incumbent. */
  lemma ApprovalIsMonotone(config: PolicyConfig, metrics: Metrics, better: Metrics, incumbent: Metrics, weaker: Metrics)
    requires AtLeast(better, metrics) && AtLeast(incumbent, weaker)
    ensures Approves(config, metrics, None) ==> Approves(config, better, None)
    ensures Approves(config, metrics, Some(incumbent)) ==> Approves(config, better, Some(weaker))
  {
  }

  /** A floor alone demands the metric and at least its value; a drop limit alone demands no more than that
      drop, and nothing of a metric that either model lacks. */
  lemma SingleLimitDecides(metric: string, limit: real, metrics: Metrics, incumbent: Metrics)
    ensures Approves(PolicyConfig([(metric, limit)], []), metrics, Some(incumbent)) <==>
              metric in metrics && limit <= metrics[metric]
    ensures Approves(PolicyConfig([], [(metric, limit)]), metrics, Some(incumbent)) <==>
              metric !in metrics || metric !in incumbent || incumbent[metric] <= metrics[metric] + limit
    ensures Approves(PolicyConfig([], [(metric, limit)]), metrics, None)
  {
    var floor, drop := PolicyConfig([(metric, limit)], []), PolicyConfig([], [(metric, limit)]);
    assert floor.required[0] == (metric, limit) && drop.maxDrop[0] == (metric, limit);
  }
}
