/** Inference monitoring: two implementations of one bounded event window, and its aggregation. */
module Monitoring {
  import opened Rounding
  import opened Sequences

  datatype InferenceEvent = InferenceEvent(correlationId: string, success: bool, durationMs: real)

  datatype MonitoringConfig = MonitoringConfig(
    enabled: bool,
    retentionEvents: nat,
    warningFailureRate: real,
    criticalFailureRate: real,
    warningLatencyMs: real,
    criticalLatencyMs: real
  )

  // ----- the window -----

  function Last<T>(s: seq<T>, n: nat): seq<T> {
    if |s| <= n then s else s[|s| - n..]
  }

  class InMemoryDecisionMonitor {
    const config: MonitoringConfig
    var events: seq<InferenceEvent>

    constructor (config: MonitoringConfig)
      ensures this.config == config && events == []
    {
      this.config := config;
      events := [];
    }

    method Record(event: InferenceEvent)
      modifies this
      ensures events == if config.enabled then Last(old(events) + [event], config.retentionEvents) else old(events)
    {
      if !config.enabled {
        return;
      }
      // A bounded deque: appending to a full one drops the oldest event.
      events := events + [event];
      if |events| > config.retentionEvents {
        events := events[|events| - config.retentionEvents..];
      }
    }

    method Snapshot() returns (s: Snapshot)
      ensures Aggregates(s, events, config)
    {
      s := AggregateEvents(events, config);
    }
  }

  /** LTRIM as Redis defines it: negative positions count from the end, and an empty range empties the list. */
  function Trimmed<T>(s: seq<T>, start: int, stop: int): seq<T> {
    var from := if start >= 0 then start else if |s| + start >= 0 then |s| + start else 0;
    var to := if stop < 0 then |s| + stop else if stop < |s| then stop else |s| - 1;
    if from > to || from >= |s| then [] else s[from..to + 1]
  }

  /** A list key: its values, and when it expires. */
  datatype Stored = Stored(values: seq<InferenceEvent>, expiresAt: int)

  const NOTHING := Stored([], 0)

  /** What a client reads at `now`: an expired key reads as absent. Times are in milliseconds. */
  function Live(stored: Stored, now: int): seq<InferenceEvent> {
    if now < stored.expiresAt then stored.values else []
  }

  class RedisDecisionMonitor {
    const config: MonitoringConfig
    const ttlSeconds: int
    var stored: Stored

    constructor (config: MonitoringConfig, ttlSeconds: int)
      ensures this.config == config && this.ttlSeconds == ttlSeconds && stored == NOTHING
    {
      this.config := config;
      this.ttlSeconds := ttlSeconds;
      stored := NOTHING;
    }

    /** The pipelined transaction: append, trim, and let the list live for another while. With something
        retained, the list holds the last events of the live list and the new event. */
    method Record(event: InferenceEvent, now: int)
      modifies this
      ensures stored == RedisStep(config, ttlSeconds, old(stored), Stamped(event, now))
      ensures config.enabled && config.retentionEvents >= 1 ==>
                stored.values == Last(Live(old(stored), now) + [event], config.retentionEvents)
    {
      if !config.enabled {
        return;
      }
      var list := Live(stored, now) + [event];
      TrimKeepsLast(list, if config.retentionEvents >= 1 then config.retentionEvents else 1);
      list := Trimmed(list, -(config.retentionEvents as int), -1);
      stored := Stored(list, now + 1000 * ttlSeconds);
    }

    method Snapshot(now: int) returns (s: Snapshot)
      ensures Aggregates(s, Live(stored, now), config)
    {
      s := AggregateEvents(Live(stored, now), config);
    }
  }

  datatype Stamped = Stamped(event: InferenceEvent, at: int)

  function RedisStep(config: MonitoringConfig, ttlSeconds: int, stored: Stored, e: Stamped): Stored {
    if !config.enabled then stored
    else Stored(Trimmed(Live(stored, e.at) + [e.event], -(config.retentionEvents as int), -1), e.at + 1000 * ttlSeconds)
  }

  function RedisAfter(config: MonitoringConfig, ttlSeconds: int, history: seq<Stamped>): Stored {
    if history == [] then NOTHING
    else
      var n := |history| - 1;
      RedisStep(config, ttlSeconds, RedisAfter(config, ttlSeconds, history[..n]), history[n])
  }

  function InMemoryAfter(config: MonitoringConfig, history: seq<Stamped>): seq<InferenceEvent> {
    if history == [] || !config.enabled then []
    else
      var n := |history| - 1;
      Last(InMemoryAfter(config, history[..n]) + [history[n].event], config.retentionEvents)
  }

  function Events(history: seq<Stamped>): (r: seq<InferenceEvent>)
    ensures |r| == |history|
  {
    if history == [] then [] else Events(history[..|history| - 1]) + [history[|history| - 1].event]
  }

  /** No two successive records, nor the last one and `now`, lie as far apart as the list lives. */
  ghost predicate NoGap(history: seq<Stamped>, now: int, ttlSeconds: int) {
    && (forall i :: 0 < i < |history| ==> history[i].at < history[i - 1].at + 1000 * ttlSeconds)
    && (history != [] ==> now < history[|history| - 1].at + 1000 * ttlSeconds)
  }

  lemma LastOfLast<T>(s: seq<T>, e: T, n: nat)
    ensures Last(Last(s, n) + [e], n) == Last(s + [e], n)
  {
  }

  lemma TrimKeepsLast<T>(s: seq<T>, n: nat)
    requires n >= 1
    ensures Trimmed(s, -(n as int), -1) == Last(s, n)
  {
  }

  lemma NothingIsLast<T>(n: nat)
    ensures Last<T>([], n) == []
  {
  }

  /** After any sequence of records the in-memory window holds exactly the last events, as many as are
      retained. */
  lemma {:induction false} InMemoryHoldsTheLast(config: MonitoringConfig, history: seq<Stamped>)
    requires config.enabled
    ensures InMemoryAfter(config, history) == Last(Events(history), config.retentionEvents)
  {
    hide Last;
    if history == [] {
      NothingIsLast<InferenceEvent>(config.retentionEvents);
    } else {
      var n := |history| - 1;
      InMemoryHoldsTheLast(config, history[..n]);
      LastOfLast(Events(history[..n]), history[n].event, config.retentionEvents);
    }
  }

  /** So does the Redis list, while no gap lets it expire. */
  lemma {:induction false} RedisHoldsTheLast(config: MonitoringConfig, ttlSeconds: int, history: seq<Stamped>, now: int)
    requires config.enabled && config.retentionEvents >= 1 && NoGap(history, now, ttlSeconds)
    ensures Live(RedisAfter(config, ttlSeconds, history), now) == Last(Events(history), config.retentionEvents)
  {
    hide Last, Trimmed;
    if history == [] {
      NothingIsLast<InferenceEvent>(config.retentionEvents);
    } else {
      var n := |history| - 1;
      RedisHoldsTheLast(config, ttlSeconds, history[..n], history[n].at);
      TrimKeepsLast(Last(Events(history[..n]), config.retentionEvents) + [history[n].event], config.retentionEvents);
      LastOfLast(Events(history[..n]), history[n].event, config.retentionEvents);
    }
  }

  /** Both windows hold the same last min(n, retention) events, in order. */
  lemma BothHoldTheLastEvents(config: MonitoringConfig, ttlSeconds: int, history: seq<Stamped>, now: int)
    requires config.enabled && config.retentionEvents >= 1 && NoGap(history, now, ttlSeconds)
    ensures InMemoryAfter(config, history) == Last(Events(history), config.retentionEvents)
    ensures Live(RedisAfter(config, ttlSeconds, history), now) == Last(Events(history), config.retentionEvents)
  {
    InMemoryHoldsTheLast(config, history);
    RedisHoldsTheLast(config, ttlSeconds, history, now);
  }

  /** A gap as long as the list lives forgets everything before it: the list is that of the later records. */
  lemma {:induction false} GapForgets(config: MonitoringConfig, ttlSeconds: int, before: seq<Stamped>,
                                      after: seq<Stamped>)
    requires config.enabled && before != [] && after != []
    requires after[0].at >= before[|before| - 1].at + 1000 * ttlSeconds
    ensures RedisAfter(config, ttlSeconds, before + after) == RedisAfter(config, ttlSeconds, after)
    decreases |after|
  {
    hide Trimmed;
    var n := |after| - 1;
    assert (before + after)[..|before| + n] == before + after[..n];
    if n == 0 {
      assert before + after[..0] == before && after[..0] == [];
      LivesUntil(config, ttlSeconds, before);
      assert Live(NOTHING, after[0].at) == [];
    } else {
      GapForgets(config, ttlSeconds, before, after[..n]);
    }
  }

  lemma LivesUntil(config: MonitoringConfig, ttlSeconds: int, history: seq<Stamped>)
    requires config.enabled && history != []
    ensures RedisAfter(config, ttlSeconds, history).expiresAt == history[|history| - 1].at + 1000 * ttlSeconds
  {
  }

  lemma {:induction false} NoRetentionKeepsAllInRedis(config: MonitoringConfig, ttlSeconds: int, history: seq<Stamped>,
                                                      now: int)
    requires config.enabled && config.retentionEvents == 0 && NoGap(history, now, ttlSeconds)
    ensures Live(RedisAfter(config, ttlSeconds, history), now) == Events(history)
  {
    if history != [] {
      var n := |history| - 1;
      NoRetentionKeepsAllInRedis(config, ttlSeconds, history[..n], history[n].at);
      TrimOfAll(Events(history));
      hide Trimmed;
    }
  }

  lemma TrimOfAll<T>(s: seq<T>)
    ensures Trimmed(s, 0, -1) == s
  {
    if s != [] {
      assert s[0..|s|] == s;
    }
  }

  /** The two windows agree after every history without a gap exactly when something is retained, as the
      configuration demands: a retention of zero would empty the deque and never trim the list. */
  lemma WindowsAgreeExactly(config: MonitoringConfig, ttlSeconds: int)
    requires config.enabled && ttlSeconds > 0
    ensures (forall history, now :: NoGap(history, now, ttlSeconds)
                                    ==> InMemoryAfter(config, history)
                                        == Live(RedisAfter(config, ttlSeconds, history), now))
       <==> config.retentionEvents >= 1
  {
    if config.retentionEvents >= 1 {
      forall history, now | NoGap(history, now, ttlSeconds)
        ensures InMemoryAfter(config, history) == Live(RedisAfter(config, ttlSeconds, history), now)
      {
        BothHoldTheLastEvents(config, ttlSeconds, history, now);
      }
    } else {
      var history := [Stamped(InferenceEvent("", true, 0.0), 0)];
      assert NoGap(history, 0, ttlSeconds);
      NoRetentionKeepsAllInRedis(config, ttlSeconds, history, 0);
      InMemoryHoldsTheLast(config, history);
      assert Last(Events(history), 0) == [];
    }
  }

  // ----- aggregation -----

  datatype Status = Unknown | Healthy | Degraded | Unhealthy

  datatype Reason =
    | NoInferenceEvents
    | CriticalFailureRate
    | ElevatedFailureRate
    | CriticalAverageLatency
    | ElevatedAverageLatency

  datatype Snapshot = Snapshot(
    count: nat,
    failures: nat,
    failureRate: real,
    averageLatencyMs: real,
    p95LatencyMs: real,
    status: Status,
    reasons: seq<Reason>
  )

  function Failures(events: seq<InferenceEvent>): nat {
    if events == [] then 0 else Failures(events[..|events| - 1]) + if events[|events| - 1].success then 0 else 1
  }

  function TotalLatency(events: seq<InferenceEvent>): real {
    if events == [] then 0.0 else TotalLatency(events[..|events| - 1]) + events[|events| - 1].durationMs
  }

  /** How many events took at most x. */
  function WithinLatency(events: seq<InferenceEvent>, x: real): nat {
    if events == [] then 0
    else WithinLatency(events[..|events| - 1], x) + if events[|events| - 1].durationMs <= x then 1 else 0
  }

  /** The nearest-rank 95th percentile: the least value that at least 95 per cent of the events do not exceed. */
  ghost predicate IsNearestRank95(events: seq<InferenceEvent>, p: real) {
    && 100 * WithinLatency(events, p) >= 95 * |events|
    && forall x :: x < p ==> 100 * WithinLatency(events, x) < 95 * |events|
  }

  function Level(value: real, warning: real, critical: real): Status {
    if value >= critical then Unhealthy else if value >= warning then Degraded else Healthy
  }

  function Severity(s: Status): nat {
    match s case Unknown => 0 case Healthy => 1 case Degraded => 2 case Unhealthy => 3
  }

  function Worse(a: Status, b: Status): Status {
    if Severity(a) >= Severity(b) then a else b
  }

  function HealthOf(rate: real, latency: real, config: MonitoringConfig): Status {
    Worse(Level(rate, config.warningFailureRate, config.criticalFailureRate),
          Level(latency, config.warningLatencyMs, config.criticalLatencyMs))
  }

  function FailureRate(events: seq<InferenceEvent>): real
    requires events != []
  {
    Failures(events) as real / |events| as real
  }

  function AverageLatency(events: seq<InferenceEvent>): real
    requires events != []
  {
    TotalLatency(events) / |events| as real
  }

  const SIX_DECIMALS := 1000000
  const THREE_DECIMALS := 1000

  /** The health is decided on the exact rate and mean; what is shown is rounded. */
  ghost predicate Aggregates(s: Snapshot, events: seq<InferenceEvent>, config: MonitoringConfig) {
    && s.count == |events|
    && s.failures == Failures(events)
    && if events == [] then
         s.failureRate == 0.0 && s.averageLatencyMs == 0.0 && s.p95LatencyMs == 0.0
         && s.status == Unknown && s.reasons == [NoInferenceEvents]
       else
         && s.failureRate == RoundTo(FailureRate(events), SIX_DECIMALS)
         && s.averageLatencyMs == RoundTo(AverageLatency(events), THREE_DECIMALS)
         && (exists p95 :: IsNearestRank95(events, p95) && s.p95LatencyMs == RoundTo(p95, THREE_DECIMALS))
         && s.status == HealthOf(FailureRate(events), AverageLatency(events), config)
         && s.reasons == ReasonsFor(FailureRate(events), AverageLatency(events), config)
  }

  /** Which reasons are given, in order: the failure rate's, then the latency's. */
  function ReasonsFor(rate: real, latency: real, config: MonitoringConfig): seq<Reason> {
    (match Level(rate, config.warningFailureRate, config.criticalFailureRate)
     case Unhealthy => [CriticalFailureRate] case Degraded => [ElevatedFailureRate] case _ => [])
    + (match Level(latency, config.warningLatencyMs, config.criticalLatencyMs)
       case Unhealthy => [CriticalAverageLatency] case Degraded => [ElevatedAverageLatency] case _ => [])
  }

  method AggregateEvents(events: seq<InferenceEvent>, config: MonitoringConfig) returns (s: Snapshot)
    ensures Aggregates(s, events, config)
  {
    var count := |events|;
    if count == 0 {
      return Snapshot(0, 0, 0.0, 0.0, 0.0, Unknown, [NoInferenceEvents]);
    }
    var failures, total := Totals(events);
    var rate := failures as real / count as real;
    var average := total / count as real;
    hide IsNearestRank95, HealthOf, ReasonsFor, RoundTo;
    var p95 := Percentile95(events);
    var status, reasons := Health(rate, average, config);
    s := Snapshot(count, failures, RoundTo(rate, SIX_DECIMALS), RoundTo(average, THREE_DECIMALS),
                  RoundTo(p95, THREE_DECIMALS), status, reasons);
  }

  method Percentile95(events: seq<InferenceEvent>) returns (p95: real)
    requires events != []
    ensures IsNearestRank95(events, p95)
  {
    var sorted := SortedByLatency(events);
    SortByIsOrdered(NotSlower, events);
    PermutationKeepsLength(sorted, events);
    var rank := (95 * |events| + 99) / 100;
    var index := if rank - 1 > 0 then rank - 1 else 0;
    p95 := sorted[index].durationMs;
    RankIsNearest(sorted, index);
    hide IsNearestRank95;
    PermutationKeepsPercentile(sorted, events, p95);
  }

  method Totals(events: seq<InferenceEvent>) returns (failures: nat, total: real)
    ensures failures == Failures(events) && total == TotalLatency(events)
  {
    failures, total := 0, 0.0;
    for i := 0 to |events|
      invariant failures == Failures(events[..i]) && total == TotalLatency(events[..i])
    {
      assert events[..i + 1][..i] == events[..i];
      failures := failures + if events[i].success then 0 else 1;
      total := total + events[i].durationMs;
    }
    assert events[..|events|] == events;
  }

  method Health(rate: real, latency: real, config: MonitoringConfig) returns (status: Status, reasons: seq<Reason>)
    ensures status == HealthOf(rate, latency, config)
    ensures reasons == ReasonsFor(rate, latency, config)
  {
    reasons := [];
    var critical, warning := false, false;
    if rate >= config.criticalFailureRate {
      critical := true;
      reasons := reasons + [CriticalFailureRate];
    } else if rate >= config.warningFailureRate {
      warning := true;
      reasons := reasons + [ElevatedFailureRate];
    }
    if latency >= config.criticalLatencyMs {
      critical := true;
      reasons := reasons + [CriticalAverageLatency];
    } else if latency >= config.warningLatencyMs {
      warning := true;
      reasons := reasons + [ElevatedAverageLatency];
    }
    status := if critical then Unhealthy else if warning then Degraded else Healthy;
  }

  // ----- the percentile -----

  predicate NotSlower(a: InferenceEvent, b: InferenceEvent) {
    a.durationMs <= b.durationMs
  }

  function SortedByLatency(events: seq<InferenceEvent>): (r: seq<InferenceEvent>)
    ensures multiset(r) == multiset(events)
  {
    SortBy(NotSlower, events)
  }

  ghost predicate Ascending(events: seq<InferenceEvent>) {
    OrderedBy(NotSlower, events)
  }

  /** In ascending order, at least i + 1 events do not exceed the one at i, and at most i lie below it. */
  lemma {:induction false} AscendingCounts(sorted: seq<InferenceEvent>, i: nat, x: real)
    requires Ascending(sorted) && i < |sorted|
    ensures x >= sorted[i].durationMs ==> WithinLatency(sorted, x) >= i + 1
    ensures x < sorted[i].durationMs ==> WithinLatency(sorted, x) <= i
  {
    var n := |sorted| - 1;
    if i < n {
      AscendingCounts(sorted[..n], i, x);
    } else if i > 0 {
      if x >= sorted[i].durationMs {
        AscendingCounts(sorted[..n], i - 1, x);
      } else {
        CountIsBounded(sorted[..n], x);
      }
    }
  }

  lemma {:induction false} CountIsBounded(events: seq<InferenceEvent>, x: real)
    ensures WithinLatency(events, x) <= |events|
  {
    if events != [] {
      CountIsBounded(events[..|events| - 1], x);
    }
  }

  lemma RankIsNearest(sorted: seq<InferenceEvent>, index: nat)
    requires Ascending(sorted) && sorted != [] && index == (95 * |sorted| + 99) / 100 - 1
    ensures index < |sorted| && IsNearestRank95(sorted, sorted[index].durationMs)
  {
    AscendingCounts(sorted, index, sorted[index].durationMs);
    forall x | x < sorted[index].durationMs ensures 100 * WithinLatency(sorted, x) < 95 * |sorted| {
      AscendingCounts(sorted, index, x);
    }
  }

  /** There is one nearest-rank percentile. */
  lemma PercentileIsUnique(events: seq<InferenceEvent>, p: real, q: real)
    requires IsNearestRank95(events, p) && IsNearestRank95(events, q)
    ensures p == q
  {
    var atP, atQ := WithinLatency(events, p), WithinLatency(events, q);
  }

  // ----- what the figures mean -----

  function Successes(events: seq<InferenceEvent>): nat {
    if events == [] then 0 else Successes(events[..|events| - 1]) + if events[|events| - 1].success then 1 else 0
  }

  lemma {:induction false} FailuresAreTheRest(events: seq<InferenceEvent>)
    ensures Failures(events) + Successes(events) == |events|
    ensures Failures(events) == 0 <==> forall e :: e in events ==> e.success
    ensures Successes(events) == 0 <==> forall e :: e in events ==> !e.success
  {
    if events != [] {
      var before, last := events[..|events| - 1], events[|events| - 1];
      FailuresAreTheRest(before);
      assert forall e :: e in events <==> e in before || e == last;
    }
  }

  /** The failure rate is none exactly when every event succeeded, one exactly when none did, and rises with
      every success that turns into a failure. */
  lemma FailureRateIsShare(events: seq<InferenceEvent>)
    requires events != []
    ensures 0.0 <= FailureRate(events) <= 1.0
    ensures FailureRate(events) == 0.0 <==> forall e :: e in events ==> e.success
    ensures FailureRate(events) == 1.0 <==> forall e :: e in events ==> !e.success
  {
    FailuresAreTheRest(events);
    Share(Failures(events), |events|);
  }

  lemma Share(part: nat, whole: nat)
    requires part <= whole && whole > 0
    ensures 0.0 <= part as real / whole as real <= 1.0
    ensures part as real / whole as real == 0.0 <==> part == 0
    ensures part as real / whole as real == 1.0 <==> part == whole
  {
    var share := part as real / whole as real;
    Cancel(part as real, whole as real);
    QuotientIsMonotone(0.0, part as real, whole as real);
    QuotientIsMonotone(part as real, whole as real, whole as real);
    if share == 0.0 {
      assert part as real == 0.0;
    }
    if share == 1.0 {
      assert part as real == whole as real;
    }
  }

  function Times(n: nat, x: real): real {
    n as real * x
  }

  lemma TimesOneMore(n: nat, x: real)
    ensures Times(n + 1, x) == Times(n, x) + x && Times(0, x) == 0.0
  {
    assert (n + 1) as real == n as real + 1.0;
  }

  lemma {:induction false} TotalIsBetween(events: seq<InferenceEvent>, low: real, high: real)
    requires forall e :: e in events ==> low <= e.durationMs <= high
    ensures Times(|events|, low) <= TotalLatency(events) <= Times(|events|, high)
  {
    hide Times;
    if events != [] {
      var before, last := events[..|events| - 1], events[|events| - 1];
      assert last in events && forall e :: e in before ==> e in events;
      TotalIsBetween(before, low, high);
      TimesOneMore(|before|, low);
      TimesOneMore(|before|, high);
    } else {
      TimesOneMore(0, low);
      TimesOneMore(0, high);
    }
  }

  /** The mean lies within any bounds of the latencies. */
  lemma AverageIsBetween(events: seq<InferenceEvent>, low: real, high: real)
    requires events != [] && forall e :: e in events ==> low <= e.durationMs <= high
    ensures low <= AverageLatency(events) <= high
  {
    TotalIsBetween(events, low, high);
    hide TotalLatency;
    TimesCancels(|events|, low);
    TimesCancels(|events|, high);
    QuotientIsMonotone(Times(|events|, low), TotalLatency(events), |events| as real);
    QuotientIsMonotone(TotalLatency(events), Times(|events|, high), |events| as real);
    hide Times;
  }

  lemma TimesCancels(n: nat, x: real)
    requires n > 0
    ensures Times(n, x) / n as real == x
  {
    Cancel(x, n as real);
  }

  /** One more event adds its latency to the mean times the count. */
  lemma AverageAdds(events: seq<InferenceEvent>, e: InferenceEvent)
    requires events != []
    ensures AverageLatency(events + [e]) * (|events| + 1) as real ==
              AverageLatency(events) * |events| as real + e.durationMs
  {
    CountsOneMore(events, e, 0.0);
    Cancel(TotalLatency(events), |events| as real);
    Cancel(TotalLatency(events + [e]), (|events| + 1) as real);
  }

  /** What is shown lies within half of the last decimal of the exact figures. */
  lemma ShownIsNear(s: Snapshot, events: seq<InferenceEvent>, config: MonitoringConfig)
    requires Aggregates(s, events, config) && events != []
    ensures -0.5 <= s.failureRate * 1000000.0 - FailureRate(events) * 1000000.0 <= 0.5
    ensures -0.5 <= s.averageLatencyMs * 1000.0 - AverageLatency(events) * 1000.0 <= 0.5
  {
    hide FailureRate, AverageLatency, RoundTo, IsNearestRank95, HealthOf, ReasonsFor;
    RoundToIsNear(FailureRate(events), SIX_DECIMALS);
    RoundToIsNear(AverageLatency(events), THREE_DECIMALS);
  }

  /** The status by the thresholds, which are inclusive: critical if either figure reaches its critical one,
      healthy if neither reaches a warning or critical one; and each reason exactly for its threshold. */
  lemma HealthIsExact(rate: real, latency: real, config: MonitoringConfig)
    ensures var status := HealthOf(rate, latency, config);
            && (status == Unhealthy <==> rate >= config.criticalFailureRate || latency >= config.criticalLatencyMs)
            && (status == Healthy <==>
                  && rate < config.criticalFailureRate && rate < config.warningFailureRate
                  && latency < config.criticalLatencyMs && latency < config.warningLatencyMs)
            && status != Unknown
    ensures var reasons := ReasonsFor(rate, latency, config);
            && (CriticalFailureRate in reasons <==> rate >= config.criticalFailureRate)
            && (ElevatedFailureRate in reasons <==> config.warningFailureRate <= rate < config.criticalFailureRate)
            && (CriticalAverageLatency in reasons <==> latency >= config.criticalLatencyMs)
            && (ElevatedAverageLatency in reasons <==> config.warningLatencyMs <= latency < config.criticalLatencyMs)
            && NoInferenceEvents !in reasons
            && (reasons == [] <==> HealthOf(rate, latency, config) == Healthy)
  {
  }

  /** The percentile is the latency of some event. */
  lemma PercentileIsObserved(events: seq<InferenceEvent>, p: real)
    requires events != [] && IsNearestRank95(events, p)
    ensures exists e :: e in events && e.durationMs == p
  {
    var sorted := SortedByLatency(events);
    SortByIsOrdered(NotSlower, events);
    PermutationKeepsLength(sorted, events);
    PermutationKeepsMembers(sorted, events);
    var index := (95 * |events| + 99) / 100 - 1;
    RankIsNearest(sorted, index);
    PermutationKeepsPercentile(sorted, events, sorted[index].durationMs);
    PercentileIsUnique(events, p, sorted[index].durationMs);
    assert sorted[index] in sorted;
  }

  /** Of 20k events in ascending order the percentile is the (19k)th. */
  lemma PercentileByRank(sorted: seq<InferenceEvent>, k: nat, p: real)
    requires Ascending(sorted) && |sorted| == 20 * k && k > 0
    ensures IsNearestRank95(sorted, p) <==> p == sorted[19 * k - 1].durationMs
  {
    RankIsNearest(sorted, 19 * k - 1);
    if IsNearestRank95(sorted, p) {
      PercentileIsUnique(sorted, p, sorted[19 * k - 1].durationMs);
    }
  }

  /** A snapshot counts its events, and the failures among them; nothing retained is no health at all. */
  lemma SnapshotCounts(s: Snapshot, events: seq<InferenceEvent>, config: MonitoringConfig)
    requires Aggregates(s, events, config)
    ensures s.count == |events| == s.failures + Successes(events)
    ensures events == [] ==> s == Snapshot(0, 0, 0.0, 0.0, 0.0, Unknown, [NoInferenceEvents])
  {
    FailuresAreTheRest(events);
  }

  // ----- event order -----

  /** Taking out one event lowers every count by that event's share, wherever it stands. */
  lemma {:induction false} CountsRemove(events: seq<InferenceEvent>, i: nat, x: real)
    requires i < |events|
    ensures var rest, e := events[..i] + events[i + 1..], events[i];
            && WithinLatency(events, x) == WithinLatency(rest, x) + (if e.durationMs <= x then 1 else 0)
            && Failures(events) == Failures(rest) + (if e.success then 0 else 1)
            && TotalLatency(events) == TotalLatency(rest) + e.durationMs
  {
    hide WithinLatency, Failures, TotalLatency;
    var before, last := events[..|events| - 1], events[|events| - 1];
    assert events == before + [last];
    CountsOneMore(before, last, x);
    if i < |before| {
      CountsRemove(before, i, x);
      CountsOneMore(before[..i] + before[i + 1..], last, x);
      assert events[..i] + events[i + 1..] == before[..i] + before[i + 1..] + [last];
    } else {
      assert events[..i] + events[i + 1..] == before;
    }
  }

  lemma CountsOneMore(before: seq<InferenceEvent>, e: InferenceEvent, x: real)
    ensures WithinLatency(before + [e], x) == WithinLatency(before, x) + (if e.durationMs <= x then 1 else 0)
    ensures Failures(before + [e]) == Failures(before) + (if e.success then 0 else 1)
    ensures TotalLatency(before + [e]) == TotalLatency(before) + e.durationMs
  {
    assert (before + [e])[..|before|] == before;
  }

  lemma {:induction false} CountsPermute(a: seq<InferenceEvent>, b: seq<InferenceEvent>, x: real)
    requires multiset(a) == multiset(b)
    ensures WithinLatency(a, x) == WithinLatency(b, x)
    ensures Failures(a) == Failures(b) && TotalLatency(a) == TotalLatency(b)
  {
    PermutationKeepsLength(a, b);
    if a != [] {
      hide WithinLatency, Failures, TotalLatency;
      var i := MatchLast(a, b);
      CountsPermute(a[..|a| - 1], b[..i] + b[i + 1..], x);
      CountsRemove(b, i, x);
      CountsOneMore(a[..|a| - 1], a[|a| - 1], x);
      assert a == a[..|a| - 1] + [a[|a| - 1]];
    }
  }

  lemma PermutationKeepsPercentile(a: seq<InferenceEvent>, b: seq<InferenceEvent>, p: real)
    requires multiset(a) == multiset(b)
    ensures IsNearestRank95(a, p) <==> IsNearestRank95(b, p)
  {
    PermutationKeepsLength(a, b);
    forall x ensures WithinLatency(a, x) == WithinLatency(b, x) {
      CountsPermute(a, b, x);
    }
  }

  lemma AggregatesPermute(s: Snapshot, a: seq<InferenceEvent>, b: seq<InferenceEvent>, config: MonitoringConfig)
    requires multiset(a) == multiset(b) && Aggregates(s, a, config)
    ensures Aggregates(s, b, config)
  {
    hide IsNearestRank95, HealthOf, ReasonsFor, Failures, TotalLatency, RoundTo;
    PermutationKeepsLength(a, b);
    CountsPermute(a, b, 0.0);
    if a != [] {
      var p :| IsNearestRank95(a, p) && s.p95LatencyMs == RoundTo(p, THREE_DECIMALS);
      PermutationKeepsPercentile(a, b, p);
    }
  }

  lemma SnapshotIsUnique(s: Snapshot, t: Snapshot, events: seq<InferenceEvent>, config: MonitoringConfig)
    requires Aggregates(s, events, config) && Aggregates(t, events, config)
    ensures s == t
  {
    hide IsNearestRank95, HealthOf, ReasonsFor, Failures, TotalLatency, RoundTo;
    if events != [] {
      var p :| IsNearestRank95(events, p) && s.p95LatencyMs == RoundTo(p, THREE_DECIMALS);
      var q :| IsNearestRank95(events, q) && t.p95LatencyMs == RoundTo(q, THREE_DECIMALS);
      PercentileIsUnique(events, p, q);
    }
  }

  /** The snapshot is determined by the events retained, whatever their order. */
  lemma EventOrderIsIrrelevant(s: Snapshot, t: Snapshot, a: seq<InferenceEvent>, b: seq<InferenceEvent>,
                               config: MonitoringConfig)
    requires multiset(a) == multiset(b) && Aggregates(s, a, config) && Aggregates(t, b, config)
    ensures s == t
  {
    hide Aggregates;
    AggregatesPermute(s, a, b, config);
    SnapshotIsUnique(s, t, b, config);
  }

  /** Health never improves when the failure rate or the mean latency rises, however the thresholds are set. */
  lemma HealthIsMonotone(rate: real, rate': real, latency: real, latency': real, config: MonitoringConfig)
    requires rate <= rate' && latency <= latency'
    ensures Severity(HealthOf(rate, latency, config)) <= Severity(HealthOf(rate', latency', config))
  {
  }
}
