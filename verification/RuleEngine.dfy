/** The credit business-rule engine: rules in (priority, name) order, stopping at a triggered stop action. */
module RuleEngine {
  import opened Sequences
  import opened Wrappers

  /** Applicant values; a missing value is None. Rules compare with one value or a list of them. */
  datatype Scalar = Num(n: real) | Str(s: string)

  datatype Expected = One(value: Scalar) | Many(values: seq<Scalar>)

  datatype Operator = Lt | Lte | Gt | Gte | Eq | Neq | Among | NotAmong

  datatype Rule = Rule(
    name: string, field: string, operator: Operator, expected: Expected,
    enabled: bool, priority: int, severity: string, action: string, explanation: string
  )

  datatype RuleResult = RuleResult(
    ruleName: string, triggered: bool, priority: int, severity: string, action: string, explanation: string,
    observed: Option<Scalar>
  )

  /** The applicant's values, and text formatting: a rule's explanation with its placeholders filled in, or
      None for a template that names another placeholder. */
  datatype Applicant = Applicant(
    values: map<string, Option<Scalar>>, format: (string, string, Scalar, Expected) -> Option<string>)

  // ----- one rule -----

  predicate Contains(whole: string, part: string) {
    part <= whole || (whole != [] && Contains(whole[1..], part))
  }

  /** Ordering a number against a text, or against a list, is an error. */
  function Less(a: Scalar, e: Expected): Result<bool> {
    match (a, e)
    case (Num(x), One(Num(y))) => Ok(x < y)
    case (Str(x), One(Str(y))) => Ok(LexLess(x, y))
    case _ => Err(ConfigurationError)
  }

  predicate Equal(a: Scalar, e: Expected) {
    e == One(a)
  }

  /** Membership in a list; in a text it means substring, and only for a text. */
  function IsAmong(a: Scalar, e: Expected): Result<bool> {
    match (a, e)
    case (_, Many(values)) => Ok(a in values)
    case (Str(x), One(Str(y))) => Ok(Contains(y, x))
    case _ => Err(ConfigurationError)
  }

  function Not(r: Result<bool>): Result<bool> {
    match r case Ok(b) => Ok(!b) case Err(error) => Err(error)
  }

  function Or(r: Result<bool>, b: bool): Result<bool> {
    match r case Ok(c) => Ok(c || b) case Err(error) => Err(error)
  }

  function Compare(op: Operator, a: Scalar, e: Expected): Result<bool> {
    match op
    case Lt => Less(a, e)
    case Lte => Or(Less(a, e), Equal(a, e))
    case Gt => Not(Or(Less(a, e), Equal(a, e)))
    case Gte => Not(Less(a, e))
    case Eq => Ok(Equal(a, e))
    case Neq => Ok(!Equal(a, e))
    case Among => IsAmong(a, e)
    case NotAmong => Not(IsAmong(a, e))
  }

  /** Ordering is defined exactly between two numbers or two texts, and then exactly one of less, equal and
      greater holds. */
  lemma ComparisonsAreTotal(a: Scalar, e: Expected)
    ensures Compare(Lt, a, e).Ok? <==> e.One? && (a.Num? <==> e.value.Num?)
    ensures Compare(Lt, a, e).Ok? <==> Compare(Gt, a, e).Ok?
    ensures Compare(Lt, a, e).Ok? ==>
              var less, equal, greater := Compare(Lt, a, e).value, Compare(Eq, a, e).value, Compare(Gt, a, e).value;
              && (less || equal || greater) && !(less && equal) && !(less && greater) && !(equal && greater)
              && Compare(Lte, a, e) == Ok(less || equal) && Compare(Gte, a, e) == Ok(greater || equal)
  {
    if a.Str? && e.One? && e.value.Str? {
      LexIsTotal(a.s, e.value.s);
    }
  }

  // ----- what the operators mean -----

  /** Between two numbers every operator but the memberships is the comparison it is named after. */
  lemma NumbersCompare(x: real, y: real)
    ensures var a, e := Num(x), One(Num(y));
            && Compare(Lt, a, e) == Ok(x < y) && Compare(Lte, a, e) == Ok(x <= y)
            && Compare(Gt, a, e) == Ok(y < x) && Compare(Gte, a, e) == Ok(y <= x)
            && Compare(Eq, a, e) == Ok(x == y) && Compare(Neq, a, e) == Ok(x != y)
  {
  }

  lemma {:induction false} CommonPrefixIsSkipped(p: string, s: string, t: string)
    ensures LexLess(p + s, p + t) <==> LexLess(s, t)
  {
    if p == [] {
      assert p + s == s && p + t == t;
    } else {
      CommonPrefixIsSkipped(p[1..], s, t);
      assert (p + s)[1..] == p[1..] + s && (p + t)[1..] == p[1..] + t;
    }
  }

  /** Between two texts the first differing character decides, and a proper prefix is the lesser. */
  lemma TextsCompare(p: string, c: char, s: string, d: char, t: string)
    requires c != d
    ensures Compare(Lt, Str(p + ([c] + s)), One(Str(p + ([d] + t)))) == Ok(c < d)
    ensures Compare(Gt, Str(p + ([c] + s)), One(Str(p + ([d] + t)))) == Ok(d < c)
    ensures Compare(Lt, Str(p), One(Str(p + ([c] + s)))) == Ok(true)
  {
    CommonPrefixIsSkipped(p, [c] + s, [d] + t);
    CommonPrefixIsSkipped(p, [d] + t, [c] + s);
    CommonPrefixIsSkipped(p, [], [c] + s);
    assert p + [] == p;
    assert (p + ([c] + s))[|p|] == c && (p + ([d] + t))[|p|] == d;
    ComparisonsAreTotal(Str(p + ([c] + s)), One(Str(p + ([d] + t))));
  }

  /** The part stands at position k of the whole. */
  predicate StandsAt(whole: string, part: string, k: nat) {
    k + |part| <= |whole| && whole[k..k + |part|] == part
  }

  lemma StandsOneLater(whole: string, part: string, k: nat)
    requires whole != []
    ensures StandsAt(whole[1..], part, k) <==> StandsAt(whole, part, k + 1)
  {
    if k + 1 + |part| <= |whole| {
      assert whole[1..][k..k + |part|] == whole[k + 1..k + 1 + |part|];
    }
  }

  lemma StandsFirst(whole: string, part: string)
    ensures part <= whole <==> StandsAt(whole, part, 0)
  {
  }

  lemma {:induction false} ContainsIsSubstring(whole: string, part: string)
    ensures Contains(whole, part) <==> exists k: nat :: StandsAt(whole, part, k)
  {
    StandsFirst(whole, part);
    if whole != [] {
      ContainsIsSubstring(whole[1..], part);
      forall k: nat ensures StandsAt(whole[1..], part, k) <==> StandsAt(whole, part, k + 1) {
        StandsOneLater(whole, part, k);
      }
      hide StandsAt;
      if k: nat :| StandsAt(whole, part, k) && k > 0 {
        assert StandsAt(whole[1..], part, k - 1);
      }
    } else {
      OnlyFirstFits(part);
    }
  }

  lemma OnlyFirstFits(part: string)
    ensures forall k: nat :: StandsAt([], part, k) ==> k == 0
  {
  }

  /** Membership is standing somewhere in the list, or at some position of the text. */
  lemma MembershipIsStanding(a: Scalar, values: seq<Scalar>, part: string, whole: string)
    ensures var listed := exists i :: 0 <= i < |values| && values[i] == a;
            Compare(Among, a, Many(values)) == Ok(listed) && Compare(NotAmong, a, Many(values)) == Ok(!listed)
    ensures var found := exists k: nat :: StandsAt(whole, part, k);
            && Compare(Among, Str(part), One(Str(whole))) == Ok(found)
            && Compare(NotAmong, Str(part), One(Str(whole))) == Ok(!found)
  {
    ContainsIsSubstring(whole, part);
  }

  /** A comparison is refused exactly when an ordering meets a number and a text, or a list, or when a
      membership meets neither a list nor two texts. */
  lemma ComparisonFailsExactly(op: Operator, a: Scalar, e: Expected)
    ensures Compare(op, a, e).Err? <==>
              match op
              case Eq => false
              case Neq => false
              case Among => e.One? && (a.Num? || e.value.Num?)
              case NotAmong => e.One? && (a.Num? || e.value.Num?)
              case _ => e.Many? || a.Num? != e.value.Num?
  {
  }

  predicate Missing(r: Rule, applicant: Applicant) {
    r.field !in applicant.values || applicant.values[r.field].None?
  }

  function EvaluateRule(r: Rule, applicant: Applicant): Result<RuleResult> {
    if Missing(r, applicant)
    then Ok(RuleResult(r.name, false, r.priority, r.severity, r.action, r.explanation, None))
    else
      var actual := applicant.values[r.field].value;
      match Compare(r.operator, actual, r.expected)
      case Err(error) => Err(error)
      case Ok(triggered) =>
        match applicant.format(r.explanation, r.field, actual, r.expected)
        case None => Err(UnhandledError)
        case Some(text) => Ok(RuleResult(r.name, triggered, r.priority, r.severity, r.action, text, Some(actual)))
  }

  /** The result is the rule's own, with its explanation filled in for the observed value; a rule with a missing
      field never triggers or fails, and any other fails exactly on a refused comparison or an unfit template. */
  lemma ResultDescribesRule(r: Rule, applicant: Applicant)
    ensures Missing(r, applicant) ==> EvaluateRule(r, applicant).Ok?
    ensures EvaluateRule(r, applicant).Ok? ==>
              var x := EvaluateRule(r, applicant).value;
              && x.ruleName == r.name && x.priority == r.priority
              && x.severity == r.severity && x.action == r.action
              && (x.triggered <==> !Missing(r, applicant)
                                   && Compare(r.operator, applicant.values[r.field].value, r.expected) == Ok(true))
              && (Missing(r, applicant) ==> x.observed == None && x.explanation == r.explanation)
              && (!Missing(r, applicant) ==>
                    && x.observed == applicant.values[r.field]
                    && Some(x.explanation) ==
                         applicant.format(r.explanation, r.field, applicant.values[r.field].value, r.expected))
    ensures !Missing(r, applicant) ==>
              var y, actual := EvaluateRule(r, applicant), applicant.values[r.field].value;
              && (y == Err(ConfigurationError) <==> Compare(r.operator, actual, r.expected).Err?)
              && (y == Err(UnhandledError) <==>
                    && Compare(r.operator, actual, r.expected).Ok?
                    && applicant.format(r.explanation, r.field, actual, r.expected) == None)
              && (y.Err? ==> y.error in {ConfigurationError, UnhandledError})
  {
  }

  /** The applicant's value for the rule's field is this number. */
  predicate Observes(r: Rule, applicant: Applicant, x: real) {
    r.field in applicant.values && applicant.values[r.field] == Some(Num(x))
  }

  /** What triggers below a threshold still triggers further below it, and what triggers above one still
      triggers further above; values on the two sides of the threshold are told apart. */
  lemma ThresholdRulesAreMonotone(r: Rule, low: Applicant, high: Applicant, x: real, y: real, threshold: real)
    requires Observes(r, low, x) && Observes(r, high, y) && x <= y && r.expected == One(Num(threshold))
    requires EvaluateRule(r, low).Ok? && EvaluateRule(r, high).Ok?
    ensures var atLow, atHigh := EvaluateRule(r, low).value.triggered, EvaluateRule(r, high).value.triggered;
            && (r.operator.Lt? || r.operator.Lte? ==> (atHigh ==> atLow))
            && (r.operator.Gt? || r.operator.Gte? ==> (atLow ==> atHigh))
            && (r.operator.Lt? && x < threshold <= y ==> atLow && !atHigh)
            && (r.operator.Gt? && x <= threshold < y ==> atHigh && !atLow)
  {
  }

  // ----- order of evaluation -----

  predicate Before(a: Rule, b: Rule) {
    a.priority < b.priority || (a.priority == b.priority && !LexLess(b.name, a.name))
  }

  lemma BeforeIsTotalOrder()
    ensures TotalOrder(Before)
  {
    forall a: Rule, b: Rule ensures Before(a, b) || Before(b, a) {
      LexIsTotal(a.name, b.name);
    }
    forall a: Rule, b: Rule, c: Rule | Before(a, b) && Before(b, c) ensures Before(a, c) {
      LexIsTransitive(a.name, b.name, c.name);
    }
  }

  predicate IsEnabled(r: Rule) {
    r.enabled
  }

  function Enabled(rules: seq<Rule>): seq<Rule> {
    Filter(IsEnabled, rules)
  }

  function Plan(rules: seq<Rule>): seq<Rule> {
    SortBy(Before, Enabled(rules))
  }

  /** The plan holds exactly the enabled rules, in (priority, name) order. */
  lemma PlanIsOrdered(rules: seq<Rule>)
    ensures OrderedBy(Before, Plan(rules))
    ensures forall r :: multiset(Plan(rules))[r] == if r.enabled then multiset(rules)[r] else 0
  {
    BeforeIsTotalOrder();
    SortByIsOrdered(Before, Enabled(rules));
    FilterMembers(IsEnabled, rules);
  }

  /** Of two rules in the plan the earlier has the smaller priority number, or the same one and no later name. */
  lemma SmallerPriorityRunsFirst(rules: seq<Rule>, i: nat, j: nat)
    requires i < j < |Plan(rules)|
    ensures var a, b := Plan(rules)[i], Plan(rules)[j];
            && a.priority <= b.priority
            && (a.priority == b.priority ==> a.name == b.name || Compare(Lt, Str(a.name), One(Str(b.name))) == Ok(true))
  {
    PlanIsOrdered(rules);
    var a, b := Plan(rules)[i], Plan(rules)[j];
    assert Before(a, b);
    LexIsTotal(a.name, b.name);
  }

  lemma EnabledMembers(rules: seq<Rule>)
    ensures forall r :: multiset(Enabled(rules))[r] == if r.enabled then multiset(rules)[r] else 0
  {
    FilterMembers(IsEnabled, rules);
  }

  // ----- evaluation -----

  datatype Evaluation = Evaluation(
    results: seq<RuleResult>,
    triggered: seq<RuleResult>,
    recommendedAction: string,
    stoppedEarly: bool,
    warnings: seq<string>
  )

  predicate Stops(r: Result<RuleResult>, stopActions: seq<string>) {
    r.Ok? && r.value.triggered && r.value.action in stopActions
  }

  predicate IsTriggered(x: RuleResult) {
    x.triggered
  }

  function Triggered(results: seq<RuleResult>): seq<RuleResult> {
    Filter(IsTriggered, results)
  }

  function ActionOf(results: seq<RuleResult>): string {
    var triggered := Triggered(results);
    if triggered == [] then "proceed" else triggered[0].action
  }

  /** The warnings of the first k rules of a plan: one for each missing field. */
  function Warnings(plan: seq<Rule>, applicant: Applicant): seq<string> {
    if plan == [] then []
    else
      var last := plan[|plan| - 1];
      Warnings(plan[..|plan| - 1], applicant)
      + if Missing(last, applicant) then ["missing_rule_field:" + last.field] else []
  }

  /** No rule among the first k fails or stops the evaluation. */
  ghost predicate RunsThrough(plan: seq<Rule>, applicant: Applicant, stopActions: seq<string>, k: nat) {
    k <= |plan| && forall i :: 0 <= i < k ==>
      EvaluateRule(plan[i], applicant).Ok? && !Stops(EvaluateRule(plan[i], applicant), stopActions)
  }

  ghost predicate Evaluates(results: seq<RuleResult>, plan: seq<Rule>, applicant: Applicant) {
    |results| <= |plan| && forall i :: 0 <= i < |results| ==> EvaluateRule(plan[i], applicant) == Ok(results[i])
  }

  /** Fails exactly when some rule fails before any rule stops the evaluation; otherwise the results are
      those of the plan up to and including the first stopping rule, or of the whole plan. */
  method Evaluate(rules: seq<Rule>, stopActions: seq<string>, applicant: Applicant) returns (r: Result<Evaluation>)
    ensures r.Err? <==> exists k :: 0 <= k < |Plan(rules)| && RunsThrough(Plan(rules), applicant, stopActions, k)
                                    && EvaluateRule(Plan(rules)[k], applicant).Err?
    ensures r.Err? ==> exists k :: 0 <= k < |Plan(rules)| && RunsThrough(Plan(rules), applicant, stopActions, k)
                                   && EvaluateRule(Plan(rules)[k], applicant) == Err(r.error)
    ensures r.Ok? ==>
              var e, plan, n := r.value, Plan(rules), |r.value.results|;
              && Evaluates(e.results, plan, applicant)
              && (if e.stoppedEarly
                  then n > 0 && RunsThrough(plan, applicant, stopActions, n - 1)
                       && Stops(EvaluateRule(plan[n - 1], applicant), stopActions)
                  else n == |plan| && RunsThrough(plan, applicant, stopActions, n))
              && e.triggered == Triggered(e.results) && e.recommendedAction == ActionOf(e.results)
              && e.warnings == Warnings(plan[..n], applicant)
  {
    var plan := Plan(rules);
    hide Plan, Compare, Triggered, EvaluateRule, Missing;
    var results: seq<RuleResult>, warnings: seq<string> := [], [];
    var stopped := false;
    for i := 0 to |plan|
      invariant |results| == i && Evaluates(results, plan, applicant)
      invariant RunsThrough(plan, applicant, stopActions, i) && !stopped
      invariant warnings == Warnings(plan[..i], applicant)
    {
      var rule := plan[i];
      assert plan[..i + 1][..i] == plan[..i];
      if Missing(rule, applicant) {
        warnings := warnings + ["missing_rule_field:" + rule.field];
      }
      var result := EvaluateRule(rule, applicant);
      if result.Err? {
        return Err(result.error);
      }
      results := results + [result.value];
      if result.value.triggered && result.value.action in stopActions {
        stopped := true;
        break;
      }
    }
    if !stopped {
      assert plan[..|plan|] == plan;
    }
    r := Ok(Evaluation(results, Triggered(results), ActionOf(results), stopped, warnings));
  }

  // ----- stopping early is sound -----

  lemma TriggeredPrefix(all: seq<RuleResult>, k: nat)
    requires k <= |all|
    ensures Triggered(all[..k]) <= Triggered(all)
  {
    assert all == all[..k] + all[k..];
    FilterConcat(IsTriggered, all[..k], all[k..]);
  }

  /** Against running every rule: the early results are a prefix of the full ones, the recommended action
      is the same, and the evaluation stopped early exactly when some rule triggers a stop action. */
  lemma EarlyStopIsSound(e: Evaluation, plan: seq<Rule>, applicant: Applicant, stopActions: seq<string>,
                         all: seq<RuleResult>)
    requires Evaluates(e.results, plan, applicant) && |all| == |plan| && Evaluates(all, plan, applicant)
    requires e.recommendedAction == ActionOf(e.results)
    requires var n := |e.results|;
             if e.stoppedEarly
             then n > 0 && RunsThrough(plan, applicant, stopActions, n - 1)
                  && Stops(EvaluateRule(plan[n - 1], applicant), stopActions)
             else n == |plan| && RunsThrough(plan, applicant, stopActions, n)
    ensures e.results <= all
    ensures e.recommendedAction == ActionOf(all)
    ensures e.stoppedEarly <==> exists i :: 0 <= i < |all| && all[i].triggered && all[i].action in stopActions
  {
    var n := |e.results|;
    forall i | 0 <= i < n ensures e.results[i] == all[i] {
      assert EvaluateRule(plan[i], applicant) == Ok(all[i]);
    }
    assert e.results == all[..n];
    TriggeredPrefix(all, n);
    FilterIsEmpty(IsTriggered, e.results);
    if e.stoppedEarly {
      assert e.results[n - 1].triggered && all[n - 1].triggered;
      assert Triggered(e.results) != [];
    } else {
      assert e.results == all;
    }
  }

  /** The recommended action is that of the first triggered rule, or to proceed when there is none. */
  lemma FirstTriggeredDecides(results: seq<RuleResult>)
    ensures forall i | 0 <= i < |results| && results[i].triggered && (forall j :: 0 <= j < i ==> !results[j].triggered)
              :: ActionOf(results) == results[i].action
    ensures (forall i :: 0 <= i < |results| ==> !results[i].triggered) ==> ActionOf(results) == "proceed"
  {
    FilterIsEmpty(IsTriggered, results);
    forall i | 0 <= i < |results| && results[i].triggered && forall j :: 0 <= j < i ==> !results[j].triggered
      ensures ActionOf(results) == results[i].action
    {
      FilterEnds(IsTriggered, results, i);
    }
  }

  /** The triggered results are exactly those marked so, as often as they were produced. */
  lemma TriggeredAreThoseMarked(results: seq<RuleResult>)
    ensures forall x :: multiset(Triggered(results))[x] == if x.triggered then multiset(results)[x] else 0
  {
    FilterMembers(IsTriggered, results);
  }

  /** There is one warning for each evaluated rule whose field is missing, and it names the field. */
  lemma {:induction false} WarningsNameMissingFields(plan: seq<Rule>, applicant: Applicant)
    ensures forall w :: w in Warnings(plan, applicant) <==>
              exists i :: 0 <= i < |plan| && Missing(plan[i], applicant) && w == "missing_rule_field:" + plan[i].field
    ensures |Warnings(plan, applicant)| == |set i | 0 <= i < |plan| && Missing(plan[i], applicant)|
  {
    if plan != [] {
      var n := |plan| - 1;
      WarningsNameMissingFields(plan[..n], applicant);
      hide Missing;
      var before := set i | 0 <= i < n && Missing(plan[..n][i], applicant);
      var all := set i | 0 <= i < |plan| && Missing(plan[i], applicant);
      assert all == before + if Missing(plan[n], applicant) then {n} else {};
    }
  }

  // ----- configuration order -----

  /** A (priority, name) pair names one rule. */
  ghost predicate KeyedApart(m: multiset<Rule>) {
    forall a, b :: a in m && b in m && a.priority == b.priority && a.name == b.name ==> a == b
  }

  /** Two ordered lists of the same rules are equal when a key names one rule. */
  lemma {:induction false} OrderedIsUnique(a: seq<Rule>, b: seq<Rule>)
    requires multiset(a) == multiset(b) && OrderedBy(Before, a) && OrderedBy(Before, b) && KeyedApart(multiset(a))
    ensures a == b
  {
    PermutationKeepsLength(a, b);
    if a != [] {
      LastsAgree(a, b);
      DropLast(a);
      DropLast(b);
      hide OrderedBy, KeyedApart;
      OrderedIsUnique(a[..|a| - 1], b[..|b| - 1]);
    }
  }

  lemma DropLast(a: seq<Rule>)
    requires a != [] && OrderedBy(Before, a) && KeyedApart(multiset(a))
    ensures var before, last := a[..|a| - 1], a[|a| - 1];
            && OrderedBy(Before, before) && a == before + [last]
            && multiset(before) == multiset(a) - multiset{last} && KeyedApart(multiset(before))
  {
    hide Before;
    var before, last := a[..|a| - 1], a[|a| - 1];
    assert a == before + [last];
    assert multiset(a) == multiset(before) + multiset{last};
  }

  lemma LastIsLatest(a: seq<Rule>, x: Rule)
    requires a != [] && OrderedBy(Before, a) && x in multiset(a)
    ensures x == a[|a| - 1] || Before(x, a[|a| - 1])
  {
    hide Before;
    var i :| 0 <= i < |a| && a[i] == x;
  }

  lemma LastsAgree(a: seq<Rule>, b: seq<Rule>)
    requires a != [] && b != [] && multiset(a) == multiset(b)
    requires OrderedBy(Before, a) && OrderedBy(Before, b) && KeyedApart(multiset(a))
    ensures a[|a| - 1] == b[|b| - 1]
  {
    hide OrderedBy, LexLess;
    var x, y := a[|a| - 1], b[|b| - 1];
    assert x in multiset(a) && y in multiset(b);
    LastIsLatest(b, x);
    LastIsLatest(a, y);
    LexIsTotal(x.name, y.name);
  }

  lemma SamePlanMembers(a: seq<Rule>, b: seq<Rule>)
    requires multiset(a) == multiset(b)
    ensures multiset(Plan(a)) == multiset(Plan(b)) == multiset(Enabled(a))
  {
    hide Enabled;
    EnabledMembers(a);
    EnabledMembers(b);
  }

  /** The order in which the configuration lists rules is irrelevant when no two different enabled rules share
      priority and name. */
  lemma ConfigurationOrderIsIrrelevant(a: seq<Rule>, b: seq<Rule>)
    requires multiset(a) == multiset(b) && KeyedApart(multiset(Enabled(a)))
    ensures Plan(a) == Plan(b)
  {
    SamePlanMembers(a, b);
    PlanIsOrdered(a);
    PlanIsOrdered(b);
    hide Plan, OrderedBy, KeyedApart, Enabled;
    OrderedIsUnique(Plan(a), Plan(b));
  }

  /** Rules with this rule's key. */
  function SameKey(like: Rule): Rule -> bool {
    (r: Rule) => r.priority == like.priority && r.name == like.name
  }

  /** The plan lists the enabled rules of one key in their configured order: the sort is stable. */
  lemma PlanIsStable(rules: seq<Rule>, like: Rule)
    ensures Filter(SameKey(like), Plan(rules)) == Filter(SameKey(like), Enabled(rules))
  {
    forall a, b | SameKey(like)(a) && SameKey(like)(b) ensures Before(a, b) {
      LexIsTotal(a.name, b.name);
    }
    SortIsStable(Before, SameKey(like), Enabled(rules));
  }

  /** Listing an enabled rule first makes it the first of its key in the plan. */
  lemma ListedFirst(rules: seq<Rule>, r: Rule) returns (listing: seq<Rule>)
    requires r in rules && r.enabled
    ensures multiset(listing) == multiset(rules)
    ensures Filter(SameKey(r), Plan(listing)) != [] && Filter(SameKey(r), Plan(listing))[0] == r
  {
    var i :| 0 <= i < |rules| && rules[i] == r;
    var rest := rules[..i] + rules[i + 1..];
    listing := [r] + rest;
    RemoveAt(rules, i);
    hide Plan, Enabled, SameKey, Filter;
    EnabledFirst(r, rest);
    SameKeySelf(r);
    FilterEnds(SameKey(r), Enabled(listing), 0);
    PlanIsStable(listing, r);
  }

  lemma EnabledFirst(r: Rule, rest: seq<Rule>)
    requires r.enabled
    ensures Enabled([r] + rest) == [r] + Enabled(rest)
  {
    FilterConcat(IsEnabled, [r], rest);
    FilterAppend(IsEnabled, [], r);
    assert [] + [r] == [r];
  }

  lemma SameKeySelf(r: Rule)
    ensures SameKey(r)(r)
  {
  }

  /** Every listing order gives the same plan exactly when no two different enabled rules share priority and
      name. */
  lemma PlanIgnoresListingExactly(a: seq<Rule>)
    ensures (forall b: seq<Rule> :: multiset(b) == multiset(a) ==> Plan(b) == Plan(a))
       <==> KeyedApart(multiset(Enabled(a)))
  {
    hide Plan, Enabled;
    if KeyedApart(multiset(Enabled(a))) {
      forall b: seq<Rule> | multiset(b) == multiset(a) ensures Plan(b) == Plan(a) {
        ConfigurationOrderIsIrrelevant(a, b);
      }
    } else {
      var x, y :| x in multiset(Enabled(a)) && y in multiset(Enabled(a))
                  && x.priority == y.priority && x.name == y.name && x != y;
      EnabledMembers(a);
      assert x in multiset(a) && y in multiset(a) && x.enabled && y.enabled;
      var b := ListedFirst(a, x);
      var c := ListedFirst(a, y);
      SameKeySameFilter(Plan(c), x, y);
    }
  }

  lemma {:induction false} SameKeySameFilter(rules: seq<Rule>, x: Rule, y: Rule)
    requires x.priority == y.priority && x.name == y.name
    ensures Filter(SameKey(x), rules) == Filter(SameKey(y), rules)
  {
    if rules != [] {
      SameKeySameFilter(rules[..|rules| - 1], x, y);
    }
  }
}

