/** The ten registered feature generators: what they declare, and when the full set resolves. */
module StandardFeatures {
  import opened FeaturePipeline

  const INCOME := "monthly_income"
  const EXPENSES := "monthly_expenses"

  const FEATURES: set<string> := {
    "debt_to_income", "savings_ratio", "expense_ratio", "avg_monthly_income", "income_stability",
    "cash_flow_stability", "payment_consistency", "transaction_frequency", "income_growth",
    "financial_behaviour_index"
  }

  function DependenciesOf(feature: string): seq<string> {
    if feature == "debt_to_income" then [INCOME]
    else if feature == "savings_ratio" || feature == "expense_ratio" then [INCOME, EXPENSES]
    else if feature == "financial_behaviour_index" then
      ["income_stability", "savings_ratio", "debt_to_income", "cash_flow_stability", "payment_consistency"]
    else []
  }

  predicate Declares<V>(g: Generator<V>, feature: string) {
    g.features == [feature] && g.dependencies == DependenciesOf(feature)
  }

  /** Any listing of registered generators. */
  ghost predicate IsStandard<V>(generators: seq<Generator<V>>) {
    forall g | g in generators :: exists f | f in FEATURES :: Declares(g, f)
  }

  /** Any listing that declares all ten features and nothing else. */
  ghost predicate IsFullSet<V>(generators: seq<Generator<V>>) {
    && IsStandard(generators)
    && (forall f | f in FEATURES :: exists g | g in generators :: Declares(g, f))
  }

  /** A generated column is in every closed column set once its dependencies are. */
  lemma FeatureIn<V>(generators: seq<Generator<V>>, s: set<string>, feature: string)
    requires IsFullSet(generators) && Closed(generators, s) && feature in FEATURES
    requires forall d | d in DependenciesOf(feature) :: d in s
    ensures feature in s
  {
    var g :| g in generators && Declares(g, feature);
    assert Ready(g, s);
    assert feature in g.features;
  }

  predicate IsInput(d: string) {
    d == INCOME || d == EXPENSES
  }

  predicate IsIndexPart(d: string) {
    d == "income_stability" || d == "savings_ratio" || d == "debt_to_income" || d == "cash_flow_stability"
    || d == "payment_consistency"
  }

  lemma DependencyCases(feature: string, d: string)
    requires d in DependenciesOf(feature)
    ensures IsInput(d) || IsIndexPart(d)
  {
  }

  /** The index blends features that need the inputs alone. */
  lemma IndexParts(d: string)
    requires IsIndexPart(d)
    ensures d in FEATURES && forall e | e in DependenciesOf(d) :: IsInput(e)
  {
  }

  lemma ClosedSetsHoldDependencies<V>(generators: seq<Generator<V>>, columns: set<string>, s: set<string>)
    requires IsFullSet(generators) && INCOME in columns && EXPENSES in columns
    requires columns <= s && Closed(generators, s)
    ensures forall f, d | f in FEATURES && d in DependenciesOf(f) :: d in s
  {
    hide IsFullSet, Closed, FEATURES, DependenciesOf, IsIndexPart;
    forall f, d | f in FEATURES && d in DependenciesOf(f) ensures d in s {
      DependencyCases(f, d);
      if IsIndexPart(d) {
        IndexParts(d);
        FeatureIn(generators, s, d);
      }
    }
  }

  lemma InputsAreNotFeatures()
    ensures INCOME !in FEATURES && EXPENSES !in FEATURES
    ensures "savings_ratio" in FEATURES && DependenciesOf("savings_ratio") == [INCOME, EXPENSES]
  {
    assert forall f | f in FEATURES :: f[0] != 'm';
  }

  lemma InputsSuffice<V(!new)>(generators: seq<Generator<V>>, columns: set<string>)
    requires IsFullSet(generators) && INCOME in columns && EXPENSES in columns
    ensures DependenciesInClosure(generators, columns)
  {
    forall g, d | g in generators && d in g.dependencies ensures InClosure(generators, columns, d) {
      var f :| f in FEATURES && Declares(g, f);
      hide DependenciesOf;
      forall s: set<string> | columns <= s && Closed(generators, s) ensures d in s {
        ClosedSetsHoldDependencies(generators, columns, s);
      }
    }
  }

  lemma InputsAreNeeded<V(!new)>(generators: seq<Generator<V>>, columns: set<string>)
    requires IsFullSet(generators) && DependenciesInClosure(generators, columns)
    ensures INCOME in columns && EXPENSES in columns
  {
    InputsAreNotFeatures();
    hide DependenciesOf;
    var everything := columns + FEATURES;
    assert Closed(generators, everything);
    var g :| g in generators && Declares(g, "savings_ratio");
    assert g.dependencies[0] == INCOME && g.dependencies[1] == EXPENSES;
    assert InClosure(generators, columns, INCOME) && InClosure(generators, columns, EXPENSES);
  }

  /** In any listing order the full set resolves exactly when the frame has income and expenses. */
  lemma FullSetResolvesExactly<V(!new)>(generators: seq<Generator<V>>, columns: set<string>)
    requires IsFullSet(generators)
    ensures Resolvable(generators, columns) <==> INCOME in columns && EXPENSES in columns
  {
    hide IsFullSet, DependenciesInClosure, Resolvable;
    ResolvableIsClosure(generators, columns);
    if INCOME in columns && EXPENSES in columns {
      InputsSuffice(generators, columns);
    }
    if DependenciesInClosure(generators, columns) {
      InputsAreNeeded(generators, columns);
    }
  }

  // ----- what the generators read -----

  const DEBT := "monthly_debt_payments"
  const EMPLOYMENT := "employment_months"
  const DELINQUENCY := "has_delinquency"
  const TRANSACTIONS := "transaction_count"
  const INCOME_SERIES := "income_month_"
  const TRANSACTION_SERIES := "txn_month_"

  /** The columns a generator may look at, if they are there. The two series are all columns with the prefix,
      of which the source takes those that go on with digits only. */
  predicate MayRead(feature: string, c: string) {
    if feature == "debt_to_income" then c == INCOME || c == DEBT
    else if feature == "savings_ratio" then c == INCOME || c == EXPENSES || c == DEBT
    else if feature == "expense_ratio" then c == INCOME || c == EXPENSES
    else if feature == "avg_monthly_income" then INCOME_SERIES <= c || c == INCOME
    else if feature == "income_stability" then INCOME_SERIES <= c || c == EMPLOYMENT
    else if feature == "cash_flow_stability" then INCOME_SERIES <= c || c == INCOME || c == EXPENSES
    else if feature == "payment_consistency" then c == DELINQUENCY
    else if feature == "transaction_frequency" then TRANSACTION_SERIES <= c || c == TRANSACTIONS
    else if feature == "income_growth" then INCOME_SERIES <= c
    else if feature == "financial_behaviour_index" then IsIndexPart(c)
    else false
  }

  /** A generator declares only columns that it reads. */
  lemma DependenciesAreRead(feature: string, d: string)
    requires d in DependenciesOf(feature)
    ensures feature in FEATURES && MayRead(feature, d)
  {
  }

  /** Column by column: three features need the income, two the expenses, and the index its five parts. */
  lemma DependenciesByColumn(feature: string, d: string)
    ensures d in DependenciesOf(feature) <==>
              || (d == INCOME && feature in {"debt_to_income", "savings_ratio", "expense_ratio"})
              || (d == EXPENSES && feature in {"savings_ratio", "expense_ratio"})
              || (IsIndexPart(d) && feature == "financial_behaviour_index")
  {
  }

  /** The generator's column is determined by the columns it may read, absent ones included. */
  ghost predicate ReadsOnly<V(!new)>(g: Generator<V>, feature: string) {
    forall f, h :: (forall c :: MayRead(feature, c) ==> SameColumn(f, h, c))
        ==> g.value(f, feature) == g.value(h, feature)
  }

  lemma NoFeatureIsInASeries(c: string)
    requires c in FEATURES
    ensures !(INCOME_SERIES <= c) && !(TRANSACTION_SERIES <= c)
  {
    assert |c| > 7 && (c[0] == 'i' ==> c[7] != 'm') && !(c[0] == 't' && c[1] == 'x');
    assert INCOME_SERIES[0] == 'i' && INCOME_SERIES[7] == 'm';
    assert TRANSACTION_SERIES[0] == 't' && TRANSACTION_SERIES[1] == 'x';
  }

  lemma NoFeatureIsAnInput(c: string)
    requires c in FEATURES
    ensures c != INCOME && c != EXPENSES && c != DEBT && c != EMPLOYMENT && c != DELINQUENCY && c != TRANSACTIONS
  {
    assert c[0] != 'm' && c[0] != 'h';
    assert c[0] == 'e' ==> c[1] == 'x';
    assert EMPLOYMENT[1] == 'm' && TRANSACTIONS[12] == 'c';
    assert |c| > 12 && c[0] == 't' ==> c[12] == 'f';
  }

  /** A feature that another generator may read is one it declares. */
  lemma FeatureReadsAreDeclared(feature: string, c: string)
    requires MayRead(feature, c) && c in FEATURES
    ensures c in DependenciesOf(feature)
  {
    NoFeatureIsInASeries(c);
    NoFeatureIsAnInput(c);
    hide FEATURES;
  }

  lemma OutputsAreFeatures<V(!new)>(generators: seq<Generator<V>>, c: string)
    requires IsStandard(generators) && IsOutput(generators, c)
    ensures c in FEATURES
  {
    var g :| g in generators && c in g.features;
    var f :| f in FEATURES && Declares(g, f);
  }

  lemma StandardReadsAreLocal<V(!new)>(generators: seq<Generator<V>>, g: Generator<V>, feature: string)
    requires IsStandard(generators) && Declares(g, feature) && ReadsOnly(g, feature)
    ensures ReadsLocally(g, generators)
  {
    forall f, h | AlikeFor(f, h, g, generators) ensures g.value(f, feature) == g.value(h, feature) {
      forall c | MayRead(feature, c) ensures SameColumn(f, h, c) {
        if IsOutput(generators, c) {
          OutputsAreFeatures(generators, c);
          FeatureReadsAreDeclared(feature, c);
        }
      }
    }
  }

  /** No feature is listed twice. */
  ghost predicate ListedOnce<V(!new)>(generators: seq<Generator<V>>) {
    forall g, h :: g in generators && h in generators && g.features == h.features ==> g == h
  }

  /** Over any raw frame without the ten features, any registered generators give the same frame, values included, in
      every order that meets their dependencies, whatever other columns the frame holds or lacks. */
  lemma StandardValuesAreOrderIndependent<V(!new)>(generators: seq<Generator<V>>, raw: Frame<V>,
                                                   a: seq<Generator<V>>, b: seq<Generator<V>>)
    requires IsStandard(generators) && ListedOnce(generators) && raw.Keys !! FEATURES
    requires forall g, f :: g in generators && Declares(g, f) ==> ReadsOnly(g, f)
    requires IsOrderOf(a, generators) && IsOrderOf(b, generators)
    requires MeetsDependencies(raw.Keys, a) && MeetsDependencies(raw.Keys, b)
    ensures FrameAfter(raw, a) == FrameAfter(raw, b)
  {
    hide FEATURES, IsStandard, ListedOnce, Declares, ReadsOnly, WellBehaved, MeetsDependencies, FrameAfter, IsOrderOf;
    StandardSetIsWellBehaved(generators, raw.Keys);
    ValuesAreOrderIndependent(generators, raw, a, b);
  }

  lemma FeatureOf<V(!new)>(generators: seq<Generator<V>>, g: Generator<V>) returns (f: string)
    requires IsStandard(generators) && g in generators
    ensures f in FEATURES && Declares(g, f) && Outputs(g) == {f}
  {
    hide FEATURES, DependenciesOf;
    f :| f in FEATURES && Declares(g, f);
  }

  lemma StandardSetIsWellBehaved<V(!new)>(generators: seq<Generator<V>>, columns: set<string>)
    requires IsStandard(generators) && ListedOnce(generators) && columns !! FEATURES
    requires forall g, f :: g in generators && Declares(g, f) ==> ReadsOnly(g, f)
    ensures WellBehaved(generators, columns)
  {
    hide FEATURES, IsStandard, DependenciesOf, ReadsOnly, ReadsLocally;
    forall g | g in generators ensures Outputs(g) !! columns && ReadsLocally(g, generators) {
      var f := FeatureOf(generators, g);
      StandardReadsAreLocal(generators, g, f);
    }
    forall g, h | g in generators && h in generators && g != h ensures Outputs(g) !! Outputs(h) {
      var f := FeatureOf(generators, g);
      var e := FeatureOf(generators, h);
      assert g.features == [f] && h.features == [e];
    }
  }
}
