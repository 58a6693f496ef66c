/** Feature engineering: generators run in repeated passes until no pending one has its inputs. */
module FeaturePipeline {
  import opened Sequences

  /** A data frame as its columns. */
  type Frame<V> = map<string, V>

  /** `value(frame, c)` is the column c that the generator computes from the frame it is given. */
  datatype Generator<!V> = Generator(
    name: string,
    dependencies: seq<string>,
    features: seq<string>,
    value: (Frame<V>, string) -> V
  )

  function Outputs<V>(g: Generator<V>): set<string> {
    set c | c in g.features
  }

  function Inputs<V>(g: Generator<V>): set<string> {
    set d | d in g.dependencies
  }

  function Generate<V>(g: Generator<V>, frame: Frame<V>): (out: Frame<V>)
    ensures out.Keys == frame.Keys + Outputs(g)
  {
    frame + map c | c in g.features :: g.value(frame, c)
  }

  /** The generator's columns are computed from the frame it is given, also where that has such a column
      already; every other column stays. */
  lemma GenerateAssigns<V>(g: Generator<V>, frame: Frame<V>)
    ensures forall c :: c in g.features ==> Generate(g, frame)[c] == g.value(frame, c)
    ensures forall c :: c in frame && c !in g.features ==> Generate(g, frame)[c] == frame[c]
  {
  }

  predicate Ready<V>(g: Generator<V>, columns: set<string>) {
    forall d | d in g.dependencies :: d in columns
  }

  // ----- orders -----

  function ColumnsAfter<V>(columns: set<string>, order: seq<Generator<V>>): set<string> {
    if order == [] then columns
    else ColumnsAfter(columns, order[..|order| - 1]) + Outputs(order[|order| - 1])
  }

  function FrameAfter<V>(raw: Frame<V>, order: seq<Generator<V>>): (f: Frame<V>)
    ensures f.Keys == ColumnsAfter(raw.Keys, order)
  {
    if order == [] then raw else Generate(order[|order| - 1], FrameAfter(raw, order[..|order| - 1]))
  }

  function FeaturesOf<V>(order: seq<Generator<V>>): seq<string> {
    if order == [] then [] else FeaturesOf(order[..|order| - 1]) + order[|order| - 1].features
  }

  /** Every generator of the order finds its dependencies when its turn comes. */
  ghost predicate MeetsDependencies<V>(columns: set<string>, order: seq<Generator<V>>) {
    forall k :: 0 <= k < |order| ==> Ready(order[k], ColumnsAfter(columns, order[..k]))
  }

  ghost predicate IsOrderOf<V>(order: seq<Generator<V>>, generators: seq<Generator<V>>) {
    multiset(order) == multiset(generators)
  }

  ghost predicate Resolvable<V(!new)>(generators: seq<Generator<V>>, columns: set<string>) {
    exists order :: IsOrderOf(order, generators) && MeetsDependencies(columns, order)
  }

  // ----- the least fixpoint -----

  ghost predicate Closed<V>(generators: seq<Generator<V>>, columns: set<string>) {
    forall g, c :: g in generators && Ready(g, columns) && c in g.features ==> c in columns
  }

  /** c belongs to the least column set that holds the raw columns and is closed under the generators. */
  ghost predicate InClosure<V>(generators: seq<Generator<V>>, columns: set<string>, c: string) {
    forall s: set<string> :: columns <= s && Closed(generators, s) ==> c in s
  }

  ghost predicate DependenciesInClosure<V>(generators: seq<Generator<V>>, columns: set<string>) {
    forall g, d :: g in generators && d in g.dependencies ==> InClosure(generators, columns, d)
  }

  lemma {:induction false} OrderStaysInClosure<V>(generators: seq<Generator<V>>, columns: set<string>,
                                                  order: seq<Generator<V>>, s: set<string>)
    requires MeetsDependencies(columns, order) && forall g :: g in order ==> g in generators
    requires columns <= s && Closed(generators, s)
    ensures ColumnsAfter(columns, order) <= s
  {
    if order != [] {
      var n := |order| - 1;
      forall k | 0 <= k < n ensures Ready(order[..n][k], ColumnsAfter(columns, order[..n][..k])) {
        assert order[..n][..k] == order[..k];
      }
      OrderStaysInClosure(generators, columns, order[..n], s);
      assert Ready(order[n], s);
      assert order[n] in order;
    }
  }

  lemma ExtendOrder<V>(columns: set<string>, order: seq<Generator<V>>, g: Generator<V>)
    requires MeetsDependencies(columns, order) && Ready(g, ColumnsAfter(columns, order))
    ensures MeetsDependencies(columns, order + [g])
    ensures ColumnsAfter(columns, order + [g]) == ColumnsAfter(columns, order) + Outputs(g)
    ensures FeaturesOf(order + [g]) == FeaturesOf(order) + g.features
  {
    assert (order + [g])[..|order|] == order;
    forall k | 0 <= k < |order| + 1 ensures Ready((order + [g])[k], ColumnsAfter(columns, (order + [g])[..k])) {
      if k < |order| {
        assert (order + [g])[..k] == order[..k];
      }
    }
  }

  lemma {:induction false} FeaturesAreColumns<V>(columns: set<string>, order: seq<Generator<V>>)
    ensures columns <= ColumnsAfter(columns, order)
    ensures forall g, c :: g in order && c in g.features ==> c in ColumnsAfter(columns, order)
  {
    if order != [] {
      FeaturesAreColumns(columns, order[..|order| - 1]);
      forall g, c | g in order && c in g.features ensures c in ColumnsAfter(columns, order) {
        if g != order[|order| - 1] {
          assert g in order[..|order| - 1];
        }
      }
    }
  }

  /** When no pending generator is ready, the columns reached are exactly the least fixpoint, and the
      pending generators are exactly those with a dependency outside it. */
  lemma StuckAtFixpoint<V>(generators: seq<Generator<V>>, columns: set<string>, order: seq<Generator<V>>,
                           pending: seq<Generator<V>>)
    requires Together(order, pending) == multiset(generators)
    requires MeetsDependencies(columns, order)
    requires forall g :: g in pending ==> !Ready(g, ColumnsAfter(columns, order))
    ensures forall c :: c in ColumnsAfter(columns, order) <==> InClosure(generators, columns, c)
    ensures pending == [] <==> DependenciesInClosure(generators, columns)
  {
    var reached := ColumnsAfter(columns, order);
    Members(order, pending, generators);
    FeaturesAreColumns(columns, order);
    assert Closed(generators, reached);
    forall s: set<string> | columns <= s && Closed(generators, s) ensures reached <= s {
      OrderStaysInClosure(generators, columns, order, s);
    }
    if pending != [] {
      assert pending[0] in generators && !Ready(pending[0], reached);
    } else {
      forall g, d | g in generators && d in g.dependencies ensures d in reached {
        var k :| 0 <= k < |order| && order[k] == g;
        assert Ready(order[k], ColumnsAfter(columns, order[..k]));
        PrefixColumns(columns, order, k);
      }
    }
  }

  lemma Members<V>(order: seq<Generator<V>>, pending: seq<Generator<V>>, generators: seq<Generator<V>>)
    requires Together(order, pending) == multiset(generators)
    ensures forall g :: g in generators <==> g in order || g in pending
  {
    forall g ensures g in generators <==> g in order || g in pending {
      assert g in generators <==> g in multiset(generators);
      assert g in order <==> g in multiset(order);
      assert g in pending <==> g in multiset(pending);
    }
  }

  lemma {:induction false} PrefixColumns<V>(columns: set<string>, order: seq<Generator<V>>, k: nat)
    requires k <= |order|
    ensures ColumnsAfter(columns, order[..k]) <= ColumnsAfter(columns, order)
    decreases |order| - k
  {
    if k < |order| {
      PrefixColumns(columns, order, k + 1);
      assert order[..k + 1][..k] == order[..k];
    } else {
      assert order[..k] == order;
    }
  }

  lemma SplitLast<T>(s: seq<T>)
    requires s != []
    ensures s == s[..|s| - 1] + [s[|s| - 1]]
  {
  }

  // ----- the order the passes take -----

  /** One pass from the front: each pending generator runs if its inputs exist by then, else stays pending. */
  function PassOver<V>(columns: set<string>, ran: seq<Generator<V>>, pending: seq<Generator<V>>)
    : (r: (seq<Generator<V>>, seq<Generator<V>>))
    ensures ran <= r.0 && |r.0| + |r.1| == |ran| + |pending|
  {
    if pending == [] then (ran, [])
    else
      var last := pending[|pending| - 1];
      var (order, waiting) := PassOver(columns, ran, pending[..|pending| - 1]);
      if Ready(last, ColumnsAfter(columns, order)) then (order + [last], waiting) else (order, waiting + [last])
  }

  /** Passes until nothing is pending or one makes no progress: the order run, and what stays pending. */
  function Passes<V>(columns: set<string>, ran: seq<Generator<V>>, pending: seq<Generator<V>>)
    : (seq<Generator<V>>, seq<Generator<V>>)
    decreases |pending|
  {
    if pending == [] then (ran, [])
    else
      var (order, waiting) := PassOver(columns, ran, pending);
      if |waiting| == |pending| then (order, waiting) else Passes(columns, order, waiting)
  }

  lemma PassOverOneMore<V>(columns: set<string>, ran: seq<Generator<V>>, pending: seq<Generator<V>>, i: nat)
    requires i < |pending|
    ensures var (order, waiting) := PassOver(columns, ran, pending[..i]);
            PassOver(columns, ran, pending[..i + 1]) ==
              if Ready(pending[i], ColumnsAfter(columns, order)) then (order + [pending[i]], waiting)
              else (order, waiting + [pending[i]])
  {
    assert pending[..i + 1][..i] == pending[..i];
  }

  lemma {:induction false} PassOverOrder<V>(columns: set<string>, ran: seq<Generator<V>>, pending: seq<Generator<V>>)
    requires MeetsDependencies(columns, ran)
    ensures MeetsDependencies(columns, PassOver(columns, ran, pending).0)
  {
    if pending != [] {
      var before, last := pending[..|pending| - 1], pending[|pending| - 1];
      PassOverOrder(columns, ran, before);
      PassOverOneMore(columns, ran, pending, |before|);
      assert pending[..|before| + 1] == pending;
      hide MeetsDependencies, ColumnsAfter, PassOver, Ready;
      var (order, waiting) := PassOver(columns, ran, before);
      if Ready(last, ColumnsAfter(columns, order)) {
        ExtendOrder(columns, order, last);
      }
    }
  }

  lemma {:induction false} PassOverMembers<V>(columns: set<string>, ran: seq<Generator<V>>, pending: seq<Generator<V>>)
    ensures var (order, waiting) := PassOver(columns, ran, pending);
            Together(order, waiting) == Together(ran, pending)
  {
    hide Together, ColumnsAfter, Ready;
    if pending != [] {
      var before, last := pending[..|pending| - 1], pending[|pending| - 1];
      PassOverMembers(columns, ran, before);
      PassOverOneMore(columns, ran, pending, |before|);
      assert pending[..|before| + 1] == pending == before + [last];
      hide PassOver;
      var (order, waiting) := PassOver(columns, ran, before);
      AppendToEither(ran, before, last);
      AppendToEither(order, waiting, last);
    }
  }

  /** A pass after which as many are pending has run nothing, and found nothing ready. */
  lemma {:induction false} PassOverStuck<V>(columns: set<string>, ran: seq<Generator<V>>, pending: seq<Generator<V>>)
    requires |PassOver(columns, ran, pending).1| == |pending|
    ensures PassOver(columns, ran, pending) == (ran, pending)
    ensures forall g :: g in pending ==> !Ready(g, ColumnsAfter(columns, ran))
  {
    if pending != [] {
      var before, last := pending[..|pending| - 1], pending[|pending| - 1];
      PassOverOneMore(columns, ran, pending, |before|);
      assert pending[..|before| + 1] == pending == before + [last];
      hide ColumnsAfter, PassOver, Ready;
      PassOverStuck(columns, ran, before);
    }
  }

  /** The order the passes take meets its dependencies, loses no generator, and leaves nothing ready. */
  lemma {:induction false} PassesOrder<V>(columns: set<string>, ran: seq<Generator<V>>, pending: seq<Generator<V>>)
    requires MeetsDependencies(columns, ran)
    ensures var (order, waiting) := Passes(columns, ran, pending);
            && MeetsDependencies(columns, order)
            && Together(order, waiting) == Together(ran, pending)
            && forall g :: g in waiting ==> !Ready(g, ColumnsAfter(columns, order))
    decreases |pending|
  {
    if pending != [] {
      PassOverOrder(columns, ran, pending);
      PassOverMembers(columns, ran, pending);
      var (order, waiting) := PassOver(columns, ran, pending);
      hide MeetsDependencies, ColumnsAfter, PassOver, Ready, Together;
      if |waiting| == |pending| {
        PassOverStuck(columns, ran, pending);
      } else {
        PassesOrder(columns, order, waiting);
      }
    }
  }

  /** Some order meets every dependency exactly when every dependency lies in the least fixpoint. */
  lemma ResolvableIsClosure<V(!new)>(generators: seq<Generator<V>>, columns: set<string>)
    ensures Resolvable(generators, columns) <==> DependenciesInClosure(generators, columns)
  {
    assert Together([], generators) == multiset(generators);
    assert MeetsDependencies<V>(columns, []);
    PassesOrder(columns, [], generators);
    var (final, stuck) := Passes(columns, [], generators);
    StuckAtFixpoint(generators, columns, final, stuck);
    if stuck == [] {
      assert IsOrderOf(final, generators);
    }
    if order :| IsOrderOf(order, generators) && MeetsDependencies(columns, order) {
      assert Together(order, []) == multiset(generators);
      StuckAtFixpoint(generators, columns, order, []);
    }
  }

  /** Success and the final columns depend on which generators are listed, not on how. */
  lemma ListingOrderIsIrrelevant<V(!new)>(a: seq<Generator<V>>, b: seq<Generator<V>>, columns: set<string>)
    requires forall g :: g in a <==> g in b
    ensures Resolvable(a, columns) <==> Resolvable(b, columns)
    ensures forall c :: InClosure(a, columns, c) <==> InClosure(b, columns, c)
  {
    ResolvableIsClosure(a, columns);
    ResolvableIsClosure(b, columns);
    forall c ensures InClosure(a, columns, c) <==> InClosure(b, columns, c) {
      assert forall s :: Closed(a, s) <==> Closed(b, s);
    }
  }

  lemma {:induction false} PassOverAsListed<V>(columns: set<string>, ran: seq<Generator<V>>, pending: seq<Generator<V>>)
    requires MeetsDependencies(columns, ran + pending)
    ensures PassOver(columns, ran, pending) == (ran + pending, [])
  {
    if pending == [] {
      assert ran + pending == ran;
    } else {
      var before, last := pending[..|pending| - 1], pending[|pending| - 1];
      var n := |ran| + |before|;
      assert (ran + pending)[..n] == ran + before && (ran + pending)[n] == last;
      assert ran + pending == ran + before + [last];
      ShorterOrder(columns, ran + pending);
      PassOverAsListed(columns, ran, before);
      PassOverOneMore(columns, ran, pending, |before|);
      assert pending[..|before| + 1] == pending;
    }
  }

  /** A listing that meets its dependencies is run as listed, in one pass. */
  lemma MetListingRunsAsListed<V>(generators: seq<Generator<V>>, columns: set<string>)
    requires MeetsDependencies(columns, generators)
    ensures Passes(columns, [], generators) == (generators, [])
  {
    assert [] + generators == generators;
    PassOverAsListed(columns, [], generators);
  }

  /** The produced features are those of the generators run, and as many. */
  lemma {:induction false} FeaturesAreProduced<V>(order: seq<Generator<V>>, c: string)
    ensures c in FeaturesOf(order) <==> exists g :: g in order && c in g.features
    ensures order != [] ==> |FeaturesOf(order)| == |FeaturesOf(order[..|order| - 1])| + |order[|order| - 1].features|
  {
    if order != [] {
      var before, last := order[..|order| - 1], order[|order| - 1];
      FeaturesAreProduced(before, c);
      assert forall g :: g in order <==> g in before || g == last;
    }
  }

  // ----- the passes -----

  function Absent(dependencies: seq<string>, columns: set<string>): (r: seq<string>)
    ensures forall d :: d in r <==> d in dependencies && d !in columns
  {
    if dependencies == [] then []
    else
      var last := dependencies[|dependencies| - 1];
      Absent(dependencies[..|dependencies| - 1], columns) + if last in columns then [] else [last]
  }

  /** What the error reports: by generator name, the dependencies that are no column (a later name wins). */
  function Missing<V>(pending: seq<Generator<V>>, columns: set<string>): map<string, seq<string>> {
    if pending == [] then map[]
    else
      var last := pending[|pending| - 1];
      Missing(pending[..|pending| - 1], columns)[last.name := Absent(last.dependencies, columns)]
  }

  datatype Outcome<!V> =
    | Transformed(frame: Frame<V>)
    | Unresolved(pending: seq<Generator<V>>, missing: map<string, seq<string>>)

  class FeatureEngineeringPipeline<V(!new)> {
    const generators: seq<Generator<V>>
    var producedFeatures: seq<string>

    constructor (generators: seq<Generator<V>>)
      ensures this.generators == generators && producedFeatures == []
    {
      this.generators := generators;
      producedFeatures := [];
    }

    /** Succeeds exactly when some order of the generators meets every dependency, and then answers with
        the frame of the order the passes take, which is one, over the columns of the least fixpoint.
        Otherwise it reports exactly the generators with a dependency outside the least fixpoint and, by
        name, those dependencies, and records nothing. */
    method Transform(raw: Frame<V>) returns (r: Outcome<V>)
      modifies this
      ensures r.Transformed? <==> Resolvable(generators, raw.Keys)
      ensures var (order, pending) := Passes(raw.Keys, [], generators);
              match r
              case Transformed(frame) =>
                && IsOrderOf(order, generators) && MeetsDependencies(raw.Keys, order)
                && frame == FrameAfter(raw, order) && producedFeatures == FeaturesOf(order)
              case Unresolved(stuck, missing) =>
                && stuck == pending && missing == Missing(stuck, ColumnsAfter(raw.Keys, order))
                && producedFeatures == old(producedFeatures)
      ensures r.Transformed? ==> forall c :: c in r.frame <==> InClosure(generators, raw.Keys, c)
      ensures r.Unresolved? ==> forall g :: g in r.pending <==>
                g in generators && exists d :: d in g.dependencies && !InClosure(generators, raw.Keys, d)
      ensures r.Unresolved? ==> forall name :: name in r.missing <==> exists g :: g in r.pending && g.name == name
      ensures r.Unresolved? ==> forall name | name in r.missing ::
                exists g | g in r.pending && g.name == name :: forall d ::
                  d in r.missing[name] <==> d in g.dependencies && !InClosure(generators, raw.Keys, d)
    {
      hide MeetsDependencies, InClosure, Ready, ColumnsAfter, FrameAfter, FeaturesOf, Generate, PassOver;
      var pending, out, produced := generators, raw, [];
      ghost var order: seq<Generator<V>> := [];
      NothingRun(raw);
      var progress := true;
      while pending != [] && progress
        invariant producedFeatures == old(producedFeatures)
        invariant out == FrameAfter(raw, order) && produced == FeaturesOf(order)
        invariant Passes(raw.Keys, [], generators) ==
                    if progress then Passes(raw.Keys, order, pending) else (order, pending)
        decreases |pending|, progress
      {
        pending, out, produced, progress, order := RunPass(raw, pending, out, produced, order);
      }
      PassesOrder(raw.Keys, [], generators);
      hide Passes;
      assert Together(order, pending) == multiset(generators);
      StuckAtFixpoint(generators, raw.Keys, order, pending);
      ResolvableIsClosure(generators, raw.Keys);
      if pending != [] {
        PendingAreUnresolved(generators, raw.Keys, order, pending);
        var missing := MissingColumns(pending, out);
        MissingByName(pending, out.Keys);
        return Unresolved(pending, missing);
      }
      assert IsOrderOf(order, generators);
      producedFeatures := produced;
      r := Transformed(out);
    }
  }

  lemma FrameOneMore<V>(raw: Frame<V>, order: seq<Generator<V>>, g: Generator<V>)
    ensures FrameAfter(raw, order + [g]) == Generate(g, FrameAfter(raw, order))
    ensures FeaturesOf(order + [g]) == FeaturesOf(order) + g.features
  {
    assert (order + [g])[..|order|] == order;
  }

  /** One pass over the pending generators. */
  method RunPass<V>(raw: Frame<V>, pending: seq<Generator<V>>, frame: Frame<V>, features: seq<string>,
                    ghost ran: seq<Generator<V>>)
    returns (stillPending: seq<Generator<V>>, out: Frame<V>, produced: seq<string>, progress: bool,
             ghost order: seq<Generator<V>>)
    requires frame == FrameAfter(raw, ran) && features == FeaturesOf(ran)
    ensures (order, stillPending) == PassOver(raw.Keys, ran, pending)
    ensures out == FrameAfter(raw, order) && produced == FeaturesOf(order)
    ensures ran <= order && (progress <==> |stillPending| < |pending|)
  {
    hide Ready, ColumnsAfter, FrameAfter, FeaturesOf, Generate;
    stillPending, out, produced, progress, order := [], frame, features, false, ran;
    for i := 0 to |pending|
      invariant (order, stillPending) == PassOver(raw.Keys, ran, pending[..i])
      invariant out == FrameAfter(raw, order) && produced == FeaturesOf(order)
      invariant |stillPending| <= i && (progress <==> |stillPending| < i)
    {
      var g := pending[i];
      PassOverOneMore(raw.Keys, ran, pending, i);
      if Ready(g, out.Keys) {
        FrameOneMore(raw, order, g);
        order := order + [g];
        out := Generate(g, out);
        produced := produced + g.features;
        progress := true;
      } else {
        stillPending := stillPending + [g];
      }
    }
    assert pending[..|pending|] == pending;
  }

  method MissingColumns<V>(pending: seq<Generator<V>>, frame: Frame<V>) returns (missing: map<string, seq<string>>)
    ensures missing == Missing(pending, frame.Keys)
  {
    missing := map[];
    for i := 0 to |pending|
      invariant missing == Missing(pending[..i], frame.Keys)
    {
      assert pending[..i + 1][..i] == pending[..i];
      missing := missing[pending[i].name := Absent(pending[i].dependencies, frame.Keys)];
    }
    assert pending[..|pending|] == pending;
  }

  lemma {:induction false} MissingByName<V>(pending: seq<Generator<V>>, columns: set<string>)
    ensures forall g :: g in pending ==> g.name in Missing(pending, columns)
    ensures forall name | name in Missing(pending, columns) ::
              exists g | g in pending && g.name == name ::
                Missing(pending, columns)[name] == Absent(g.dependencies, columns)
  {
    if pending != [] {
      var before, last := pending[..|pending| - 1], pending[|pending| - 1];
      MissingByName(before, columns);
      assert last in pending && forall g | g in before :: g in pending;
      forall g | g in pending ensures g.name in Missing(pending, columns) {
        assert g == last || g in before;
      }
    }
  }

  lemma NothingRun<V>(raw: Frame<V>)
    ensures MeetsDependencies<V>(raw.Keys, []) && FrameAfter(raw, []) == raw && FeaturesOf<V>([]) == []
  {
  }

  lemma PendingAreUnresolved<V>(generators: seq<Generator<V>>, columns: set<string>, order: seq<Generator<V>>,
                                pending: seq<Generator<V>>)
    requires Together(order, pending) == multiset(generators)
    requires MeetsDependencies(columns, order)
    requires forall g :: g in pending ==> !Ready(g, ColumnsAfter(columns, order))
    ensures forall g :: g in pending <==>
              g in generators && exists d :: d in g.dependencies && !InClosure(generators, columns, d)
  {
    StuckAtFixpoint(generators, columns, order, pending);
    Members(order, pending, generators);
    forall g, d | g in order && d in g.dependencies ensures d in ColumnsAfter(columns, order) {
      var k :| 0 <= k < |order| && order[k] == g;
      assert Ready(order[k], ColumnsAfter(columns, order[..k]));
      PrefixColumns(columns, order, k);
    }
  }

  // ----- values do not depend on the order either -----

  ghost predicate IsOutput<V(!new)>(generators: seq<Generator<V>>, c: string) {
    exists g :: g in generators && c in g.features
  }

  ghost predicate SameColumn<V>(f: Frame<V>, h: Frame<V>, c: string) {
    (c in f <==> c in h) && (c in f ==> f[c] == h[c])
  }

  /** The frames look alike to g, its own and the others' outputs apart: every column that no generator makes,
      present or absent, and every declared dependency. */
  ghost predicate AlikeFor<V(!new)>(f: Frame<V>, h: Frame<V>, g: Generator<V>, generators: seq<Generator<V>>) {
    forall c :: c in g.dependencies || !IsOutput(generators, c) ==> SameColumn(f, h, c)
  }

  /** The generator reads no other generator's output unless it declares it; it may look at any other column,
      and at which of them are there. */
  ghost predicate ReadsLocally<V(!new)>(g: Generator<V>, generators: seq<Generator<V>>) {
    forall f, h, c :: AlikeFor(f, h, g, generators) && c in g.features ==> g.value(f, c) == g.value(h, c)
  }

  ghost predicate WellBehaved<V(!new)>(generators: seq<Generator<V>>, rawColumns: set<string>) {
    && (forall g, h | g in generators && h in generators && g != h :: Outputs(g) !! Outputs(h))
    && (forall g | g in generators :: Outputs(g) !! rawColumns && ReadsLocally(g, generators))
  }

  /** Every column of the generator stands at its defining value. */
  ghost predicate DefinedBy<V>(frame: Frame<V>, g: Generator<V>) {
    forall c | c in Outputs(g) :: c in frame && frame[c] == g.value(frame, c)
  }

  /** The frame holds the raw columns unchanged, nothing else that no generator makes, and every column of
      the generators run at its defining value. */
  ghost predicate Solves<V(!new)>(frame: Frame<V>, raw: Frame<V>, generators: seq<Generator<V>>,
                                  order: seq<Generator<V>>)
  {
    && (forall c :: c in raw || !IsOutput(generators, c) ==> SameColumn(frame, raw, c))
    && (forall g | g in order :: DefinedBy(frame, g))
  }

  lemma {:induction false} ColumnsHaveAnOrigin<V>(columns: set<string>, order: seq<Generator<V>>, c: string)
    requires c in ColumnsAfter(columns, order)
    ensures c in columns || exists g :: g in order && c in Outputs(g)
  {
    if order != [] && c !in columns {
      if c in Outputs(order[|order| - 1]) {
        assert order[|order| - 1] in order;
      } else {
        ColumnsHaveAnOrigin(columns, order[..|order| - 1], c);
      }
    }
  }

  lemma FreshOutputs<V(!new)>(rawColumns: set<string>, generators: seq<Generator<V>>, before: seq<Generator<V>>,
                              g: Generator<V>)
    requires WellBehaved(generators, rawColumns) && g in generators && g !in before
    requires forall h | h in before :: h in generators
    ensures Outputs(g) !! ColumnsAfter(rawColumns, before)
  {
    forall c | c in ColumnsAfter(rawColumns, before) ensures c !in Outputs(g) {
      ColumnsHaveAnOrigin(rawColumns, before, c);
    }
  }

  /** A generator that had its inputs sees no difference when another one adds its columns. */
  lemma AddedColumnsLookAlike<V(!new)>(frame: Frame<V>, g: Generator<V>, h: Generator<V>, generators: seq<Generator<V>>)
    requires g in generators && Ready(h, frame.Keys) && Outputs(g) !! frame.Keys
    ensures AlikeFor(frame, Generate(g, frame), h, generators)
  {
    forall c | c in g.features ensures IsOutput(generators, c) && c !in h.dependencies {
      assert c in Outputs(g);
    }
    forall c | c !in g.features ensures SameColumn(frame, Generate(g, frame), c) {
    }
  }

  lemma StaysDefined<V(!new)>(frame: Frame<V>, g: Generator<V>, h: Generator<V>, generators: seq<Generator<V>>)
    requires g in generators && Ready(h, frame.Keys) && Outputs(g) !! frame.Keys
    requires h == g || DefinedBy(frame, h)
    requires ReadsLocally(h, generators)
    ensures DefinedBy(Generate(g, frame), h)
  {
    AddedColumnsLookAlike(frame, g, h, generators);
    hide AlikeFor;
  }

  lemma GenerateKeepsRaw<V(!new)>(frame: Frame<V>, raw: Frame<V>, generators: seq<Generator<V>>, g: Generator<V>)
    requires g in generators && Outputs(g) !! raw.Keys
    requires forall c :: c in raw || !IsOutput(generators, c) ==> SameColumn(frame, raw, c)
    ensures forall c :: c in raw || !IsOutput(generators, c) ==> SameColumn(Generate(g, frame), raw, c)
  {
    forall c | c in g.features ensures IsOutput(generators, c) && c !in raw {
      assert c in Outputs(g);
    }
    forall c | c !in g.features ensures SameColumn(frame, Generate(g, frame), c) {
    }
  }

  lemma GenerateSolves<V(!new)>(raw: Frame<V>, generators: seq<Generator<V>>, before: seq<Generator<V>>,
                                g: Generator<V>)
    requires WellBehaved(generators, raw.Keys) && g in generators && forall h | h in before :: h in generators
    requires Solves(FrameAfter(raw, before), raw, generators, before)
    requires Ready(g, ColumnsAfter(raw.Keys, before))
        && forall h | h in before :: Ready(h, ColumnsAfter(raw.Keys, before))
    ensures Solves(Generate(g, FrameAfter(raw, before)), raw, generators, before + [g])
  {
    var frame := FrameAfter(raw, before);
    var out := Generate(g, frame);
    if g in before {
      FeaturesAreColumns(raw.Keys, before);
      RunAgain(frame, g);
      assert out == frame && forall h | h in before + [g] :: h in before;
    } else {
      FreshOutputs(raw.Keys, generators, before, g);
      forall h | h in before + [g] ensures DefinedBy(out, h) {
        StaysDefined(frame, g, h, generators);
      }
      hide ReadsLocally, DefinedBy, Generate, FrameAfter, ColumnsAfter;
      GenerateKeepsRaw(frame, raw, generators, g);
    }
  }

  lemma RunAgain<V>(frame: Frame<V>, g: Generator<V>)
    requires DefinedBy(frame, g)
    ensures Generate(g, frame) == frame
  {
  }

  lemma AllWereReady<V>(columns: set<string>, order: seq<Generator<V>>)
    requires MeetsDependencies(columns, order)
    ensures forall g | g in order :: Ready(g, ColumnsAfter(columns, order))
  {
    forall g | g in order ensures Ready(g, ColumnsAfter(columns, order)) {
      var k :| 0 <= k < |order| && order[k] == g;
      PrefixColumns(columns, order, k);
    }
  }

  lemma ShorterOrder<V>(columns: set<string>, order: seq<Generator<V>>)
    requires order != [] && MeetsDependencies(columns, order)
    ensures MeetsDependencies(columns, order[..|order| - 1])
    ensures Ready(order[|order| - 1], ColumnsAfter(columns, order[..|order| - 1]))
  {
    var before := order[..|order| - 1];
    forall k | 0 <= k < |before| ensures Ready(before[k], ColumnsAfter(columns, before[..k])) {
      assert before[..k] == order[..k];
    }
  }

  lemma NothingSolves<V(!new)>(raw: Frame<V>, generators: seq<Generator<V>>)
    ensures Solves(raw, raw, generators, [])
  {
  }

  lemma {:induction false} RunSolves<V(!new)>(raw: Frame<V>, generators: seq<Generator<V>>, order: seq<Generator<V>>)
    requires WellBehaved(generators, raw.Keys) && MeetsDependencies(raw.Keys, order)
    requires forall g | g in order :: g in generators
    ensures Solves(FrameAfter(raw, order), raw, generators, order)
  {
    if order == [] {
      NothingRun(raw);
      NothingSolves(raw, generators);
    } else {
      var before, g := order[..|order| - 1], order[|order| - 1];
      assert FrameAfter(raw, order) == Generate(g, FrameAfter(raw, before));
      SplitLast(order);
      assert g in order && forall h | h in before :: h in order;
      hide WellBehaved, MeetsDependencies, Solves, Ready, FrameAfter, ColumnsAfter, Generate;
      ShorterOrder(raw.Keys, order);
      RunSolves(raw, generators, before);
      AllWereReady(raw.Keys, before);
      GenerateSolves(raw, generators, before, g);
    }
  }

  ghost predicate Agree<V>(f: Frame<V>, h: Frame<V>, columns: set<string>) {
    forall c | c in columns :: c in f && c in h && f[c] == h[c]
  }

  /** Two orders of the same generators that both meet their dependencies give the same frame, values
      included, when outputs are distinct and absent from the raw frame and no generator reads another's
      output without declaring it. */
  lemma ValuesAreOrderIndependent<V(!new)>(generators: seq<Generator<V>>, raw: Frame<V>,
                                           a: seq<Generator<V>>, b: seq<Generator<V>>)
    requires WellBehaved(generators, raw.Keys) && IsOrderOf(a, generators) && IsOrderOf(b, generators)
    requires MeetsDependencies(raw.Keys, a) && MeetsDependencies(raw.Keys, b)
    ensures FrameAfter(raw, a) == FrameAfter(raw, b)
  {
    hide MeetsDependencies, ReadsLocally, DefinedBy, FrameAfter, Agree, WellBehaved, Solves;
    SameMembers(a, generators);
    SameMembers(b, generators);
    RunSolves(raw, generators, a);
    RunSolves(raw, generators, b);
    var f, h := FrameAfter(raw, a), FrameAfter(raw, b);
    SolvesSameMembers(f, raw, generators, a, b);
    SolvesSameMembers(h, raw, generators, b, a);
    SolutionsAgree(raw, generators, a, |a|, f, h);
    SolutionsAgree(raw, generators, b, |b|, f, h);
    assert a[..|a|] == a && b[..|b|] == b;
    SameFrame(f, h);
  }

  lemma SolvesSameMembers<V(!new)>(f: Frame<V>, raw: Frame<V>, generators: seq<Generator<V>>, a: seq<Generator<V>>,
                                   b: seq<Generator<V>>)
    requires Solves(f, raw, generators, a) && forall g :: g in a <==> g in b
    ensures Solves(f, raw, generators, b)
  {
  }

  lemma SameFrame<V>(f: Frame<V>, h: Frame<V>)
    requires Agree(f, h, f.Keys) && Agree(f, h, h.Keys)
    ensures f == h
  {
  }

  lemma SameMembers<V>(order: seq<Generator<V>>, generators: seq<Generator<V>>)
    requires IsOrderOf(order, generators)
    ensures forall g :: g in order <==> g in generators
  {
    PermutationKeepsMembers(order, generators);
  }

  /** Two solutions agree on every column an order reaches. */
  lemma {:induction false} SolutionsAgree<V(!new)>(raw: Frame<V>, generators: seq<Generator<V>>,
                                                   order: seq<Generator<V>>, k: nat, f: Frame<V>, h: Frame<V>)
    requires k <= |order| && MeetsDependencies(raw.Keys, order) && WellBehaved(generators, raw.Keys)
    requires forall g | g in order :: g in generators
    requires Solves(f, raw, generators, order) && Solves(h, raw, generators, order)
    ensures Agree(f, h, ColumnsAfter(raw.Keys, order[..k]))
  {
    if k == 0 {
      assert order[..0] == [];
      RawAgrees(raw, generators, order, f, h);
    } else {
      SolutionsAgree(raw, generators, order, k - 1, f, h);
      assert order[..k][..k - 1] == order[..k - 1];
      assert order[k - 1] in order;
      assert Ready(order[k - 1], ColumnsAfter(raw.Keys, order[..k - 1]));
      DefinitionsAgree(raw, generators, order, order[k - 1], ColumnsAfter(raw.Keys, order[..k - 1]), f, h);
    }
  }

  lemma RawAgrees<V(!new)>(raw: Frame<V>, generators: seq<Generator<V>>, order: seq<Generator<V>>, f: Frame<V>,
                           h: Frame<V>)
    requires Solves(f, raw, generators, order) && Solves(h, raw, generators, order)
    ensures Agree(f, h, raw.Keys)
  {
    forall c | c in raw ensures c in f && c in h && f[c] == h[c] {
      assert SameColumn(f, raw, c) && SameColumn(h, raw, c);
    }
  }

  lemma DefinitionsAgree<V(!new)>(raw: Frame<V>, generators: seq<Generator<V>>, order: seq<Generator<V>>,
                                  g: Generator<V>,
                                  columns: set<string>, f: Frame<V>, h: Frame<V>)
    requires g in order && ReadsLocally(g, generators) && Ready(g, columns) && Agree(f, h, columns)
    requires Solves(f, raw, generators, order) && Solves(h, raw, generators, order)
    ensures Agree(f, h, columns + Outputs(g))
  {
    assert DefinedBy(f, g) && DefinedBy(h, g);
    forall c | c in g.dependencies || !IsOutput(generators, c) ensures SameColumn(f, h, c) {
      if c !in g.dependencies {
        assert SameColumn(f, raw, c) && SameColumn(h, raw, c);
      }
    }
    assert AlikeFor(f, h, g, generators);
    hide Solves, AlikeFor;
  }
}
