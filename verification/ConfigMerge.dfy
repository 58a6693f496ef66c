/** Configuration trees: deep merge of an environment over the base, then environment-variable overrides. */
module ConfigMerge {
  import opened Wrappers

  datatype Node<V> = Leaf(value: V) | Dict(entries: map<string, Node<V>>)

  type Path = seq<string>

  function Lookup<V>(n: Node<V>, p: Path): Option<Node<V>> {
    if p == [] then Some(n)
    else if n.Dict? && p[0] in n.entries then Lookup(n.entries[p[0]], p[1..])
    else None
  }

  ghost predicate LeafAt<V>(n: Node<V>, p: Path, v: V) {
    Lookup(n, p) == Some(Leaf(v))
  }

  // ----- deep merge -----

  /** Mappings merge key by key; anything else is replaced by the override. */
  function Merge<V>(base: Node<V>, override: Node<V>): Node<V>
    decreases base
  {
    if base.Dict? && override.Dict? then
      Dict(map k | k in base.entries.Keys + override.entries.Keys ::
             if k !in override.entries then base.entries[k]
             else if k !in base.entries then override.entries[k]
             else Merge(base.entries[k], override.entries[k]))
    else override
  }

  method DeepMerge<V>(base: map<string, Node<V>>, override: map<string, Node<V>>) returns (result: map<string, Node<V>>)
    ensures Dict(result) == Merge(Dict(base), Dict(override))
    decreases Dict(base)
  {
    result := base;
    var remaining := override.Keys;
    while remaining != {}
      invariant remaining <= override.Keys
      invariant result.Keys == base.Keys + (override.Keys - remaining)
      invariant forall k | k in result ::
                  result[k] == if k !in override || k in remaining then base[k]
                               else if k !in base then override[k]
                               else Merge(base[k], override[k])
      decreases remaining
    {
      var key :| key in remaining;
      var value := override[key];
      if key in result && result[key].Dict? && value.Dict? {
        var merged := DeepMerge(result[key].entries, value.entries);
        result := result[key := Dict(merged)];
      } else {
        result := result[key := value];
      }
      remaining := remaining - {key};
    }
  }

  /** The override decides what stands at p: a leaf of it on the way, or a mapping of it at p itself. */
  ghost predicate Shadows<V>(override: Node<V>, p: Path) {
    || (exists n :: 0 <= n <= |p| && Lookup(override, p[..n]).Some? && Lookup(override, p[..n]).value.Leaf?)
    || (Lookup(override, p).Some? && Lookup(override, p).value.Dict?)
  }

  /** How shadowing goes down one key. */
  lemma ShadowsBelow<V>(override: Node<V>, p: Path)
    requires p != []
    ensures Shadows(override, p) <==>
              (override.Leaf? || (p[0] in override.entries && Shadows(override.entries[p[0]], p[1..])))
  {
    assert p[..0] == [];
    if override.Dict? && p[0] in override.entries {
      var child := override.entries[p[0]];
      forall n | 0 <= n <= |p[1..]| ensures Lookup(override, p[..n + 1]) == Lookup(child, p[1..][..n]) {
        assert p[..n + 1][1..] == p[1..][..n];
      }
      if n :| 0 <= n <= |p| && Lookup(override, p[..n]).Some? && Lookup(override, p[..n]).value.Leaf? {
        assert Lookup(override, p[..n - 1 + 1]) == Lookup(child, p[1..][..n - 1]);
      }
      if n :| 0 <= n <= |p[1..]| && Lookup(child, p[1..][..n]).Some? && Lookup(child, p[1..][..n]).value.Leaf? {
        assert Lookup(override, p[..n + 1]).value.Leaf?;
      }
    } else if override.Dict? {
      forall n | 0 < n <= |p| ensures Lookup(override, p[..n]) == None {
        assert p[..n][0] == p[0];
      }
    }
  }

  /** The leaves of a merge are the override's leaves, and those of the base it does not shadow. */
  lemma {:induction false} MergeLeaves<V>(base: Node<V>, override: Node<V>, p: Path, v: V)
    ensures LeafAt(Merge(base, override), p, v) <==>
              LeafAt(override, p, v) || (LeafAt(base, p, v) && !Shadows(override, p))
    decreases p
  {
    if p == [] {
      assert p[..0] == [];
      assert Lookup(override, p).Some?;
      assert Shadows(override, p) by {
        assert Lookup(override, p[..0]) == Some(override);
      }
    } else {
      ShadowsBelow(override, p);
      if base.Dict? && override.Dict? {
        if p[0] in base.entries && p[0] in override.entries {
          MergeLeaves(base.entries[p[0]], override.entries[p[0]], p[1..], v);
        } else if p[0] in override.entries {
          assert Lookup(base, p) == None;
        }
      } else {
        BaseWithoutPath(base, override, p, v);
      }
    }
  }

  lemma BaseWithoutPath<V>(base: Node<V>, override: Node<V>, p: Path, v: V)
    requires p != [] && (base.Leaf? || override.Leaf?)
    ensures !(LeafAt(base, p, v) && !Shadows(override, p))
  {
    assert p[..0] == [];
    if override.Leaf? {
      assert Lookup(override, p[..0]) == Some(override);
    }
  }

  lemma {:induction false} MergeIsIdempotent<V>(n: Node<V>)
    ensures Merge(n, n) == n
  {
    if n.Dict? {
      forall k | k in n.entries ensures Merge(n.entries[k], n.entries[k]) == n.entries[k] {
        MergeIsIdempotent(n.entries[k]);
      }
    }
  }

  /** Merging the same override again changes nothing. */
  lemma {:induction false} MergeAbsorbs<V>(base: Node<V>, override: Node<V>)
    ensures Merge(Merge(base, override), override) == Merge(base, override)
    decreases base
  {
    if base.Dict? && override.Dict? {
      var merged := Merge(base, override);
      forall k | k in override.entries ensures Merge(merged.entries[k], override.entries[k]) == merged.entries[k] {
        if k in base.entries {
          MergeAbsorbs(base.entries[k], override.entries[k]);
        } else {
          MergeIsIdempotent(override.entries[k]);
        }
      }
      assert Merge(merged, override).entries == merged.entries;
    } else {
      MergeIsIdempotent(override);
    }
  }

  // ----- environment-variable overrides -----

  datatype Setting<V> = Setting(path: Path, value: V)

  /** Walks to the parent of the path, creating mappings, and stores the value there; a scalar on the way
      is an error. */
  function Set<V>(n: Node<V>, p: Path, v: V): (r: Result<Node<V>>)
    requires n.Dict? && p != []
    ensures r.Ok? ==> r.value.Dict?
    decreases p
  {
    if |p| == 1 then Ok(Dict(n.entries[p[0] := Leaf(v)]))
    else
      var child := if p[0] in n.entries then n.entries[p[0]] else Dict(map[]);
      if child.Leaf? then Err(ConfigurationError)
      else match Set(child, p[1..], v)
        case Err(error) => Err(error)
        case Ok(next) => Ok(Dict(n.entries[p[0] := next]))
  }

  predicate Comparable(p: Path, q: Path) {
    p <= q || q <= p
  }

  /** An override is refused exactly when a scalar stands on the way to its path. */
  lemma {:induction false} SetFailsExactly<V>(n: Node<V>, p: Path, v: V)
    requires n.Dict? && p != []
    ensures Set(n, p, v).Err? <==>
              exists i :: 0 < i < |p| && Lookup(n, p[..i]).Some? && Lookup(n, p[..i]).value.Leaf?
    decreases p
  {
    forall i | 0 < i < |p| && p[0] in n.entries ensures Lookup(n, p[..i]) == Lookup(n.entries[p[0]], p[1..][..i - 1]) {
      assert p[..i][1..] == p[1..][..i - 1];
    }
    if |p| > 1 {
      if p[0] in n.entries && n.entries[p[0]].Leaf? {
        assert Lookup(n, p[..1]) == Lookup(n.entries[p[0]], p[1..][..0]);
      } else if p[0] in n.entries {
        SetFailsExactly(n.entries[p[0]], p[1..], v);
        if i :| 0 < i < |p| && Lookup(n, p[..i]).Some? && Lookup(n, p[..i]).value.Leaf? {
          assert Lookup(n.entries[p[0]], p[1..][..i - 1]).value.Leaf?;
        }
        if i :| 0 < i < |p[1..]| && Lookup(n.entries[p[0]], p[1..][..i]).Some?
                && Lookup(n.entries[p[0]], p[1..][..i]).value.Leaf?
        {
          assert Lookup(n, p[..i + 1]) == Lookup(n.entries[p[0]], p[1..][..i + 1 - 1]);
        }
      } else {
        SetInEmpty<V>(p[1..], v);
        forall i | 0 < i < |p| ensures Lookup(n, p[..i]) == None {
          assert p[..i][0] == p[0];
        }
      }
    }
  }

  lemma {:induction false} SetInEmpty<V>(p: Path, v: V)
    requires p != []
    ensures Set(Dict(map[]), p, v).Ok?
    decreases p
  {
    if |p| > 1 {
      SetInEmpty(p[1..], v);
    }
  }

  /** A successful override sets its path and leaves everything at incomparable paths as it was; the
      leaves after it are that one and those not below its path. */
  lemma {:induction false} SetLeaves<V>(n: Node<V>, p: Path, v: V, q: Path, u: V)
    requires n.Dict? && p != [] && Set(n, p, v).Ok?
    ensures !Comparable(p, q) ==> Lookup(Set(n, p, v).value, q) == Lookup(n, q)
    ensures LeafAt(Set(n, p, v).value, q, u) <==> (if p <= q then q == p && u == v else LeafAt(n, q, u))
    decreases p
  {
    var next := Set(n, p, v).value;
    if q != [] && q[0] == p[0] {
      assert p <= q <==> p[1..] <= q[1..];
      assert q <= p <==> q[1..] <= p[1..];
      if |p| == 1 {
        assert p == [q[0]] && p <= q;
        assert next.entries[q[0]] == Leaf(v);
        assert Lookup(next, q) == Lookup(Leaf(v), q[1..]);
      } else {
        var child := if p[0] in n.entries then n.entries[p[0]] else Dict(map[]);
        SetLeaves(child, p[1..], v, q[1..], u);
        if p[0] !in n.entries {
          NothingInEmpty<V>(q[1..]);
        }
      }
    }
  }

  lemma NothingInEmpty<V>(q: Path)
    ensures Lookup<V>(Dict(map[]), q) == if q == [] then Some(Dict(map[])) else None
  {
  }

  function SetAll<V>(n: Node<V>, settings: seq<Setting<V>>): (r: Result<Node<V>>)
    requires n.Dict? && forall s | s in settings :: s.path != []
    ensures r.Ok? ==> r.value.Dict?
  {
    if settings == [] then Ok(n)
    else
      var last := settings[|settings| - 1];
      assert last in settings && forall s | s in settings[..|settings| - 1] :: s in settings;
      match SetAll(n, settings[..|settings| - 1])
      case Err(error) => Err(error)
      case Ok(next) => Set(next, last.path, last.value)
  }

  /** The walk in place: missing mappings are created on the way, and it stops at a scalar. What it leaves, and
      whether it reached the end. */
  function Assign<V>(n: Node<V>, p: Path, v: V): (r: (Node<V>, bool))
    requires n.Dict? && p != []
    ensures r.0.Dict?
    decreases p
  {
    if |p| == 1 then (Dict(n.entries[p[0] := Leaf(v)]), true)
    else
      var child := if p[0] in n.entries then n.entries[p[0]] else Dict(map[]);
      if child.Leaf? then (Dict(n.entries[p[0] := child]), false)
      else
        var (left, done) := Assign(child, p[1..], v);
        (Dict(n.entries[p[0] := left]), done)
  }

  /** A refused override has created nothing: the tree is what it was. */
  lemma {:induction false} AssignIsSet<V>(n: Node<V>, p: Path, v: V)
    requires n.Dict? && p != []
    ensures Assign(n, p, v) == match Set(n, p, v) case Ok(next) => (next, true) case Err(_) => (n, false)
    decreases p
  {
    if |p| > 1 {
      var child := if p[0] in n.entries then n.entries[p[0]] else Dict(map[]);
      if child.Leaf? {
        assert n.entries[p[0] := child] == n.entries;
      } else {
        AssignIsSet(child, p[1..], v);
        if p[0] !in n.entries {
          SetInEmpty<V>(p[1..], v);
        } else if Set(child, p[1..], v).Err? {
          assert n.entries[p[0] := child] == n.entries;
        }
      }
    }
  }

  /** `left` is the tree as the overrides leave it in place. The first refused override fails the whole; the
      tree then holds exactly the overrides before it. */
  method ApplyOverrides<V>(config: Node<V>, settings: seq<Setting<V>>) returns (r: Result<Node<V>>, left: Node<V>)
    requires config.Dict? && forall s | s in settings :: s.path != []
    ensures r == SetAll(config, settings)
    ensures r.Ok? ==> left == r.value
    ensures r.Err? ==> exists k :: 0 <= k < |settings| && SetAll(config, settings[..k]) == Ok(left)
                                   && SetAll(config, settings[..k + 1]).Err?
  {
    left := config;
    for i := 0 to |settings|
      invariant left.Dict? && SetAll(config, settings[..i]) == Ok(left)
    {
      assert settings[..i + 1][..i] == settings[..i];
      AssignIsSet(left, settings[i].path, settings[i].value);
      var (next, done) := Assign(left, settings[i].path, settings[i].value);
      if !done {
        SetError(left, settings[i].path, settings[i].value);
        FailureStays(config, settings, i + 1);
        return Err(ConfigurationError), next;
      }
      left := next;
    }
    assert settings[..|settings|] == settings;
    r := Ok(left);
  }

  lemma {:induction false} FailureStays<V>(n: Node<V>, settings: seq<Setting<V>>, k: nat)
    requires n.Dict? && k <= |settings| && forall s | s in settings :: s.path != []
    requires SetAll(n, settings[..k]).Err?
    ensures SetAll(n, settings) == Err(ConfigurationError)
    decreases |settings| - k
  {
    OnlyConfigurationErrors(n, settings[..k]);
    if k == |settings| {
      assert settings[..k] == settings;
    } else {
      assert settings[..k + 1][..k] == settings[..k];
      FailureStays(n, settings, k + 1);
    }
  }

  lemma {:induction false} OnlyConfigurationErrors<V>(n: Node<V>, settings: seq<Setting<V>>)
    requires n.Dict? && forall s | s in settings :: s.path != []
    ensures SetAll(n, settings).Err? ==> SetAll(n, settings).error == ConfigurationError
  {
    if settings != [] {
      var before := settings[..|settings| - 1];
      assert forall s | s in before :: s in settings;
      OnlyConfigurationErrors(n, before);
      if SetAll(n, before).Ok? {
        SetError(SetAll(n, before).value, settings[|settings| - 1].path, settings[|settings| - 1].value);
      }
    }
  }

  lemma {:induction false} SetError<V>(n: Node<V>, p: Path, v: V)
    requires n.Dict? && p != []
    ensures Set(n, p, v).Err? ==> Set(n, p, v).error == ConfigurationError
    decreases p
  {
    if |p| > 1 {
      var child := if p[0] in n.entries then n.entries[p[0]] else Dict(map[]);
      if child.Dict? {
        SetError(child, p[1..], v);
      }
    }
  }

  /** No setting after position k stands at or above the path of the one there. */
  ghost predicate LastWord<V>(settings: seq<Setting<V>>, k: nat) {
    k < |settings| && forall j :: k < j < |settings| ==> !(settings[j].path <= settings[k].path)
  }

  /** When all overrides succeed, each stands with its value unless a later one replaces it. */
  lemma {:induction false} OverrideStands<V>(n: Node<V>, settings: seq<Setting<V>>, k: nat)
    requires n.Dict? && (forall s | s in settings :: s.path != []) && SetAll(n, settings).Ok? && LastWord(settings, k)
    ensures LeafAt(SetAll(n, settings).value, settings[k].path, settings[k].value)
  {
    var before, last := settings[..|settings| - 1], settings[|settings| - 1];
    assert last in settings && forall s | s in before :: s in settings;
    var left := SetAll(n, before).value;
    SetLeaves(left, last.path, last.value, settings[k].path, settings[k].value);
    if k < |before| {
      assert !(settings[|before|].path <= settings[k].path);
      OverrideStands(n, before, k);
    }
  }

  /** Every path that none of them touches is what the configuration had. */
  lemma {:induction false} OverridesKeepTheRest<V>(n: Node<V>, settings: seq<Setting<V>>, q: Path)
    requires n.Dict? && (forall s | s in settings :: s.path != []) && SetAll(n, settings).Ok?
    requires forall s | s in settings :: !Comparable(s.path, q)
    ensures Lookup(SetAll(n, settings).value, q) == Lookup(n, q)
  {
    if settings != [] {
      var before, last := settings[..|settings| - 1], settings[|settings| - 1];
      assert last in settings && forall s | s in before :: s in settings;
      OverridesKeepTheRest(n, before, q);
      SetLeaves(SetAll(n, before).value, last.path, last.value, q, last.value);
    }
  }

  // ----- when the order of overrides matters -----

  function Both<V>(n: Node<V>, a: Setting<V>, b: Setting<V>): Result<Node<V>>
    requires n.Dict? && a.path != [] && b.path != []
  {
    match Set(n, a.path, a.value)
    case Err(error) => Err(error)
    case Ok(next) => Set(next, b.path, b.value)
  }

  lemma {:induction false} IncomparableCommute<V>(n: Node<V>, a: Setting<V>, b: Setting<V>)
    requires n.Dict? && a.path != [] && b.path != [] && !Comparable(a.path, b.path)
    ensures Both(n, a, b) == Both(n, b, a)
    decreases a.path
  {
    SetError(n, a.path, a.value);
    SetError(n, b.path, b.value);
    if a.path[0] == b.path[0] {
      var k := a.path[0];
      var child := if k in n.entries then n.entries[k] else Dict(map[]);
      if child.Dict? {
        var a', b' := Setting(a.path[1..], a.value), Setting(b.path[1..], b.value);
        assert a.path == [k] + a'.path && b.path == [k] + b'.path;
        IncomparableCommute(child, a', b');
        BothBelow(n, child, a, b);
        BothBelow(n, child, b, a);
      }
    } else {
      DifferentKeys(n, a, b);
    }
  }

  /** Two longer paths with the same first key work on the child alone. */
  lemma BothBelow<V>(n: Node<V>, child: Node<V>, a: Setting<V>, b: Setting<V>)
    requires n.Dict? && child.Dict? && |a.path| > 1 && |b.path| > 1 && a.path[0] == b.path[0]
    requires child == if a.path[0] in n.entries then n.entries[a.path[0]] else Dict(map[])
    ensures match Both(child, Setting(a.path[1..], a.value), Setting(b.path[1..], b.value))
            case Err(error) => Both(n, a, b) == Err(error)
            case Ok(next) => Both(n, a, b) == Ok(Dict(n.entries[a.path[0] := next]))
  {
    var k := a.path[0];
    var first := Set(child, a.path[1..], a.value);
    if first.Ok? {
      var second := Set(first.value, b.path[1..], b.value);
      if second.Ok? {
        assert n.entries[k := first.value][k := second.value] == n.entries[k := second.value];
      }
    }
  }

  lemma DifferentKeys<V>(n: Node<V>, a: Setting<V>, b: Setting<V>)
    requires n.Dict? && a.path != [] && b.path != [] && a.path[0] != b.path[0]
    ensures Both(n, a, b) == Both(n, b, a)
  {
    SetError(n, a.path, a.value);
    SetError(n, b.path, b.value);
    if Set(n, a.path, a.value).Ok? && Set(n, b.path, b.value).Ok? {
      var na, nb := Set(n, a.path, a.value).value, Set(n, b.path, b.value).value;
      assert na.entries == n.entries[a.path[0] := na.entries[a.path[0]]];
      assert nb.entries == n.entries[b.path[0] := nb.entries[b.path[0]]];
      assert Both(n, a, b) == Ok(Dict(na.entries[b.path[0] := nb.entries[b.path[0]]]));
      assert Both(n, b, a) == Ok(Dict(nb.entries[a.path[0] := na.entries[a.path[0]]]));
      assert na.entries[b.path[0] := nb.entries[b.path[0]]] == nb.entries[a.path[0] := na.entries[a.path[0]]];
    }
  }

  /** Two overrides that would each succeed give the same outcome in both orders exactly when neither path
      is a prefix of the other, or they are the same override. */
  lemma OverrideOrderMattersExactly<V>(n: Node<V>, a: Setting<V>, b: Setting<V>)
    requires n.Dict? && a.path != [] && b.path != []
    requires Set(n, a.path, a.value).Ok? && Set(n, b.path, b.value).Ok?
    ensures Both(n, a, b) == Both(n, b, a) <==> !Comparable(a.path, b.path) || a == b
  {
    if !Comparable(a.path, b.path) {
      IncomparableCommute(n, a, b);
    } else if a.path == b.path {
      SecondWins(n, a, b);
      SecondWins(n, b, a);
      if a != b {
        SetLeaves(n, b.path, b.value, b.path, b.value);
        SetLeaves(n, a.path, a.value, a.path, a.value);
      }
    } else if a.path <= b.path {
      LeafBlocks(n, a, b);
      LongerFirst(n, b, a);
    } else {
      LeafBlocks(n, b, a);
      LongerFirst(n, a, b);
    }
  }

  lemma {:induction false} SecondWins<V>(n: Node<V>, a: Setting<V>, b: Setting<V>)
    requires n.Dict? && a.path == b.path != [] && Set(n, a.path, a.value).Ok? && Set(n, b.path, b.value).Ok?
    ensures Both(n, a, b) == Set(n, b.path, b.value)
    decreases a.path
  {
    var k := a.path[0];
    if |a.path| > 1 {
      var child := if k in n.entries then n.entries[k] else Dict(map[]);
      SecondWins(child, Setting(a.path[1..], a.value), Setting(b.path[1..], b.value));
      var na := Set(child, a.path[1..], a.value).value;
      var nb := Set(child, b.path[1..], b.value).value;
      assert n.entries[k := na][k := nb] == n.entries[k := nb];
    } else {
      assert n.entries[k := Leaf(a.value)][k := Leaf(b.value)] == n.entries[k := Leaf(b.value)];
    }
  }

  /** After an override at a proper prefix the longer override is refused. */
  lemma LeafBlocks<V>(n: Node<V>, a: Setting<V>, b: Setting<V>)
    requires n.Dict? && a.path != [] && a.path < b.path && Set(n, a.path, a.value).Ok?
    ensures Both(n, a, b).Err?
  {
    var next := Set(n, a.path, a.value).value;
    SetLeaves(n, a.path, a.value, a.path, a.value);
    SetFailsExactly(next, b.path, b.value);
    assert b.path[..|a.path|] == a.path;
  }

  /** In the other order the shorter override replaces the subtree. */
  lemma LongerFirst<V>(n: Node<V>, a: Setting<V>, b: Setting<V>)
    requires n.Dict? && b.path != [] && b.path < a.path && Set(n, a.path, a.value).Ok? && Set(n, b.path, b.value).Ok?
    ensures Both(n, a, b).Ok?
  {
    var next := Set(n, a.path, a.value).value;
    SetFailsExactly(next, b.path, b.value);
    SetFailsExactly(n, b.path, b.value);
    if i :| 0 < i < |b.path| && Lookup(next, b.path[..i]).Some? && Lookup(next, b.path[..i]).value.Leaf? {
      var u := Lookup(next, b.path[..i]).value.value;
      SetLeaves(n, a.path, a.value, b.path[..i], u);
    }
  }
}
