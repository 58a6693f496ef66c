/** Version lineage: a parent relation validated when the graph is built, then walked. */
module Lineage {
  import opened Sequences
  import opened Wrappers
  import opened Domain

  /** Records by version, as the dictionary the constructor builds (a later duplicate wins). */
  type Graph = map<string, ModelVersion>

  function Collected(versions: seq<ModelVersion>): Graph {
    if versions == [] then map[]
    else var last := versions[|versions| - 1]; Collected(versions[..|versions| - 1])[last.version := last]
  }

  /** The graph holds exactly the listed versions, each with its last record of the list. */
  lemma {:induction false} CollectedIsLast(versions: seq<ModelVersion>, v: string)
    ensures v in Collected(versions) <==> exists i :: 0 <= i < |versions| && versions[i].version == v
    ensures forall i | 0 <= i < |versions| && versions[i].version == v ::
              (forall j :: i < j < |versions| ==> versions[j].version != v) ==> Collected(versions)[v] == versions[i]
  {
    if versions != [] {
      var n := |versions| - 1;
      CollectedIsLast(versions[..n], v);
      forall i | 0 <= i < n ensures versions[..n][i] == versions[i] {
      }
    }
  }

  // ----- the parent relation -----

  /** The parent the walk follows: an empty string counts as no parent. */
  function Parent(g: Graph, v: string): Option<string> {
    if v in g && g[v].parentVersion.Some? && g[v].parentVersion.value != "" then g[v].parentVersion else None
  }

  /** The version k parent links above v. */
  function Up(g: Graph, v: string, k: nat): Option<string> {
    if k == 0 then Some(v)
    else match Up(g, v, k - 1) case None => None case Some(u) => Parent(g, u)
  }

  /** Every parent the validation looks up is a known version; here an empty string is looked up too. */
  ghost predicate ParentsKnown(g: Graph) {
    forall v :: v in g && g[v].parentVersion.Some? ==> g[v].parentVersion.value in g
  }

  ghost predicate Acyclic(g: Graph) {
    forall v, k: nat :: v in g && k > 0 ==> Up(g, v, k) != Some(v)
  }

  ghost predicate OneIdentity(versions: seq<ModelVersion>) {
    forall i, j :: 0 <= i < |versions| && 0 <= j < |versions| ==>
      versions[i].identity.Key() == versions[j].identity.Key()
  }

  /** The chain above v stays within the graph and ends after n links. */
  ghost predicate EndsAfter(g: Graph, v: string, n: nat) {
    && (forall k: nat :: k <= n ==> Up(g, v, k).Some? && Up(g, v, k).value in g)
    && Up(g, v, n + 1) == None
  }

  lemma {:induction false} UpAdds(g: Graph, v: string, a: nat, b: nat)
    requires Up(g, v, a).Some?
    ensures Up(g, v, a + b) == Up(g, Up(g, v, a).value, b)
  {
    if b > 0 {
      UpAdds(g, v, a, b - 1);
    }
  }

  lemma {:induction false} NothingAboveTheEnd(g: Graph, v: string, a: nat, b: nat)
    requires a <= b && Up(g, v, a) == None
    ensures Up(g, v, b) == None
  {
    if a < b {
      NothingAboveTheEnd(g, v, a, b - 1);
    }
  }

  /** A chain that meets itself is a cycle. */
  lemma RepeatIsCycle(g: Graph, v: string, j: nat, k: nat)
    requires j < k && Up(g, v, j).Some? && Up(g, v, j).value in g && Up(g, v, k) == Up(g, v, j)
    ensures !Acyclic(g)
  {
    UpAdds(g, v, j, k - j);
    assert Up(g, Up(g, v, j).value, k - j) == Some(Up(g, v, j).value);
  }

  /** Going round a cycle any number of times comes back to the start. */
  lemma {:induction false} CycleRunsOn(g: Graph, v: string, k: nat, turns: nat) returns (steps: nat)
    requires k > 0 && Up(g, v, k) == Some(v)
    ensures steps >= turns && Up(g, v, steps) == Some(v)
  {
    if turns == 0 {
      steps := 0;
    } else {
      steps := CycleRunsOn(g, v, k, turns - 1);
      UpAdds(g, v, steps, k);
      steps := steps + k;
    }
  }

  lemma EndingChainsAreAcyclic(g: Graph)
    requires forall v :: v in g ==> exists n: nat :: EndsAfter(g, v, n)
    ensures Acyclic(g)
  {
    forall v, k: nat | v in g && k > 0 ensures Up(g, v, k) != Some(v) {
      if Up(g, v, k) == Some(v) {
        var n: nat :| EndsAfter(g, v, n);
        var steps := CycleRunsOn(g, v, k, n + 1);
        NothingAboveTheEnd(g, v, n + 1, steps);
      }
    }
  }

  /** Each version listed once: the parents are known exactly when each record's parent, the empty string
      included, is a listed version. */
  lemma KnownParentsAreListed(versions: seq<ModelVersion>)
    requires forall i, j :: 0 <= i < j < |versions| ==> versions[i].version != versions[j].version
    ensures ParentsKnown(Collected(versions)) <==>
              forall i :: 0 <= i < |versions| && versions[i].parentVersion.Some? ==>
                exists j :: 0 <= j < |versions| && versions[j].version == versions[i].parentVersion.value
  {
    var g := Collected(versions);
    forall i | 0 <= i < |versions| ensures versions[i].version in g && g[versions[i].version] == versions[i] {
      CollectedIsLast(versions, versions[i].version);
    }
    hide Collected;
    if ParentsKnown(g) {
      forall i | 0 <= i < |versions| && versions[i].parentVersion.Some?
        ensures exists j :: 0 <= j < |versions| && versions[j].version == versions[i].parentVersion.value
      {
        assert versions[i].version in g;
        CollectedIsLast(versions, versions[i].parentVersion.value);
      }
    } else {
      var v :| v in g && g[v].parentVersion.Some? && g[v].parentVersion.value !in g;
      CollectedIsLast(versions, v);
      var i :| 0 <= i < |versions| && versions[i].version == v;
      assert g[versions[i].version] == versions[i];
      CollectedIsLast(versions, g[v].parentVersion.value);
    }
  }

  /** Where no name or environment holds the separator of keys, one key means one identity in all its parts. */
  lemma OneIdentityIsOne(versions: seq<ModelVersion>)
    requires forall m | m in versions :: SeparatorFree(m.identity.name) && SeparatorFree(m.identity.environment)
    ensures OneIdentity(versions) <==>
              forall i, j :: 0 <= i < |versions| && 0 <= j < |versions| ==>
                versions[i].identity == versions[j].identity
  {
    hide Identity.Key;
    if OneIdentity(versions) {
      forall i, j | 0 <= i < |versions| && 0 <= j < |versions| ensures versions[i].identity == versions[j].identity {
        assert versions[i].identity.Key() == versions[j].identity.Key();
        SeparatorFreeKeyIsUnique(versions[i].identity, versions[j].identity);
      }
    }
  }

  // ----- walking -----

  /** Consecutive versions of a path are linked, and all of them are in the graph. */
  ghost predicate IsPath(g: Graph, path: seq<string>) {
    && path != []
    && (forall k :: 0 <= k < |path| ==> path[k] in g)
    && (forall k :: 0 <= k < |path| - 1 ==> Parent(g, path[k]) == Some(path[k + 1]))
  }

  lemma {:induction false} PathIsUp(g: Graph, path: seq<string>, k: nat)
    requires IsPath(g, path) && k < |path|
    ensures Up(g, path[0], k) == Some(path[k])
  {
    if k > 0 {
      PathIsUp(g, path, k - 1);
    }
  }

  /** A path whose last version has no parent is the whole chain of its first. */
  lemma PathEnds(g: Graph, path: seq<string>)
    requires IsPath(g, path) && Parent(g, path[|path| - 1]) == None
    ensures EndsAfter(g, path[0], |path| - 1)
    ensures forall k :: 0 <= k < |path| ==> Up(g, path[0], k) == Some(path[k])
  {
    forall k | 0 <= k < |path| ensures Up(g, path[0], k) == Some(path[k]) {
      PathIsUp(g, path, k);
    }
    assert Up(g, path[0], |path|) == None;
  }

  /** A path that links back to one of its versions runs on forever. */
  lemma PathTurnsBack(g: Graph, path: seq<string>, j: nat)
    requires IsPath(g, path) && j < |path| && Parent(g, path[|path| - 1]) == Some(path[j])
    ensures !Acyclic(g) && forall n: nat :: !EndsAfter(g, path[0], n)
  {
    PathIsUp(g, path, j);
    PathIsUp(g, path, |path| - 1);
    assert Up(g, path[0], |path|) == Some(path[j]);
    RepeatIsCycle(g, path[0], j, |path|);
    NoEnd(g, path[0], j, |path|);
  }

  /** A path that links to an unknown version does not end within the graph. */
  lemma PathLeaves(g: Graph, path: seq<string>, parent: string)
    requires IsPath(g, path) && Parent(g, path[|path| - 1]) == Some(parent) && parent !in g
    ensures forall n: nat :: !EndsAfter(g, path[0], n)
  {
    PathIsUp(g, path, |path| - 1);
    assert Up(g, path[0], |path|) == Some(parent);
    forall n: nat | EndsAfter(g, path[0], n) ensures false {
      if n < |path| {
        NothingAboveTheEnd(g, path[0], n + 1, |path|);
      }
    }
  }

  /** Succeeds exactly for a known version whose chain of parents stays in the graph and ends; then the
      result lists that chain from the nearest parent up, without repeats, and is shorter than the graph.
      In a graph with known parents, failure for a known version means a cycle. */
  method Ancestors(g: Graph, version: string) returns (r: Result<seq<ModelVersion>>)
    ensures r.Ok? <==> version in g && exists n: nat :: EndsAfter(g, version, n)
    ensures r.Ok? ==> EndsAfter(g, version, |r.value|) && |r.value| < |g|
    ensures r.Ok? ==> forall k :: 0 <= k < |r.value| ==>
              Up(g, version, k + 1).Some? && Up(g, version, k + 1).value in g
                  && r.value[k] == g[Up(g, version, k + 1).value]
    ensures r.Ok? ==> forall j: nat, k: nat :: j < k <= |r.value| ==> Up(g, version, j) != Up(g, version, k)
    ensures r.Err? ==> r.error == LineageError
    ensures r.Err? && version in g && ParentsKnown(g) ==> !Acyclic(g)
  {
    if version !in g {
      return Err(LineageError);
    }
    var current := g[version];
    var result: seq<ModelVersion> := [];
    var visited := {version};
    ghost var path := [version];
    while current.parentVersion.Some? && current.parentVersion.value != ""
      invariant IsPath(g, path) && path[0] == version && |path| == |result| + 1
      invariant current == g[path[|path| - 1]]
      invariant forall k :: 0 <= k < |result| ==> result[k] == g[path[k + 1]]
      invariant visited <= g.Keys && |visited| == |path| && forall u :: u in visited <==> u in path
      invariant forall j, k :: 0 <= j < k < |path| ==> path[j] != path[k]
      decreases g.Keys - visited
    {
      var parent := current.parentVersion.value;
      if parent in visited {
        ghost var j :| 0 <= j < |path| && path[j] == parent;
        PathTurnsBack(g, path, j);
        return Err(LineageError);
      }
      if parent !in g {
        PathLeaves(g, path, parent);
        return Err(LineageError);
      }
      current := g[parent];
      result := result + [current];
      visited := visited + {parent};
      path := path + [parent];
    }
    SubsetSize(visited, g.Keys);
    PathEnds(g, path);
    r := Ok(result);
  }

  lemma NoEnd(g: Graph, v: string, j: nat, k: nat)
    requires j < k && Up(g, v, j).Some? && Up(g, v, k) == Up(g, v, j)
    ensures forall n: nat :: !EndsAfter(g, v, n)
  {
    forall n: nat ensures !EndsAfter(g, v, n) {
      if EndsAfter(g, v, n) {
        var u := Up(g, v, j).value;
        UpAdds(g, v, j, k - j);
        var steps := CycleRunsOn(g, u, k - j, n + 1);
        UpAdds(g, v, j, steps);
        NothingAboveTheEnd(g, v, n + 1, j + steps);
      }
    }
  }

  lemma SubsetSize<T>(a: set<T>, b: set<T>)
    requires a <= b
    ensures |a| <= |b|
  {
    assert |b| == |a| + |b - a| by {
      assert a + (b - a) == b;
    }
  }

  // ----- building -----

  /** The number of distinct identity keys, as the constructor counts them. */
  method IdentityKeys(versions: seq<ModelVersion>) returns (keys: set<string>)
    ensures |keys| <= 1 <==> OneIdentity(versions)
  {
    hide Identity.Key;
    keys := {};
    for i := 0 to |versions|
      invariant forall j :: 0 <= j < i ==> versions[j].identity.Key() in keys
      invariant forall k :: k in keys ==> exists j :: 0 <= j < i && versions[j].identity.Key() == k
    {
      keys := keys + {versions[i].identity.Key()};
    }
    if |keys| > 1 {
      TwoMembers(keys);
    } else {
      AtMostOneMember(keys);
    }
  }

  /** The constructor accepts exactly a version list of one identity whose parents are all known and
      whose parent relation has no cycle. */
  method Build(versions: seq<ModelVersion>) returns (r: Result<Graph>)
    ensures r.Ok? <==> OneIdentity(versions) && ParentsKnown(Collected(versions)) && Acyclic(Collected(versions))
    ensures r == if r.Ok? then Ok(Collected(versions)) else Err(LineageError)
  {
    hide OneIdentity, Acyclic, Identity.Key;
    var g: Graph := map[];
    for i := 0 to |versions|
      invariant g == Collected(versions[..i])
    {
      assert versions[..i + 1][..i] == versions[..i];
      g := g[versions[i].version := versions[i]];
    }
    assert versions[..|versions|] == versions;
    var keys := IdentityKeys(versions);
    if |keys| > 1 {
      return Err(LineageError);
    }
    hide Collected;
    r := Validated(g);
  }

  method Validated(g: Graph) returns (r: Result<Graph>)
    ensures r.Ok? <==> ParentsKnown(g) && Acyclic(g)
    ensures r == if r.Ok? then Ok(g) else Err(LineageError)
  {
    hide Acyclic, EndsAfter;
    var remaining := g.Keys;
    while remaining != {}
      invariant remaining <= g.Keys
      invariant forall v :: v in g && v !in remaining ==>
                  && (g[v].parentVersion.Some? ==> g[v].parentVersion.value in g)
                  && exists n: nat :: EndsAfter(g, v, n)
      decreases remaining
    {
      var version :| version in remaining;
      var item := g[version];
      if item.parentVersion.Some? && item.parentVersion.value !in g {
        return Err(LineageError);
      }
      var chain := Ancestors(g, version);
      if chain.Err? {
        return Err(LineageError);
      }
      remaining := remaining - {version};
    }
    EndingChainsAreAcyclic(g);
    r := Ok(g);
  }

  lemma TwoMembers(keys: set<string>)
    requires |keys| > 1
    ensures exists a, b :: a in keys && b in keys && a != b
  {
    var a :| a in keys;
    assert |keys - {a}| > 0;
    var b :| b in keys - {a};
  }

  lemma AtMostOneMember(keys: set<string>)
    requires |keys| <= 1
    ensures forall a, b :: a in keys && b in keys ==> a == b
  {
    forall a, b | a in keys && b in keys ensures a == b {
      if a != b {
        SubsetSize({a, b}, keys);
      }
    }
  }

  lemma {:induction false} CollectedByVersion(versions: seq<ModelVersion>)
    ensures forall v :: v in Collected(versions) ==> Collected(versions)[v].version == v
  {
    if versions != [] {
      CollectedByVersion(versions[..|versions| - 1]);
    }
  }

  // ----- children -----

  /** The records listed as children of a known version. */
  function Children(g: Graph, version: string): set<ModelVersion> {
    set v | v in g && g[v].parentVersion == Some(version) :: g[v]
  }

  /** In an accepted graph, `children(v)` holds exactly the records whose first ancestor is v, unless v is
      the empty string and some record names it: the walk then reads that name as no parent. */
  lemma ChildrenInvertFirstAncestor(versions: seq<ModelVersion>, v: string)
    requires var g := Collected(versions); v in g && ParentsKnown(g) && Acyclic(g)
    ensures var g := Collected(versions);
            (forall c :: c in g ==> (g[c] in Children(g, v) <==> Up(g, c, 1) == Some(v)))
            <==> (v != "" || forall c :: c in g ==> g[c].parentVersion != Some(""))
  {
    var g := Collected(versions);
    CollectedByVersion(versions);
    forall c | c in g ensures g[c] in Children(g, v) <==> g[c].parentVersion == Some(v) {
      if g[c] in Children(g, v) {
        var u :| u in g && g[u].parentVersion == Some(v) && g[u] == g[c];
      }
    }
    forall c | c in g ensures Up(g, c, 1) == Parent(g, c) {
      assert Up(g, c, 0) == Some(c);
    }
  }

  /** In an accepted graph every ancestor walk succeeds and returns the whole set above the version. */
  lemma AncestorsAreReachableSet(g: Graph, v: string, n: nat)
    requires v in g && EndsAfter(g, v, n)
    ensures forall u :: (exists k: nat :: k > 0 && Up(g, v, k) == Some(u))
                   <==> (exists k: nat :: 0 < k <= n && Up(g, v, k) == Some(u))
  {
    assert Up(g, v, n + 1) == None;
    hide Up, EndsAfter;
    forall u, k: nat | k > 0 && Up(g, v, k) == Some(u) ensures k <= n {
      if k > n {
        NothingAboveTheEnd(g, v, n + 1, k);
      }
    }
  }

  predicate VersionBefore(a: ModelVersion, b: ModelVersion) {
    !LexLess(b.version, a.version)
  }

  lemma VersionBeforeIsTotalOrder()
    ensures TotalOrder(VersionBefore)
  {
    forall a: ModelVersion, b: ModelVersion ensures VersionBefore(a, b) || VersionBefore(b, a) {
      LexIsTotal(a.version, b.version);
    }
    forall a: ModelVersion, b: ModelVersion, c: ModelVersion | VersionBefore(a, b) && VersionBefore(b, c)
      ensures VersionBefore(a, c)
    {
      LexIsTransitive(a.version, b.version, c.version);
    }
  }

  /** Records in ascending order of version, each once. */
  ghost predicate Ascending(records: seq<ModelVersion>) {
    forall i, j :: 0 <= i < j < |records| ==> LexLess(records[i].version, records[j].version)
  }

  /** Fails exactly for an unknown version; otherwise lists exactly its children, ascending by version. */
  method ListChildren(g: Graph, version: string) returns (r: Result<seq<ModelVersion>>)
    requires forall v :: v in g ==> g[v].version == v
    ensures (r.Ok? <==> version in g) && (r.Err? ==> r.error == LineageError)
    ensures r.Ok? ==> (forall m :: m in r.value <==> m in Children(g, version)) && Ascending(r.value)
  {
    hide LexLess;
    if version !in g {
      return Err(LineageError);
    }
    var found: seq<ModelVersion> := [];
    var remaining := g.Keys;
    while remaining != {}
      invariant remaining <= g.Keys
      invariant forall m :: m in found <==>
                  (m.version in g && m.version !in remaining && m == g[m.version] && m.parentVersion == Some(version))
      invariant forall i, j :: 0 <= i < j < |found| ==> found[i].version != found[j].version
      decreases remaining
    {
      var v :| v in remaining;
      if g[v].parentVersion == Some(version) {
        found := found + [g[v]];
      }
      remaining := remaining - {v};
    }
    var sorted := SortBy(VersionBefore, found);
    PermutationKeepsMembers(sorted, found);
    VersionBeforeIsTotalOrder();
    SortByIsOrdered(VersionBefore, found);
    DistinctIsAscending(found, sorted);
    r := Ok(sorted);
  }

  lemma DistinctIsAscending(found: seq<ModelVersion>, sorted: seq<ModelVersion>)
    requires multiset(sorted) == multiset(found) && OrderedBy(VersionBefore, sorted)
    requires forall i, j :: 0 <= i < j < |found| ==> found[i].version != found[j].version
    ensures Ascending(sorted)
  {
    hide LexLess;
    forall i, j | 0 <= i < j < |sorted| ensures LexLess(sorted[i].version, sorted[j].version) {
      assert VersionBefore(sorted[i], sorted[j]);
      LexIsTotal(sorted[i].version, sorted[j].version);
      if sorted[i].version == sorted[j].version {
        TwiceInSorted(found, sorted, i, j);
      }
    }
  }

  lemma TwiceInSorted(found: seq<ModelVersion>, sorted: seq<ModelVersion>, i: nat, j: nat)
    requires multiset(sorted) == multiset(found) && i < j < |sorted|
    requires sorted[i].version == sorted[j].version
    ensures exists k, l :: 0 <= k < l < |found| && found[k].version == found[l].version
  {
    var x, y := sorted[i], sorted[j];
    assert x in multiset(found) && y in multiset(found);
    if x == y {
      assert sorted == sorted[..j] + [y] + sorted[j + 1..];
      assert x in multiset(sorted[..j]);
      assert multiset(sorted)[x] >= 2;
      var k :| 0 <= k < |found| && found[k] == x;
      RemoveAt(found, k);
      assert x in multiset(found[..k] + found[k + 1..]);
      var l :| 0 <= l < |found[..k] + found[k + 1..]| && (found[..k] + found[k + 1..])[l] == x;
      assert l < k ==> found[l].version == found[k].version;
      assert l >= k ==> found[l + 1].version == found[k].version;
    } else {
      var k :| 0 <= k < |found| && found[k] == x;
      var l :| 0 <= l < |found| && found[l] == y;
      assert k < l || l < k;
    }
  }
}
