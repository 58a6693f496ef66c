/** Registry records, their string keys, and the lifecycle graph. */
module Domain {
  import opened Wrappers

  datatype Stage =
    | Created
    | Registered
    | Validated
    | Staging
    | Challenger
    | Champion
    | Production
    | Archived
    | Rejected
    | Retired

  datatype Family = Credit | Fraud

  function FamilyValue(f: Family): string {
    match f
    case Credit => "credit"
    case Fraud => "fraud"
  }

  datatype Identity = Identity(name: string, family: Family, environment: string) {
    /** Plain concatenation: injective only when the parts hold no separator (see KeyIsUnambiguous). */
    function Key(): string {
      FamilyValue(family) + ":" + name + ":" + environment
    }
  }

  datatype Artifact = Artifact(path: string, checksum: Option<string>)

  /** `details` stands for the descriptive fields that no modelled operation reads. */
  datatype ModelVersion = ModelVersion(
    identity: Identity,
    version: string,
    stage: Stage,
    metrics: map<string, real>,
    artifacts: seq<Artifact>,
    parentVersion: Option<string>,
    details: string
  ) {
    function Ref(): string {
      identity.Key() + "@" + version
    }
  }

  // ----- lifecycle graph -----

  function AllowedTransitions(s: Stage): set<Stage> {
    match s
    case Created => {Registered, Rejected}
    case Registered => {Validated, Rejected, Archived}
    case Validated => {Stage.Staging, Rejected, Archived}
    case Staging => {Challenger, Archived, Rejected}
    case Challenger => {Champion, Stage.Staging, Archived}
    case Champion => {Production, Challenger, Archived}
    case Production => {Champion, Retired, Archived}
    case Archived => {}
    case Rejected => {}
    case Retired => {}
  }

  predicate CanTransition(current: Stage, target: Stage) {
    target in AllowedTransitions(current)
  }

  predicate IsTerminal(s: Stage) {
    |AllowedTransitions(s)| == 0
  }

  function ValidateTransition(current: Stage, target: Stage): Option<Error> {
    if current == target then Some(InvalidLifecycleTransitionError)
    else if !CanTransition(current, target) then Some(InvalidLifecycleTransitionError)
    else None
  }

  /** Position on the road to production; stages off that road have no rank. */
  function Rank(s: Stage): Option<nat> {
    match s
    case Registered => Some(0)
    case Validated => Some(1)
    case Staging => Some(2)
    case Challenger => Some(3)
    case Champion => Some(4)
    case Production => Some(5)
    case Created => None
    case Archived => None
    case Rejected => None
    case Retired => None
  }

  /** No legal transition climbs more than one rank, and terminal stages have no way out. */
  lemma TransitionsClimbOneRank(current: Stage, target: Stage)
    requires ValidateTransition(current, target).None?
    ensures !IsTerminal(current)
    ensures current != Created && Rank(target).Some? ==>
              Rank(current).Some? && Rank(target).value <= Rank(current).value + 1
    ensures target == Registered ==> current == Created
  {
    assert target in AllowedTransitions(current);
  }

  /** The lifecycle graph, by rank: creation leads to registration; ranked stages climb one rank, and step back
      one from challenger on; any of them may be archived, those up to staging rejected, production retired. */
  lemma GraphIsExact(current: Stage, target: Stage)
    ensures ValidateTransition(current, target).None? <==>
              || (current == Created && target == Registered)
              || (Rank(current).Some? && Rank(target).Some?
                  && (Rank(target).value == Rank(current).value + 1
                      || (Rank(target).value + 1 == Rank(current).value && Rank(current).value >= 3)))
              || (Rank(current).Some? && target == Archived)
              || ((current == Created || (Rank(current).Some? && Rank(current).value <= 2)) && target == Rejected)
              || (current == Production && target == Retired)
    ensures ValidateTransition(current, target).Some? ==>
              ValidateTransition(current, target) == Some(InvalidLifecycleTransitionError)
    ensures IsTerminal(current) <==> current in {Archived, Rejected, Retired}
  {
    if current !in {Archived, Rejected, Retired} {
      assert Archived in AllowedTransitions(current) || Registered in AllowedTransitions(current);
    }
  }

  // ----- when a key names one identity -----

  /** A key starts with its family. */
  lemma FamilyLeadsKey(i: Identity)
    ensures "credit:" <= i.Key() <==> i.family == Credit
    ensures "fraud:" <= i.Key() <==> i.family == Fraud
  {
    var f := FamilyValue(i.family);
    assert f + ":" <= i.Key();
    assert i.Key()[0] == f[0];
  }

  predicate SeparatorFree(s: string) {
    ':' !in s
  }

  /** An identity whose parts hold a ':' shares its key with a different identity. */
  lemma KeyCollision(i: Identity) returns (j: Identity)
    requires !SeparatorFree(i.name) || !SeparatorFree(i.environment)
    ensures j != i && j.Key() == i.Key()
  {
    var f := FamilyValue(i.family);
    if !SeparatorFree(i.name) {
      var k :| 0 <= k < |i.name| && i.name[k] == ':';
      j := Identity(i.name[..k], i.family, i.name[k + 1..] + ":" + i.environment);
      assert |j.name| < |i.name|;
      assert i.name == i.name[..k] + ":" + i.name[k + 1..];
      assert j.Key() == i.Key();
    } else {
      var k :| 0 <= k < |i.environment| && i.environment[k] == ':';
      j := Identity(i.name + ":" + i.environment[..k], i.family, i.environment[k + 1..]);
      assert |j.name| > |i.name|;
      assert i.environment == i.environment[..k] + ":" + i.environment[k + 1..];
      assert j.Key() == i.Key();
    }
  }

  /** If the parts of `i` hold no ':', no other identity has the key of `i`. */
  lemma SeparatorFreeKeyIsUnique(i: Identity, j: Identity)
    requires SeparatorFree(i.name) && SeparatorFree(i.environment)
    requires i.Key() == j.Key()
    ensures i == j
  {
    var fi, fj := FamilyValue(i.family), FamilyValue(j.family);
    assert i.Key()[0] == fi[0] && j.Key()[0] == fj[0];
    assert i.family == j.family;
    var restI, restJ := i.name + ":" + i.environment, j.name + ":" + j.environment;
    assert restI == i.Key()[|fi| + 1..] && restJ == j.Key()[|fj| + 1..];
    var k := |j.name|;
    assert restJ[k] == ':';
    assert restI[k] in i.name + i.environment || k == |i.name|;
    assert i.name == restI[..|i.name|] && j.name == restJ[..|j.name|];
    assert i.environment == restI[|i.name| + 1..] && j.environment == restJ[|j.name| + 1..];
  }

  /** Exactly when a key determines its identity: neither free-text part holds the separator. */
  lemma KeyIsUnambiguous(i: Identity)
    ensures (forall j: Identity :: j.Key() == i.Key() ==> j == i)
       <==> (SeparatorFree(i.name) && SeparatorFree(i.environment))
  {
    if SeparatorFree(i.name) && SeparatorFree(i.environment) {
      forall j: Identity | j.Key() == i.Key() ensures j == i {
        SeparatorFreeKeyIsUnique(i, j);
      }
    } else {
      var j := KeyCollision(i);
    }
  }

  // ----- when a reference names one version -----

  function RefOf(i: Identity, version: string): string {
    i.Key() + "@" + version
  }

  predicate RefSafe(i: Identity, version: string) {
    SeparatorFree(i.name) && SeparatorFree(i.environment) && '@' !in i.environment && '@' !in version
  }

  /** An environment or a version with an '@' shares its reference with another identity and version. */
  lemma RefCollision(i: Identity, version: string) returns (j: Identity, other: string)
    requires '@' in i.environment || '@' in version
    ensures j != i && RefOf(j, other) == RefOf(i, version)
  {
    var head := FamilyValue(i.family) + ":" + i.name + ":";
    if '@' in i.environment {
      var k :| 0 <= k < |i.environment| && i.environment[k] == '@';
      j, other := i.(environment := i.environment[..k]), i.environment[k + 1..] + "@" + version;
      assert |j.environment| < |i.environment|;
      assert i.environment == i.environment[..k] + "@" + i.environment[k + 1..];
      assert RefOf(i, version) == head + i.environment[..k] + "@" + i.environment[k + 1..] + "@" + version;
      assert RefOf(j, other) == head + i.environment[..k] + "@" + (i.environment[k + 1..] + "@" + version);
    } else {
      var k :| 0 <= k < |version| && version[k] == '@';
      j, other := i.(environment := i.environment + "@" + version[..k]), version[k + 1..];
      assert |j.environment| > |i.environment|;
      assert version == version[..k] + "@" + version[k + 1..];
      assert RefOf(i, version) == head + i.environment + "@" + (version[..k] + "@" + version[k + 1..]);
      assert RefOf(j, other) == head + (i.environment + "@" + version[..k]) + "@" + version[k + 1..];
    }
  }

  /** The text of a reference after its family. */
  function Tail(i: Identity, version: string): string {
    i.name + ":" + i.environment + "@" + version
  }

  lemma SafeTailIsUnique(i: Identity, version: string, j: Identity, other: string)
    requires RefSafe(i, version) && Tail(i, version) == Tail(j, other)
    ensures i.name == j.name && i.environment == j.environment && version == other
  {
    var t := Tail(i, version);
    var colon, at := |i.name|, |i.name| + 1 + |i.environment|;
    var p, q := |j.name|, |j.name| + 1 + |j.environment|;
    assert Tail(j, other)[p] == ':' && Tail(j, other)[q] == '@';
    forall k | 0 <= k < colon ensures t[k] != ':' {
      assert t[k] == i.name[k];
    }
    forall k | colon < k < at ensures t[k] != ':' && t[k] != '@' {
      assert t[k] == i.environment[k - colon - 1];
    }
    forall k | at < k < |t| ensures t[k] != '@' {
      assert t[k] == version[k - at - 1];
    }
    assert p == colon && q == at;
    assert i.name == t[..colon] && i.environment == t[colon + 1..at] && version == t[at + 1..];
    var u := Tail(j, other);
    assert j.name == u[..p] && j.environment == u[p + 1..q] && other == u[q + 1..];
  }

  /** Exactly when a reference determines identity and version: no ':' in name or environment, no '@' in
      environment or version. */
  lemma RefIsUnambiguous(i: Identity, version: string)
    ensures (forall j: Identity, other :: RefOf(j, other) == RefOf(i, version) ==> j == i && other == version)
       <==> RefSafe(i, version)
  {
    if RefSafe(i, version) {
      forall j: Identity, other | RefOf(j, other) == RefOf(i, version) ensures j == i && other == version {
        SafeRefIsUnique(i, version, j, other);
      }
    } else if !SeparatorFree(i.name) || !SeparatorFree(i.environment) {
      var j := KeyCollision(i);
      assert RefOf(j, version) == RefOf(i, version);
    } else {
      var j, other := RefCollision(i, version);
    }
  }

  lemma SafeRefIsUnique(i: Identity, version: string, j: Identity, other: string)
    requires RefSafe(i, version) && RefOf(j, other) == RefOf(i, version)
    ensures j == i && other == version
  {
    var fi, fj := FamilyValue(i.family), FamilyValue(j.family);
    var ri, rj := RefOf(i, version), RefOf(j, other);
    assert ri[0] == fi[0] && rj[0] == fj[0];
    assert i.family == j.family;
    assert ri[|fi| + 1..] == Tail(i, version) && rj[|fj| + 1..] == Tail(j, other);
    SafeTailIsUnique(i, version, j, other);
  }
}
