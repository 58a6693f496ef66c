/** The registry document and its four atomic operations, as functions on values.
    The class FileRegistry.FileModelRegistry is proved against these. */
module Registry {
  import opened Wrappers
  import opened Domain

  datatype EventKind = ModelRegistered | LifecycleTransition | ModelRollback | ModelPromoted

  /** `otherVersion` is the metadata entry: `replaced_version` of a promotion, `from_version` of a
      rollback. As in the source, an event names a model by name and version only. */
  datatype AuditEvent = AuditEvent(
    kind: EventKind,
    modelName: string,
    modelVersion: string,
    previous: Stage,
    next: Stage,
    otherVersion: Option<string>
  )

  datatype Document = Document(models: seq<ModelVersion>, events: seq<AuditEvent>)

  const EMPTY := Document([], [])

  // ----- searching -----

  /** The two searches the operations make over one identity's records. */
  datatype Query = InProduction(key: string) | WithVersion(key: string, version: string)

  predicate Matches(q: Query, m: ModelVersion) {
    m.identity.Key() == q.key &&
    match q
    case InProduction(_) => m.stage == Production
    case WithVersion(_, version) => m.version == version
  }

  /** All matching positions, in increasing order. */
  function Indices(models: seq<ModelVersion>, q: Query): (r: seq<nat>)
    ensures forall i :: i in r <==> 0 <= i < |models| && Matches(q, models[i])
    ensures forall a :: 0 <= a < |r| ==> r[a] < |models| && Matches(q, models[r[a]])
    ensures forall a, b :: 0 <= a < b < |r| ==> r[a] < r[b]
  {
    hide Identity.Key;
    if models == [] then []
    else
      var n := |models| - 1;
      var before := Indices(models[..n], q);
      assert forall a :: 0 <= a < |before| ==> before[a] < n;
      if Matches(q, models[n]) then before + [n] else before
  }

  /** Position of the first record with the given reference. */
  function Locate(models: seq<ModelVersion>, ref: string): (r: Option<nat>)
    ensures r.Some? ==> r.value < |models| && models[r.value].Ref() == ref
    ensures forall j :: 0 <= j < (if r.Some? then r.value else |models|) ==> models[j].Ref() != ref
  {
    if models == [] then None
    else
      var n := |models| - 1;
      match Locate(models[..n], ref)
      case Some(i) => Some(i)
      case None => if models[n].Ref() == ref then Some(n) else None
  }

  // ----- operations -----

  predicate ArtifactsTrusted(m: ModelVersion) {
    m.artifacts != [] &&
    forall a :: a in m.artifacts ==> a.checksum.Some? && a.checksum.value != ""
  }

  function AtStage(m: ModelVersion, s: Stage): ModelVersion {
    m.(stage := s)
  }

  function Event(kind: EventKind, m: ModelVersion, previous: Stage, next: Stage, other: Option<string>): AuditEvent {
    AuditEvent(kind, m.identity.name, m.version, previous, next, other)
  }

  function Register(doc: Document, m: ModelVersion): Result<Document> {
    if !ArtifactsTrusted(m) then Err(ArtifactIntegrityError)
    else if Locate(doc.models, m.Ref()).Some? then Err(ModelVersionConflictError)
    else Ok(Document(
              doc.models + [AtStage(m, Registered)],
              doc.events + [Event(ModelRegistered, m, Created, Registered, None)]))
  }

  predicate OtherInProduction(models: seq<ModelVersion>, m: ModelVersion) {
    exists i :: 0 <= i < |models| && Matches(InProduction(m.identity.Key()), models[i]) && models[i].Ref() != m.Ref()
  }

  function Transition(doc: Document, ref: string, target: Stage): Result<Document> {
    match Locate(doc.models, ref)
    case None => Err(ModelNotFoundError)
    case Some(i) =>
      var current := doc.models[i];
      match ValidateTransition(current.stage, target)
      case Some(error) => Err(error)
      case None =>
        if target == Production && OtherInProduction(doc.models, current) then Err(ModelVersionConflictError)
        else Ok(Document(
                  doc.models[i := AtStage(current, target)],
                  doc.events + [Event(LifecycleTransition, current, current.stage, target, None)]))
  }

  /** Record `up` enters production while every record in `down` returns to champion. */
  function Swap(models: seq<ModelVersion>, up: nat, down: seq<nat>): (r: seq<ModelVersion>)
    ensures |r| == |models|
  {
    seq(|models|, i requires 0 <= i < |models| =>
      if i == up then AtStage(models[i], Production)
      else if i in down then AtStage(models[i], Champion)
      else models[i])
  }

  function Promote(doc: Document, ref: string): Result<Document> {
    match Locate(doc.models, ref)
    case None => Err(ModelNotFoundError)
    case Some(i) =>
      var target := doc.models[i];
      if target.stage != Champion then Err(ModelRegistryError)
      else
        var incumbents := Indices(doc.models, InProduction(target.identity.Key()));
        if |incumbents| > 1 then Err(ModelVersionConflictError)
        else
          var replaced := if incumbents == [] then None else Some(doc.models[incumbents[0]].version);
          Ok(Document(
               Swap(doc.models, i, incumbents),
               doc.events + [Event(ModelPromoted, target, Champion, Production, replaced)]))
  }

  function Rollback(doc: Document, identity: Identity, toVersion: string): Result<Document> {
    var current := Indices(doc.models, InProduction(identity.Key()));
    var target := Indices(doc.models, WithVersion(identity.Key(), toVersion));
    if |current| != 1 || |target| != 1 then Err(RollbackError)
    else
      var outgoing, incoming := doc.models[current[0]], doc.models[target[0]];
      if incoming.stage != Champion then Err(RollbackError)
      else Ok(Document(
                Swap(doc.models, target[0], current),
                // The recorded previous state is that of the outgoing model.
                doc.events + [Event(ModelRollback, incoming, outgoing.stage, Production, Some(outgoing.version))]))
  }

  /** The unique production record of an identity, as `production()` reports it. */
  function ProductionOf(doc: Document, key: string): Result<ModelVersion> {
    var found := Indices(doc.models, InProduction(key));
    if |found| != 1 then Err(ModelNotFoundError) else Ok(doc.models[found[0]])
  }

  function Get(doc: Document, ref: string): Result<ModelVersion> {
    match Locate(doc.models, ref)
    case None => Err(ModelNotFoundError)
    case Some(i) => Ok(doc.models[i])
  }

  // ----- one operation at a time -----

  datatype Op =
    | DoRegister(model: ModelVersion)
    | DoTransition(ref: string, target: Stage)
    | DoPromote(ref: string)
    | DoRollback(identity: Identity, toVersion: string)

  function Apply(doc: Document, op: Op): Result<Document> {
    match op
    case DoRegister(m) => Register(doc, m)
    case DoTransition(ref, target) => Transition(doc, ref, target)
    case DoPromote(ref) => Promote(doc, ref)
    case DoRollback(identity, toVersion) => Rollback(doc, identity, toVersion)
  }

  /** An operation that raises leaves the document as it was. */
  function Next(doc: Document, op: Op): Document {
    match Apply(doc, op)
    case Ok(next) => next
    case Err(_) => doc
  }

  /** The document after a sequence of operations, in which any operation may have raised. */
  function Run(ops: seq<Op>): Document {
    if ops == [] then EMPTY else Next(Run(ops[..|ops| - 1]), ops[|ops| - 1])
  }
}
