/** The registry object: read the stored document, check, change a copy, append an audit event, write back.
    A call holds the object's lock from read to write, so each method is one atomic step. */
module FileRegistry {
  import opened Wrappers
  import opened Domain
  import opened Registry
  import opened RegistryInvariants

  const SCHEMA_VERSION := 1

  /** What the registry path holds: nothing, bytes that are no JSON document, or a versioned document. */
  datatype FileContent = Missing | Unreadable | Json(schemaVersion: int, doc: Document)

  function Read(file: FileContent): Result<Document> {
    match file
    case Missing => Ok(EMPTY)
    case Unreadable => Err(ModelRegistryError)
    case Json(version, doc) => if version != SCHEMA_VERSION then Err(ModelRegistryError) else Ok(doc)
  }

  /** The stored content after one call, and the error it raises if any. Artifacts are validated before
      the file is read; `diskOk` says whether the operating system accepts the write. */
  function Outcome(file: FileContent, op: Op, diskOk: bool): (FileContent, Option<Error>) {
    if op.DoRegister? && !ArtifactsTrusted(op.model) then (file, Some(ArtifactIntegrityError))
    else match Read(file)
      case Err(error) => (file, Some(error))
      case Ok(doc) =>
        match Apply(doc, op)
        case Err(error) => (file, Some(error))
        case Ok(next) => if diskOk then (Json(SCHEMA_VERSION, next), None) else (file, Some(ModelRegistryError))
  }

  ghost predicate Sound(file: FileContent) {
    Read(file).Ok? ==> Inv(Read(file).value)
  }

  class FileModelRegistry {
    var file: FileContent

    ghost predicate Valid()
      reads this
    {
      Sound(file)
    }

    /** What a call leaves behind and answers: the new content, the error, or the record now stored under `ref`. */
    ghost predicate Answers(before: FileContent, op: Op, diskOk: bool, ref: string, r: Result<ModelVersion>)
      reads this
    {
      var (after, error) := Outcome(before, op, diskOk);
      && file == after
      && (error.Some? ==> r == Err(error.value))
      && (error.None? ==> Read(file).Ok? && r == Get(Read(file).value, ref))
    }

    constructor (content: FileContent)
      ensures file == content
    {
      file := content;
    }

    method Register(model: ModelVersion, diskOk: bool) returns (r: Result<ModelVersion>)
      modifies this
      ensures Answers(old(file), DoRegister(model), diskOk, model.Ref(), r)
      ensures old(Valid()) ==> Valid()
      ensures r.Ok? ==> r.value == AtStage(model, Registered)
    {
      hide Identity.Key, Inv, Locate, Indices;
      if !ArtifactsTrusted(model) {
        return Err(ArtifactIntegrityError);
      }
      var state := Read(file);
      if state.Err? {
        return Err(state.error);
      }
      var doc := state.value;
      var existing := FindRef(doc.models, model.Ref());
      if existing.Some? {
        return Err(ModelVersionConflictError);
      }
      var registered := model.(stage := Registered);
      var models := doc.models + [registered];
      var events := doc.events +
        [AuditEvent(ModelRegistered, model.identity.name, model.version, Created, Registered, None)];
      ghost var next := Next(doc, DoRegister(model));
      KeepsInv(doc, DoRegister(model));
      assert Document(models, events) == next;
      var written := Write(models, events, diskOk);
      if !written {
        return Err(ModelRegistryError);
      }
      assert models[|doc.models|].Ref() == model.Ref();
      assert Locate(models, model.Ref()) == Some(|doc.models|);
      r := Ok(registered);
    }

    method Transition(ref: string, target: Stage, diskOk: bool) returns (r: Result<ModelVersion>)
      modifies this
      ensures Answers(old(file), DoTransition(ref, target), diskOk, ref, r)
      ensures old(Valid()) ==> Valid()
    {
      hide Identity.Key, ModelVersion.Ref, Inv, Locate, Indices;
      var state := Read(file);
      if state.Err? {
        return Err(state.error);
      }
      var doc := state.value;
      var found := FindRef(doc.models, ref);
      if found.None? {
        return Err(ModelNotFoundError);
      }
      var index := found.value;
      var current := doc.models[index];
      var illegal := ValidateTransition(current.stage, target);
      if illegal.Some? {
        return Err(illegal.value);
      }
      if target == Production {
        var taken := OtherProductionExists(doc.models, current);
        if taken {
          return Err(ModelVersionConflictError);
        }
      }
      var updated := current.(stage := target);
      var models := doc.models[index := updated];
      var events := doc.events +
        [AuditEvent(LifecycleTransition, updated.identity.name, updated.version, current.stage, target, None)];
      KeepsInv(doc, DoTransition(ref, target));
      assert Document(models, events) == Next(doc, DoTransition(ref, target));
      var written := Write(models, events, diskOk);
      if !written {
        return Err(ModelRegistryError);
      }
      SameRefs(doc.models, models, ref);
      r := Ok(updated);
    }

    method PromoteToProduction(ref: string, diskOk: bool) returns (r: Result<ModelVersion>)
      modifies this
      ensures Answers(old(file), DoPromote(ref), diskOk, ref, r)
      ensures old(Valid()) ==> Valid()
    {
      hide Identity.Key, ModelVersion.Ref, Inv, Locate, Indices;
      var state := Read(file);
      if state.Err? {
        return Err(state.error);
      }
      var doc := state.value;
      var found := FindRef(doc.models, ref);
      if found.None? {
        return Err(ModelNotFoundError);
      }
      var index := found.value;
      var target := doc.models[index];
      if target.stage != Champion {
        return Err(ModelRegistryError);
      }
      var incumbents := FindAll(doc.models, InProduction(target.identity.Key()));
      if |incumbents| > 1 {
        return Err(ModelVersionConflictError);
      }
      var models := doc.models;
      var replaced: Option<string> := None;
      if incumbents != [] {
        var incumbent := models[incumbents[0]];
        models := models[incumbents[0] := incumbent.(stage := Champion)];
        replaced := Some(incumbent.version);
      }
      var promoted := target.(stage := Production);
      models := models[index := promoted];
      var events := doc.events +
        [AuditEvent(ModelPromoted, promoted.identity.name, promoted.version, target.stage, Production, replaced)];
      KeepsInv(doc, DoPromote(ref));
      SwapByUpdates(doc.models, models, index, incumbents);
      assert Document(models, events) == Next(doc, DoPromote(ref));
      var written := Write(models, events, diskOk);
      if !written {
        return Err(ModelRegistryError);
      }
      SameRefs(doc.models, models, ref);
      r := Ok(promoted);
    }

    method Rollback(identity: Identity, toVersion: string, diskOk: bool) returns (r: Result<ModelVersion>)
      modifies this
      ensures (file, if r.Ok? then None else Some(r.error))
          == Outcome(old(file), DoRollback(identity, toVersion), diskOk)
      ensures old(Valid()) ==> Valid()
      ensures r.Ok? ==> Read(file).Ok? && r.value in Read(file).value.models
                        && Matches(WithVersion(identity.Key(), toVersion), r.value) && r.value.stage == Production
    {
      hide Identity.Key, ModelVersion.Ref, Inv, Locate, Indices;
      var state := Read(file);
      if state.Err? {
        return Err(state.error);
      }
      var doc := state.value;
      var current := FindAll(doc.models, InProduction(identity.Key()));
      var target := FindAll(doc.models, WithVersion(identity.Key(), toVersion));
      if |current| != 1 || |target| != 1 {
        return Err(RollbackError);
      }
      var currentModel, targetModel := doc.models[current[0]], doc.models[target[0]];
      if targetModel.stage != Champion {
        return Err(RollbackError);
      }
      var promoted := targetModel.(stage := Production);
      var models := doc.models[current[0] := currentModel.(stage := Champion)][target[0] := promoted];
      var events := doc.events +
        [AuditEvent(ModelRollback, promoted.identity.name, promoted.version, currentModel.stage, Production,
                    Some(currentModel.version))];
      KeepsInv(doc, DoRollback(identity, toVersion));
      SwapByUpdates(doc.models, models, target[0], current);
      assert Document(models, events) == Next(doc, DoRollback(identity, toVersion));
      var written := Write(models, events, diskOk);
      if !written {
        return Err(ModelRegistryError);
      }
      assert models[target[0]] == promoted;
      r := Ok(promoted);
    }

    method GetModel(ref: string) returns (r: Result<ModelVersion>)
      ensures r == match Read(file) case Err(error) => Err(error) case Ok(doc) => Get(doc, ref)
    {
      var state := Read(file);
      if state.Err? {
        return Err(state.error);
      }
      var found := FindRef(state.value.models, ref);
      r := if found.None? then Err(ModelNotFoundError) else Ok(state.value.models[found.value]);
    }

    method ProductionModel(identity: Identity) returns (r: Result<ModelVersion>)
      ensures r == match Read(file) case Err(error) => Err(error) case Ok(doc) => ProductionOf(doc, identity.Key())
    {
      var state := Read(file);
      if state.Err? {
        return Err(state.error);
      }
      var found := FindAll(state.value.models, InProduction(identity.Key()));
      r := if |found| != 1 then Err(ModelNotFoundError) else Ok(state.value.models[found[0]]);
    }

    /** Replaces the stored document, or leaves it untouched when the operating system refuses. */
    method Write(models: seq<ModelVersion>, events: seq<AuditEvent>, diskOk: bool) returns (written: bool)
      modifies this
      ensures written == diskOk
      ensures file == if diskOk then Json(SCHEMA_VERSION, Document(models, events)) else old(file)
    {
      if diskOk {
        file := Json(SCHEMA_VERSION, Document(models, events));
      }
      written := diskOk;
    }
  }

  // ----- searches -----

  method FindRef(models: seq<ModelVersion>, ref: string) returns (r: Option<nat>)
    ensures r == Locate(models, ref)
  {
    for i := 0 to |models|
      invariant forall j :: 0 <= j < i ==> models[j].Ref() != ref
    {
      if models[i].Ref() == ref {
        return Some(i);
      }
    }
    r := None;
  }

  method FindAll(models: seq<ModelVersion>, q: Query) returns (r: seq<nat>)
    ensures r == Indices(models, q)
  {
    r := [];
    for i := 0 to |models|
      invariant r == Indices(models[..i], q)
    {
      assert models[..i + 1][..i] == models[..i];
      if Matches(q, models[i]) {
        r := r + [i];
      }
    }
    assert models[..|models|] == models;
  }

  method OtherProductionExists(models: seq<ModelVersion>, candidate: ModelVersion) returns (r: bool)
    ensures r == OtherInProduction(models, candidate)
  {
    var q := InProduction(candidate.identity.Key());
    for i := 0 to |models|
      invariant forall j :: 0 <= j < i ==> !(Matches(q, models[j]) && models[j].Ref() != candidate.Ref())
    {
      if Matches(q, models[i]) && models[i].Ref() != candidate.Ref() {
        return true;
      }
    }
    r := false;
  }

  // ----- proof steps shared by the methods -----

  lemma KeepsInv(doc: Document, op: Op)
    ensures Inv(doc) ==> Inv(Next(doc, op))
  {
    if Inv(doc) {
      NextKeepsInv(doc, op);
    }
  }

  lemma SameRefs(before: seq<ModelVersion>, after: seq<ModelVersion>, ref: string)
    requires |before| == |after|
    requires forall i :: 0 <= i < |before| ==> after[i] == AtStage(before[i], after[i].stage)
    ensures Locate(after, ref) == Locate(before, ref)
  {
    assert forall i :: 0 <= i < |before| ==> after[i].Ref() == before[i].Ref();
  }

  lemma SwapByUpdates(before: seq<ModelVersion>, after: seq<ModelVersion>, up: nat, down: seq<nat>)
    requires up < |before| && |down| <= 1 && (down != [] ==> down[0] < |before|)
    requires down == [] ==> after == before[up := AtStage(before[up], Production)]
    requires down != [] ==>
               after == before[down[0] := AtStage(before[down[0]], Champion)][up := AtStage(before[up], Production)]
    ensures after == Swap(before, up, down)
  {
    assert down == [] || down == [down[0]];
  }

  /** A call that raises, or whose write is refused, leaves the stored content as it was; a call that
      succeeds stores exactly the document of the specification, with one more audit event. */
  lemma FailedCallChangesNothing(file: FileContent, op: Op, diskOk: bool)
    ensures var (after, error) := Outcome(file, op, diskOk);
            && (error.Some? ==> after == file)
            && (error.None? ==>
                  && Read(file).Ok? && Read(after).Ok?
                  && Apply(Read(file).value, op) == Ok(Read(after).value)
                  && Appended(Read(file).value.events, Read(after).value.events))
  {
    if Read(file).Ok? {
      StepFrame(Read(file).value, op);
    }
  }

  /** Stored content that cannot be read, or has another schema version, makes every call fail and is never
      overwritten. */
  lemma UnreadableIsKept(file: FileContent, op: Op, diskOk: bool)
    requires file.Unreadable? || (file.Json? && file.schemaVersion != SCHEMA_VERSION)
    ensures Outcome(file, op, diskOk).0 == file
    ensures Outcome(file, op, diskOk).1 ==
              Some(if op.DoRegister? && !ArtifactsTrusted(op.model) then ArtifactIntegrityError else ModelRegistryError)
  {
  }

  /** A missing file is an empty registry, and a refused write is reported as a registry error. */
  lemma MissingIsEmpty(op: Op)
    ensures Apply(EMPTY, op).Ok? <==> Outcome(Missing, op, true).1 == None
    ensures Apply(EMPTY, op).Ok? ==> Outcome(Missing, op, false) == (Missing, Some(ModelRegistryError))
    ensures Apply(EMPTY, op).Err? ==> Outcome(Missing, op, true) == (Missing, Some(Apply(EMPTY, op).error))
  {
    hide Transition, Promote, Rollback;
  }
}
