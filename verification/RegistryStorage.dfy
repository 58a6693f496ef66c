/** The write path of the registry file under crashes: temporary file, flush, fsync, atomic replace. */
module RegistryStorage {
  import opened Wrappers
  import opened Domain
  import opened Registry
  import opened RegistryInvariants
  import opened FileRegistry

  /** Encoding to and decoding from file contents, of which only the round trip is assumed. The unit B of
      storage is left open: records hold real numbers, which no finite alphabet can spell out. */
  datatype Codec<!B> = Codec(encode: Document -> seq<B>, decode: seq<B> -> FileContent)

  ghost predicate RoundTrips<B>(codec: Codec<B>) {
    forall d :: codec.decode(codec.encode(d)) == Json(SCHEMA_VERSION, d)
  }

  /** Such codecs exist: one storage unit may hold a whole document. */
  lemma RoundTripExists()
    ensures exists codec: Codec<Document> :: RoundTrips(codec)
  {
    var codec := Codec(
      (d: Document) => [d],
      (text: seq<Document>) => if |text| == 1 then Json(SCHEMA_VERSION, text[0]) else Unreadable);
    assert RoundTrips(codec);
  }

  /** A file's bytes as the operating system serves them; unless `synced`, a power loss may leave other bytes. */
  datatype Inode<B> = Inode(bytes: seq<B>, synced: bool)

  datatype Writer<B> = Idle | Writing(op: Op, text: seq<B>, flushed: nat)

  /** `entries` holds what the registry path has pointed to since the last recovery, the last entry being
      the current one: the directory itself is never synced, so a power loss may restore any of them.
      `committed` (a history variable) lists the operations replaced into place; entry j holds the
      document after the first `base + j` of them. */
  datatype Machine<B> = Machine(
    entries: seq<Option<Inode<B>>>,
    temp: Option<Inode<B>>,
    writer: Writer<B>,
    base: nat,
    committed: seq<Op>
  )

  datatype Step<B> =
    | Begin(op: Op)
    | WriteMore(count: nat)
    | Fsync
    | Replace
    | FailWrite
    | ProcessCrash
    | PowerLoss(restored: nat, survivor: Option<seq<B>>)

  function Entry<B>(m: Machine<B>): Option<Inode<B>>
    requires m.entries != []
  {
    m.entries[|m.entries| - 1]
  }

  function Contents<B>(codec: Codec<B>, entry: Option<Inode<B>>): FileContent {
    match entry
    case None => Missing
    case Some(inode) => codec.decode(inode.bytes)
  }

  /** What any reader of the registry path sees now. */
  function Visible<B>(codec: Codec<B>, m: Machine<B>): FileContent
    requires m.entries != []
  {
    Contents(codec, Entry(m))
  }

  ghost predicate CanSurvive<B>(entry: Option<Inode<B>>, survivor: Option<seq<B>>) {
    match entry
    case None => survivor == None
    case Some(inode) => survivor.Some? && (inode.synced ==> survivor.value == inode.bytes)
  }

  ghost predicate Enabled<B>(codec: Codec<B>, m: Machine<B>, s: Step<B>)
    requires m.entries != []
  {
    match s
    case Begin(op) =>
      m.writer.Idle? && Read(Visible(codec, m)).Ok? && Apply(Read(Visible(codec, m)).value, op).Ok?
    case WriteMore(count) =>
      m.writer.Writing? && m.temp.Some? && !m.temp.value.synced && m.writer.flushed + count <= |m.writer.text|
    case Fsync => m.writer.Writing? && m.temp.Some? && m.writer.flushed == |m.writer.text|
    case Replace => m.writer.Writing? && m.temp.Some? && m.temp.value.synced
    case FailWrite => m.writer.Writing?
    case ProcessCrash => true
    case PowerLoss(restored, survivor) => restored < |m.entries| && CanSurvive(m.entries[restored], survivor)
  }

  /** One step; a step that is not enabled changes nothing. */
  ghost function StepOf<B>(codec: Codec<B>, m: Machine<B>, s: Step<B>): (next: Machine<B>)
    requires m.entries != []
    ensures next.entries != []
  {
    if !Enabled(codec, m, s) then m
    else match s
      case Begin(op) =>
        var doc := Apply(Read(Visible(codec, m)).value, op).value;
        m.(temp := Some(Inode([], false)), writer := Writing(op, codec.encode(doc), 0))
      case WriteMore(count) =>
        var flushed := m.writer.flushed + count;
        m.(temp := Some(Inode(m.writer.text[..flushed], false)), writer := m.writer.(flushed := flushed))
      case Fsync => m.(temp := Some(m.temp.value.(synced := true)))
      case Replace =>
        m.(entries := m.entries + [m.temp], temp := None, writer := Idle, committed := m.committed + [m.writer.op])
      case FailWrite => m.(temp := None, writer := Idle)
      case ProcessCrash => m.(writer := Idle)
      case PowerLoss(restored, survivor) =>
        var entry := if survivor.None? then None else Some(Inode(survivor.value, true));
        var kept := if m.base + restored <= |m.committed| then m.base + restored else |m.committed|;
        Machine([entry], None, Idle, kept, m.committed[..kept])
  }

  ghost function Execute<B>(codec: Codec<B>, steps: seq<Step<B>>): (m: Machine<B>)
    ensures m.entries != []
  {
    if steps == [] then Machine([None], None, Idle, 0, [])
    else StepOf(codec, Execute(codec, steps[..|steps| - 1]), steps[|steps| - 1])
  }

  // ----- the invariant -----

  ghost predicate Holds<B>(codec: Codec<B>, entry: Option<Inode<B>>, doc: Document) {
    match entry
    case None => doc == EMPTY
    case Some(inode) => inode.synced && inode.bytes == codec.encode(doc)
  }

  ghost predicate Consistent<B>(codec: Codec<B>, m: Machine<B>) {
    && m.entries != []
    && m.base + |m.entries| == |m.committed| + 1
    && (forall j :: 0 <= j < |m.entries| ==> Holds(codec, m.entries[j], Run(m.committed[..m.base + j])))
    && (m.writer.Writing? ==>
          && m.temp.Some? && m.writer.flushed <= |m.writer.text|
          && m.temp.value.bytes == m.writer.text[..m.writer.flushed]
          && (m.temp.value.synced ==> m.writer.flushed == |m.writer.text|)
          && Apply(Run(m.committed), m.writer.op).Ok?
          && m.writer.text == codec.encode(Next(Run(m.committed), m.writer.op)))
  }

  lemma ConsistentEntry<B>(codec: Codec<B>, m: Machine<B>)
    requires RoundTrips(codec) && Consistent(codec, m)
    ensures Read(Visible(codec, m)) == Ok(Run(m.committed))
  {
    assert m.committed[..m.base + |m.entries| - 1] == m.committed;
    assert Holds(codec, Entry(m), Run(m.committed));
  }

  lemma ReplaceIsConsistent<B>(codec: Codec<B>, m: Machine<B>)
    requires RoundTrips(codec) && Consistent(codec, m) && Enabled(codec, m, Replace)
    ensures Consistent(codec, StepOf(codec, m, Replace))
  {
    hide Apply;
    var next := StepOf(codec, m, Replace);
    assert m.writer.text[..|m.writer.text|] == m.writer.text;
    forall j | 0 <= j < |next.entries| ensures Holds(codec, next.entries[j], Run(next.committed[..next.base + j])) {
      if j < |m.entries| {
        assert next.committed[..m.base + j] == m.committed[..m.base + j];
      } else {
        assert next.committed[..next.base + j] == next.committed;
        assert next.committed[..|m.committed|] == m.committed;
      }
    }
  }

  lemma PowerLossIsConsistent<B>(codec: Codec<B>, m: Machine<B>, restored: nat, survivor: Option<seq<B>>)
    requires RoundTrips(codec) && Consistent(codec, m) && Enabled(codec, m, PowerLoss(restored, survivor))
    ensures var next := StepOf(codec, m, PowerLoss(restored, survivor));
            && Consistent(codec, next)
            && next.committed == m.committed[..m.base + restored]
  {
    hide Apply;
    var next := StepOf(codec, m, PowerLoss(restored, survivor));
    assert next.committed[..next.base] == m.committed[..m.base + restored];
    assert Holds(codec, m.entries[restored], Run(m.committed[..m.base + restored]));
  }

  lemma WriterStepIsConsistent<B>(codec: Codec<B>, m: Machine<B>, s: Step<B>)
    requires RoundTrips(codec) && Consistent(codec, m) && Enabled(codec, m, s)
    requires !s.PowerLoss? && !s.Replace?
    ensures Consistent(codec, StepOf(codec, m, s))
  {
    hide Apply, Holds;
    if s.Begin? {
      ConsistentEntry(codec, m);
    }
  }

  lemma StepIsConsistent<B>(codec: Codec<B>, m: Machine<B>, s: Step<B>)
    requires RoundTrips(codec) && Consistent(codec, m)
    ensures Consistent(codec, StepOf(codec, m, s))
  {
    if !Enabled(codec, m, s) {
    } else if s.Replace? {
      ReplaceIsConsistent(codec, m);
    } else if s.PowerLoss? {
      PowerLossIsConsistent(codec, m, s.restored, s.survivor);
    } else {
      WriterStepIsConsistent(codec, m, s);
    }
  }

  lemma {:induction false} ExecutionIsConsistent<B>(codec: Codec<B>, steps: seq<Step<B>>)
    requires RoundTrips(codec)
    ensures Consistent(codec, Execute(codec, steps))
  {
    if steps != [] {
      ExecutionIsConsistent(codec, steps[..|steps| - 1]);
      StepIsConsistent(codec, Execute(codec, steps[..|steps| - 1]), steps[|steps| - 1]);
    } else {
      assert Run([]) == EMPTY;
    }
  }

  // ----- what readers and recoveries see -----

  /** At every point of every execution, with any crashes and failures, the registry path reads as the
      complete document of a run of the atomic registry, which satisfies the registry invariant. */
  lemma VisibleRegistryIsAtomic<B>(codec: Codec<B>, steps: seq<Step<B>>)
    requires RoundTrips(codec)
    ensures var m := Execute(codec, steps);
            && Read(Visible(codec, m)) == Ok(Run(m.committed))
            && Sound(Visible(codec, m))
  {
    ExecutionIsConsistent(codec, steps);
    ConsistentEntry(codec, Execute(codec, steps));
    RunKeepsInv(Execute(codec, steps).committed);
  }

  /** Only the replace step changes what readers see, from the complete state before one successful
      operation to the complete state after it; a process crash or a failed write changes nothing. */
  lemma OnlyReplaceIsVisible<B>(codec: Codec<B>, steps: seq<Step<B>>, s: Step<B>)
    requires RoundTrips(codec) && !s.PowerLoss?
    ensures var m, next := Execute(codec, steps), StepOf(codec, Execute(codec, steps), s);
            if s.Replace? && Enabled(codec, m, s)
            then && next.committed == m.committed + [m.writer.op]
                 && Read(Visible(codec, m)).Ok?
                 && Apply(Read(Visible(codec, m)).value, m.writer.op) == Read(Visible(codec, next))
            else Visible(codec, next) == Visible(codec, m) && next.committed == m.committed
  {
    hide Apply, Consistent;
    var m := Execute(codec, steps);
    ExecutionIsConsistent(codec, steps);
    ConsistentEntry(codec, m);
    if s.Replace? && Enabled(codec, m, s) {
      StepIsConsistent(codec, m, s);
      ConsistentEntry(codec, StepOf(codec, m, s));
      assert (m.committed + [m.writer.op])[..|m.committed|] == m.committed;
    } else {
      OtherStepsAreInvisible(codec, m, s);
    }
  }

  lemma OtherStepsAreInvisible<B>(codec: Codec<B>, m: Machine<B>, s: Step<B>)
    requires m.entries != [] && !s.PowerLoss? && !(s.Replace? && Enabled(codec, m, s))
    ensures StepOf(codec, m, s).entries == m.entries && StepOf(codec, m, s).committed == m.committed
  {
    hide Apply, Visible;
  }

  /** Whatever a power loss restores is a complete document too: the state after some prefix of the
      committed operations, never a torn one. */
  lemma PowerLossRestoresAPrefix<B>(codec: Codec<B>, steps: seq<Step<B>>, restored: nat, survivor: Option<seq<B>>)
    requires RoundTrips(codec)
    requires Enabled(codec, Execute(codec, steps), PowerLoss(restored, survivor))
    ensures var m := Execute(codec, steps);
            var after := StepOf(codec, m, PowerLoss(restored, survivor));
            && after.committed <= m.committed
            && |after.committed| == m.base + restored
            && Read(Visible(codec, after)) == Ok(Run(after.committed))
  {
    ExecutionIsConsistent(codec, steps);
    PowerLossIsConsistent(codec, Execute(codec, steps), restored, survivor);
    ConsistentEntry(codec, StepOf(codec, Execute(codec, steps), PowerLoss(restored, survivor)));
  }

  /** However a write ends, the next one may begin with any operation the readable registry accepts; a write
      that ends in order removes its temporary file, and one cut off by a process crash leaves it as it was. */
  lemma EveryEndFreesTheWriter<B>(codec: Codec<B>, steps: seq<Step<B>>, s: Step<B>, op: Op)
    requires RoundTrips(codec) && Enabled(codec, Execute(codec, steps), s)
    requires s.Replace? || s.FailWrite? || s.ProcessCrash? || s.PowerLoss?
    ensures var m, next := Execute(codec, steps), StepOf(codec, Execute(codec, steps), s);
            && next.writer.Idle?
            && (Enabled(codec, next, Begin(op)) <==> Apply(Run(next.committed), op).Ok?)
            && next.temp == if s.ProcessCrash? then m.temp else None
  {
    hide Apply, Consistent, Visible;
    ExecutionIsConsistent(codec, steps);
    StepIsConsistent(codec, Execute(codec, steps), s);
    ConsistentEntry(codec, StepOf(codec, Execute(codec, steps), s));
  }

  // ----- which committed operations are durable -----

  /** Whatever a power loss now restores, the committed operation j is still part of it. */
  ghost predicate Durable<B(!new)>(codec: Codec<B>, m: Machine<B>, j: nat)
    requires m.entries != [] && j < |m.committed|
  {
    forall restored, survivor :: Enabled(codec, m, PowerLoss(restored, survivor)) ==>
      var after := StepOf(codec, m, PowerLoss(restored, survivor)).committed;
      j < |after| && after[j] == m.committed[j]
  }

  /** A committed operation is durable exactly when it was committed before the last recovery: the directory
      is not synced after a replace, so a later power loss may undo every replace since. */
  lemma DurableExactly<B(!new)>(codec: Codec<B>, steps: seq<Step<B>>, j: nat)
    requires RoundTrips(codec) && j < |Execute(codec, steps).committed|
    ensures Durable(codec, Execute(codec, steps), j) <==> j < Execute(codec, steps).base
  {
    var m := Execute(codec, steps);
    ExecutionIsConsistent(codec, steps);
    forall restored, survivor | Enabled(codec, m, PowerLoss(restored, survivor))
      ensures StepOf(codec, m, PowerLoss(restored, survivor)).committed == m.committed[..m.base + restored]
    {
      PowerLossIsConsistent(codec, m, restored, survivor);
    }
    hide Apply, Visible, Consistent, StepOf;
    if m.base <= j {
      var survivor := match m.entries[0] case None => None case Some(inode) => Some(inode.bytes);
      assert Enabled(codec, m, PowerLoss(0, survivor));
    }
  }

  /** A recovery makes everything it restores durable; no other step makes anything durable. */
  lemma OnlyRecoveryMakesDurable<B>(codec: Codec<B>, steps: seq<Step<B>>, s: Step<B>)
    requires RoundTrips(codec)
    ensures var m, next := Execute(codec, steps), StepOf(codec, Execute(codec, steps), s);
            next.base == if s.PowerLoss? && Enabled(codec, m, s) then |next.committed| else m.base
  {
    hide Apply, Visible;
    ExecutionIsConsistent(codec, steps);
  }

  /** From a fresh machine, all steps of the write of one operation. */
  function WholeWrite<B>(codec: Codec<B>, op: Op): seq<Step<B>>
    requires Apply(EMPTY, op).Ok?
  {
    [Begin(op), WriteMore(|codec.encode(Next(EMPTY, op))|), Fsync, Replace]
  }

  lemma WholeWriteCommits<B>(codec: Codec<B>, op: Op)
    requires RoundTrips(codec) && Apply(EMPTY, op).Ok?
    ensures Execute(codec, WholeWrite(codec, op)).committed == [op]
    ensures Execute(codec, WholeWrite(codec, op)).base == 0 && Execute(codec, WholeWrite(codec, op)).entries[0] == None
  {
    hide Apply;
    var w := WholeWrite(codec, op);
    assert w[..1] == [] + [w[0]] && w[..2] == w[..1] + [w[1]] && w[..3] == w[..2] + [w[2]] && w == w[..3] + [w[3]];
    ExecuteOneMore(codec, [], w[0]);
    ExecuteOneMore(codec, w[..1], w[1]);
    ExecuteOneMore(codec, w[..2], w[2]);
    ExecuteOneMore(codec, w[..3], w[3]);
    assert Execute(codec, []) == Machine([None], None, Idle, 0, []);
  }

  /** An acknowledged registration may be lost: after its complete write, a power loss that turns the directory
      back leaves an empty registry. */
  lemma CommittedMayBeLost<B>(codec: Codec<B>, model: ModelVersion)
    requires RoundTrips(codec) && ArtifactsTrusted(model)
    ensures var m := Execute(codec, WholeWrite(codec, DoRegister(model)));
            && m.committed == [DoRegister(model)]
            && Enabled(codec, m, PowerLoss(0, None))
            && StepOf(codec, m, PowerLoss(0, None)).committed == []
            && Read(Visible(codec, StepOf(codec, m, PowerLoss(0, None)))) == Ok(EMPTY)
  {
    hide ModelVersion.Ref;
    var steps := WholeWrite(codec, DoRegister(model));
    WholeWriteCommits(codec, DoRegister(model));
    ExecutionIsConsistent(codec, steps);
    assert Run([]) == EMPTY;
    PowerLossRestoresAPrefix(codec, steps, 0, None);
  }

  // ----- the registry object's write -----

  /** A write starts exactly for a call that the registry object would answer without an error. */
  lemma WriteStartsExactly<B>(codec: Codec<B>, m: Machine<B>, op: Op)
    requires m.entries != [] && m.writer.Idle?
    ensures Enabled(codec, m, Begin(op)) <==> Outcome(Visible(codec, m), op, true).1.None?
  {
    hide Transition, Promote, Rollback, Visible;
  }

  predicate WritesOn<B>(s: Step<B>) {
    s.WriteMore? || s.Fsync?
  }

  lemma ExecuteOneMore<B>(codec: Codec<B>, steps: seq<Step<B>>, s: Step<B>)
    ensures Execute(codec, steps + [s]) == StepOf(codec, Execute(codec, steps), s)
  {
    assert (steps + [s])[..|steps|] == steps;
  }

  ghost predicate WritingFrom<B>(m: Machine<B>, entries: seq<Option<Inode<B>>>, op: Op) {
    m.entries == entries && m.writer.Writing? && m.writer.op == op
  }

  lemma BeginWrites<B>(codec: Codec<B>, m: Machine<B>, op: Op)
    requires m.entries != [] && Enabled(codec, m, Begin(op))
    ensures WritingFrom(StepOf(codec, m, Begin(op)), m.entries, op)
  {
    hide Apply, Visible;
  }

  lemma WriteGoesOn<B>(codec: Codec<B>, m: Machine<B>, entries: seq<Option<Inode<B>>>, op: Op, s: Step<B>)
    requires m.entries != [] && WritingFrom(m, entries, op) && WritesOn(s)
    ensures WritingFrom(StepOf(codec, m, s), entries, op)
  {
    hide Apply, Visible;
  }

  /** While a write goes on, readers see what they saw before it. */
  lemma {:induction false} WritingIsInvisible<B>(codec: Codec<B>, before: seq<Step<B>>, op: Op, middle: seq<Step<B>>)
    requires Enabled(codec, Execute(codec, before), Begin(op)) && forall s | s in middle :: WritesOn(s)
    ensures WritingFrom(Execute(codec, before + [Begin(op)] + middle), Execute(codec, before).entries, op)
    decreases |middle|
  {
    hide Apply, Visible, Enabled, StepOf, WritingFrom, Execute;
    if middle == [] {
      ExecuteOneMore(codec, before, Begin(op));
      BeginWrites(codec, Execute(codec, before), op);
      assert before + [Begin(op)] + middle == before + [Begin(op)];
    } else {
      var rest, s := middle[..|middle| - 1], middle[|middle| - 1];
      assert s in middle && forall t | t in rest :: t in middle;
      WritingIsInvisible(codec, before, op, rest);
      var started := before + [Begin(op)] + rest;
      ExecuteOneMore(codec, started, s);
      WriteGoesOn(codec, Execute(codec, started), Execute(codec, before).entries, op, s);
      assert before + [Begin(op)] + middle == started + [s];
    }
  }

  /** The registry object's write is this protocol: however the temporary file is written, a write that ends
      in the replace leaves readers with the outcome of a call whose disk accepted it, and one that fails
      with the outcome of a call whose disk refused. */
  lemma WriteIsOutcome<B>(codec: Codec<B>, before: seq<Step<B>>, op: Op, middle: seq<Step<B>>, last: Step<B>)
    requires RoundTrips(codec) && Enabled(codec, Execute(codec, before), Begin(op))
    requires (forall s | s in middle :: WritesOn(s)) && (last.Replace? || last.FailWrite?)
    requires Enabled(codec, Execute(codec, before + [Begin(op)] + middle), last)
    ensures Visible(codec, Execute(codec, before + [Begin(op)] + middle + [last]))
         == Outcome(Visible(codec, Execute(codec, before)), op, last.Replace?).0
  {
    hide Apply, Enabled, StepOf, Execute, Consistent, RoundTrips, Outcome;
    var started := before + [Begin(op)] + middle;
    var m := Execute(codec, before);
    BeginNeedsIdle(codec, m, op);
    WriteStartsExactly(codec, m, op);
    WritingIsInvisible(codec, before, op, middle);
    ExecuteOneMore(codec, started, last);
    assert Visible(codec, Execute(codec, started)) == Visible(codec, m);
    OutcomeOfApply(Visible(codec, m), op, last.Replace?);
    hide Visible, WritingFrom;
    OnlyReplaceIsVisible(codec, started, last);
    if last.Replace? {
      assert last == Replace;
      ReplacedEntryIsJson(codec, started);
    }
  }

  /** Every write that starts can complete: all bytes, then the sync, then the replace. */
  lemma WriteCanComplete<B>(codec: Codec<B>, before: seq<Step<B>>, op: Op)
    requires Enabled(codec, Execute(codec, before), Begin(op))
    ensures exists middle: seq<Step<B>> :: (forall s | s in middle :: WritesOn(s))
              && Enabled(codec, Execute(codec, before + [Begin(op)] + middle), Replace)
  {
    hide Apply, Visible, Execute;
    ExecuteOneMore(codec, before, Begin(op));
    var begun := before + [Begin(op)];
    var all := WriteMore(|Execute(codec, begun).writer.text|);
    ExecuteOneMore(codec, begun, all);
    ExecuteOneMore(codec, begun + [all], Fsync);
    var middle := [all, Fsync];
    assert begun + middle == begun + [all] + [Fsync];
    assert Enabled(codec, Execute(codec, begun + middle), Replace);
  }

  lemma BeginNeedsIdle<B>(codec: Codec<B>, m: Machine<B>, op: Op)
    requires m.entries != [] && Enabled(codec, m, Begin(op))
    ensures m.writer.Idle?
  {
    hide Apply, Visible;
  }

  lemma OutcomeOfApply(file: FileContent, op: Op, diskOk: bool)
    requires Outcome(file, op, true).1.None?
    ensures Read(file).Ok? && Apply(Read(file).value, op).Ok?
    ensures Outcome(file, op, diskOk).0 ==
              if diskOk then Json(SCHEMA_VERSION, Apply(Read(file).value, op).value) else file
  {
    hide Transition, Promote, Rollback;
  }

  lemma ReplacedEntryIsJson<B>(codec: Codec<B>, steps: seq<Step<B>>)
    requires RoundTrips(codec) && Enabled(codec, Execute(codec, steps), Replace)
    ensures Visible(codec, StepOf(codec, Execute(codec, steps), Replace)).Json?
    ensures Visible(codec, StepOf(codec, Execute(codec, steps), Replace)).schemaVersion == SCHEMA_VERSION
  {
    ExecutionIsConsistent(codec, steps);
    var m := Execute(codec, steps);
    hide Apply, Execute;
    assert m.writer.text[..|m.writer.text|] == m.writer.text;
  }
}
