/** The LSM store as a state machine: writes, rotation, flush, compaction,
    manifest rewrite, crash at any step, and reopening. */
module LsmEngine {
  import opened Bytes
  import opened Wrappers
  import opened LsmRuns
  import opened LsmLevels
  import opened LsmCompaction
  import opened LsmManifest
  import opened LsmManifestCodec
  import opened LsmManifestLog
  import opened LsmDisk
  import Safety = LsmCompactionSafety

  /** Where a flush or compaction stands between its durable steps. */
  datatype Phase =
    | Ready
    | Writing(id: nat)                                        // a table file is being written
    | Flushing(table: Table)                                  // its manifest edit is durable
    | Marking(seqno: nat)                                     // installed; checkpoint edit still to come
    | Swapping(job: Job, floor: nat, out: Option<Table>)      // the swap edit is durable
    | Down

  /** `log` is the manifest file and `files` the table files. `pending` are writes the
      owner's log still has to replay after a reopen. `edits` (the edits the manifest
      holds), `writes` (all writes so far) and `floor` (the largest retain floor used)
      are bookkeeping for the statements: no step depends on them. While the engine is
      down, `levels` is what the manifest describes. */
  datatype State = State(
    active: Run, frozen: seq<Run>, levels: Levels, config: Config, nextId: nat, checkpoint: nat,
    edits: seq<Edit>, files: Files, pending: seq<Entry>, phase: Phase, writes: seq<Entry>, floor: nat,
    crc: Checksum, log: Bytes)

  // ---- reading -------------------------------------------------------------

  /** In-memory layers, newest last. */
  function MemLookup(layers: seq<Run>, k: Bytes, s: nat): Option<Entry> {
    if layers == [] then None
    else
      var n := |layers| - 1;
      var hit := FirstVisible(layers[n], k, s);
      if hit.Some? then hit else MemLookup(layers[..n], k, s)
  }

  /** Newest layer with an answer: memory first, then the levels. */
  function Lookup(st: State, k: Bytes, s: nat): Option<Entry> {
    var hit := MemLookup(st.frozen + [st.active], k, s);
    if hit.Some? then hit else Search(st.levels, 0, k, s)
  }

  /** A lookup read as value-or-nothing: tombstone and silence agree. */
  function Value(e: Option<Entry>): Option<Bytes> {
    if e.Some? then e.value.slot else None
  }

  /** The reference: the last write of `k` at or below `s`. */
  function NewestWrite(writes: seq<Entry>, k: Bytes, s: nat): Option<Entry> {
    if writes == [] then None
    else if Visible(writes[|writes| - 1], k, s) then Some(writes[|writes| - 1])
    else NewestWrite(writes[..|writes| - 1], k, s)
  }

  // ---- the pieces of a step ------------------------------------------------

  /** What the owner's log replays: every write above the checkpoint. */
  function After(writes: seq<Entry>, checkpoint: nat): (r: seq<Entry>)
    ensures forall e :: e in r <==> e in writes && e.seqno > checkpoint
  {
    if writes == [] then []
    else
      var n := |writes| - 1;
      var rest := After(writes[..n], checkpoint);
      if writes[n].seqno > checkpoint then rest + [writes[n]] else rest
  }

  /** The levels the manifest describes right now. */
  function Durable(st: State): Levels
    requires st.phase.Swapping? ==> st.phase.job.source + 1 < |st.levels|
  {
    match st.phase
    case Flushing(t) => AddTable(st.levels, t)
    case Swapping(job, _, out) => Apply(st.levels, job, out)
    case _ => st.levels
  }

  /** What opening refuses otherwise. */
  predicate ConfigOk(c: Config) {
    c.maxLevels >= 2 && c.l0Trigger > 0
  }

  /** Some unreferenced files may be unlinked; a failed unlink is ignored. */
  ghost predicate Unlinked(live: seq<Meta>, files: Files, files': Files) {
    && (forall id | id in files' :: id in files && files'[id] == files[id])
    && (forall m | m in live && m.id in files :: m.id in files')
  }

  ghost predicate FreshVersion(writes: seq<Entry>, e: Entry) {
    forall w | w in writes && w.key == e.key :: w.seqno < e.seqno
  }

  /** An edit appended to the manifest and synced. */
  function Appended(st: State, e: Edit): State {
    st.(edits := st.edits + [e], log := st.log + Frame(st.crc, e))
  }

  /** The manifest replaced by a new file, written aside and renamed over it. */
  function Rewritten(st: State, es: seq<Edit>): State {
    st.(edits := es, log := EncodeManifest(st.crc, es))
  }

  /** What opening leaves in the manifest: a log that is too long becomes a snapshot. */
  function OpenedLog(edits: seq<Edit>): seq<Edit> {
    var m := Replayed(edits);
    if |edits| > COMPACT_AFTER_EDITS then SnapshotOf(m.live, NextAfter(m.nextId, m.live), m.checkpoint) else edits
  }

  datatype Event =
    | Put(entry: Entry)
    | Replay
    | Rotate
    | StartTable(junk: Run)
    | CommitFlush(table: Table)
    | InstallFlush
    | Mark
    | CommitSwap(job: Job, retain: nat, out: Option<Table>)
    | InstallSwap(left: Files)
    | Abandon(left: Files)
    | RewriteManifest
    | Crash(torn: Bytes)
    | AbortOpen(left: Files, cut: nat, rewritten: bool)
    | Reopen(config: Config, left: Files)

  /** One step. Sequence numbers grow per key; everything else is free. */
  ghost predicate Step(st: State, e: Event, st': State) {
    match e
    case Put(w) =>
      st.phase == Ready && st.pending == [] && FreshVersion(st.writes, w) && w.seqno < U64_LIMIT
      && st' == st.(active := PutSlot(st.active, w), writes := st.writes + [w])
    case Replay =>
      st.phase == Ready && st.pending != []
      && st' == st.(active := PutSlot(st.active, st.pending[0]), pending := st.pending[1..])
    case Rotate =>
      st.phase == Ready && st.active != [] && st' == st.(frozen := st.frozen + [st.active], active := [])
    case StartTable(junk) =>
      st.phase == Ready
      && st' == st.(files := st.files[st.nextId := junk], nextId := st.nextId + 1, phase := Writing(st.nextId))
    case CommitFlush(t) =>
      st.phase == Writing(t.id) && st.frozen != [] && t.entries == st.frozen[0] && t.level == 0 && TableOk(t)
      && Fits(AddMeta(MetaOf(t)))
      && st' == Appended(st, AddMeta(MetaOf(t))).(files := st.files[t.id := t.entries], phase := Flushing(t))
    case InstallFlush =>
      st.phase.Flushing? && st.frozen != []
      && (var highest := Highest(st.frozen[0]);
          st' == st.(frozen := st.frozen[1..], levels := AddTable(st.levels, st.phase.table),
                     phase := if highest > st.checkpoint then Marking(highest) else Ready))
    case Mark =>
      st.phase.Marking? && Fits(Checkpoint(st.phase.seqno))
      && st' == Appended(st, Checkpoint(st.phase.seqno)).(checkpoint := st.phase.seqno, phase := Ready)
    case CommitSwap(job, retain, out) =>
      st.phase == (if out.Some? then Writing(out.value.id) else Ready)
      && LegalJob(st.levels, job) && Safety.OutputOk(job, retain, DropsTombstones(st.config, st.levels, job), out)
      && Fits(SwapEdit(job, out))
      && st' == Appended(st, SwapEdit(job, out)).(files := if out.Some? then st.files[out.value.id := out.value.entries] else st.files,
                                                  phase := Swapping(job, retain, out))
    case InstallSwap(left) =>
      st.phase.Swapping? && st.phase.job.source + 1 < |st.levels| && Unlinked(Replayed(st.edits).live, st.files, left)
      && st' == st.(levels := Durable(st), files := left, floor := Max(st.floor, st.phase.floor), phase := Ready)
    case Abandon(left) =>
      st.phase.Writing? && (left == st.files || left == st.files - {st.phase.id}) && st' == st.(files := left, phase := Ready)
    case RewriteManifest =>
      st.phase == Ready && AllFit(SnapshotLog(st.levels, st.nextId, st.checkpoint))
      && st' == Rewritten(st, SnapshotLog(st.levels, st.nextId, st.checkpoint))
    case Crash(torn) =>
      (st.phase.Swapping? ==> st.phase.job.source + 1 < |st.levels|)
      && Interrupted(st.crc, torn) && (st.phase.Down? ==> torn == [])
      && st' == st.(active := [], frozen := [], levels := Durable(st), pending := After(st.writes, st.checkpoint),
                    floor := if st.phase.Swapping? then Max(st.floor, st.phase.floor) else st.floor, phase := Down,
                    log := st.log + torn)
    case AbortOpen(left, cut, rewritten) =>
      st.phase == Down && Parse(st.crc, st.log).Recovered?
      && (var p := Parse(st.crc, st.log);
          && Unlinked(Replayed(p.edits).live, st.files, left) && p.valid <= cut <= |st.log|
          && (rewritten ==> |p.edits| > COMPACT_AFTER_EDITS && AllFit(OpenedLog(p.edits)))
          && st' == if rewritten then Rewritten(st, OpenedLog(p.edits)).(files := left) else st.(files := left, log := st.log[..cut]))
    case Reopen(config, left) =>
      st.phase == Down && ConfigOk(config) && Parse(st.crc, st.log).Recovered?
      && (var p := Parse(st.crc, st.log);
          var m := Replayed(p.edits);
          && Referenced(st.files, m.live) && Unlinked(m.live, st.files, left)
          && (|p.edits| > COMPACT_AFTER_EDITS ==> AllFit(OpenedLog(p.edits)))
          && st' == st.(levels := Rebuild(config.maxLevels, Opened(st.files, m.live)), config := config,
                        nextId := NextAfter(m.nextId, m.live), checkpoint := m.checkpoint, files := left,
                        pending := After(st.writes, m.checkpoint), phase := Ready,
                        edits := OpenedLog(p.edits),
                        log := if |p.edits| > COMPACT_AFTER_EDITS then EncodeManifest(st.crc, OpenedLog(p.edits)) else st.log[..p.valid]))
  }

  ghost predicate Init(st: State) {
    ConfigOk(st.config)
    && st == State([], [], seq(st.config.maxLevels, _ => []), st.config, 1, 0, [], map[], [], Ready, [], 0, st.crc, [])
  }

  ghost predicate IsRun(states: seq<State>, events: seq<Event>) {
    && |states| == |events| + 1 && Init(states[0])
    && forall i | 0 <= i < |events| :: Step(states[i], events[i], states[i + 1])
  }
}
