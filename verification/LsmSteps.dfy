/** Every step of the LSM store keeps its invariant. */
module LsmSteps {
  import opened Bytes
  import opened Wrappers
  import opened LsmRuns
  import opened LsmLevels
  import opened LsmCompaction
  import opened LsmCompactionSafety
  import opened LsmManifest
  import opened LsmManifestCodec
  import opened LsmManifestLog
  import opened LsmDisk
  import opened LsmEngine
  import opened LsmMemory
  import opened LsmInvariant

  // ---- levels --------------------------------------------------------------

  lemma AddHas(levels: Levels, t: Table, x: Table)
    ensures Has(AddTable(levels, t), x) <==> Has(levels, x) || x == t
  {
    hide AddTable, InsertByMin;
    AddTableAt(levels, t, x.level);
  }

  lemma AddKeepsTables(levels: Levels, writes: seq<Entry>, t: Table)
    requires TablesOk(levels, writes) && TableOk(t) && t.level == 0 && IdsBelow(levels, t.id)
    requires forall e | e in t.entries :: e in writes
    ensures TablesOk(AddTable(levels, t), writes)
    ensures forall n: nat | t.id < n && IdsBelow(levels, n) :: IdsBelow(AddTable(levels, t), n)
  {
    hide AddTable, TableOk, Has, Disjoint, TablesWritten;
    var levels' := AddTable(levels, t);
    forall x ensures Has(levels', x) <==> Has(levels, x) || x == t { AddHas(levels, t, x); }
    forall l: nat ensures LevelOk(levels', l) {
      AddTableAt(levels, t, l);
      assert LevelOk(levels, l);
    }
    AddTableAt(levels, t, 0);
    FlushWritten(levels, writes, t);
  }

  lemma SwapHas(levels: Levels, job: Job, out: Option<Table>, x: Table)
    requires job.source + 1 < |levels| && (out.Some? ==> out.value.level == job.source + 1)
    ensures Has(Apply(levels, job, out), x) ==> Has(levels, x) || out == Some(x)
  {
    hide Apply, Without, InsertByMin;
    ApplyAt(levels, job, out, x.level);
  }

  lemma SwapKeepsShape(levels: Levels, writes: seq<Entry>, job: Job, retain: nat, drop: bool, out: Option<Table>)
    requires TablesOk(levels, writes) && LegalJob(levels, job) && OutputOk(job, retain, drop, out)
    requires out.Some? ==> IdsBelow(levels, out.value.id)
    ensures job.source + 1 < |levels|
    ensures var levels' := Apply(levels, job, out);
            && Compacted(levels, levels', job, retain, drop, out) && TablesOk(levels', writes)
            && forall n: nat | (out.Some? ==> out.value.id < n) && IdsBelow(levels, n) :: IdsBelow(levels', n)
  {
    hide LegalJob, OutputOk, LevelsOk, Apply, Has, TablesWritten;
    JobRange(levels, job);
    var levels' := Apply(levels, job, out);
    assert LevelsOk(levels') by { hide IdsOk; ApplyKeepsLevels(levels, job, retain, drop, out); }
    SwapWritten(levels, levels', writes, job, retain, drop, out);
    OutLevel(job, retain, drop, out);
    forall x ensures Has(levels', x) ==> Has(levels, x) || out == Some(x) { SwapHas(levels, job, out, x); }
    ApplyAt(levels, job, out, 0);
  }

  // ---- memory steps --------------------------------------------------------

  /** Steps that change neither levels nor disk. */
  lemma SameDisk(st: State, st': State)
    requires st.phase == Ready && st'.phase == Ready && DiskOk(st)
    requires st'.levels == st.levels && st'.edits == st.edits && st'.files == st.files && st'.checkpoint == st.checkpoint
    ensures DiskOk(st')
  {
    hide Describes, Replayed;
  }

  ghost predicate StrictPut(st: State, e: Event) {
    e.Put? ==> e.entry.seqno > 0 && forall w | w in st.writes :: w.seqno < e.entry.seqno
  }

  lemma PutGrows(st: State, w: Entry, strict: bool)
    requires SeqnosGrow(st.writes, strict) && FreshVersion(st.writes, w) && (strict ==> StrictPut(st, Put(w)))
    ensures SeqnosGrow(st.writes + [w], strict)
  {
    SnocGrows(st.writes, w, strict);
  }

  lemma PutKeepsCore(st: State, w: Entry, st': State, strict: bool)
    requires Core(st, strict) && Step(st, Put(w), st') && (strict ==> StrictPut(st, Put(w)))
    ensures Core(st', strict)
  {
    hide Replayed, Describes, TablesRight, LevelsOk, IdsOk, InMem, Layered, SeqnosGrow, LsmRuns.Sorted, PutSlot, MemNewest, IdsBelow, SubMemory;
    PutGrows(st, w, strict);
    forall x | x in st.active ensures x in st.writes { InLayers(st.frozen, st.active, [], x); }
    PushMembers(st.active, st.writes, w);
    PutMemOk(st.frozen, st.active, st'.active, st.writes, w, strict);
    WriteKeepsTables(st.levels, Layers(st), Layers(st'), st.writes, st.floor, w);
    PutCovered(st, w, st', strict);
    SameDisk(st, st');
    assert TablesWritten(st'.levels, st'.writes) by { hide InLevel; }
    assert Reached(st'.writes, st'.checkpoint) by { ReachedMore(st.writes, w, st.checkpoint); }
  }

  lemma ReachedMore(writes: seq<Entry>, w: Entry, n: nat)
    requires Reached(writes, n)
    ensures Reached(writes + [w], n)
  {
    if n > 0 {
      var x :| x in writes && n <= x.seqno;
      assert x in writes + [w];
    }
  }

  lemma PutCovered(st: State, w: Entry, st': State, strict: bool)
    requires Core(st, strict) && st'.active == PutSlot(st.active, w) && st'.frozen == st.frozen && st'.pending == st.pending
    requires strict ==> StrictPut(st, Put(w))
    requires forall x :: x in st'.active <==> x in st.active || x == w
    ensures strict ==> Covered(Layers(st'), st.checkpoint)
  {
    hide MemOk, RunsOk, TablesOk, TablesRight, PhaseOk, DiskOk, IdsBelow, InMem, PutSlot;
    if strict {
      forall e | InMem(Layers(st'), e) ensures e.seqno > st.checkpoint {
        InLayers(st.frozen, st.active, st.pending, e);
        InLayers(st'.frozen, st'.active, st'.pending, e);
      }
    }
  }

  lemma ReplayKeepsCore(st: State, st': State, strict: bool)
    requires Core(st, strict) && Step(st, Replay, st')
    ensures Core(st', strict)
  {
    hide Replayed, Describes, LevelsOk, IdsOk, InMem, Layered, LsmRuns.Sorted, PutSlot, MemNewest, IdsBelow, TablesRight, TablesWritten, MemWritten;
    var p := st.pending;
    LayersSplit(st.frozen, st.active, p, strict);
    FollowsSnoc(st.frozen, st.active, p[0], strict);
    assert p[0] in p;
    PushMembers(st.active, st.writes, p[0]);
    ReplayMemOk(st.frozen, st.active, st'.active, p, st.writes, strict);
    SameMemory(st, st', strict);
    SameDisk(st, st');
  }

  /** Moving versions between layers changes no answer and no coverage. */
  lemma SameMemory(st: State, st': State, strict: bool)
    requires TablesRight(st.levels, Layers(st), st.writes, st.floor) && (strict ==> Covered(Layers(st), st.checkpoint))
    requires forall x :: InMem(Layers(st'), x) <==> InMem(Layers(st), x)
    ensures TablesRight(st.levels, Layers(st'), st.writes, st.floor) && (strict ==> Covered(Layers(st'), st.checkpoint))
  {
    hide InMem, TablesRight;
    MoreMemory(st.levels, Layers(st), Layers(st'), st.writes, st.floor);
  }

  lemma RotateKeepsCore(st: State, st': State, strict: bool)
    requires Core(st, strict) && Step(st, Rotate, st')
    ensures Core(st', strict)
  {
    hide Replayed, Describes, LevelsOk, IdsOk, InMem, Layered, Before, MemNewest, IdsBelow, TablesRight, TablesWritten, MemWritten, SeqnosGrow;
    RotateMemOk(st.frozen, st.active, st.pending, st.writes, strict);
    SameMemory(st, st', strict);
    SameDisk(st, st');
  }

  // ---- flush ---------------------------------------------------------------

  /** A file the manifest does not mention may be written. */
  lemma NewFile(st: State, id: nat, content: Run)
    requires Describes(Replayed(st.edits), st.files, st.levels) && IdsBelow(st.levels, id)
    ensures Describes(Replayed(st.edits), st.files[id := content], st.levels) && LiveBelow(Replayed(st.edits), id)
  {
    hide Replayed, Has, Describes;
    var m := Replayed(st.edits);
    forall x | x in m.live ensures x.id in st.files && x.id < id { DescribedMeta(m, st.files, st.levels, x); }
    UnreferencedFiles(m, st.files, st.files[id := content], st.levels);
  }

  lemma StartTableKeepsCore(st: State, junk: Run, st': State, strict: bool)
    requires Core(st, strict) && Step(st, StartTable(junk), st')
    ensures Core(st', strict)
  {
    hide Replayed, Describes, MemOk, LsmRuns.Sorted, SeqnosGrow, TablesOk, Has, Covered, TablesRight;
    NewFile(st, st.nextId, junk);
  }

  lemma CommitFlushKeepsCore(st: State, t: Table, st': State, strict: bool)
    requires Core(st, strict) && Step(st, CommitFlush(t), st')
    ensures Core(st', strict)
  {
    hide Replayed, Describes, MemOk, LsmRuns.Sorted, SeqnosGrow, TablesOk, IdsBelow, Covered, TablesRight, TableOk, ApplyEdit, AddTable, Fits, Frame, Reached, EncodeManifest, AllFit;
    NewFile(st, t.id, t.entries);
    var m := Replayed(st.edits);
    AddDescribes(m, st'.files, st.levels, t);
    ReplayedAppend(st.edits, AddMeta(MetaOf(t)));
    assert ApplyEdit(m, AddMeta(MetaOf(t))).checkpoint == m.checkpoint by { AddSameCheckpoint(m, MetaOf(t)); }
  }

  lemma AddSameCheckpoint(m: Manifest, meta: Meta)
    ensures ApplyEdit(m, AddMeta(meta)).checkpoint == m.checkpoint
  {
  }

  /** The levels once the flushed table is installed. */
  lemma FlushedTables(st: State, t: Table, strict: bool)
    requires Core(st, strict) && st.phase == Flushing(t)
    ensures TablesOk(AddTable(st.levels, t), st.writes) && IdsBelow(AddTable(st.levels, t), st.nextId)
    ensures TablesRight(AddTable(st.levels, t), Layers(st)[1..], st.writes, st.floor)
    ensures Layers(st)[0] == st.frozen[0] == t.entries
  {
    hide AddTable, DiskOk, TableOk, IdsBelow, Layered, TablesRight, InMem, LevelsOk, IdsOk, TablesWritten, Covered, Before;
    forall e | e in t.entries ensures e in st.writes {
      assert InMem(Layers(st), e) by { FirstInMem(Layers(st), e); }
    }
    AddKeepsTables(st.levels, st.writes, t);
    StrictIsPerKey(st.writes, strict);
    FlushKeepsTables(st.levels, Layers(st), st.writes, st.floor, t, strict);
  }

  lemma FirstInMem(layers: seq<Run>, e: Entry)
    requires layers != [] && e in layers[0]
    ensures InMem(layers, e)
  {
  }

  lemma InstallFlushKeepsCore(st: State, st': State, strict: bool)
    requires Core(st, strict) && Step(st, InstallFlush, st')
    ensures Core(st', strict)
  {
    hide AddTable, Replayed, Describes, TableOk, IdsBelow, TablesRight, TablesOk, InMem, Layered, MemWritten, MemNewest, SeqnosGrow, LsmRuns.Sorted, Highest;
    var t := st.phase.table;
    FlushedTables(st, t, strict);
    assert Layers(st') == Layers(st)[1..];
    FlushMemOk(Layers(st), st.writes, strict);
    InstallCovers(st, strict);
  }

  lemma InstallCovers(st: State, strict: bool)
    requires MemOk(Layers(st), st.writes, strict) && RunsOk(st, strict) && st.frozen != []
    requires strict ==> Covered(Layers(st), st.checkpoint)
    ensures Reached(st.writes, Highest(st.frozen[0]))
    ensures strict ==> Covered(Layers(st)[1..], Highest(st.frozen[0])) && Covered(Layers(st)[1..], st.checkpoint)
  {
    hide InMem, Layered, MemNewest, SeqnosGrow, LsmRuns.Sorted, Highest;
    var layers := Layers(st);
    HighestIn(st.frozen[0]);
    var top :| top in st.frozen[0] && top.seqno == Highest(st.frozen[0]);
    FirstInMem(layers, top);
    assert top in st.writes;
    if strict {
      FlushCovers(layers);
      forall x ensures InMem(layers[1..], x) ==> InMem(layers, x) { InMemFirst(layers, x); }
    }
  }

  lemma MarkKeepsCore(st: State, st': State, strict: bool)
    requires Core(st, strict) && Step(st, Mark, st')
    ensures Core(st', strict)
  {
    hide Replayed, MemOk, LsmRuns.Sorted, SeqnosGrow, TablesOk, IdsBelow, Covered, TablesRight, Opened, Built, Fits, Frame, Reached, EncodeManifest, AllFit;
    ReplayedAppend(st.edits, Checkpoint(st.phase.seqno));
  }

  // ---- compaction ----------------------------------------------------------

  lemma CommitSwapKeepsCore(st: State, job: Job, retain: nat, out: Option<Table>, st': State, strict: bool)
    requires Core(st, strict) && Step(st, CommitSwap(job, retain, out), st')
    ensures Core(st', strict)
  {
    hide Replayed, Describes, MemOk, LsmRuns.Sorted, SeqnosGrow, LevelsOk, IdsOk, TablesWritten, IdsBelow, Covered, TablesRight, ApplyEdit, Apply, OutputOk, LegalJob, DropsTombstones, SwapEdit, Fits, Frame, Reached;
    JobRange(st.levels, job);
    var m := Replayed(st.edits);
    if out.Some? { NewFile(st, out.value.id, out.value.entries); }
    OutLevel(job, retain, DropsTombstones(st.config, st.levels, job), out);
    SwapDescribes(m, st'.files, st.levels, job, out);
    ReplayedAppend(st.edits, SwapEdit(job, out));
  }

  /** The levels once the swap is installed. */
  lemma SwappedTables(st: State, strict: bool)
    requires Core(st, strict) && st.phase.Swapping?
    ensures TablesOk(Durable(st), st.writes) && IdsBelow(Durable(st), st.nextId)
    ensures TablesRight(Durable(st), Layers(st), st.writes, Max(st.floor, st.phase.floor))
  {
    hide DiskOk, RunsOk, Layered, MemWritten, MemNewest, SeqnosGrow, IdsBelow, TablesRight, Covered, Apply, OutputOk, LegalJob, DropsTombstones, Compacted, LevelsOk, IdsOk, Reached;
    var job, retain, out := st.phase.job, st.phase.floor, st.phase.out;
    JobRange(st.levels, job);
    var drop := DropsTombstones(st.config, st.levels, job);
    SwapKeepsShape(st.levels, st.writes, job, retain, drop, out);
    StrictIsPerKey(st.writes, strict);
    SwapKeepsTables(st.levels, Apply(st.levels, job, out), Layers(st), st.writes, st.floor, st.config, job, retain, out);
  }

  /** Unlinking retired files leaves every live table readable. */
  lemma UnlinkDescribes(m: Manifest, files: Files, left: Files, levels: Levels)
    requires Describes(m, files, levels) && Unlinked(m.live, files, left)
    ensures Describes(m, left, levels)
  {
    hide Describes;
    forall x | x in m.live ensures x.id in files { DescribedMeta(m, files, levels, x); }
    UnreferencedFiles(m, files, left, levels);
  }

  lemma InstallSwapKeepsCore(st: State, left: Files, st': State, strict: bool)
    requires Core(st, strict) && Step(st, InstallSwap(left), st')
    ensures Core(st', strict)
  {
    hide Replayed, Describes, MemOk, LsmRuns.Sorted, SeqnosGrow, TablesOk, IdsBelow, Covered, TablesRight, Apply, OutputOk, LegalJob, Unlinked;
    SwappedTables(st, strict);
    UnlinkDescribes(Replayed(st.edits), st.files, left, Durable(st));
  }

  lemma RewriteKeepsCore(st: State, st': State, strict: bool)
    requires Core(st, strict) && Step(st, RewriteManifest, st')
    ensures Core(st', strict)
  {
    hide Replayed, Describes, MemOk, LsmRuns.Sorted, SeqnosGrow, IdsBelow, Covered, TablesRight, LiveBelow, IdsOk, LevelsOk, TablesWritten, SnapshotLog, Fits, Frame, Reached, EncodeManifest, AllFit;
    SnapshotDescribes(Replayed(st.edits), st.files, st.levels, st.nextId, st.checkpoint);
    SnapshotReplayed(st.levels, st.nextId, st.checkpoint);
  }

  // ---- crash and reopen ----------------------------------------------------

  /** At any moment, what the manifest describes is sound over memory. */
  lemma DurableTables(st: State, strict: bool)
    requires Core(st, strict)
    ensures st.phase.Swapping? ==> st.phase.job.source + 1 < |st.levels|
    ensures TablesOk(Durable(st), st.writes) && IdsBelow(Durable(st), st.nextId)
    ensures TablesRight(Durable(st), Layers(st), st.writes, if st.phase.Swapping? then Max(st.floor, st.phase.floor) else st.floor)
  {
    hide MemOk, RunsOk, TablesOk, IdsBelow, TablesRight, DiskOk, Covered, AddTable, Apply, TableOk, OutputOk, Reached, LegalJob;
    if st.phase.Swapping? {
      JobRange(st.levels, st.phase.job);
      SwappedTables(st, strict);
    } else if st.phase.Flushing? {
      FlushedTables(st, st.phase.table, strict);
      assert SubMemory(Layers(st)[1..], Layers(st)) by { TailMemory(Layers(st)); }
      MoreMemory(AddTable(st.levels, st.phase.table), Layers(st)[1..], Layers(st), st.writes, st.floor);
    }
  }

  lemma TailMemory(layers: seq<Run>)
    requires layers != []
    ensures SubMemory(layers[1..], layers)
  {
    hide InMem;
    forall x ensures InMem(layers[1..], x) ==> InMem(layers, x) { InMemFirst(layers, x); }
  }

  lemma CrashKeepsCore(st: State, torn: Bytes, st': State, strict: bool)
    requires Core(st, strict) && Step(st, Crash(torn), st') && Covered(Layers(st), st.checkpoint)
    ensures Core(st', strict)
  {
    hide Replayed, Describes, SeqnosGrow, Layered, MemWritten, MemNewest, TablesOk, IdsBelow, Covered, TablesRight, AddTable, Apply, FlushOk, SwapOk, After, SubMemory;
    DurableTables(st, strict);
    CrashMemOk(Layers(st), st.writes, st.checkpoint, strict);
    AfterGrows(st.writes, st.checkpoint, strict);
    MoreMemory(st'.levels, Layers(st), Layers(st'), st.writes, st'.floor);
  }

  /** Reopening rebuilds the levels the manifest describes. */
  lemma ReopenLevels(m: Manifest, files: Files, levels: Levels, maxLevels: nat)
    requires Describes(m, files, levels) && maxLevels >= 2
    ensures var levels' := Rebuild(maxLevels, Opened(files, m.live));
            |levels'| >= 2 && forall l: nat :: LevelAt(levels', l) == LevelAt(levels, l)
  {
    hide Rebuild, Built, Opened;
    var ts := Opened(files, m.live);
    RebuildAt(maxLevels, ts, 0);
    forall l: nat ensures LevelAt(Rebuild(maxLevels, ts), l) == LevelAt(levels, l) {
      RebuildAt(maxLevels, ts, l);
      assert Built(ts, l) == LevelAt(levels, l);
    }
  }

  ghost predicate SameLevels(levels: Levels, levels': Levels) {
    levels' != [] && forall l: nat :: LevelAt(levels', l) == LevelAt(levels, l)
  }

  /** Trailing empty levels do not matter. */
  lemma {:induction false} SearchAny(levels: Levels, levels': Levels, j: nat, n: nat, k: Bytes, s: nat)
    requires (forall l: nat :: LevelAt(levels', l) == LevelAt(levels, l)) && |levels| <= n && |levels'| <= n
    ensures Search(levels, j, k, s) == Search(levels', j, k, s)
    decreases n - j
  {
    hide SearchL0, FindTable;
    if j < n {
      SearchAny(levels, levels', j + 1, n, k, s);
      assert LevelAt(levels', j) == LevelAt(levels, j);
      if LevelAt(levels, j) == [] { EmptyLevel(levels, j, k, s); }
    }
  }

  lemma EmptyLevel(levels: Levels, j: nat, k: Bytes, s: nat)
    requires LevelAt(levels, j) == []
    ensures LevelHit(levels, j, k, s) == None
  {
  }

  lemma SameLevelsTables(levels: Levels, levels': Levels, layers: seq<Run>, writes: seq<Entry>, floor: nat)
    requires SameLevels(levels, levels') && TablesOk(levels, writes) && TablesRight(levels, layers, writes, floor)
    ensures TablesOk(levels', writes) && TablesRight(levels', layers, writes, floor)
  {
    assert forall x :: Has(levels', x) <==> Has(levels, x);
    assert IdsOk(levels') by { hide Has, LevelsOk, TablesWritten; }
    assert TablesWritten(levels', writes) by {
      hide LevelsOk, IdsOk;
      forall l: nat, e | InLevel(levels', l, e) ensures e in writes { assert InLevel(levels, l, e); }
    }
    hide InMem, Search, Silent, Right, NewestWrite;
    forall k: Bytes, s: nat | floor <= s && Silent(layers, k, s)
      ensures Right(Search(levels', 0, k, s), NewestWrite(writes, k, s))
    {
      SearchAny(levels, levels', 0, Max(|levels|, |levels'|), k, s);
    }
    hide TablesRight;
    forall l: nat ensures LevelOk(levels', l) { SameLevelOk(levels, levels', l); }
  }

  lemma SameLevelOk(levels: Levels, levels': Levels, l: nat)
    requires LevelsOk(levels) && LevelAt(levels', l) == LevelAt(levels, l)
    ensures LevelOk(levels', l)
  {
    hide TableOk, Disjoint;
    assert LevelOk(levels, l);
  }

  lemma ReopenKeepsCore(st: State, config: Config, left: Files, st': State, strict: bool)
    requires Core(st, strict) && LogOk(st) && Step(st, Reopen(config, left), st')
    ensures Core(st', strict)
  {
    hide Replayed, Describes, MemOk, LsmRuns.Sorted, SeqnosGrow, TablesOk, Covered, TablesRight, Unlinked, After, Rebuild, Opened, Has, Parse, OpenedLog, EncodeManifest, LogOk, Reached, IdsBelow, Referenced, NextAfter, AllFit, Frame;
    var m := Replayed(st.edits);
    LogRecovers(st);
    ReopenLevels(m, st.files, st.levels, config.maxLevels);
    assert SameLevels(st.levels, st'.levels);
    SameLevelsTables(st.levels, st'.levels, Layers(st), st.writes, st.floor);
    ReopenDisk(m, st.files, left, st.levels, st'.levels);
    OpenedLogSame(st.edits, left, st'.levels);
  }

  /** The snapshot opening may write describes what the long log did. */
  lemma OpenedLogSame(edits: seq<Edit>, files: Files, levels: Levels)
    ensures Replayed(OpenedLog(edits)).live == Replayed(edits).live && Replayed(OpenedLog(edits)).checkpoint == Replayed(edits).checkpoint
    ensures Describes(Replayed(edits), files, levels) ==> Describes(Replayed(OpenedLog(edits)), files, levels)
  {
    hide Replayed, Built, Opened, SnapshotOf, NextAfter;
    var m := Replayed(edits);
    SnapshotOfReplayed(m.live, NextAfter(m.nextId, m.live), m.checkpoint);
  }

  lemma AbandonKeepsCore(st: State, left: Files, st': State, strict: bool)
    requires Core(st, strict) && Step(st, Abandon(left), st')
    ensures Core(st', strict)
  {
    hide Replayed, Describes, MemOk, LsmRuns.Sorted, SeqnosGrow, TablesOk, IdsBelow, Covered, TablesRight;
    var m := Replayed(st.edits);
    NewFile(st, st.phase.id, []);
    forall x | x in m.live ensures x.id in left && (x.id in st.files ==> left[x.id] == st.files[x.id]) {
      DescribedMeta(m, st.files, st.levels, x);
    }
    UnreferencedFiles(m, st.files, left, st.levels);
  }

  lemma AbortOpenKeepsCore(st: State, left: Files, cut: nat, rewritten: bool, st': State, strict: bool)
    requires Core(st, strict) && LogOk(st) && Step(st, AbortOpen(left, cut, rewritten), st')
    ensures Core(st', strict)
  {
    hide Replayed, Describes, MemOk, LsmRuns.Sorted, SeqnosGrow, TablesOk, IdsBelow, Covered, TablesRight, Unlinked, After, Parse, OpenedLog, EncodeManifest, LogOk, Reached, AllFit, Frame;
    LogRecovers(st);
    UnlinkDescribes(Replayed(st.edits), st.files, left, st.levels);
    OpenedLogSame(st.edits, left, st.levels);
  }

  lemma ReopenDisk(m: Manifest, files: Files, left: Files, levels: Levels, levels': Levels)
    requires Describes(m, files, levels) && SameLevels(levels, levels') && Unlinked(m.live, files, left)
    ensures Describes(m, left, levels') && IdsBelow(levels', NextAfter(m.nextId, m.live))
  {
    hide Built, Opened, NextAfter, Unlinked;
    assert Describes(m, files, levels');
    hide Describes, SameLevels, Has;
    UnlinkDescribes(m, files, left, levels');
    forall t | Has(levels', t) ensures t.id < NextAfter(m.nextId, m.live) { DescribedTable(m, files, levels', t); }
  }

  // ---- the manifest file ----------------------------------------------------

  /** From the bytes of the manifest, torn or not, recovery gets exactly the edits. */
  lemma LogRecovers(st: State)
    requires LogOk(st)
    ensures Parse(st.crc, st.log) == Recovered(st.edits, |EncodeManifest(st.crc, st.edits)|)
    ensures |EncodeManifest(st.crc, st.edits)| <= |st.log| && st.log[..|EncodeManifest(st.crc, st.edits)|] == EncodeManifest(st.crc, st.edits)
  {
    hide EncodeManifest, Parse, Interrupted, AllFit;
    var whole := EncodeManifest(st.crc, st.edits);
    assert st.log == whole + st.log[|whole|..];
    TornLogRecovers(st.crc, st.edits, st.log[|whole|..]);
  }

  lemma WholeLogOk(st: State)
    requires AllFit(st.edits) && st.log == EncodeManifest(st.crc, st.edits)
    ensures LogOk(st)
  {
    hide EncodeManifest, AllFit;
    NothingInterrupted(st.crc);
    assert st.log[|st.log|..] == [];
  }

  lemma AppendKeepsLog(crc: Checksum, edits: seq<Edit>, e: Edit)
    requires AllFit(edits) && Fits(e)
    ensures EncodeManifest(crc, edits + [e]) == EncodeManifest(crc, edits) + Frame(crc, e) && AllFit(edits + [e])
  {
    hide Frame, Fits;
    EncodeAppend(crc, edits, [e]);
    assert [e][1..] == [];
    assert EncodeManifest(crc, [e]) == Frame(crc, e) + EncodeManifest(crc, []);
    assert Frame(crc, e) + [] == Frame(crc, e);
  }

  lemma CutInterrupted(crc: Checksum, b: Bytes, n: nat)
    requires Interrupted(crc, b) && n <= |b|
    ensures Interrupted(crc, b[..n])
  {
    hide Frame, Fits;
    if b != [] {
      var e :| Fits(e) && b <= Frame(crc, e) && |b| < |Frame(crc, e)|;
      assert b[..n] <= Frame(crc, e) && |b[..n]| < |Frame(crc, e)|;
    }
  }

  /** Every step keeps the manifest file readable: whole while the engine is up, with
      at most an interrupted append behind the edits while it is down. */
  lemma StepKeepsLog(st: State, e: Event, st': State)
    requires LogOk(st) && Step(st, e, st')
    ensures LogOk(st')
  {
    hide EncodeManifest, Parse, Interrupted, Frame, Fits, Replayed, OpenedLog, SnapshotLog, AllFit, After, Rebuild, Opened, Referenced, Unlinked, PutSlot, LegalJob, TableOk, Highest, AddTable, Apply;
    LogRecovers(st);
    var whole := EncodeManifest(st.crc, st.edits);
    match e
    case CommitFlush(t) => { AppendKeepsLog(st.crc, st.edits, AddMeta(MetaOf(t))); WholeLogOk(st'); }
    case Mark => { AppendKeepsLog(st.crc, st.edits, Checkpoint(st.phase.seqno)); WholeLogOk(st'); }
    case CommitSwap(job, retain, out) => { AppendKeepsLog(st.crc, st.edits, SwapEdit(job, out)); WholeLogOk(st'); }
    case RewriteManifest => WholeLogOk(st');
    case Crash(torn) => {
      if st.phase.Down? { assert st'.log == st.log; } else { assert st'.log[|whole|..] == torn; }
    }
    case AbortOpen(left, cut, rewritten) => {
      if rewritten { WholeLogOk(st'); }
      else {
        CutInterrupted(st.crc, st.log[|whole|..], cut - |whole|);
        assert st'.log[|whole|..] == st.log[|whole|..][..cut - |whole|];
        assert whole <= st'.log;
      }
    }
    case Reopen(config, left) => {
      if |st.edits| <= COMPACT_AFTER_EDITS { ShortLogStays(st.edits); }
      WholeLogOk(st');
    }
    case _ => {}
  }

  lemma ShortLogStays(edits: seq<Edit>)
    requires |edits| <= COMPACT_AFTER_EDITS
    ensures OpenedLog(edits) == edits
  {
    hide Replayed;
  }

  // ---- all steps -----------------------------------------------------------

  lemma InitInv(st: State, strict: bool)
    requires Init(st)
    ensures Inv(st, strict)
  {
    hide TablesRight, TablesOk, Replayed, Describes, IdsBelow, Layered, MemWritten, MemNewest, Covered, LsmRuns.Sorted, SeqnosGrow, LogOk;
    assert EncodeManifest(st.crc, []) == [];
    WholeLogOk(st);
    assert Layers(st) == [[], []];
    assert forall l: nat :: LevelAt(st.levels, l) == [];
    InitTables(st.levels, Layers(st));
    InitReplayed();
    InitDescribes(st.files, st.levels);
    InitMemory(strict);
  }

  lemma InitMemory(strict: bool)
    ensures MemOk([[], []], [], strict) && Covered([[], []], 0) && LsmRuns.Sorted([]) && SeqnosGrow([], strict)
  {
  }

  lemma InitReplayed()
    ensures Replayed([]) == EMPTY_MANIFEST
  {
  }

  lemma InitDescribes(files: Files, levels: Levels)
    requires forall l: nat :: LevelAt(levels, l) == []
    ensures Describes(EMPTY_MANIFEST, files, levels)
  {
  }

  lemma InitTables(levels: Levels, layers: seq<Run>)
    requires levels != [] && forall l: nat :: LevelAt(levels, l) == []
    ensures TablesOk(levels, []) && IdsBelow(levels, 1) && TablesRight(levels, layers, [], 0)
  {
    hide Silent;
    forall k: Bytes, s: nat ensures Right(Search(levels, 0, k, s), NewestWrite([], k, s)) {
      SearchAny(levels, [], 0, |levels|, k, s);
    }
  }

  /** What a run must respect: either globally growing sequence numbers, or no
      crash while a checkpoint covers a write that only memory holds. */
  ghost predicate Respects(st: State, e: Event, strict: bool) {
    if strict then StrictPut(st, e) else e.Crash? ==> Covered(Layers(st), st.checkpoint)
  }

  lemma StepKeepsNarrow(st: State, e: Event, st': State)
    requires Narrow(st.writes) && Step(st, e, st')
    ensures Narrow(st'.writes)
  {
    hide EncodeManifest, Parse, Interrupted, Frame, Fits, Replayed, OpenedLog, SnapshotLog, AllFit, After, Rebuild, Opened, Referenced, Unlinked, PutSlot, LegalJob, TableOk, Highest, AddTable, Apply;
  }

  lemma StepKeepsInv(st: State, e: Event, st': State, strict: bool)
    requires Inv(st, strict) && Step(st, e, st') && Respects(st, e, strict)
    ensures Inv(st', strict)
  {
    hide Step, Core, LogOk, Narrow;
    StepKeepsLog(st, e, st');
    StepKeepsNarrow(st, e, st');
    match e
    case Put(w) => PutKeepsCore(st, w, st', strict);
    case Replay => ReplayKeepsCore(st, st', strict);
    case Rotate => RotateKeepsCore(st, st', strict);
    case StartTable(junk) => StartTableKeepsCore(st, junk, st', strict);
    case CommitFlush(t) => CommitFlushKeepsCore(st, t, st', strict);
    case InstallFlush => InstallFlushKeepsCore(st, st', strict);
    case Mark => MarkKeepsCore(st, st', strict);
    case CommitSwap(job, retain, out) => CommitSwapKeepsCore(st, job, retain, out, st', strict);
    case InstallSwap(left) => InstallSwapKeepsCore(st, left, st', strict);
    case Abandon(left) => AbandonKeepsCore(st, left, st', strict);
    case RewriteManifest => RewriteKeepsCore(st, st', strict);
    case Crash(torn) => { StrictCovered(st, strict); CrashKeepsCore(st, torn, st', strict); }
    case AbortOpen(left, cut, rewritten) => AbortOpenKeepsCore(st, left, cut, rewritten, st', strict);
    case Reopen(config, left) => ReopenKeepsCore(st, config, left, st', strict);
  }

  lemma StrictCovered(st: State, strict: bool)
    requires Core(st, strict)
    ensures strict ==> Covered(Layers(st), st.checkpoint)
  {
    hide MemOk, RunsOk, TablesOk, TablesRight, PhaseOk, DiskOk, IdsBelow, Covered, Reached;
  }
}
