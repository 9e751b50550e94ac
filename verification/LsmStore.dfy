/** The LSM store as its callers use it: an object updated in place, each method
    proved to be a run of the state machine's steps. */
module LsmStore {
  import opened Bytes
  import opened Wrappers
  import opened LsmRuns
  import opened LsmLevels
  import opened LsmCompaction
  import opened LsmCompactionSafety
  import opened LsmManifest
  import opened LsmManifestCodec
  import opened LsmManifestLog
  import opened LsmDisk
  import opened LsmEngine
  import opened LsmMemory
  import opened LsmInvariant
  import opened LsmSteps
  import opened LsmTheorems

  const MAX_FIELD: nat := 64 * 1024 * 1024
  const ENTRY_OVERHEAD: nat := 64

  // ---- size accounting -----------------------------------------------------

  function Charge(e: Entry): nat {
    |e.key| + (if e.slot.Some? then |e.slot.value| else 0) + ENTRY_OVERHEAD
  }

  function RunBytes(r: Run): nat {
    if r == [] then 0 else Charge(r[0]) + RunBytes(r[1..])
  }

  /** The version an insert would replace. */
  function Replaced(r: Run, e: Entry): Option<Entry> {
    if r == [] || Before(e, r[0]) then None else if SameVersion(r[0], e) then Some(r[0]) else Replaced(r[1..], e)
  }

  /** Charging the new entry and refunding a replaced one keeps the count exact. */
  lemma {:induction false} PutSlotBytes(r: Run, e: Entry)
    ensures var was := Replaced(r, e);
            RunBytes(PutSlot(r, e)) == RunBytes(r) + Charge(e) - (if was.Some? then Charge(was.value) else 0)
  {
    hide Less, Charge;
    if r != [] {
      LessIrreflexive(e.key);
      if SameVersion(r[0], e) {
        assert ([e] + r[1..])[1..] == r[1..];
      } else if Before(e, r[0]) {
        assert ([e] + r)[1..] == r;
      } else {
        PutSlotBytes(r[1..], e);
      }
    }
  }

  // ---- which tables a lookup consults --------------------------------------

  function OrderL0(ts: seq<Table>, k: Bytes): seq<Table> {
    if ts == [] then []
    else
      var n := |ts| - 1;
      (if MayContain(ts[n], k) then [ts[n]] else []) + OrderL0(ts[..n], k)
  }

  function OrderFrom(levels: Levels, l: nat, k: Bytes): seq<Table>
    decreases |levels| - l
  {
    if l >= |levels| then []
    else
      var t := FindTable(levels[l], k);
      (if t.Some? then [t.value] else []) + OrderFrom(levels, l + 1, k)
  }

  /** Newest first: L0 in reverse, then one table per deeper level. */
  function Order(levels: Levels, k: Bytes): seq<Table> {
    OrderL0(LevelAt(levels, 0), k) + OrderFrom(levels, 1, k)
  }

  function FirstHit(ts: seq<Table>, k: Bytes, s: nat): Option<Entry> {
    if ts == [] then None
    else
      var hit := FirstVisible(ts[0].entries, k, s);
      if hit.Some? then hit else FirstHit(ts[1..], k, s)
  }

  lemma {:induction false} FirstHitConcat(a: seq<Table>, b: seq<Table>, k: Bytes, s: nat)
    ensures FirstHit(a + b, k, s) == if FirstHit(a, k, s).Some? then FirstHit(a, k, s) else FirstHit(b, k, s)
  {
    if a == [] {
      assert a + b == b;
    } else {
      assert (a + b)[1..] == a[1..] + b;
      FirstHitConcat(a[1..], b, k, s);
    }
  }

  lemma FirstHitOne(t: Table, k: Bytes, s: nat)
    ensures FirstHit([t], k, s) == FirstVisible(t.entries, k, s)
  {
    assert [t][1..] == [];
  }

  lemma {:induction false} OrderL0Search(ts: seq<Table>, k: Bytes, s: nat)
    ensures FirstHit(OrderL0(ts, k), k, s) == SearchL0(ts, k, s)
  {
    hide MayContain, FirstHit;
    if ts == [] {
      assert FirstHit([], k, s) == None by { NoTables(k, s); }
    } else {
      var n := |ts| - 1;
      OrderL0Search(ts[..n], k, s);
      var head := if MayContain(ts[n], k) then [ts[n]] else [];
      FirstHitConcat(head, OrderL0(ts[..n], k), k, s);
      FirstHitOne(ts[n], k, s);
      NoTables(k, s);
    }
  }

  lemma NoTables(k: Bytes, s: nat)
    ensures FirstHit([], k, s) == None
  {
  }

  lemma {:induction false} OrderFromSearch(levels: Levels, l: nat, k: Bytes, s: nat)
    requires l > 0
    ensures FirstHit(OrderFrom(levels, l, k), k, s) == Search(levels, l, k, s)
    decreases |levels| - l
  {
    hide MayContain, FirstHit, FindTable;
    NoTables(k, s);
    if l < |levels| {
      OrderFromSearch(levels, l + 1, k, s);
      var t := FindTable(levels[l], k);
      FirstHitConcat(if t.Some? then [t.value] else [], OrderFrom(levels, l + 1, k), k, s);
      if t.Some? { FirstHitOne(t.value, k, s); }
    }
  }

  /** Trying the listed tables in turn is the level-by-level search. */
  lemma OrderSearch(levels: Levels, k: Bytes, s: nat)
    requires levels != []
    ensures FirstHit(Order(levels, k), k, s) == Search(levels, 0, k, s)
  {
    hide FirstHit, SearchL0, FindTable, OrderL0, OrderFrom;
    OrderL0Search(levels[0], k, s);
    OrderFromSearch(levels, 1, k, s);
    FirstHitConcat(OrderL0(levels[0], k), OrderFrom(levels, 1, k), k, s);
  }

  method LookupOrder(levels: Levels, k: Bytes) returns (out: seq<Table>)
    requires levels != []
    ensures out == Order(levels, k)
  {
    hide FindTable, OrderL0;
    out := OrderNewest(levels[0], k);
    for l := 1 to |levels|
      invariant Order(levels, k) == out + OrderFrom(levels, l, k)
    {
      var t := FindTable(levels[l], k);
      if t.Some? { out := out + [t.value]; }
    }
  }

  method OrderNewest(l0: seq<Table>, k: Bytes) returns (out: seq<Table>)
    ensures out == OrderL0(l0, k)
  {
    hide MayContain, OrderL0;
    out := [];
    assert l0[..|l0|] == l0;
    for i := |l0| downto 0
      invariant OrderL0(l0, k) == out + OrderL0(l0[..i], k)
    {
      OrderL0Step(l0, i, k);
      if MayContain(l0[i], k) { out := out + [l0[i]]; }
    }
    assert l0[..0] == [];
    OrderL0None(k);
  }

  lemma OrderL0None(k: Bytes)
    ensures OrderL0([], k) == []
  {
  }

  lemma OrderL0Step(l0: seq<Table>, i: nat, k: Bytes)
    requires i < |l0|
    ensures OrderL0(l0[..i + 1], k) == (if MayContain(l0[i], k) then [l0[i]] else []) + OrderL0(l0[..i], k)
  {
    hide MayContain;
    assert l0[..i + 1][..i] == l0[..i];
  }

  // ---- whole operations as runs of steps -----------------------------------

  function FlushTable(st: State, bytes: nat): Table
    requires st.frozen != [] && st.frozen[0] != []
  {
    var mem := st.frozen[0];
    Table(st.nextId, 0, mem[0].key, mem[|mem| - 1].key, StatsOf(mem), bytes, mem)
  }

  /** The state after a whole flush. */
  function Flushed(st: State, bytes: nat): State
    requires st.frozen != [] && st.frozen[0] != []
  {
    var t := FlushTable(st, bytes);
    var highest := Highest(st.frozen[0]);
    var added := Appended(st, AddMeta(MetaOf(t))).(frozen := st.frozen[1..], levels := AddTable(st.levels, t), nextId := st.nextId + 1,
                                                   files := st.files[t.id := t.entries]);
    if highest > st.checkpoint then Appended(added, Checkpoint(highest)).(checkpoint := highest) else added
  }

  lemma FlushSteps(st: State, bytes: nat) returns (a: State, b: State, c: State)
    requires st.phase == Ready && st.frozen != [] && st.frozen[0] != [] && LsmRuns.Sorted(st.frozen[0])
    requires Fits(AddMeta(MetaOf(FlushTable(st, bytes)))) && Fits(Checkpoint(Highest(st.frozen[0])))
    ensures Step(st, StartTable([]), a) && Step(a, CommitFlush(FlushTable(st, bytes)), b) && Step(b, InstallFlush, c)
    ensures if c.phase == Ready then c == Flushed(st, bytes) else Step(c, Mark, Flushed(st, bytes))
  {
    hide AddTable, Highest, Before, Frame, Fits, LsmRuns.Sorted, StatsOf, EncodeManifest;
    var t, highest := FlushTable(st, bytes), Highest(st.frozen[0]);
    a := st.(files := st.files[st.nextId := []], nextId := st.nextId + 1, phase := Writing(st.nextId));
    b := Appended(a, AddMeta(MetaOf(t))).(files := a.files[t.id := t.entries], phase := Flushing(t));
    c := b.(frozen := b.frozen[1..], levels := AddTable(b.levels, t),
            phase := if highest > b.checkpoint then Marking(highest) else Ready);
    assert b.files == st.files[t.id := t.entries];
  }

  lemma FrozenRun(st: State, strict: bool)
    requires Inv(st, strict) && st.frozen != []
    ensures st.frozen[0] != [] && LsmRuns.Sorted(st.frozen[0])
  {
    hide MemOk, TablesOk, TablesRight, DiskOk, PhaseOk, Covered, IdsBelow, LsmRuns.Sorted, LogOk;
  }

  lemma HighestFits(st: State, strict: bool)
    requires Inv(st, strict) && st.frozen != []
    ensures Fits(Checkpoint(Highest(st.frozen[0])))
  {
    hide TablesOk, TablesRight, DiskOk, PhaseOk, Covered, IdsBelow, LsmRuns.Sorted, LogOk, Reached, Narrow, Fits, Highest, MemOk, RunsOk;
    InstallCovers(st, strict);
    ReachedNarrow(st.writes, Highest(st.frozen[0]));
  }

  lemma FlushKeepsInv(st: State, bytes: nat, strict: bool)
    requires Inv(st, strict) && st.phase == Ready && st.frozen != [] && st.frozen[0] != []
    requires Fits(AddMeta(MetaOf(FlushTable(st, bytes))))
    ensures Inv(Flushed(st, bytes), strict)
  {
    FrozenRun(st, strict);
    HighestFits(st, strict);
    hide Inv, Step, Flushed;
    var a, b, c := FlushSteps(st, bytes);
    StepKeepsInv(st, StartTable([]), a, strict);
    StepKeepsInv(a, CommitFlush(FlushTable(st, bytes)), b, strict);
    StepKeepsInv(b, InstallFlush, c, strict);
    if c.phase != Ready { StepKeepsInv(c, Mark, Flushed(st, bytes), strict); }
  }

  /** A table was written and its edit refused: the file stays, or goes again. */
  function Abandoned(st: State, content: Run, keep: bool): State {
    st.(nextId := st.nextId + 1, files := if keep then st.files[st.nextId := content] else st.files - {st.nextId})
  }

  lemma AbandonedKeepsInv(st: State, content: Run, keep: bool, strict: bool)
    requires Inv(st, strict) && st.phase == Ready
    ensures Inv(Abandoned(st, content, keep), strict)
  {
    hide Inv;
    var a := st.(files := st.files[st.nextId := content], nextId := st.nextId + 1, phase := Writing(st.nextId));
    StepKeepsInv(st, StartTable(content), a, strict);
    var b := Abandoned(st, content, keep);
    assert st.files[st.nextId := content] - {st.nextId} == st.files - {st.nextId};
    StepKeepsInv(a, Abandon(b.files), b, strict);
  }

  /** The state after a whole compaction, its retired files unlinked. */
  function Swapped(st: State, job: Job, retain: nat, out: Option<Table>): State
    requires job.source + 1 < |st.levels|
  {
    var files := if out.Some? then st.files[out.value.id := out.value.entries] else st.files;
    Appended(st, SwapEdit(job, out)).(levels := Apply(st.levels, job, out), nextId := if out.Some? then st.nextId + 1 else st.nextId,
        files := files - Ids(job.sources + job.targets), floor := Max(st.floor, retain))
  }

  ghost predicate Planned(st: State, job: Job, retain: nat, out: Option<Table>) {
    && LegalJob(st.levels, job) && OutputOk(job, retain, DropsTombstones(st.config, st.levels, job), out)
    && (out.Some? ==> out.value.id == st.nextId)
  }

  lemma SwapKeepsInv(st: State, job: Job, retain: nat, out: Option<Table>, strict: bool)
    requires Inv(st, strict) && st.phase == Ready && Planned(st, job, retain, out) && Fits(SwapEdit(job, out))
    ensures job.source + 1 < |st.levels| && Inv(Swapped(st, job, retain, out), strict)
  {
    hide Inv, OutputOk, LegalJob, DropsTombstones, Apply, SwapEdit, Replayed, Unlinked, Frame, Fits, EncodeManifest, Ids;
    JobRange(st.levels, job);
    var a := st;
    if out.Some? {
      a := st.(files := st.files[st.nextId := []], nextId := st.nextId + 1, phase := Writing(st.nextId));
      StepKeepsInv(st, StartTable([]), a, strict);
    }
    var files := if out.Some? then a.files[out.value.id := out.value.entries] else a.files;
    var b := Appended(a, SwapEdit(job, out)).(files := files, phase := Swapping(job, retain, out));
    StepKeepsInv(a, CommitSwap(job, retain, out), b, strict);
    var left := files - Ids(job.sources + job.targets);
    RetiredUnreferenced(b, strict);
    var c := Swapped(st, job, retain, out);
    assert c.files == left && Step(b, InstallSwap(left), c);
    StepKeepsInv(b, InstallSwap(left), c, strict);
  }

  /** No retired input is live any more, so unlinking all of them is safe. */
  lemma RetiredUnreferenced(st: State, strict: bool)
    requires Inv(st, strict) && st.phase.Swapping?
    ensures Unlinked(Replayed(st.edits).live, st.files, st.files - Ids(st.phase.job.sources + st.phase.job.targets))
  {
    var job, out, m := st.phase.job, st.phase.out, Replayed(st.edits);
    SwappingFacts(st, strict);
    hide Inv, Describes, LevelsOk, IdsOk, LegalJob, OutputOk, Apply, Has, Replayed, TablesOk, TablesRight, IdsBelow;
    forall x | x in m.live && x.id in st.files ensures x.id !in Ids(job.sources + job.targets) {
      DescribedMeta(m, st.files, Apply(st.levels, job, out), x);
      SurvivorId(st.levels, job, out, OpenTable(st.files, x));
    }
  }

  lemma SwappingFacts(st: State, strict: bool)
    requires Inv(st, strict) && st.phase.Swapping?
    ensures var job, out := st.phase.job, st.phase.out;
            && LegalJob(st.levels, job) && LevelsOk(st.levels) && IdsOk(st.levels) && job.source + 1 < |st.levels|
            && Describes(Replayed(st.edits), st.files, Apply(st.levels, job, out))
            && (out.Some? ==> IdsBelow(st.levels, out.value.id) && out.value.level == job.source + 1)
  {
    hide MemOk, RunsOk, TablesRight, Covered, Describes, LevelsOk, IdsOk, LegalJob, OutputOk, Apply, TablesWritten, IdsBelow, Replayed, LogOk, Reached;
    JobRange(st.levels, st.phase.job);
    OutLevel(st.phase.job, st.phase.floor, DropsTombstones(st.config, st.levels, st.phase.job), st.phase.out);
  }

  lemma SurvivorId(levels: Levels, job: Job, out: Option<Table>, t: Table)
    requires LevelsOk(levels) && IdsOk(levels) && LegalJob(levels, job) && job.source + 1 < |levels|
    requires out.Some? ==> out.value.level == job.source + 1 && IdsBelow(levels, out.value.id)
    requires Has(Apply(levels, job, out), t)
    ensures t.id !in Ids(job.sources + job.targets)
  {
    hide LevelsOk, IdsOk, LegalJob, Apply, Without, InsertByMin;
    ApplyAt(levels, job, out, t.level);
    forall g | g in job.sources + job.targets ensures Has(levels, g) { InputHasLevel(levels, job, g); }
    if out != Some(t) { InputId(levels, job, t); }
  }

  lemma InputsUnique(st: State, job: Job, strict: bool)
    requires Inv(st, strict) && LegalJob(st.levels, job)
    ensures Unique(Inputs(job))
  {
    hide DiskOk, RunsOk, PhaseOk, Layered, MemWritten, MemNewest, SeqnosGrow, TablesRight, Covered, LegalJob, LevelsOk, IdsOk, InLevel, Inputs, IdsBelow, Reached, LogOk;
    StrictIsPerKey(st.writes, strict);
    forall a, b | a in Inputs(job) && b in Inputs(job) && SameVersion(a, b) ensures a == b {
      var i := InputInLevel(st.levels, job, a);
      var j := InputInLevel(st.levels, job, b);
      OneVersion(st.writes, a, b);
    }
  }

  // ---- the object ----------------------------------------------------------

  lemma SnapshotFits(metas: seq<Meta>, next: nat, checkpoint: nat)
    requires Fits(Checkpoint(checkpoint))
    ensures AllFit(SnapshotOf(metas, next, checkpoint)) <==> Fits(FullSnapshot(metas, next))
  {
    hide Fits;
    var es := SnapshotOf(metas, next, checkpoint);
    assert es[0] == FullSnapshot(metas, next);
    forall i | 0 < i < |es| ensures Fits(es[i]) {}
  }

  datatype Outcome = Idle | Done | Refused

  class Store {
    var active: Run
    var activeBytes: nat
    var frozen: seq<Run>
    var levels: Levels
    var nextId: nat
    var checkpoint: nat
    var log: Bytes
    var editsWritten: nat
    var files: Files
    const config: Config
    const memtableBytes: nat
    const crc: Checksum

    ghost var edits: seq<Edit>
    ghost var pending: seq<Entry>
    ghost var writes: seq<Entry>
    ghost var floor: nat
    ghost const strict: bool

    ghost function St(): State
      reads this
    {
      State(active, frozen, levels, config, nextId, checkpoint, edits, files, pending, Ready, writes, floor, crc, log)
    }

    ghost predicate Valid()
      reads this
    {
      Inv(St(), strict) && activeBytes == RunBytes(active) && ConfigOk(config) && |levels| >= 2
    }

    /** The store over what was recovered from a crashed one: orphans deleted, the torn
        end of the manifest cut off, a long manifest rewritten, and the owner left with
        the writes above the checkpoint to replay. */
    constructor (down: State, config: Config, memtableBytes: nat, m: Manifest, count: nat, valid: nat, ghost strict: bool)
      requires Inv(down, strict) && down.phase == Down && ConfigOk(config)
      requires Parse(down.crc, down.log).Recovered?
      requires var p := Parse(down.crc, down.log);
               m == Replayed(p.edits) && count == |p.edits| && valid == p.valid && (count > COMPACT_AFTER_EDITS ==> AllFit(OpenedLog(p.edits)))
      ensures Valid() && fresh(this) && this.strict == strict && this.config == config && this.memtableBytes == memtableBytes
      ensures Step(down, Reopen(config, files), St())
      ensures files == down.files - Orphans(down.files, Replayed(down.edits).live)
    {
      hide Replayed, Rebuild, Opened, Describes, After, ApplyEdit, Parse, OpenedLog, LogOk, EncodeManifest;
      LogRecovers(down);
      var orphans := OrphanedFiles(down.files, m.live);
      assert Describes(m, down.files, down.levels) && m.checkpoint == down.checkpoint by {
        hide MemOk, RunsOk, TablesOk, TablesRight, Covered, IdsBelow;
      }
      DescribesReferenced(m, down.files, down.levels);
      OrphanDeletionSafe(m, down.files, down.levels, orphans);
      ReopenLevels(m, down.files, down.levels, config.maxLevels);
      assert down.active == [] && down.frozen == [] by { hide MemOk, RunsOk, TablesOk, TablesRight, Covered, IdsBelow, DiskOk; }
      OpenedIs(down.edits);
      this.config, this.memtableBytes, this.strict, crc := config, memtableBytes, strict, down.crc;
      active, activeBytes, frozen := [], 0, [];
      levels := Rebuild(config.maxLevels, Opened(down.files, m.live));
      nextId, checkpoint := NextAfter(m.nextId, m.live), m.checkpoint;
      editsWritten, files := 0, down.files - orphans;
      log := if count > COMPACT_AFTER_EDITS
             then EncodeManifest(down.crc, SnapshotOf(m.live, NextAfter(m.nextId, m.live), m.checkpoint))
             else down.log[..valid];
      edits := OpenedLog(down.edits);
      pending, writes, floor := After(down.writes, m.checkpoint), down.writes, down.floor;
      new;
      hide Inv, Unlinked;
      assert Step(down, Reopen(config, files), St());
      StepKeepsInv(down, Reopen(config, files), St(), strict);
    }

    /** One version into the active table, then a rotation if it is full. */
    method PutSlotInto(e: Entry, ghost replayed: bool)
      requires Valid()
      requires if replayed then pending != [] && e == pending[0] else
                 pending == [] && FreshVersion(writes, e) && e.seqno < U64_LIMIT && (strict ==> StrictPut(St(), Put(e)))
      modifies this
      ensures Valid()
      ensures writes == (if replayed then old(writes) else old(writes) + [e])
      ensures pending == (if replayed then old(pending)[1..] else old(pending))
      ensures levels == old(levels) && floor == old(floor) && checkpoint == old(checkpoint) && edits == old(edits)
      ensures files == old(files) && log == old(log)
      ensures if RunBytes(PutSlot(old(active), e)) >= memtableBytes && PutSlot(old(active), e) != []
              then active == [] && frozen == old(frozen) + [PutSlot(old(active), e)]
              else active == PutSlot(old(active), e) && frozen == old(frozen)
    {
      hide Inv, PutSlot, RunBytes, Replaced, FreshVersion;
      PutSlotBytes(active, e);
      var previous := Replaced(active, e);
      ghost var before := St();
      active := PutSlot(active, e);
      if previous.Some? { activeBytes := activeBytes - Charge(previous.value) + Charge(e); }
      else { activeBytes := activeBytes + Charge(e); }
      if replayed {
        pending := pending[1..];
        StepKeepsInv(before, Event.Replay, St(), strict);
      } else {
        writes := writes + [e];
        StepKeepsInv(before, Put(e), St(), strict);
      }
      if activeBytes >= memtableBytes { RotateNow(); }
    }

    /** Freezes the active table if it holds anything. */
    method RotateNow()
      requires Valid()
      modifies this
      ensures Valid() && writes == old(writes) && pending == old(pending) && floor == old(floor) && levels == old(levels)
      ensures checkpoint == old(checkpoint) && edits == old(edits) && files == old(files) && log == old(log)
      ensures if old(active) == [] then St() == old(St())
              else active == [] && frozen == old(frozen) + [old(active)] && nextId == old(nextId)
    {
      hide Inv;
      if active == [] { return; }
      ghost var before := St();
      frozen, active, activeBytes := frozen + [active], [], 0;
      StepKeepsInv(before, Rotate, St(), strict);
    }

    method PutValue(key: Bytes, value: Bytes, seqno: nat) returns (ok: bool)
      requires Valid() && seqno < U64_LIMIT && pending == [] && FreshVersion(writes, Entry(key, seqno, Some(value)))
      requires strict ==> StrictPut(St(), Put(Entry(key, seqno, Some(value))))
      modifies this
      ensures Valid() && ok == (|key| <= MAX_FIELD && |value| <= MAX_FIELD)
      ensures !ok ==> St() == old(St())
      ensures ok ==> writes == old(writes) + [Entry(key, seqno, Some(value))] && pending == [] && floor == old(floor)
      ensures ok ==> var now := PutSlot(old(active), Entry(key, seqno, Some(value)));
                     if RunBytes(now) >= memtableBytes && now != [] then active == [] && frozen == old(frozen) + [now]
                     else active == now && frozen == old(frozen)
    {
      hide Inv, PutSlot, RunBytes, FreshVersion;
      ok := |key| <= MAX_FIELD && |value| <= MAX_FIELD;
      if ok { PutSlotInto(Entry(key, seqno, Some(value)), false); }
    }

    method Delete(key: Bytes, seqno: nat) returns (ok: bool)
      requires Valid() && seqno < U64_LIMIT && pending == [] && FreshVersion(writes, Entry(key, seqno, None))
      requires strict ==> StrictPut(St(), Put(Entry(key, seqno, None)))
      modifies this
      ensures Valid() && ok == (|key| <= MAX_FIELD)
      ensures !ok ==> St() == old(St())
      ensures ok ==> writes == old(writes) + [Entry(key, seqno, None)] && pending == [] && floor == old(floor)
      ensures ok ==> var now := PutSlot(old(active), Entry(key, seqno, None));
                     if RunBytes(now) >= memtableBytes && now != [] then active == [] && frozen == old(frozen) + [now]
                     else active == now && frozen == old(frozen)
    {
      hide Inv, PutSlot, RunBytes, FreshVersion;
      ok := |key| <= MAX_FIELD;
      if ok { PutSlotInto(Entry(key, seqno, None), false); }
    }

    /** Layered lookup: `None` has no opinion, `Some(None)` is a tombstone. */
    method Get(k: Bytes, s: nat) returns (r: Option<Option<Bytes>>)
      requires Valid()
      ensures var found := Lookup(St(), k, s);
              r == if found.Some? then Some(found.value.slot) else None
      ensures pending == [] && floor <= s ==>
                (if r.Some? then r.value else None) == Value(NewestWrite(writes, k, s))
    {
      hide Inv, MemLookup, Search, FirstVisible, NewestWrite;
      if pending == [] && floor <= s { LookupRight(St(), strict, k, s); }
      var hit := MemGet(frozen + [active], k, s);
      if hit.Some? { return Some(hit.value.slot); }
      var order := LookupOrder(levels, k);
      OrderSearch(levels, k, s);
      var found := TableGet(order, k, s);
      r := if found.Some? then Some(found.value.slot) else None;
    }

    /** Appends an edit to the manifest and syncs it; the caller has made sure it fits. */
    method Append(e: Edit)
      modifies this`edits, this`log, this`editsWritten
      ensures edits == old(edits) + [e] && log == old(log) + Frame(crc, e)
    {
      hide Frame;
      log, editsWritten := log + Frame(crc, e), editsWritten + 1;
      edits := edits + [e];
    }

    /** Flushes the oldest frozen table into a new L0 table. Refused exactly when the
        table's manifest edit is over the limit; the table file is then an orphan. */
    method FlushOne(bytes: nat) returns (o: Outcome)
      requires Valid()
      modifies this
      ensures Valid() && writes == old(writes) && pending == old(pending) && active == old(active)
      ensures o == Idle <==> old(frozen) == []
      ensures o == Idle ==> St() == old(St())
      ensures o != Idle ==> old(frozen)[0] != [] && (o == Done <==> Fits(AddMeta(MetaOf(FlushTable(old(St()), bytes)))))
      ensures o == Done ==> St() == Flushed(old(St()), bytes)
      ensures o == Refused ==> St() == Abandoned(old(St()), old(frozen)[0], true)
    {
      hide AddTable, Highest, RunBytes, Inv, Flushed, Fits, Frame, Abandoned;
      if frozen == [] { return Idle; }
      ghost var before := St();
      FrozenRun(before, strict);
      var mem := frozen[0];
      var t := Table(nextId, 0, mem[0].key, mem[|mem| - 1].key, StatsOf(mem), bytes, mem);
      if !Fits(AddMeta(MetaOf(t))) {
        nextId, files := nextId + 1, files[t.id := t.entries];
        AbandonedKeepsInv(before, mem, true, strict);
        AbandonedFields(before, mem, true);
        return Refused;
      }
      CommitTable(t, bytes);
      o := Done;
    }

    /** Makes a written table durable and visible. */
    method CommitTable(t: Table, ghost bytes: nat)
      requires Valid() && frozen != [] && frozen[0] != [] && t == FlushTable(St(), bytes) && Fits(AddMeta(MetaOf(t)))
      modifies this
      ensures Valid() && St() == Flushed(old(St()), bytes)
      ensures writes == old(writes) && pending == old(pending) && active == old(active)
    {
      hide AddTable, Highest, RunBytes, Inv, Flushed, Fits, Frame;
      ghost var before := St();
      FlushKeepsInv(before, bytes, strict);
      FlushedFields(before, bytes);
      var highest := Highest(frozen[0]);
      InstallTable(t);
      if highest > checkpoint { SetCheckpoint(highest); }
      assert St() == Flushed(before, bytes);
    }

    /** The manifest edit of a written table, then the in-memory switch. */
    method InstallTable(t: Table)
      requires frozen != []
      modifies this`frozen, this`levels, this`nextId, this`files, this`edits, this`log, this`editsWritten
      ensures frozen == old(frozen)[1..] && levels == AddTable(old(levels), t) && nextId == old(nextId) + 1
      ensures files == old(files)[t.id := t.entries]
      ensures edits == old(edits) + [AddMeta(MetaOf(t))] && log == old(log) + Frame(crc, AddMeta(MetaOf(t)))
    {
      hide AddTable, Frame;
      nextId, files := nextId + 1, files[t.id := t.entries];
      Append(AddMeta(MetaOf(t)));
      frozen, levels := frozen[1..], AddTable(levels, t);
    }

    /** Records that everything up to `seqno` is durable in the tables. */
    method SetCheckpoint(seqno: nat)
      requires seqno > checkpoint
      modifies this`edits, this`log, this`editsWritten, this`checkpoint
      ensures edits == old(edits) + [Checkpoint(seqno)] && log == old(log) + Frame(crc, Checkpoint(seqno)) && checkpoint == seqno
    {
      Append(Checkpoint(seqno));
      checkpoint := seqno;
    }

    /** Flushes frozen tables, oldest first, until none is left or one is refused. */
    method FlushAll(sizes: seq<nat>) returns (n: nat, ok: bool)
      requires Valid() && |sizes| >= |frozen|
      modifies this
      ensures Valid() && n + |frozen| == old(|frozen|) && (ok <==> frozen == [])
      ensures frozen == old(frozen)[n..] && writes == old(writes) && active == old(active)
    {
      hide Inv, Flushed, RunBytes, Fits, Abandoned;
      n := 0;
      while frozen != []
        invariant Valid() && n + |frozen| == old(|frozen|) && frozen == old(frozen)[n..] && writes == old(writes) && active == old(active)
        decreases |frozen|
      {
        ghost var before := St();
        var o := FlushOne(sizes[n]);
        if o == Refused {
          AbandonedFields(before, before.frozen[0], true);
          return n, false;
        }
        FlushedShrinks(before, sizes[n]);
        n := n + 1;
      }
      ok := true;
    }

    /** Compacts the most urgent level, if any is over budget. `ok` is false when the swap's
        manifest edit is over the limit, and nothing but the table counter moves, or
        when the swap is done and the manifest rewrite after it is over the limit. */
    method CompactOnce(retain: nat, bytes: nat) returns (job: Option<Job>, ok: bool)
      requires Valid()
      modifies this
      ensures Valid() && writes == old(writes) && pending == old(pending)
      ensures job.None? ==> ok && St() == old(St())
      ensures job.None? <==> forall l | 0 <= l < |old(levels)| - 1 :: !Due(config, old(levels), l)
      ensures job.Some? ==> job.value.source + 1 < |old(levels)| && Due(config, old(levels), job.value.source)
      ensures job.Some? ==> MostUrgent(config, old(levels), job.value.source) && TakesTables(old(levels), job.value)
      ensures job.Some? ==> job.value.source + 1 < |old(levels)| && exists out :: Compacts(old(St()), St(), job.value, retain, out, ok)
    {
      hide Due, MostUrgent, TakesTables, Inv, RunBytes, LegalJob, Score, OutputOk, Swapped, TableOk, IsMerge, Apply, HasDataBelow, SwapEdit, Fits;
      job := PickCompaction(config, levels);
      if job.None? { return job, true; }
      var j := job.value;
      JobRange(levels, j);
      var out := MergeInputs(j, retain, bytes);
      ghost var before := St();
      if !Fits(SwapEdit(j, out)) {
        if out.Some? {
          AbandonedKeepsInv(before, out.value.entries, false, strict);
          files, nextId := files - {nextId}, nextId + 1;
        }
        ok := false;
      } else {
        ok := Install(j, retain, out);
      }
      assert Compacts(before, St(), j, retain, out, ok);
    }

    /** The merged output of a job, if anything is left of its inputs. */
    method MergeInputs(j: Job, retain: nat, bytes: nat) returns (out: Option<Table>)
      requires Valid() && LegalJob(levels, j)
      ensures Planned(St(), j, retain, out)
    {
      hide Inv, RunBytes, LegalJob, OutputOk, IsMerge, HasDataBelow, Winners, Flatten;
      JobRange(levels, j);
      InputsUnique(St(), j, strict);
      var drop := DropsTombstones(config, levels, j);
      var merged := MergeRuns(Runs(j.sources + j.targets), retain, drop);
      UniqueMerge(Inputs(j), retain, drop, merged);
      out := None;
      if merged != [] {
        out := Some(Table(nextId, j.source + 1, merged[0].key, merged[|merged| - 1].key, StatsOf(merged), bytes, merged));
      }
      PlannedOutput(j, retain, drop, out, merged);
    }

    /** Makes a finished compaction durable and visible. */
    method Install(j: Job, retain: nat, out: Option<Table>) returns (ok: bool)
      requires Valid() && Planned(St(), j, retain, out) && j.source + 1 < |levels| && Fits(SwapEdit(j, out))
      modifies this
      ensures Valid() && writes == old(writes) && pending == old(pending)
      ensures Rest(St()) == Rest(Swapped(old(St()), j, retain, out))
    {
      hide RunBytes, Apply, SwapEdit, Inv, Planned, Swapped, SnapshotLog, Ids, Fits, Frame;
      ghost var before := St();
      SwapKeepsInv(before, j, retain, out, strict);
      SwappedFields(before, j, retain, out);
      InstallSwapped(j, retain, out);
      assert St() == Swapped(before, j, retain, out);
      ok := MaybeCompactManifest();
    }

    /** The manifest edit of a swap, then the in-memory switch, then the unlinking. */
    method InstallSwapped(j: Job, ghost retain: nat, out: Option<Table>)
      requires j.source + 1 < |levels|
      modifies this`levels, this`nextId, this`files, this`floor, this`edits, this`log, this`editsWritten
      ensures levels == Apply(old(levels), j, out) && nextId == (if out.Some? then old(nextId) + 1 else old(nextId))
      ensures files == (if out.Some? then old(files)[out.value.id := out.value.entries] else old(files)) - Ids(j.sources + j.targets)
      ensures floor == Max(old(floor), retain)
      ensures edits == old(edits) + [SwapEdit(j, out)] && log == old(log) + Frame(crc, SwapEdit(j, out))
    {
      hide Apply, SwapEdit, Ids, Frame;
      if out.Some? {
        nextId := nextId + 1;
        files := files[out.value.id := out.value.entries];
      }
      Append(SwapEdit(j, out));
      levels := Apply(levels, j, out);
      files := files - Ids(j.sources + j.targets);
      floor := Max(floor, retain);
    }

    /** Rewrites a long manifest as one snapshot, unless the snapshot is over the limit. */
    method MaybeCompactManifest() returns (ok: bool)
      requires Valid()
      modifies this`edits, this`log, this`editsWritten
      ensures Valid()
      ensures ok <==> old(editsWritten) < COMPACT_AFTER_EDITS || Fits(FullSnapshot(MetasOf(AllTables(levels)), nextId))
      ensures St() == if ok && old(editsWritten) >= COMPACT_AFTER_EDITS
                      then Rewritten(old(St()), SnapshotLog(levels, nextId, checkpoint)) else old(St())
    {
      hide RunBytes, Inv, SnapshotOf, AllTables, Fits, EncodeManifest;
      if editsWritten < COMPACT_AFTER_EDITS { return true; }
      var metas := MetasOf(AllTables(levels));
      if !Fits(FullSnapshot(metas, nextId)) { return false; }
      ghost var grown := St();
      CheckpointStaysNarrow(grown, strict);
      SnapshotFits(metas, nextId, checkpoint);
      log, editsWritten := EncodeManifest(crc, SnapshotLog(levels, nextId, checkpoint)), 0;
      edits := SnapshotLog(levels, nextId, checkpoint);
      StepKeepsInv(grown, RewriteManifest, St(), strict);
      ok := true;
    }
  }

  lemma CheckpointStaysNarrow(st: State, strict: bool)
    requires Inv(st, strict)
    ensures Fits(Checkpoint(st.checkpoint))
    ensures st.phase.Down? ==> Replayed(st.edits).checkpoint == st.checkpoint
  {
    hide TablesOk, TablesRight, PhaseOk, Covered, IdsBelow, LogOk, Reached, Narrow, Fits, MemOk, RunsOk, Describes, Replayed;
    ReachedNarrow(st.writes, st.checkpoint);
  }

  /** Everything but the manifest. */
  function Rest(st: State): State {
    st.(edits := [], log := [])
  }

  /** What a planned compaction does, depending on whether its edit fits. */
  ghost predicate Compacts(was: State, now: State, job: Job, retain: nat, out: Option<Table>, ok: bool)
    requires job.source + 1 < |was.levels|
  {
    && Planned(was, job, retain, out)
    && if Fits(SwapEdit(job, out)) then Rest(now) == Rest(Swapped(was, job, retain, out))
       else !ok && now == if out.Some? then Abandoned(was, out.value.entries, false) else was
  }

  /** Opens what a crash left behind. The manifest file is never found corrupt; opening
      is refused exactly for a bad configuration, or for a manifest too long to keep
      and too big to rewrite. */
  method OpenStore(down: State, config: Config, memtableBytes: nat, ghost strict: bool) returns (store: Store?)
    requires Inv(down, strict) && down.phase == Down
    ensures store != null <==> ConfigOk(config) && (|down.edits| > COMPACT_AFTER_EDITS ==> AllFit(OpenedLog(down.edits)))
    ensures store != null ==> fresh(store) && store.Valid() && store.strict == strict && store.config == config
    ensures store != null ==> Step(down, Reopen(config, store.files), store.St())
    ensures store != null ==> store.files == down.files - Orphans(down.files, Replayed(down.edits).live)
  {
    hide Step, Core, Parse, Replayed, OpenedLog, LogOk, EncodeManifest, Fits, NextAfter;
    if config.maxLevels < 2 || config.l0Trigger == 0 { return null; }
    LogRecovers(down);
    var r := Recover(down.crc, down.log);
    if r.None? { return null; }
    var (m, count, valid) := r.value;
    OpenedIs(down.edits);
    if count > COMPACT_AFTER_EDITS {
      CheckpointStaysNarrow(down, strict);
      SnapshotFits(m.live, NextAfter(m.nextId, m.live), m.checkpoint);
      if !Fits(FullSnapshot(m.live, NextAfter(m.nextId, m.live))) { return null; }
    }
    store := new Store(down, config, memtableBytes, m, count, valid, strict);
  }

  /** What opening finds in a directory that holds nothing yet. */
  function EmptyDisk(crc: Checksum, config: Config): State {
    State([], [], seq(config.maxLevels, _ => []), config, 1, 0, [], map[], [], Down, [], 0, crc, [])
  }

  lemma EmptyDiskInv(crc: Checksum, config: Config, strict: bool)
    requires ConfigOk(config)
    ensures Inv(EmptyDisk(crc, config), strict)
  {
    hide Inv, Core, LogOk;
    var st, down := EmptyDisk(crc, config).(phase := Ready), EmptyDisk(crc, config);
    InitInv(st, strict);
    NothingCovered(st);
    NothingInterrupted(crc);
    assert Step(st, Crash([]), down);
    StepKeepsInv(st, Crash([]), down, strict);
  }

  lemma NothingCovered(st: State)
    requires st.frozen == [] && st.active == [] && st.pending == []
    ensures Covered(Layers(st), st.checkpoint)
  {
  }

  /** Opening an empty directory gives an empty store; only a bad configuration is
      refused. */
  method CreateStore(crc: Checksum, config: Config, memtableBytes: nat, ghost strict: bool) returns (store: Store?)
    ensures store != null <==> ConfigOk(config)
    ensures store != null ==> fresh(store) && store.Valid() && store.strict == strict && store.config == config
    ensures store != null ==> store.writes == [] && store.pending == [] && store.floor == 0
  {
    hide Inv, Step;
    if config.maxLevels < 2 || config.l0Trigger == 0 { return null; }
    EmptyDiskInv(crc, config, strict);
    store := OpenStore(EmptyDisk(crc, config), config, memtableBytes, strict);
    OpenedEmpty(crc, config, store.files, store.St());
  }

  lemma OpenedEmpty(crc: Checksum, config: Config, left: Files, up: State)
    requires Step(EmptyDisk(crc, config), Reopen(config, left), up)
    ensures up.writes == [] && up.pending == [] && up.floor == 0
  {
    hide Parse, Rebuild, Opened, Replayed, OpenedLog, EncodeManifest;
  }

  lemma OpenedIs(edits: seq<Edit>)
    ensures var m := Replayed(edits);
            OpenedLog(edits) == if |edits| > COMPACT_AFTER_EDITS then SnapshotOf(m.live, NextAfter(m.nextId, m.live), m.checkpoint) else edits
  {
    hide Replayed;
  }

  lemma AbandonedFields(st: State, content: Run, keep: bool)
    ensures var r := Abandoned(st, content, keep);
            r.frozen == st.frozen && r.active == st.active && r.writes == st.writes
            && r == st.(nextId := st.nextId + 1, files := if keep then st.files[st.nextId := content] else st.files - {st.nextId})
  {
  }

  lemma FlushedShrinks(st: State, bytes: nat)
    requires st.frozen != []
    ensures st.frozen[0] != [] ==> var r := Flushed(st, bytes);
              r.frozen == st.frozen[1..] && r.active == st.active && r.writes == st.writes
  {
    hide AddTable, Highest;
  }

  /** What a flush leaves: one table fewer to flush and one more at the new end of L0, and a
      checkpoint that covers exactly what was flushed and what was covered before. */
  lemma FlushedMeans(st: State, bytes: nat, strict: bool)
    requires Inv(st, strict) && st.phase == Ready && st.frozen != [] && st.frozen[0] != []
    ensures var now, t := Flushed(st, bytes), FlushTable(st, bytes);
            && now.frozen == st.frozen[1..] && now.active == st.active && now.writes == st.writes
            && t.entries == st.frozen[0] && LevelAt(now.levels, 0) == LevelAt(st.levels, 0) + [t]
            && (forall l: nat | l > 0 :: LevelAt(now.levels, l) == LevelAt(st.levels, l))
            && now.checkpoint >= st.checkpoint && (forall e | e in st.frozen[0] :: e.seqno <= now.checkpoint)
            && (now.checkpoint == st.checkpoint || exists e :: e in st.frozen[0] && e.seqno == now.checkpoint)
  {
    FlushedFields(st, bytes);
    FrozenWritten(st, strict);
    hide AddTable, Highest, Lowest, Flushed, Inv, Frame;
    SeqnoBounds(st.frozen[0]);
    forall l: nat { AddTableAt(st.levels, FlushTable(st, bytes), l); }
  }

  lemma FrozenWritten(st: State, strict: bool)
    requires Inv(st, strict) && st.frozen != []
    ensures forall e | e in st.frozen[0] :: e.seqno < U64_LIMIT
  {
    hide RunsOk, TablesOk, TablesRight, DiskOk, PhaseOk, Covered, IdsBelow, LogOk, Reached, Layered, MemNewest, SeqnosGrow, InMem;
    forall e | e in st.frozen[0] ensures e.seqno < U64_LIMIT { FirstInMem(Layers(st), e); }
  }

  lemma FlushedFields(st: State, bytes: nat)
    requires st.frozen != [] && st.frozen[0] != [] && st.phase == Ready
    ensures var t, highest := FlushTable(st, bytes), Highest(st.frozen[0]);
            var edits, log := st.edits + [AddMeta(MetaOf(t))], st.log + Frame(st.crc, AddMeta(MetaOf(t)));
            && |AddTable(st.levels, t)| >= |st.levels|
            && Flushed(st, bytes) == State(st.active, st.frozen[1..], AddTable(st.levels, t), st.config, st.nextId + 1,
                 if highest > st.checkpoint then highest else st.checkpoint,
                 if highest > st.checkpoint then edits + [Checkpoint(highest)] else edits,
                 st.files[t.id := t.entries], st.pending, Ready, st.writes, st.floor, st.crc,
                 if highest > st.checkpoint then log + Frame(st.crc, Checkpoint(highest)) else log)
  {
    hide AddTable, Highest, Frame;
    AddTableAt(st.levels, FlushTable(st, bytes), 0);
  }

  lemma SwappedFields(st: State, j: Job, retain: nat, out: Option<Table>)
    requires Planned(st, j, retain, out) && st.phase == Ready
    ensures j.source + 1 < |st.levels|
    ensures var files := if out.Some? then st.files[out.value.id := out.value.entries] else st.files;
            && |Apply(st.levels, j, out)| == |st.levels|
            && Swapped(st, j, retain, out) == State(st.active, st.frozen, Apply(st.levels, j, out), st.config,
                 if out.Some? then st.nextId + 1 else st.nextId, st.checkpoint, st.edits + [SwapEdit(j, out)],
                 files - Ids(j.sources + j.targets), st.pending, Ready, st.writes, Max(st.floor, retain), st.crc,
                 st.log + Frame(st.crc, SwapEdit(j, out)))
  {
    hide LegalJob, OutputOk, DropsTombstones, Apply, SwapEdit, Frame;
    JobRange(st.levels, j);
    OutLevel(j, retain, DropsTombstones(st.config, st.levels, j), out);
    ApplyAt(st.levels, j, out, 0);
  }

  lemma PlannedOutput(j: Job, retain: nat, drop: bool, out: Option<Table>, merged: Run)
    requires IsMerge(Inputs(j), retain, drop, merged)
    requires out.None? <==> merged == []
    requires out.Some? ==> out.value.entries == merged && out.value.level == j.source + 1 && out.value.stats == StatsOf(merged)
    requires out.Some? ==> out.value.minKey == merged[0].key && out.value.maxKey == merged[|merged| - 1].key
    ensures OutputOk(j, retain, drop, out)
  {
    hide Inputs, Keeps, StatsOf;
  }

  /** Newest layer first. */
  method MemGet(layers: seq<Run>, k: Bytes, s: nat) returns (hit: Option<Entry>)
    ensures hit == MemLookup(layers, k, s)
  {
    hide FirstVisible;
    assert layers[..|layers|] == layers;
    for i := |layers| downto 0
      invariant MemLookup(layers, k, s) == MemLookup(layers[..i], k, s)
    {
      assert layers[..i + 1][..i] == layers[..i];
      hit := FirstVisible(layers[i], k, s);
      if hit.Some? { return; }
    }
    hit := None;
  }

  /** First definitive answer wins. */
  method TableGet(order: seq<Table>, k: Bytes, s: nat) returns (hit: Option<Entry>)
    ensures hit == FirstHit(order, k, s)
  {
    hide FirstVisible;
    for i := 0 to |order|
      invariant FirstHit(order, k, s) == FirstHit(order[i..], k, s)
    {
      assert order[i..][1..] == order[i + 1..];
      hit := FirstVisible(order[i].entries, k, s);
      if hit.Some? { return; }
    }
    hit := None;
  }
}
