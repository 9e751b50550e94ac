/** What the LSM store promises over every run. */
module LsmTheorems {
  import opened Bytes
  import opened Wrappers
  import opened LsmRuns
  import opened LsmLevels
  import opened LsmCompaction
  import opened LsmCompactionSafety
  import opened LsmManifest
  import opened LsmManifestCodec
  import opened LsmManifestLog
  import opened LsmDisk
  import opened LsmEngine
  import opened LsmMemory
  import opened LsmInvariant
  import opened LsmSteps

  /** A run in which either all sequence numbers grow from one, or no crash
      happens while the checkpoint covers a write only memory holds. */
  ghost predicate GoodRun(states: seq<State>, events: seq<Event>, strict: bool) {
    IsRun(states, events) && forall i | 0 <= i < |events| :: Respects(states[i], events[i], strict)
  }

  lemma {:induction false} InvAlways(states: seq<State>, events: seq<Event>, strict: bool, n: nat)
    requires GoodRun(states, events, strict) && n < |states|
    ensures Inv(states[n], strict)
  {
    hide Inv, Step, Respects, Init;
    if n == 0 {
      InitInv(states[0], strict);
    } else {
      InvAlways(states, events, strict, n - 1);
      StepKeepsInv(states[n - 1], events[n - 1], states[n], strict);
    }
  }

  /** Reads in a state that satisfies the invariant. */
  lemma LookupRight(st: State, strict: bool, k: Bytes, s: nat)
    requires Inv(st, strict) && st.pending == [] && st.floor <= s
    ensures Right(Lookup(st, k, s), NewestWrite(st.writes, k, s))
  {
    hide DiskOk, PhaseOk, TablesOk, IdsBelow, Covered, InMem, Layered, SeqnosGrow, LsmRuns.Sorted, MemWritten, MemNewest, MemLookup, Reached, NewestWrite, Search, Visible;
    var layers := st.frozen + [st.active];
    assert Layers(st) == layers + [[]];
    forall x ensures InMem(layers, x) <==> InMem(Layers(st), x) {
      InMemLast(Layers(st), x);
      assert Layers(st)[..|layers|] == layers;
    }
    LayeredSnoc(layers, [], strict);
    MemLookupHit(layers, k, s, strict);
    var hit := MemLookup(layers, k, s);
    if hit.Some? {
      StrictIsPerKey(st.writes, strict);
      MemoryIsNewest(Layers(st), st.writes, k, s, hit.value);
    } else {
      assert Silent(Layers(st), k, s);
    }
  }

  /** Whatever was rotated, flushed, compacted, crashed and reopened before, a
      read at or above the largest retain floor is the newest write. */
  lemma ReadsNewestWrite(states: seq<State>, events: seq<Event>, strict: bool, n: nat, k: Bytes, s: nat)
    requires GoodRun(states, events, strict) && n < |states| && states[n].pending == [] && states[n].floor <= s
    ensures Value(Lookup(states[n], k, s)) == Value(NewestWrite(states[n].writes, k, s))
  {
    hide GoodRun, Inv, Lookup, NewestWrite;
    InvAlways(states, events, strict, n);
    LookupRight(states[n], strict, k, s);
  }

  /** Levels below L0 stay sorted and disjoint. */
  lemma LevelsStayDisjoint(states: seq<State>, events: seq<Event>, strict: bool, n: nat, l: nat, i: nat, j: nat)
    requires GoodRun(states, events, strict) && n < |states|
    requires 0 < l && i < j < |LevelAt(states[n].levels, l)|
    ensures Less(LevelAt(states[n].levels, l)[i].maxKey, LevelAt(states[n].levels, l)[j].minKey)
  {
    hide GoodRun, DiskOk, PhaseOk, MemOk, RunsOk, TablesRight, IdsBelow, IdsOk, TablesWritten, Covered, TableOk, Reached;
    InvAlways(states, events, strict, n);
    assert LevelOk(states[n].levels, l);
  }

  /** After a crash at any step the manifest file is readable and every table it names
      is on disk and complete. The store opens again if and only if the configuration
      is valid and the manifest is short enough to keep or small enough to rewrite. */
  lemma ReopenEnabled(st: State, strict: bool, config: Config)
    requires Inv(st, strict) && st.phase == Down
    ensures Parse(st.crc, st.log) == Recovered(st.edits, |EncodeManifest(st.crc, st.edits)|)
    ensures forall x | x in Replayed(st.edits).live :: x.id in st.files && TableOk(OpenTable(st.files, x))
    ensures (exists st' :: Step(st, Reopen(config, st.files), st')) <==>
            ConfigOk(config) && (|st.edits| > COMPACT_AFTER_EDITS ==> AllFit(OpenedLog(st.edits)))
  {
    hide MemOk, RunsOk, TablesRight, IdsBelow, IdsOk, TablesWritten, Covered, Replayed, Describes, TableOk, Has, Rebuild, LogOk, Parse, EncodeManifest, OpenedLog;
    var m := Replayed(st.edits);
    LogRecovers(st);
    forall x | x in m.live ensures x.id in st.files && TableOk(OpenTable(st.files, x)) {
      DescribedMeta(m, st.files, st.levels, x);
      HasOk(st.levels, OpenTable(st.files, x));
    }
    assert Referenced(st.files, m.live) by { DescribesReferenced(m, st.files, st.levels); }
    if ConfigOk(config) && (|st.edits| > COMPACT_AFTER_EDITS ==> AllFit(OpenedLog(st.edits))) {
      var p := Parse(st.crc, st.log);
      var st' := st.(levels := Rebuild(config.maxLevels, Opened(st.files, m.live)), config := config,
                     nextId := NextAfter(m.nextId, m.live), checkpoint := m.checkpoint, files := st.files,
                     pending := After(st.writes, m.checkpoint), phase := Ready, edits := OpenedLog(st.edits),
                     log := if |st.edits| > COMPACT_AFTER_EDITS then EncodeManifest(st.crc, OpenedLog(st.edits)) else st.log[..p.valid]);
      assert Step(st, Reopen(config, st.files), st');
    }
  }

  lemma DescribesReferenced(m: Manifest, files: Files, levels: Levels)
    requires Describes(m, files, levels)
    ensures Referenced(files, m.live)
  {
  }

  lemma HasOk(levels: Levels, t: Table)
    requires LevelsOk(levels) && Has(levels, t)
    ensures TableOk(t)
  {
    hide TableOk, Disjoint;
    assert LevelOk(levels, t.level);
    var i :| 0 <= i < |LevelAt(levels, t.level)| && LevelAt(levels, t.level)[i] == t;
  }

  /** A crash in the middle of a flush or compaction, torn append included, and the
      reopening after it give the layout just before or just after the manifest edit,
      L0 order included. */
  lemma CrashKeepsLayout(st: State, torn: Bytes, down: State, config: Config, left: Files, up: State, strict: bool, l: nat)
    requires Inv(st, strict) && Step(st, Crash(torn), down) && Step(down, Reopen(config, left), up)
    ensures LevelAt(up.levels, l) == LevelAt(Durable(st), l)
    ensures !st.phase.Flushing? && !st.phase.Swapping? ==> LevelAt(up.levels, l) == LevelAt(st.levels, l)
  {
    ReopenedFacts(st, torn, down, config, left, up, strict);
    hide Inv, Step, AddTable, Apply;
  }

  /** What a crash and a reopening leave of a state, whatever the checkpoint covered. */
  lemma ReopenedFacts(st: State, torn: Bytes, down: State, config: Config, left: Files, up: State, strict: bool)
    requires Inv(st, strict) && Step(st, Crash(torn), down) && Step(down, Reopen(config, left), up)
    ensures up.active == [] && up.frozen == [] && up.writes == st.writes && up.pending == After(st.writes, st.checkpoint)
    ensures |up.levels| >= 2 && (forall l: nat :: LevelAt(up.levels, l) == LevelAt(Durable(st), l))
    ensures up.floor == if st.phase.Swapping? then Max(st.floor, st.phase.floor) else st.floor
  {
    hide Inv, Step, Describes, Replayed, After, Durable;
    CrashedFacts(st, torn, down, strict);
    RebuiltFacts(down, config, left, up);
  }

  lemma CrashedFacts(st: State, torn: Bytes, down: State, strict: bool)
    requires Inv(st, strict) && Step(st, Crash(torn), down)
    ensures LogOk(down) && down.edits == st.edits && down.files == st.files && down.levels == Durable(st)
    ensures down.active == [] && down.frozen == [] && down.writes == st.writes
    ensures down.floor == if st.phase.Swapping? then Max(st.floor, st.phase.floor) else st.floor
    ensures Describes(Replayed(st.edits), st.files, down.levels) && Replayed(st.edits).checkpoint == st.checkpoint
  {
    hide MemOk, RunsOk, TablesOk, TablesRight, IdsBelow, Covered, Replayed, Describes, AddTable, Apply, After, PhaseOk, Reached, LogOk, Interrupted;
    StepKeepsLog(st, Crash(torn), down);
  }

  lemma RebuiltFacts(down: State, config: Config, left: Files, up: State)
    requires LogOk(down) && Describes(Replayed(down.edits), down.files, down.levels) && Step(down, Reopen(config, left), up)
    ensures up.active == down.active && up.frozen == down.frozen && up.writes == down.writes && up.floor == down.floor
    ensures up.pending == After(down.writes, Replayed(down.edits).checkpoint)
    ensures |up.levels| >= 2 && forall l: nat :: LevelAt(up.levels, l) == LevelAt(down.levels, l)
  {
    hide LogOk, Describes, Replayed, Rebuild, Opened, After, Parse, OpenedLog, EncodeManifest, Unlinked;
    LogRecovers(down);
    ReopenLevels(Replayed(down.edits), down.files, down.levels, config.maxLevels);
  }

  // ---- orphans -------------------------------------------------------------

  /** Files no live table refers to. */
  function Orphans(files: Files, live: seq<Meta>): set<nat> {
    files.Keys - set m | m in live :: m.id
  }

  method OrphanedFiles(files: Files, live: seq<Meta>) returns (orphans: set<nat>)
    ensures orphans == Orphans(files, live)
    ensures forall m | m in live :: m.id !in orphans
  {
    var referenced: set<nat> := {};
    for i := 0 to |live|
      invariant referenced == set m | m in live[..i] :: m.id
    {
      assert live[..i + 1] == live[..i] + [live[i]];
      referenced := referenced + {live[i].id};
    }
    assert live[..|live|] == live;
    orphans := files.Keys - referenced;
  }

  /** Deleting any of the orphans leaves every live table as it was. */
  lemma OrphanDeletionSafe(m: Manifest, files: Files, levels: Levels, gone: set<nat>)
    requires Describes(m, files, levels) && gone <= Orphans(files, m.live)
    ensures Unlinked(m.live, files, files - gone) && Describes(m, files - gone, levels)
  {
    hide Describes;
    UnlinkDescribes(m, files, files - gone, levels);
  }

  // ---- where the checkpoint is wrong ---------------------------------------

  /** A run's writes replayed into a memory table. */
  function PutAll(r: Run, es: seq<Entry>): Run
    decreases |es|
  {
    if es == [] then r else PutAll(PutSlot(r, es[0]), es[1..])
  }

  /** The store once the owner has replayed everything it had to. */
  function Recalled(up: State): State {
    up.(active := PutAll(up.active, up.pending), pending := [])
  }

  /** Replay steps lead there. */
  lemma {:induction false} ReplayRun(up: State) returns (states: seq<State>)
    requires up.phase == Ready
    ensures |states| == |up.pending| + 1 && states[0] == up && states[|up.pending|] == Recalled(up)
    ensures forall i | 0 <= i < |up.pending| :: Step(states[i], Replay, states[i + 1])
    decreases |up.pending|
  {
    hide PutSlot;
    if up.pending == [] {
      states := [up];
    } else {
      var next := up.(active := PutSlot(up.active, up.pending[0]), pending := up.pending[1..]);
      var rest := ReplayRun(next);
      states := [up] + rest;
      forall i | 0 <= i < |up.pending| ensures Step(states[i], Replay, states[i + 1]) {
        if i > 0 { assert states[i] == rest[i - 1] && states[i + 1] == rest[i]; }
      }
    }
  }

  lemma {:induction false} PutAllMembers(r: Run, es: seq<Entry>)
    requires LsmRuns.Sorted(r) && SeqnosGrow(es, false)
    requires forall a, b | a in r && b in es && a.key == b.key :: a.seqno < b.seqno
    ensures LsmRuns.Sorted(PutAll(r, es)) && forall x :: x in PutAll(r, es) <==> x in r || x in es
    decreases |es|
  {
    hide LsmRuns.Sorted, PutSlot;
    if es != [] {
      assert es[0] in es;
      PushMembers(r, [], es[0]);
      var r', rest := PutSlot(r, es[0]), es[1..];
      forall a, b | a in r' && b in rest && a.key == b.key ensures a.seqno < b.seqno {
        var j :| 0 <= j < |rest| && rest[j] == b;
        assert es[j + 1] == b && b in es;
      }
      assert SeqnosGrow(rest, false);
      PutAllMembers(r', rest);
      assert forall x :: x in es <==> x == es[0] || x in rest;
    }
  }

  predicate ReadsRight(st: State, k: Bytes, s: nat) {
    Value(Lookup(st, k, s)) == Value(NewestWrite(st.writes, k, s))
  }

  /** A crash now would lose the newest write of `k` at or below `s`: only memory has
      it, the checkpoint says it needs no replay, and the durable tables do not make
      up for it. */
  ghost predicate WouldLose(st: State, k: Bytes, s: nat)
    requires st.phase.Swapping? ==> st.phase.job.source + 1 < |st.levels|
  {
    var n := NewestWrite(st.writes, k, s);
    n.Some? && InMem(Layers(st), n.value) && n.value.seqno <= st.checkpoint && Value(Search(Durable(st), 0, k, s)) != n.value.slot
  }

  /** Exactly what a crash loses. Crash in any state of a good run, reopen, replay: a read
      at or above the floor is the newest write if and only if the state before the
      crash would not lose it. */
  lemma CrashLossExact(states: seq<State>, events: seq<Event>, n: nat, torn: Bytes, down: State, config: Config, left: Files, up: State,
                       k: Bytes, s: nat)
    requires GoodRun(states, events, false) && n < |states|
    requires Step(states[n], Crash(torn), down) && Step(down, Reopen(config, left), up) && up.floor <= s
    ensures Recalled(up).pending == [] && (ReadsRight(Recalled(up), k, s) <==> !WouldLose(states[n], k, s))
  {
    var st := states[n];
    assert Inv(st, false) by { hide GoodRun, Inv, Step; InvAlways(states, events, false, n); }
    hide GoodRun;
    ReopenedFacts(st, torn, down, config, left, up, false);
    DurableTables(st, false);
    hide Step;
    RecalledLookup(st, up, k, s);
    LostOnlyFromMemory(st, up.floor, k, s);
  }

  /** After the replay, a read finds the newest write above the checkpoint, and the
      durable tables' answer otherwise. */
  lemma RecalledLookup(st: State, up: State, k: Bytes, s: nat)
    requires Inv(st, false) && (st.phase.Swapping? ==> st.phase.job.source + 1 < |st.levels|)
    requires up.active == [] && up.frozen == [] && up.writes == st.writes && up.pending == After(st.writes, st.checkpoint)
    requires |up.levels| >= 2 && forall l: nat :: LevelAt(up.levels, l) == LevelAt(Durable(st), l)
    ensures var n := NewestWrite(st.writes, k, s);
            Lookup(Recalled(up), k, s) == if n.Some? && n.value.seqno > st.checkpoint then n else Search(Durable(st), 0, k, s)
  {
    WritesGrow(st);
    hide Inv, Durable, SeqnosGrow, NewestWrite, Search, Lookup, Recalled, After, LevelAt;
    RecalledReads(up, st.writes, st.checkpoint, Durable(st), k, s);
  }

  lemma WritesGrow(st: State)
    requires Inv(st, false)
    ensures SeqnosGrow(st.writes, false)
  {
    hide LogOk, Narrow, RunsOk, TablesOk, TablesRight, IdsBelow, Covered, PhaseOk, DiskOk, Layered, MemNewest, MemWritten, SeqnosGrow, Reached;
  }

  lemma RecalledReads(up: State, writes: seq<Entry>, cp: nat, levels: Levels, k: Bytes, s: nat)
    requires SeqnosGrow(writes, false) && up.active == [] && up.frozen == [] && up.pending == After(writes, cp)
    requires forall l: nat :: LevelAt(up.levels, l) == LevelAt(levels, l)
    ensures var n := NewestWrite(writes, k, s);
            Lookup(Recalled(up), k, s) == if n.Some? && n.value.seqno > cp then n else Search(levels, 0, k, s)
  {
    hide Search, NewestWrite, SeqnosGrow, PutAll, After, FirstVisible, LevelAt, MemLookup;
    var a := PutAll([], up.pending);
    assert Recalled(up).frozen + [Recalled(up).active] == [a];
    OneLayerLookup(a, k, s);
    ReplayedHit(writes, cp, k, s);
    SearchAny(levels, up.levels, 0, Max(|levels|, |up.levels|), k, s);
  }

  /** What the replayed writes answer. */
  lemma ReplayedHit(writes: seq<Entry>, cp: nat, k: Bytes, s: nat)
    requires SeqnosGrow(writes, false)
    ensures var n := NewestWrite(writes, k, s);
            FirstVisible(PutAll([], After(writes, cp)), k, s) == if n.Some? && n.value.seqno > cp then n else None
  {
    hide NewestWrite, LsmRuns.Sorted, SeqnosGrow, PutAll, FirstVisible;
    var p := After(writes, cp);
    NothingSorted();
    AfterGrows(writes, cp, false);
    PutAllMembers([], p);
    var a := PutAll([], p);
    FirstIsNewest(a, k, s);
    NewestIsNewest(writes, k, s);
    if FirstVisible(a, k, s).Some? {
      NewestAbove(writes, cp, a, k, s);
      OneVersion(writes, FirstVisible(a, k, s).value, NewestWrite(writes, k, s).value);
    }
  }

  lemma NothingSorted()
    ensures LsmRuns.Sorted([])
  {
  }

  /** The newest write above the checkpoint is the newest of those replayed. */
  lemma NewestAbove(writes: seq<Entry>, cp: nat, a: Run, k: Bytes, s: nat)
    requires SeqnosGrow(writes, false) && LsmRuns.Sorted(a) && forall x :: x in a <==> x in writes && x.seqno > cp
    requires FirstVisible(a, k, s).Some?
    ensures var n, hit := NewestWrite(writes, k, s), FirstVisible(a, k, s);
            n.Some? && n.value in writes && hit.value in writes && SameVersion(hit.value, n.value)
  {
    hide SeqnosGrow, LsmRuns.Sorted, NewestWrite, FirstVisible;
    FirstIsNewest(a, k, s);
    NewestIsNewest(writes, k, s);
  }

  lemma OneLayerLookup(a: Run, k: Bytes, s: nat)
    ensures MemLookup([a], k, s) == FirstVisible(a, k, s)
  {
    hide FirstVisible;
    assert [a][..0] == [];
    assert MemLookup([], k, s) == None;
  }

  /** A newest write that memory does not hold is answered by the durable tables. */
  lemma LostOnlyFromMemory(st: State, floor: nat, k: Bytes, s: nat)
    requires Inv(st, false) && (st.phase.Swapping? ==> st.phase.job.source + 1 < |st.levels|)
    requires TablesRight(Durable(st), Layers(st), st.writes, floor) && floor <= s
    ensures var n := NewestWrite(st.writes, k, s);
            !(n.Some? && InMem(Layers(st), n.value)) ==> Value(Search(Durable(st), 0, k, s)) == Value(n)
  {
    assert SeqnosGrow(st.writes, false) && MemWritten(Layers(st), st.writes) && MemNewest(Layers(st), st.writes) by {
      hide LogOk, RunsOk, TablesOk, TablesRight, IdsBelow, Covered, PhaseOk, DiskOk, Layered, MemNewest, MemWritten, SeqnosGrow;
    }
    hide Inv, Search, Durable, NewestWrite, SeqnosGrow, InMem;
    var n := NewestWrite(st.writes, k, s);
    NewestIsNewest(st.writes, k, s);
    if !(n.Some? && InMem(Layers(st), n.value)) {
      forall e | InMem(Layers(st), e) ensures !Visible(e, k, s) {
        assert e in st.writes;
      }
      assert Silent(Layers(st), k, s);
    }
  }

  lemma NoMemory(k: Bytes, s: nat)
    ensures MemLookup([[]], k, s) == None
  {
    var layers: seq<Run> := [[]];
    assert layers[..0] == [];
  }

  // A shared sequence number split by a rotation reaches such a state.

  const A: Entry := Entry([1], 1, Some([10]))
  const B: Entry := Entry([2], 1, Some([20]))
  const SPLIT_TABLE: Table := Table(1, 0, [1], [1], Stats(1, 1, 1), 0, [A])
  const SPLIT_CONFIG: Config := Config(1, 1, 1, 2)
  const SPLIT_LEVELS: Levels := [[SPLIT_TABLE], []]
  const SPLIT_ADD: Edit := AddMeta(MetaOf(SPLIT_TABLE))

  function S0(crc: Checksum): State { State([], [], [[], []], SPLIT_CONFIG, 1, 0, [], map[], [], Ready, [], 0, crc, []) }
  function S1(crc: Checksum): State { S0(crc).(active := [A], writes := [A]) }
  function S2(crc: Checksum): State { S1(crc).(active := [], frozen := [[A]]) }
  function S3(crc: Checksum): State { S2(crc).(active := [B], writes := [A, B]) }
  function S4(crc: Checksum): State { S3(crc).(files := map[1 := []], nextId := 2, phase := Writing(1)) }
  function S5(crc: Checksum): State { Appended(S4(crc), SPLIT_ADD).(files := map[1 := [A]], phase := Flushing(SPLIT_TABLE)) }
  function S6(crc: Checksum): State { S5(crc).(frozen := [], levels := SPLIT_LEVELS, phase := Marking(1)) }
  function S7(crc: Checksum): State { Appended(S6(crc), Checkpoint(1)).(checkpoint := 1, phase := Ready) }
  function S8(crc: Checksum): State { S7(crc).(active := [], pending := [], phase := Down) }
  function S9(crc: Checksum): State { S8(crc).(phase := Ready) }

  function SplitStates(crc: Checksum): seq<State> {
    [S0(crc), S1(crc), S2(crc), S3(crc), S4(crc), S5(crc), S6(crc), S7(crc), S8(crc), S9(crc)]
  }

  const SPLIT_EVENTS: seq<Event> :=
    [Put(A), Rotate, Put(B), StartTable([]), CommitFlush(SPLIT_TABLE), InstallFlush, Mark, Crash([]),
     Reopen(SPLIT_CONFIG, map[1 := [A]])]

  lemma SplitMemory(crc: Checksum)
    ensures Step(S0(crc), Put(A), S1(crc)) && Step(S1(crc), Rotate, S2(crc)) && Step(S2(crc), Put(B), S3(crc)) && Step(S3(crc), StartTable([]), S4(crc))
  {
    assert PutSlot([], A) == [A] && PutSlot([], B) == [B];
    assert S0(crc).writes + [A] == S1(crc).writes && S2(crc).writes + [B] == S3(crc).writes;
    assert S1(crc).frozen + [S1(crc).active] == S2(crc).frozen;
  }

  lemma SplitFits()
    ensures Fits(SPLIT_ADD)
  {
    hide LE;
  }

  lemma SplitFlush(crc: Checksum)
    ensures Step(S4(crc), CommitFlush(SPLIT_TABLE), S5(crc)) && Step(S5(crc), InstallFlush, S6(crc)) && Step(S6(crc), Mark, S7(crc))
  {
    hide Frame, Fits;
    SplitFits();
    CheckpointFits(1);
    SplitStats();
    assert TableOk(SPLIT_TABLE);
    SplitAdd();
  }

  lemma SplitStats()
    ensures Highest([A]) == 1 && StatsOf([A]) == Stats(1, 1, 1)
  {
    assert [A][..0] == [];
    assert Lowest([]) == U64_LIMIT - 1 && Highest([]) == 0;
  }

  lemma SplitReplayed()
    ensures Replayed([SPLIT_ADD, Checkpoint(1)]) == Manifest([MetaOf(SPLIT_TABLE)], 2, 1)
  {
    assert [] + [SPLIT_ADD] == [SPLIT_ADD] && [SPLIT_ADD] + [Checkpoint(1)] == [SPLIT_ADD, Checkpoint(1)];
    ReplayedAppend([], SPLIT_ADD);
    ReplayedAppend([SPLIT_ADD], Checkpoint(1));
    InitReplayed();
    assert Drop([], 1, None) == [];
  }

  lemma SplitAdd()
    ensures AddTable([[], []], SPLIT_TABLE) == SPLIT_LEVELS
  {
    var empty: Levels := [[], []];
    assert empty[0] + [SPLIT_TABLE] == [SPLIT_TABLE];
  }

  lemma SplitNothingToReplay()
    ensures After([A, B], 1) == []
  {
    assert [A, B][..1] == [A] && [A][..0] == [];
    assert After([A], 1) == After([A][..0], 1);
    assert After([A, B], 1) == After([A, B][..1], 1);
  }

  lemma SplitOpened()
    ensures var live := [MetaOf(SPLIT_TABLE)];
            && Referenced(map[1 := [A]], live) && Opened(map[1 := [A]], live) == [SPLIT_TABLE]
            && NextAfter(2, live) == 2
  {
    var live := [MetaOf(SPLIT_TABLE)];
    assert live[..0] == [] && [] + [SPLIT_TABLE] == [SPLIT_TABLE];
  }

  lemma SplitLog(crc: Checksum)
    ensures S7(crc).edits == [SPLIT_ADD, Checkpoint(1)] && LogOk(S8(crc)) && S7(crc).crc == crc
    ensures S7(crc).log == EncodeManifest(crc, S7(crc).edits) && S7(crc).log[..|S7(crc).log|] == S7(crc).log
  {
    hide Frame, Fits, Interrupted;
    var s := S4(crc);
    assert s.edits == [] && s.log == [];
    SplitFits();
    AppendKeepsLog(crc, [], SPLIT_ADD);
    AppendKeepsLog(crc, [] + [SPLIT_ADD], Checkpoint(1)) by { CheckpointFits(1); }
    assert EncodeManifest(crc, []) == [];
    assert [] + [SPLIT_ADD] == [SPLIT_ADD] && [SPLIT_ADD] + [Checkpoint(1)] == [SPLIT_ADD, Checkpoint(1)];
    assert S7(crc).log == EncodeManifest(crc, S7(crc).edits);
    WholeLogOk(S8(crc));
  }

  lemma SplitCrash(crc: Checksum)
    ensures Step(S7(crc), Crash([]), S8(crc))
  {
    SplitWrites(crc);
    hide S7, Step;
    CrashShort(S7(crc), S8(crc));
  }

  lemma CrashShort(st: State, st': State)
    requires st.writes == [A, B] && st.checkpoint == 1 && st.phase == Ready && st.frozen == []
    requires st' == st.(active := [], pending := [], phase := Down)
    ensures Step(st, Crash([]), st')
  {
    SplitNothingToReplay();
    hide After;
    NothingInterrupted(st.crc);
    assert st.log + [] == st.log;
  }

  lemma SplitWrites(crc: Checksum)
    ensures var s := S7(crc);
            s.writes == [A, B] && s.checkpoint == 1 && s.phase == Ready && s.frozen == [] && s.active == [B] && s.pending == []
            && s.crc == crc && s.levels == SPLIT_LEVELS && s.floor == 0 && s.files == map[1 := [A]] && s.nextId == 2 && s.config == SPLIT_CONFIG
  {
    hide Frame;
  }

  lemma SplitReopen(crc: Checksum)
    ensures Step(S8(crc), Reopen(SPLIT_CONFIG, map[1 := [A]]), S9(crc))
  {
    SplitLog(crc);
    SplitWrites(crc);
    hide LogOk, EncodeManifest, Frame, Fits, S7, Appended, Step;
    ReopenShort(S8(crc), S9(crc));
  }

  /** Opening a manifest that holds the one table. */
  lemma ReopenShort(st: State, st': State)
    requires LogOk(st) && st.edits == [SPLIT_ADD, Checkpoint(1)] && st.log == EncodeManifest(st.crc, st.edits) && st.phase == Down
    requires st.writes == [A, B] && st.checkpoint == 1 && st.levels == SPLIT_LEVELS && st.files == map[1 := [A]] && st.nextId == 2
    requires st.config == SPLIT_CONFIG && st.pending == [] && st' == st.(phase := Ready)
    ensures Step(st, Reopen(SPLIT_CONFIG, map[1 := [A]]), st')
  {
    SplitReplayed();
    SplitNothingToReplay();
    SplitOpened();
    SplitRebuild();
    hide Replayed, After, NextAfter, Rebuild, Opened, LogOk, EncodeManifest, Parse, OpenedLog;
    LogRecovers(st);
    ShortLogStays(st.edits);
    assert st.log[..|st.log|] == st.log;
  }

  lemma SplitRebuild()
    ensures Rebuild(2, [SPLIT_TABLE]) == SPLIT_LEVELS
  {
    assert [SPLIT_TABLE][..0] == [];
    var empty: Levels := seq(2, _ => []);
    assert Rebuild(2, []) == empty && empty == [[], []];
    SplitAdd();
  }

  /** Two keys sharing sequence number 1, a rotation between them, one flush and
      a crash: the second write is gone. */
  lemma SplitSeqnoLosesWrite(crc: Checksum)
    ensures IsRun(SplitStates(crc), SPLIT_EVENTS) && S9(crc).pending == []
    ensures NewestWrite(S9(crc).writes, [2], 1) == Some(B) && Lookup(S9(crc), [2], 1) == None
  {
    hide Step, Lookup, NewestWrite, Fits, S1, S2, S3, S4, S5, S6, S7, S8, S9;
    SplitMemory(crc);
    SplitFlush(crc);
    SplitCrash(crc);
    SplitReopen(crc);
    assert S0(crc).levels == seq(SPLIT_CONFIG.maxLevels, _ => []);
    SplitRead(crc);
  }

  /** The part of that run before the crash respects what a good run must, and ends in
      a state that would lose the write. */
  lemma SplitWouldLose(crc: Checksum)
    ensures GoodRun(SplitStates(crc)[..8], SPLIT_EVENTS[..7], false) && SplitStates(crc)[7] == S7(crc)
    ensures Step(S7(crc), Crash([]), S8(crc)) && Step(S8(crc), Reopen(SPLIT_CONFIG, map[1 := [A]]), S9(crc))
    ensures WouldLose(S7(crc), [2], 1)
  {
    SplitSeqnoLosesWrite(crc);
    SplitHeld(crc);
    hide S0, S1, S2, S3, S4, S5, S6, S7, S8, S9, Step, WouldLose, Init;
    var states, events := SplitStates(crc), SPLIT_EVENTS;
    forall i | 0 <= i < 7 ensures Step(states[..8][i], events[..7][i], states[..8][i + 1]) && !events[i].Crash? {
      assert Step(states[i], events[i], states[i + 1]);
    }
    assert Step(states[7], events[7], states[8]) && Step(states[8], events[8], states[9]);
  }

  lemma SplitHeld(crc: Checksum)
    ensures S7(crc).phase == Ready && WouldLose(S7(crc), [2], 1)
  {
    SplitRead(crc);
    SplitWrites(crc);
    hide S7, S9, Search, NewestWrite;
    assert Layers(S7(crc))[0] == [B];
    assert InMem(Layers(S7(crc)), B);
  }

  lemma SplitRead(crc: Checksum)
    ensures NewestWrite(S9(crc).writes, [2], 1) == Some(B) && Lookup(S9(crc), [2], 1) == None && S9(crc).pending == []
    ensures S9(crc).writes == [A, B] && Search(SPLIT_LEVELS, 0, [2], 1) == None
  {
    hide Frame;
    assert S9(crc).frozen + [S9(crc).active] == [[]];
    NoMemory([2], 1);
    assert SearchL0([SPLIT_TABLE], [2], 1) == None by { assert [SPLIT_TABLE][..0] == []; }
    assert FindTable([], [2]) == None;
    assert LevelHit(SPLIT_LEVELS, 0, [2], 1) == None && LevelHit(SPLIT_LEVELS, 1, [2], 1) == None;
    assert Search(SPLIT_LEVELS, 2, [2], 1) == None;
    assert Search(SPLIT_LEVELS, 1, [2], 1) == None;
  }
}
