/** The durable half of the LSM store: after any prefix of its manifest edits,
    replay gives back exactly the levels those edits describe. */
module LsmDisk {
  import opened Bytes
  import opened Wrappers
  import opened LsmRuns
  import opened LsmLevels
  import opened LsmCompaction
  import opened LsmCompactionSafety
  import opened LsmManifest

  /** Replaying `m` over `files` gives `levels`. */
  ghost predicate Describes(m: Manifest, files: Files, levels: Levels) {
    && Referenced(files, m.live)
    && (forall l: nat :: Built(Opened(files, m.live), l) == LevelAt(levels, l))
  }

  ghost predicate LiveBelow(m: Manifest, next: nat) {
    forall x | x in m.live :: x.id < next
  }

  // ---- opening tables ------------------------------------------------------

  lemma {:induction false} OpenedMembers(files: Files, live: seq<Meta>, t: Table)
    requires Referenced(files, live)
    ensures t in Opened(files, live) <==> t.id in files && MetaOf(t) in live && t.entries == files[t.id]
  {
    if live != [] {
      var n := |live| - 1;
      OpenedMembers(files, live[..n], t);
      assert MetaOf(t) in live <==> MetaOf(t) in live[..n] || MetaOf(t) == live[n];
    }
  }

  /** The live tables are exactly those of the levels. */
  lemma DescribedTable(m: Manifest, files: Files, levels: Levels, t: Table)
    requires Describes(m, files, levels)
    ensures Has(levels, t) <==> t.id in files && MetaOf(t) in m.live && t.entries == files[t.id]
  {
    hide Built, Opened;
    OpenedMembers(files, m.live, t);
    BuiltMembers(Opened(files, m.live), t.level, t);
    assert Built(Opened(files, m.live), t.level) == LevelAt(levels, t.level);
  }

  /** A live meta's table is in the levels. */
  lemma DescribedMeta(m: Manifest, files: Files, levels: Levels, x: Meta)
    requires Describes(m, files, levels) && x in m.live
    ensures x.id in files && Has(levels, OpenTable(files, x))
  {
    hide Built, Opened, Has;
    var i :| 0 <= i < |m.live| && m.live[i] == x;
    assert x.id in files;
    DescribedTable(m, files, levels, OpenTable(files, x));
  }

  lemma {:induction false} OpenedSame(files: Files, files': Files, live: seq<Meta>)
    requires Referenced(files, live) && Referenced(files', live)
    requires forall m | m in live :: files[m.id] == files'[m.id]
    ensures Opened(files, live) == Opened(files', live)
  {
    if live != [] {
      assert live[|live| - 1] in live;
      OpenedSame(files, files', live[..|live| - 1]);
    }
  }

  /** Files the manifest does not mention may come, change or go. */
  lemma UnreferencedFiles(m: Manifest, files: Files, files': Files, levels: Levels)
    requires Describes(m, files, levels)
    requires forall x | x in m.live :: x.id in files' && (x.id in files ==> files'[x.id] == files[x.id])
    ensures Describes(m, files', levels)
  {
    hide Built, Opened;
    OpenedSame(files, files', m.live);
  }

  // ---- a flush -------------------------------------------------------------

  lemma {:induction false} DropNothing(live: seq<Meta>, id: nat, level: Option<nat>)
    requires forall m | m in live :: m.id != id
    ensures Drop(live, id, level) == live
  {
    if live != [] {
      var n := |live| - 1;
      assert live[n] in live;
      DropNothing(live[..n], id, level);
      assert live == live[..n] + [live[n]];
    }
  }

  lemma AddDescribes(m: Manifest, files: Files, levels: Levels, t: Table)
    requires Describes(m, files, levels) && LiveBelow(m, t.id)
    requires t.id in files && files[t.id] == t.entries
    ensures var m' := ApplyEdit(m, AddMeta(MetaOf(t)));
            Describes(m', files, AddTable(levels, t)) && m'.live == m.live + [MetaOf(t)]
  {
    hide AddTable, InsertByMin, Built, Opened, LevelAt;
    DropNothing(m.live, t.id, None);
    var live' := m.live + [MetaOf(t)];
    OpenedOneMore(files, m.live, t);
    var ts := Opened(files, m.live);
    forall l: nat ensures Built(ts + [t], l) == LevelAt(AddTable(levels, t), l) {
      BuiltSnoc(ts, t, l);
      AddTableAt(levels, t, l);
      assert Built(ts, l) == LevelAt(levels, l);
    }
  }

  lemma OpenedOneMore(files: Files, live: seq<Meta>, t: Table)
    requires Referenced(files, live) && t.id in files && files[t.id] == t.entries
    ensures var live' := live + [MetaOf(t)];
            Referenced(files, live') && Opened(files, live') == Opened(files, live) + [t]
  {
    var live' := live + [MetaOf(t)];
    assert live'[..|live|] == live;
  }

  // ---- a compaction --------------------------------------------------------

  /** Live metas outside `ids`. */
  function Keep(live: seq<Meta>, ids: set<nat>): (r: seq<Meta>)
    ensures forall m :: m in r <==> m in live && m.id !in ids
  {
    if live == [] then []
    else
      var n := |live| - 1;
      if live[n].id in ids then Keep(live[..n], ids) else Keep(live[..n], ids) + [live[n]]
  }

  lemma {:induction false} OpenedKeep(files: Files, live: seq<Meta>, ids: set<nat>)
    requires Referenced(files, live)
    ensures Referenced(files, Keep(live, ids))
    ensures Opened(files, Keep(live, ids)) == Without(Opened(files, live), ids)
  {
    hide Without;
    if live == [] {
      NothingLeft(ids);
    } else {
      var n := |live| - 1;
      OpenedKeep(files, live[..n], ids);
      var ts, kept := Opened(files, live), Keep(live[..n], ids);
      assert ts[..|ts| - 1] == Opened(files, live[..n]);
      WithoutLast(ts, ids);
      assert (kept + [live[n]])[..|kept|] == kept;
    }
  }

  function Removals(ts: seq<Table>): seq<Edit> {
    seq(|ts|, i requires 0 <= i < |ts| => RemoveMeta(ts[i].level, ts[i].id))
  }

  lemma {:induction false} DropIsKeep(live: seq<Meta>, ids: set<nat>, t: Table)
    requires forall m | m in live && m.id == t.id :: m.level == t.level
    ensures Drop(Keep(live, ids), t.id, Some(t.level)) == Keep(live, ids + {t.id})
  {
    if live != [] {
      var n := |live| - 1;
      assert live[n] in live;
      DropIsKeep(live[..n], ids, t);
      var kept := Keep(live[..n], ids);
      assert (kept + [live[n]])[..|kept|] == kept;
    }
  }

  lemma {:induction false} RemovalsKeep(m: Manifest, ts: seq<Table>)
    requires forall x, t | x in m.live && t in ts && x.id == t.id :: x.level == t.level
    ensures ApplyEdits(m, Removals(ts)) == m.(live := Keep(m.live, Ids(ts)))
  {
    hide Drop, Keep;
    if ts == [] {
      assert Ids(ts) == {};
      KeepAll(m.live);
    } else {
      var n := |ts| - 1;
      assert Removals(ts)[..n] == Removals(ts[..n]);
      assert ts[n] in ts;
      RemovalsKeep(m, ts[..n]);
      DropIsKeep(m.live, Ids(ts[..n]), ts[n]);
      assert Ids(ts) == Ids(ts[..n]) + {ts[n].id} by { assert ts == ts[..n] + [ts[n]]; }
    }
  }

  lemma {:induction false} KeepAll(live: seq<Meta>)
    ensures Keep(live, {}) == live
  {
    if live != [] {
      KeepAll(live[..|live| - 1]);
      assert live == live[..|live| - 1] + [live[|live| - 1]];
    }
  }

  /** Retiring by id, in every level at once. */
  lemma KeepDescribes(m: Manifest, files: Files, levels: Levels, levels': Levels, ids: set<nat>)
    requires Describes(m, files, levels)
    requires forall l: nat :: LevelAt(levels', l) == Without(LevelAt(levels, l), ids)
    ensures Describes(m.(live := Keep(m.live, ids)), files, levels')
  {
    hide Built, Opened, Without, Keep;
    OpenedKeep(files, m.live, ids);
    forall l: nat ensures Built(Opened(files, Keep(m.live, ids)), l) == LevelAt(levels', l) {
      BuiltWithout(Opened(files, m.live), ids, l);
      assert Built(Opened(files, m.live), l) == LevelAt(levels, l);
    }
  }

  lemma {:induction false} WithoutAgree(ts: seq<Table>, a: set<nat>, b: set<nat>)
    requires forall t | t in ts :: t.id in a <==> t.id in b
    ensures Without(ts, a) == Without(ts, b)
  {
    if ts != [] { WithoutAgree(ts[1..], a, b); }
  }

  lemma {:induction false} WithoutNone(ts: seq<Table>, ids: set<nat>)
    requires forall t | t in ts :: t.id !in ids
    ensures Without(ts, ids) == ts
  {
    if ts != [] { WithoutNone(ts[1..], ids); }
  }

  /** The edit a compaction commits: the new table and every removal at once. */
  function SwapEdit(job: Job, out: Option<Table>): Edit {
    Batch((if out.Some? then [AddMeta(MetaOf(out.value))] else []) + Removals(job.sources + job.targets))
  }

  /** An input's id identifies it among all tables. */
  lemma InputId(levels: Levels, job: Job, t: Table)
    requires LevelsOk(levels) && IdsOk(levels) && LegalJob(levels, job) && Has(levels, t)
    ensures t.id in Ids(job.sources) <==> t in job.sources
    ensures t.id in Ids(job.targets) <==> t in job.targets
    ensures t in job.sources ==> t.level == job.source
    ensures t in job.targets ==> t.level == job.source + 1
  {
    hide LegalJob, TableOk, Disjoint;
    JobTables(levels, job);
    assert job.source + 1 < |levels| by { JobRange(levels, job); }
    forall x | x in job.sources || x in job.targets
      ensures Has(levels, x) && x.level == if x in job.sources then job.source else job.source + 1
    {
      var l := if x in job.sources then job.source else job.source + 1;
      assert LevelOk(levels, l) && LevelAt(levels, l) == levels[l];
      var i :| 0 <= i < |levels[l]| && levels[l][i] == x;
      assert LevelAt(levels, l)[i].level == l;
    }
    NotBothInputs(levels, job, t);
  }

  lemma JobRange(levels: Levels, job: Job)
    requires LegalJob(levels, job)
    ensures job.source + 1 < |levels| && job.sources != []
  {
  }

  lemma NotBothInputs(levels: Levels, job: Job, t: Table)
    requires LevelsOk(levels) && LegalJob(levels, job)
    ensures t in job.targets ==> t !in job.sources && t.level == job.source + 1
  {
    hide LevelsOk, LegalJob;
    JobTables(levels, job);
    JobRange(levels, job);
    if t in job.targets {
      LevelOfMember(levels, job.source + 1, t);
      if t in job.sources { LevelOfMember(levels, job.source, t); }
    }
  }

  /** Removing every input by id from every level is what the swap does. */
  lemma SwapLevel(levels: Levels, job: Job, l: nat)
    requires LevelsOk(levels) && IdsOk(levels) && LegalJob(levels, job)
    ensures var ids := Ids(job.sources + job.targets);
            Without(LevelAt(levels, l), ids) == if l == job.source then Without(LevelAt(levels, l), Ids(job.sources))
                                                else if l == job.source + 1 then Without(LevelAt(levels, l), Ids(job.targets))
                                                else LevelAt(levels, l)
  {
    hide LegalJob, Without, LevelsOk, IdsOk;
    var ts, ids := LevelAt(levels, l), Ids(job.sources + job.targets);
    assert ids == Ids(job.sources) + Ids(job.targets);
    forall t | t in ts
      ensures l == job.source ==> (t.id in ids <==> t.id in Ids(job.sources))
      ensures l == job.source + 1 ==> (t.id in ids <==> t.id in Ids(job.targets))
      ensures l != job.source && l != job.source + 1 ==> t.id !in ids
    {
      LevelOfMember(levels, l, t);
      InputId(levels, job, t);
    }
    if l == job.source { WithoutAgree(ts, ids, Ids(job.sources)); }
    else if l == job.source + 1 { WithoutAgree(ts, ids, Ids(job.targets)); }
    else { WithoutNone(ts, ids); }
  }

  lemma LevelOfMember(levels: Levels, l: nat, t: Table)
    requires LevelsOk(levels) && t in LevelAt(levels, l)
    ensures t.level == l && Has(levels, t)
  {
    hide TableOk, Disjoint;
    assert LevelOk(levels, l);
    var i :| 0 <= i < |LevelAt(levels, l)| && LevelAt(levels, l)[i] == t;
  }

  lemma RemovalLevels(m: Manifest, files: Files, levels: Levels, job: Job)
    requires Describes(m, files, levels) && LevelsOk(levels) && IdsOk(levels) && LegalJob(levels, job)
    ensures forall x, t | x in m.live && (t in job.sources || t in job.targets) && x.id == t.id :: x.level == t.level
  {
    hide Describes, LegalJob, Has, LevelsOk, IdsOk;
    forall x, t | x in m.live && (t in job.sources || t in job.targets) && x.id == t.id ensures x.level == t.level {
      DescribedMeta(m, files, levels, x);
      InputHasLevel(levels, job, t);
      assert OpenTable(files, x) == t by { UniqueById(levels, OpenTable(files, x), t); }
    }
  }

  lemma UniqueById(levels: Levels, a: Table, b: Table)
    requires IdsOk(levels) && Has(levels, a) && Has(levels, b) && a.id == b.id
    ensures a == b
  {
    hide Has;
  }

  lemma InputHasLevel(levels: Levels, job: Job, t: Table)
    requires LevelsOk(levels) && LegalJob(levels, job) && (t in job.sources || t in job.targets)
    ensures Has(levels, t)
  {
    hide LevelsOk, LegalJob, Has;
    JobTables(levels, job);
    JobRange(levels, job);
    LevelOfMember(levels, if t in job.sources then job.source else job.source + 1, t);
  }

  /** The committed swap replays to exactly the swapped levels. */
  lemma SwapDescribes(m: Manifest, files: Files, levels: Levels, job: Job, out: Option<Table>)
    requires Describes(m, files, levels) && LevelsOk(levels) && IdsOk(levels) && LegalJob(levels, job)
    requires out.Some? ==> out.value.id in files && files[out.value.id] == out.value.entries
    requires out.Some? ==> LiveBelow(m, out.value.id) && out.value.level == job.source + 1
    ensures job.source + 1 < |levels|
    ensures var m' := ApplyEdit(m, SwapEdit(job, out));
            && Describes(m', files, Apply(levels, job, out)) && m'.checkpoint == m.checkpoint && m'.nextId >= m.nextId
            && (forall x | x in m'.live :: x in m.live || (out.Some? && x == MetaOf(out.value) && x.id < m'.nextId))
  {
    hide Describes, LegalJob, LevelsOk, IdsOk, Apply, LiveBelow;
    JobRange(levels, job);
    if out.Some? {
      SwapWithOutput(m, files, levels, job, out.value);
    } else {
      SwapEmpty(m, files, levels, job);
    }
  }

  lemma SwapEmptyEdit(m: Manifest, job: Job)
    ensures ApplyEdit(m, SwapEdit(job, None)) == ApplyEdits(m, Removals(job.sources + job.targets))
  {
    hide ApplyEdits, Removals;
    var removals := Removals(job.sources + job.targets);
    assert [] + removals == removals;
  }

  lemma SwapEmpty(m: Manifest, files: Files, levels: Levels, job: Job)
    requires Describes(m, files, levels) && LevelsOk(levels) && IdsOk(levels) && LegalJob(levels, job)
    ensures job.source + 1 < |levels|
    ensures var m' := ApplyEdit(m, SwapEdit(job, None));
            && Describes(m', files, Apply(levels, job, None)) && m'.checkpoint == m.checkpoint && m'.nextId == m.nextId
            && forall x | x in m'.live :: x in m.live
  {
    hide Describes, LegalJob, LevelsOk, IdsOk, Apply, Without, Keep, Ids, Removals;
    JobRange(levels, job);
    var inputs := job.sources + job.targets;
    RemovalLevels(m, files, levels, job);
    RemovalsKeep(m, inputs);
    SwapEmptyEdit(m, job);
    var levels' := Apply(levels, job, None);
    forall l: nat ensures LevelAt(levels', l) == Without(LevelAt(levels, l), Ids(inputs)) {
      SwapLevel(levels, job, l);
      ApplyAt(levels, job, None, l);
    }
    KeepDescribes(m, files, levels, levels', Ids(inputs));
  }

  lemma SwapWithOutput(m: Manifest, files: Files, levels: Levels, job: Job, out: Table)
    requires Describes(m, files, levels) && LevelsOk(levels) && IdsOk(levels) && LegalJob(levels, job)
    requires out.id in files && files[out.id] == out.entries && LiveBelow(m, out.id) && out.level == job.source + 1
    ensures job.source + 1 < |levels|
    ensures var m' := ApplyEdit(m, SwapEdit(job, Some(out)));
            && Describes(m', files, Apply(levels, job, Some(out))) && m'.checkpoint == m.checkpoint
            && m'.nextId == Max(m.nextId, out.id + 1)
            && forall x | x in m'.live :: x in m.live || x == MetaOf(out)
  {
    hide Describes, LegalJob, LevelsOk, IdsOk, Apply, Without, Built, LiveBelow, AddTable;
    JobRange(levels, job);
    var inputs, add := job.sources + job.targets, AddMeta(MetaOf(out));
    var m1 := ApplyEdit(m, add);
    AddDescribes(m, files, levels, out);
    ApplyEditsConcat(m, [add], Removals(inputs));
    assert ApplyEdits(m, [add]) == m1 by { assert [add][..0] == []; }
    OutputIdFresh(m, files, levels, job, out);
    RemovalLevels(m, files, levels, job);
    RemovalsKeep(m1, inputs);
    var mid, levels' := AddTable(levels, out), Apply(levels, job, Some(out));
    forall l: nat ensures LevelAt(levels', l) == Without(LevelAt(mid, l), Ids(inputs)) {
      SwapLevelWithOutput(levels, job, out, l);
    }
    KeepDescribes(m1, files, mid, levels', Ids(inputs));
  }

  /** The new table's id belongs to none of the inputs. */
  lemma OutputIdFresh(m: Manifest, files: Files, levels: Levels, job: Job, out: Table)
    requires Describes(m, files, levels) && LevelsOk(levels) && LegalJob(levels, job) && LiveBelow(m, out.id)
    ensures forall t | t in job.sources || t in job.targets :: t.id != out.id
    ensures out.id !in Ids(job.sources + job.targets)
  {
    hide Describes, LegalJob, LevelsOk, Has;
    forall t | t in job.sources || t in job.targets ensures t.id != out.id {
      InputHasLevel(levels, job, t);
      DescribedTable(m, files, levels, t);
    }
  }

  lemma SwapLevelWithOutput(levels: Levels, job: Job, out: Table, l: nat)
    requires LevelsOk(levels) && IdsOk(levels) && LegalJob(levels, job) && job.source + 1 < |levels|
    requires out.level == job.source + 1 && out.id !in Ids(job.sources + job.targets)
    ensures LevelAt(Apply(levels, job, Some(out)), l) == Without(LevelAt(AddTable(levels, out), l), Ids(job.sources + job.targets))
  {
    hide LegalJob, LevelsOk, IdsOk, Apply, Without, AddTable, InsertByMin;
    SwapLevel(levels, job, l);
    ApplyAt(levels, job, Some(out), l);
    AddTableAt(levels, out, l);
    if l == out.level {
      assert MinSorted(LevelAt(levels, l)) by { OkMinSorted(levels, l); }
      WithoutInsert(LevelAt(levels, l), out, Ids(job.sources + job.targets));
    }
  }

  lemma OkMinSorted(levels: Levels, l: nat)
    requires LevelsOk(levels) && l > 0
    ensures MinSorted(LevelAt(levels, l))
  {
    hide LevelOk, Less;
    assert LevelOk(levels, l);
    OkLevelShape(levels, l);
    assert forall i, j | 0 <= i < j < |LevelAt(levels, l)| :: Less(LevelAt(levels, l)[i].minKey, LevelAt(levels, l)[j].minKey);
  }

  // ---- rewriting the log ---------------------------------------------------

  function SnapshotOf(metas: seq<Meta>, next: nat, checkpoint: nat): seq<Edit> {
    [FullSnapshot(metas, next)] + (if checkpoint > 0 then [Checkpoint(checkpoint)] else [])
  }

  function SnapshotLog(levels: Levels, next: nat, checkpoint: nat): seq<Edit> {
    SnapshotOf(MetasOf(AllTables(levels)), next, checkpoint)
  }

  lemma SnapshotOfReplayed(metas: seq<Meta>, next: nat, checkpoint: nat)
    ensures var m := Replayed(SnapshotOf(metas, next, checkpoint));
            m.live == metas && m.checkpoint == checkpoint && LiveBelow(m, m.nextId)
  {
    hide NextAfter;
    var full := FullSnapshot(metas, next);
    assert [full] == [] + [full];
    ReplayedAppend([], full);
    if checkpoint > 0 { ReplayedAppend([full], Checkpoint(checkpoint)); }
    else { assert SnapshotOf(metas, next, checkpoint) == [full]; }
  }

  lemma SnapshotReplayed(levels: Levels, next: nat, checkpoint: nat)
    ensures var m := Replayed(SnapshotLog(levels, next, checkpoint));
            m.live == MetasOf(AllTables(levels)) && m.checkpoint == checkpoint && LiveBelow(m, m.nextId)
  {
    hide Replayed, SnapshotOf, AllTables;
    SnapshotOfReplayed(MetasOf(AllTables(levels)), next, checkpoint);
  }

  lemma {:induction false} AllTablesMembers(levels: Levels, t: Table)
    requires t in AllTables(levels)
    ensures exists l: nat :: l < |levels| && t in levels[l]
  {
    var n := |levels| - 1;
    if t in levels[n] {
    } else {
      AllTablesMembers(levels[..n], t);
      var l: nat :| l < n && t in levels[..n][l];
      assert t in levels[l];
    }
  }

  lemma {:induction false} OpenedMetas(files: Files, ts: seq<Table>)
    requires forall t | t in ts :: t.id in files && files[t.id] == t.entries
    ensures Referenced(files, MetasOf(ts)) && Opened(files, MetasOf(ts)) == ts
  {
    if ts != [] {
      var n := |ts| - 1;
      assert ts[n] in ts;
      assert MetasOf(ts)[..n] == MetasOf(ts[..n]);
      OpenedMetas(files, ts[..n]);
      assert ts == ts[..n] + [ts[n]];
    }
  }

  /** Replacing the log by a snapshot changes nothing. */
  lemma SnapshotDescribes(m: Manifest, files: Files, levels: Levels, next: nat, checkpoint: nat)
    requires Describes(m, files, levels) && LevelsOk(levels)
    ensures Describes(Replayed(SnapshotLog(levels, next, checkpoint)), files, levels)
  {
    hide Describes, LevelsOk, Has, AllTables, LevelShape, Replayed, LiveBelow;
    var ts, m' := AllTables(levels), Replayed(SnapshotLog(levels, next, checkpoint));
    SnapshotReplayed(levels, next, checkpoint);
    forall t | t in ts ensures t.id in files && files[t.id] == t.entries {
      AllTablesMembers(levels, t);
      var l: nat :| l < |levels| && t in levels[l];
      LevelOfMember(levels, l, t);
      DescribedTable(m, files, levels, t);
    }
    OpenedMetas(files, ts);
    forall l | 0 <= l < |levels| ensures LevelShape(levels[l], l) { ShapeAt(levels, l); }
    forall l: nat ensures Built(ts, l) == LevelAt(levels, l) { BuiltAll(levels, l); }
    IntroDescribes(m', files, levels, ts);
  }

  lemma ShapeAt(levels: Levels, l: nat)
    requires LevelsOk(levels)
    ensures LevelShape(LevelAt(levels, l), l)
  {
    hide LevelOk, LevelShape;
    assert LevelOk(levels, l);
    OkLevelShape(levels, l);
  }

  lemma IntroDescribes(m: Manifest, files: Files, levels: Levels, ts: seq<Table>)
    requires Referenced(files, m.live) && Opened(files, m.live) == ts && forall l: nat :: Built(ts, l) == LevelAt(levels, l)
    ensures Describes(m, files, levels)
  {
    hide Built, Opened;
  }
}
