/** The manifest log: which tables are live, rebuilt by replaying edits. */
module LsmManifest {
  import opened Bytes
  import opened Wrappers
  import opened LsmRuns
  import opened LsmLevels
  import opened LsmCompaction

  /** What the log records of a table; its entries live in a file. */
  datatype Meta = Meta(id: nat, level: nat, minKey: Bytes, maxKey: Bytes, stats: Stats, bytes: nat)

  datatype Edit =
    | AddMeta(meta: Meta)
    | RemoveMeta(level: nat, id: nat)
    | FullSnapshot(metas: seq<Meta>, next: nat)
    | Checkpoint(seqno: nat)
    | Batch(edits: seq<Edit>)

  datatype Manifest = Manifest(live: seq<Meta>, nextId: nat, checkpoint: nat)

  type Files = map<nat, Run>

  function MetaOf(t: Table): Meta {
    Meta(t.id, t.level, t.minKey, t.maxKey, t.stats, t.bytes)
  }

  function MetasOf(ts: seq<Table>): seq<Meta> {
    seq(|ts|, i requires 0 <= i < |ts| => MetaOf(ts[i]))
  }

  // ---- replay --------------------------------------------------------------

  /** Live metas whose id is not `id`, or whose level differs when given. */
  function Drop(live: seq<Meta>, id: nat, level: Option<nat>): (r: seq<Meta>)
    ensures forall m :: m in r <==> m in live && !(m.id == id && (level.Some? ==> m.level == level.value))
  {
    if live == [] then []
    else
      var n := |live| - 1;
      var rest := Drop(live[..n], id, level);
      if live[n].id == id && (level.Some? ==> live[n].level == level.value) then rest else rest + [live[n]]
  }

  function NextAfter(next: nat, metas: seq<Meta>): (r: nat)
    ensures next <= r && forall m | m in metas :: m.id < r
  {
    if metas == [] then next
    else
      var n := |metas| - 1;
      Max(NextAfter(next, metas[..n]), metas[n].id + 1)
  }

  function ApplyEdit(m: Manifest, e: Edit): Manifest
    decreases e, 0
  {
    match e
    case AddMeta(meta) => m.(live := Drop(m.live, meta.id, None) + [meta], nextId := Max(m.nextId, meta.id + 1))
    case RemoveMeta(level, id) => m.(live := Drop(m.live, id, Some(level)))
    case FullSnapshot(metas, next) => m.(live := metas, nextId := NextAfter(Max(next, 1), metas))
    case Checkpoint(seqno) => m.(checkpoint := Max(m.checkpoint, seqno))
    case Batch(edits) => ApplyEdits(m, edits)
  }

  function ApplyEdits(m: Manifest, es: seq<Edit>): Manifest
    decreases es, 1
  {
    if es == [] then m else ApplyEdit(ApplyEdits(m, es[..|es| - 1]), es[|es| - 1])
  }

  const EMPTY_MANIFEST: Manifest := Manifest([], 1, 0)

  /** A log longer than this is rewritten as a snapshot. */
  const COMPACT_AFTER_EDITS: nat := 1024

  function Replayed(edits: seq<Edit>): Manifest {
    ApplyEdits(EMPTY_MANIFEST, edits)
  }

  lemma ReplayedAppend(edits: seq<Edit>, e: Edit)
    ensures Replayed(edits + [e]) == ApplyEdit(Replayed(edits), e)
  {
    assert (edits + [e])[..|edits|] == edits;
  }

  lemma {:induction false} ApplyEditsConcat(m: Manifest, a: seq<Edit>, b: seq<Edit>)
    ensures ApplyEdits(m, a + b) == ApplyEdits(ApplyEdits(m, a), b)
  {
    hide ApplyEdit;
    if b == [] {
      assert a + b == a;
    } else {
      var n := |b| - 1;
      assert (a + b)[..|a| + n] == a + b[..n];
      ApplyEditsConcat(m, a, b[..n]);
    }
  }

  /** What one edit does to the set of live tables, the id counter and the checkpoint. */
  lemma EditMeans(m: Manifest, e: Edit)
    requires !e.Batch?
    ensures var m' := ApplyEdit(m, e);
            && (e.AddMeta? ==>
                  && m'.live != [] && m'.live[|m'.live| - 1] == e.meta && m'.checkpoint == m.checkpoint
                  && (forall x :: x in m'.live <==> x == e.meta || (x in m.live && x.id != e.meta.id))
                  && m'.nextId > e.meta.id && m'.nextId >= m.nextId && (m'.nextId == m.nextId || m'.nextId == e.meta.id + 1))
            && (e.RemoveMeta? ==>
                  && (forall x :: x in m'.live <==> x in m.live && !(x.id == e.id && x.level == e.level))
                  && m'.nextId == m.nextId && m'.checkpoint == m.checkpoint)
            && (e.FullSnapshot? ==>
                  && m'.live == e.metas && m'.checkpoint == m.checkpoint && m'.nextId >= 1 && m'.nextId >= e.next
                  && (forall x | x in e.metas :: x.id < m'.nextId)
                  && (m'.nextId == 1 || m'.nextId == e.next || exists x :: x in e.metas && m'.nextId == x.id + 1))
            && (e.Checkpoint? ==>
                  && m'.live == m.live && m'.nextId == m.nextId && m'.checkpoint >= m.checkpoint && m'.checkpoint >= e.seqno
                  && (m'.checkpoint == m.checkpoint || m'.checkpoint == e.seqno))
  {
    hide Drop, NextAfter;
    if e.FullSnapshot? { NextAttained(Max(e.next, 1), e.metas); }
  }

  lemma {:induction false} NextAttained(next: nat, metas: seq<Meta>)
    ensures NextAfter(next, metas) == next || exists x :: x in metas && NextAfter(next, metas) == x.id + 1
  {
    if metas != [] {
      var n := |metas| - 1;
      NextAttained(next, metas[..n]);
      assert metas[n] in metas;
      if x :| x in metas[..n] && NextAfter(next, metas[..n]) == x.id + 1 { assert x in metas; }
    }
  }

  /** A batch is its edits, one after the other. */
  lemma BatchMeans(m: Manifest, es: seq<Edit>, e: Edit)
    ensures ApplyEdit(m, Batch([])) == m
    ensures ApplyEdit(m, Batch(es + [e])) == ApplyEdit(ApplyEdit(m, Batch(es)), e)
  {
    assert (es + [e])[..|es|] == es;
  }

  /** The retain pass: what is left once metas matching (id, level) are gone. */
  method Retain(live: seq<Meta>, id: nat, level: Option<nat>) returns (r: seq<Meta>)
    ensures r == Drop(live, id, level)
  {
    r := [];
    for i := 0 to |live|
      invariant r == Drop(live[..i], id, level)
    {
      assert live[..i + 1][..i] == live[..i];
      if !(live[i].id == id && (level.None? || live[i].level == level.value)) { r := r + [live[i]]; }
    }
    assert live[..|live|] == live;
  }

  method ApplyOne(m: Manifest, e: Edit) returns (r: Manifest)
    ensures r == ApplyEdit(m, e)
    decreases e, 0
  {
    hide Drop;
    match e
    case AddMeta(meta) =>
      var live := Retain(m.live, meta.id, None);
      r := m.(live := live + [meta], nextId := Max(m.nextId, meta.id + 1));
    case RemoveMeta(level, id) =>
      var live := Retain(m.live, id, Some(level));
      r := m.(live := live);
    case FullSnapshot(metas, next) =>
      var n := Max(next, 1);
      for i := 0 to |metas|
        invariant n == NextAfter(Max(next, 1), metas[..i])
      {
        assert metas[..i + 1][..i] == metas[..i];
        n := Max(n, metas[i].id + 1);
      }
      assert metas[..|metas|] == metas;
      r := m.(live := metas, nextId := n);
    case Checkpoint(seqno) =>
      r := m.(checkpoint := Max(m.checkpoint, seqno));
    case Batch(edits) =>
      r := m;
      for i := 0 to |edits|
        invariant r == ApplyEdits(m, edits[..i])
      {
        assert edits[..i + 1][..i] == edits[..i];
        r := ApplyOne(r, edits[i]);
      }
      assert edits[..|edits|] == edits;
  }

  // ---- opening the live tables ---------------------------------------------

  ghost predicate Referenced(files: Files, live: seq<Meta>) {
    forall i | 0 <= i < |live| :: live[i].id in files
  }

  function OpenTable(files: Files, m: Meta): Table
    requires m.id in files
  {
    Table(m.id, m.level, m.minKey, m.maxKey, m.stats, m.bytes, files[m.id])
  }

  function Opened(files: Files, live: seq<Meta>): seq<Table>
    requires Referenced(files, live)
  {
    if live == [] then [] else Opened(files, live[..|live| - 1]) + [OpenTable(files, live[|live| - 1])]
  }

  /** The levels as `open` rebuilds them, one table at a time. */
  function Rebuild(maxLevels: nat, ts: seq<Table>): Levels {
    if ts == [] then seq(maxLevels, _ => []) else AddTable(Rebuild(maxLevels, ts[..|ts| - 1]), ts[|ts| - 1])
  }

  /** One level of the rebuilt layout. */
  function Built(ts: seq<Table>, l: nat): seq<Table> {
    if ts == [] then []
    else
      var n := |ts| - 1;
      var rest := Built(ts[..n], l);
      if ts[n].level != l then rest else if l == 0 then rest + [ts[n]] else InsertByMin(rest, ts[n])
  }

  lemma AddTableAt(levels: Levels, t: Table, l: nat)
    ensures LevelAt(AddTable(levels, t), l) == if t.level != l then LevelAt(levels, l)
                                               else if l == 0 then LevelAt(levels, 0) + [t]
                                               else InsertByMin(LevelAt(levels, l), t)
    ensures |AddTable(levels, t)| == Max(|levels|, t.level + 1)
  {
    hide InsertByMin;
    assert LevelAt(Resized(levels, t.level + 1), l) == LevelAt(levels, l);
    assert LevelAt(Resized(levels, t.level + 1), t.level) == LevelAt(levels, t.level);
  }

  lemma {:induction false} RebuildAt(maxLevels: nat, ts: seq<Table>, l: nat)
    ensures LevelAt(Rebuild(maxLevels, ts), l) == Built(ts, l)
    ensures |Rebuild(maxLevels, ts)| >= maxLevels
    ensures forall t | t in ts :: t.level < |Rebuild(maxLevels, ts)|
  {
    hide InsertByMin, AddTable;
    if ts != [] {
      var n := |ts| - 1;
      RebuildAt(maxLevels, ts[..n], l);
      AddTableAt(Rebuild(maxLevels, ts[..n]), ts[n], l);
    }
  }

  lemma {:induction false} BuiltMembers(ts: seq<Table>, l: nat, t: Table)
    ensures t in Built(ts, l) <==> t in ts && t.level == l
  {
    hide InsertByMin;
    if ts != [] {
      BuiltMembers(ts[..|ts| - 1], l, t);
      assert t in ts <==> t in ts[..|ts| - 1] || t == ts[|ts| - 1];
    }
  }

  // ---- rebuilding commutes with retiring -----------------------------------

  ghost predicate MinSorted(ts: seq<Table>) {
    forall i, j | 0 <= i < j < |ts| :: AtMost(ts[i].minKey, ts[j].minKey)
  }

  lemma {:induction false} InsertMinSorted(ts: seq<Table>, t: Table)
    requires MinSorted(ts)
    ensures MinSorted(InsertByMin(ts, t))
  {
    hide Less, AtMost;
    if ts != [] && Less(ts[0].minKey, t.minKey) {
      InsertMinSorted(ts[1..], t);
      var rest := InsertByMin(ts[1..], t);
      forall x | x in rest ensures AtMost(ts[0].minKey, x.minKey) {
        if x == t { NotLess(t.minKey, ts[0].minKey); LessIsAtMost(ts[0].minKey, t.minKey); }
        else { var i :| 0 <= i < |ts| - 1 && ts[1..][i] == x; assert ts[i + 1] == x; }
      }
      ConsMinSorted(ts[0], rest);
    } else {
      forall x | x in ts ensures AtMost(t.minKey, x.minKey) {
        NotLess(ts[0].minKey, t.minKey);
        var i :| 0 <= i < |ts| && ts[i] == x;
        if i > 0 { AtMostTrans(t.minKey, ts[0].minKey, x.minKey); }
      }
      ConsMinSorted(t, ts);
    }
  }

  lemma ConsMinSorted(t: Table, ts: seq<Table>)
    requires MinSorted(ts) && forall x | x in ts :: AtMost(t.minKey, x.minKey)
    ensures MinSorted([t] + ts)
  {
    hide AtMost;
    forall i, j | 0 <= i < j < |[t] + ts| ensures AtMost(([t] + ts)[i].minKey, ([t] + ts)[j].minKey) {
      assert ([t] + ts)[j] == ts[j - 1] && ts[j - 1] in ts;
    }
  }

  lemma {:induction false} BuiltMinSorted(ts: seq<Table>, l: nat)
    requires l > 0
    ensures MinSorted(Built(ts, l))
  {
    hide InsertByMin, AtMost;
    if ts != [] {
      var n := |ts| - 1;
      BuiltMinSorted(ts[..n], l);
      if ts[n].level == l { InsertMinSorted(Built(ts[..n], l), ts[n]); }
    }
  }

  lemma {:induction false} WithoutInsert(ts: seq<Table>, t: Table, ids: set<nat>)
    requires MinSorted(ts)
    ensures Without(InsertByMin(ts, t), ids) ==
            if t.id in ids then Without(ts, ids) else InsertByMin(Without(ts, ids), t)
  {
    hide Less, AtMost;
    if ts != [] && Less(ts[0].minKey, t.minKey) {
      WithoutInsert(ts[1..], t, ids);
    } else {
      assert ([t] + ts)[1..] == ts;
      var kept := Without(ts, ids);
      if kept != [] {
        assert kept[0] in kept && kept[0] in ts;
        var i :| 0 <= i < |ts| && ts[i] == kept[0];
        NotLess(ts[0].minKey, t.minKey);
        if i > 0 { AtMostTrans(t.minKey, ts[0].minKey, ts[i].minKey); }
        NotLess(kept[0].minKey, t.minKey);
      }
    }
  }

  lemma {:induction false} WithoutConcat(a: seq<Table>, b: seq<Table>, ids: set<nat>)
    ensures Without(a + b, ids) == Without(a, ids) + Without(b, ids)
  {
    if a == [] {
      assert a + b == b;
    } else {
      assert (a + b)[1..] == a[1..] + b;
      WithoutConcat(a[1..], b, ids);
    }
  }

  lemma WithoutLast(ts: seq<Table>, ids: set<nat>)
    requires ts != []
    ensures var n := |ts| - 1;
            Without(ts, ids) == Without(ts[..n], ids) + (if ts[n].id in ids then [] else [ts[n]])
  {
    var n := |ts| - 1;
    assert ts == ts[..n] + [ts[n]];
    WithoutConcat(ts[..n], [ts[n]], ids);
  }

  /** Retiring tables before rebuilding is retiring them from each level. */
  lemma {:induction false} BuiltWithout(ts: seq<Table>, ids: set<nat>, l: nat)
    ensures Built(Without(ts, ids), l) == Without(Built(ts, l), ids)
  {
    hide Without, InsertByMin;
    if ts == [] {
      assert Without(ts, ids) == [] by { NothingLeft(ids); }
    } else {
      var n := |ts| - 1;
      var rest, kept := Built(ts[..n], l), Without(ts[..n], ids);
      BuiltWithout(ts[..n], ids, l);
      WithoutLast(ts, ids);
      if ts[n].id !in ids {
        assert (kept + [ts[n]])[..|kept|] == kept;
      } else {
        assert kept + [] == kept;
      }
      if ts[n].level == l {
        if l == 0 {
          assert (rest + [ts[n]])[..|rest|] == rest;
          WithoutLast(rest + [ts[n]], ids);
        } else {
          BuiltMinSorted(ts[..n], l);
          WithoutInsert(rest, ts[n], ids);
        }
      }
    }
  }

  lemma NothingLeft(ids: set<nat>)
    ensures Without([], ids) == []
  {
  }

  // ---- a full snapshot rebuilds the same levels ----------------------------

  /** Every live table, level by level. */
  function AllTables(levels: Levels): seq<Table> {
    if levels == [] then [] else AllTables(levels[..|levels| - 1]) + levels[|levels| - 1]
  }

  lemma {:induction false} InsertAtEnd(ts: seq<Table>, t: Table)
    requires forall x | x in ts :: Less(x.minKey, t.minKey)
    ensures InsertByMin(ts, t) == ts + [t]
  {
    if ts != [] { InsertAtEnd(ts[1..], t); }
  }

  lemma {:induction false} BuiltOther(xs: seq<Table>, ts: seq<Table>, l: nat)
    requires forall t | t in ts :: t.level != l
    ensures Built(xs + ts, l) == Built(xs, l)
  {
    if ts == [] {
      assert xs + ts == xs;
    } else {
      var n := |ts| - 1;
      assert (xs + ts)[..|xs| + n] == xs + ts[..n];
      BuiltOther(xs, ts[..n], l);
    }
  }

  /** What a level must satisfy for its tables to come back in the same order. */
  ghost predicate LevelShape(ts: seq<Table>, l: nat) {
    && (forall t | t in ts :: t.level == l)
    && (l > 0 ==> forall i, j | 0 <= i < j < |ts| :: Less(ts[i].minKey, ts[j].minKey))
  }

  lemma ShapePrefix(ts: seq<Table>, l: nat)
    requires ts != [] && LevelShape(ts, l)
    ensures LevelShape(ts[..|ts| - 1], l) && ts[|ts| - 1].level == l
    ensures l > 0 ==> forall x | x in ts[..|ts| - 1] :: Less(x.minKey, ts[|ts| - 1].minKey)
  {
    hide Less;
  }

  lemma {:induction false} BuiltConcat(xs: seq<Table>, ts: seq<Table>, l: nat)
    requires Built(xs, l) == [] && LevelShape(ts, l)
    ensures Built(xs + ts, l) == ts
  {
    hide InsertByMin, Less, LevelShape, Built;
    if ts == [] {
      assert xs + ts == xs;
    } else {
      var n := |ts| - 1;
      assert xs + ts == (xs + ts[..n]) + [ts[n]] && ts == ts[..n] + [ts[n]];
      ShapePrefix(ts, l);
      BuiltConcat(xs, ts[..n], l);
      BuiltSnoc(xs + ts[..n], ts[n], l);
      if l > 0 { InsertAtEnd(ts[..n], ts[n]); }
    }
  }

  lemma BuiltSnoc(ts: seq<Table>, t: Table, l: nat)
    ensures Built(ts + [t], l) == if t.level != l then Built(ts, l) else if l == 0 then Built(ts, l) + [t] else InsertByMin(Built(ts, l), t)
  {
    hide InsertByMin;
    assert (ts + [t])[..|ts|] == ts;
  }

  lemma OkLevelShape(levels: Levels, l: nat)
    requires LevelOk(levels, l)
    ensures LevelShape(LevelAt(levels, l), l)
  {
    hide TableOk, Less;
    var ts := LevelAt(levels, l);
    forall t | t in ts ensures t.level == l { var i :| 0 <= i < |ts| && ts[i] == t; }
    if l > 0 {
      forall i, j | 0 <= i < j < |ts| ensures Less(ts[i].minKey, ts[j].minKey) {
        OrderedBounds(ts[i]);
        LessAtMost(ts[i].minKey, ts[i].maxKey, ts[j].minKey);
      }
    }
  }

  /** Rebuilding from a full listing gives back every level. */
  lemma {:induction false} BuiltAll(levels: Levels, l: nat)
    requires forall j | 0 <= j < |levels| :: LevelShape(levels[j], j)
    ensures Built(AllTables(levels), l) == LevelAt(levels, l)
  {
    hide LevelShape;
    if levels != [] {
      var n := |levels| - 1;
      var most, ts := levels[..n], levels[n];
      BuiltAll(most, l);
      assert LevelShape(ts, n);
      BuiltStep(AllTables(most), ts, n, l);
    }
  }

  lemma BuiltStep(xs: seq<Table>, ts: seq<Table>, n: nat, l: nat)
    requires LevelShape(ts, n) && (l == n ==> Built(xs, l) == [])
    ensures Built(xs + ts, l) == if l == n then ts else Built(xs, l)
  {
    hide Built, Less;
    if l == n { BuiltConcat(xs, ts, l); } else { BuiltOther(xs, ts, l); }
  }
}
