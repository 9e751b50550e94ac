/** Layers of in-memory writes over tables: what every step keeps. */
module LsmMemory {
  import opened Bytes
  import opened Wrappers
  import opened LsmRuns
  import opened LsmLevels
  import opened LsmCompaction
  import opened LsmCompactionSafety
  import opened LsmManifest
  import opened LsmEngine

  /** `a` must precede `b`: always for one key, for all keys when `strict`. */
  predicate Related(a: Entry, b: Entry, strict: bool) {
    strict || a.key == b.key
  }

  ghost predicate SeqnosGrow(ws: seq<Entry>, strict: bool) {
    forall i, j | 0 <= i < j < |ws| :: Related(ws[i], ws[j], strict) ==> ws[i].seqno < ws[j].seqno
  }

  ghost predicate InMem(layers: seq<Run>, e: Entry) {
    exists i :: 0 <= i < |layers| && e in layers[i]
  }

  /** Newer layers hold newer versions. */
  ghost predicate Layered(layers: seq<Run>, strict: bool) {
    forall i, j, a, b | 0 <= i < j < |layers| && a in layers[i] && b in layers[j] ::
      Related(a, b, strict) ==> a.seqno < b.seqno
  }

  ghost predicate MemWritten(layers: seq<Run>, writes: seq<Entry>) {
    forall e | InMem(layers, e) :: e in writes
  }

  /** Writes no longer in memory are older than what memory holds of their key. */
  ghost predicate MemNewest(layers: seq<Run>, writes: seq<Entry>) {
    forall w, e | w in writes && InMem(layers, e) && w.key == e.key && !InMem(layers, w) :: w.seqno < e.seqno
  }

  ghost predicate Silent(layers: seq<Run>, k: Bytes, s: nat) {
    forall e | InMem(layers, e) :: !Visible(e, k, s)
  }

  ghost predicate TablesWritten(levels: Levels, writes: seq<Entry>) {
    forall l: nat, e | InLevel(levels, l, e) :: e in writes
  }

  /** Where memory is silent, the tables answer with the newest write. */
  ghost predicate TablesRight(levels: Levels, layers: seq<Run>, writes: seq<Entry>, floor: nat) {
    forall k: Bytes, s: nat | floor <= s && Silent(layers, k, s) ::
      Right(Search(levels, 0, k, s), NewestWrite(writes, k, s))
  }

  // ---- the reference -------------------------------------------------------

  lemma {:induction false} NewestIsNewest(writes: seq<Entry>, k: Bytes, s: nat)
    requires SeqnosGrow(writes, false)
    ensures IsNewest(writes, k, s, NewestWrite(writes, k, s))
  {
    if writes != [] {
      var n := |writes| - 1;
      NewestIsNewest(writes[..n], k, s);
      assert forall x | x in writes :: x == writes[n] || x in writes[..n];
      if Visible(writes[n], k, s) {
        forall x | x in writes && Visible(x, k, s) ensures x.seqno <= writes[n].seqno {
          var i :| 0 <= i < |writes| && writes[i] == x;
        }
      }
    }
  }

  lemma StrictIsPerKey(writes: seq<Entry>, strict: bool)
    requires SeqnosGrow(writes, strict)
    ensures SeqnosGrow(writes, false)
  {
  }

  lemma OneVersion(writes: seq<Entry>, a: Entry, b: Entry)
    requires SeqnosGrow(writes, false) && a in writes && b in writes && SameVersion(a, b)
    ensures a == b
  {
    var i :| 0 <= i < |writes| && writes[i] == a;
    var j :| 0 <= j < |writes| && writes[j] == b;
  }

  /** A visible write at least as new as every other one is the reference. */
  lemma IsReference(writes: seq<Entry>, k: Bytes, s: nat, e: Entry)
    requires SeqnosGrow(writes, false) && e in writes && Visible(e, k, s)
    requires forall w | w in writes && Visible(w, k, s) :: w.seqno <= e.seqno
    ensures NewestWrite(writes, k, s) == Some(e)
  {
    hide SeqnosGrow, NewestWrite;
    NewestIsNewest(writes, k, s);
    OneVersion(writes, e, NewestWrite(writes, k, s).value);
  }

  // ---- memory answers ------------------------------------------------------

  /** `r` is the newest version memory holds of `k` at or below `s`. */
  ghost predicate NewestInMem(layers: seq<Run>, k: Bytes, s: nat, r: Option<Entry>) {
    && (r.None? ==> Silent(layers, k, s))
    && (r.Some? ==> InMem(layers, r.value) && Visible(r.value, k, s))
    && (r.Some? ==> forall x | InMem(layers, x) && Visible(x, k, s) :: x.seqno <= r.value.seqno)
  }

  lemma {:induction false} MemLookupHit(layers: seq<Run>, k: Bytes, s: nat, strict: bool)
    requires Layered(layers, strict) && forall i | 0 <= i < |layers| :: LsmRuns.Sorted(layers[i])
    ensures NewestInMem(layers, k, s, MemLookup(layers, k, s))
  {
    hide LsmRuns.Sorted, Layered, InMem;
    if layers == [] {
      NothingInMem();
    } else {
      var n := |layers| - 1;
      LayeredLast(layers, strict);
      MemLookupHit(layers[..n], k, s, strict);
      FirstIsNewest(layers[n], k, s);
      forall x ensures InMem(layers, x) <==> InMem(layers[..n], x) || x in layers[n] { InMemLast(layers, x); }
    }
  }

  lemma NothingInMem()
    ensures forall x :: !InMem([], x)
  {
  }

  lemma LayeredLast(layers: seq<Run>, strict: bool)
    requires Layered(layers, strict) && layers != []
    ensures var n := |layers| - 1;
            && Layered(layers[..n], strict)
            && forall a, b | InMem(layers[..n], a) && b in layers[n] && a.key == b.key :: a.seqno < b.seqno
  {
    var n := |layers| - 1;
    forall a, b | InMem(layers[..n], a) && b in layers[n] && a.key == b.key ensures a.seqno < b.seqno {
      var i :| 0 <= i < n && a in layers[..n][i];
      assert a in layers[i];
    }
  }

  lemma InMemLast(layers: seq<Run>, x: Entry)
    requires layers != []
    ensures InMem(layers, x) <==> InMem(layers[..|layers| - 1], x) || x in layers[|layers| - 1]
  {
    var n := |layers| - 1;
    if InMem(layers[..n], x) {
      var i :| 0 <= i < n && x in layers[..n][i];
      assert x in layers[i];
    }
    if InMem(layers, x) && x !in layers[n] {
      var i :| 0 <= i <= n && x in layers[i];
      assert x in layers[..n][i];
    }
  }

  lemma InMemFirst(layers: seq<Run>, x: Entry)
    requires layers != []
    ensures InMem(layers, x) <==> InMem(layers[1..], x) || x in layers[0]
  {
    if InMem(layers[1..], x) {
      var i :| 0 <= i < |layers| - 1 && x in layers[1..][i];
      assert x in layers[i + 1];
    }
    if InMem(layers, x) && x !in layers[0] {
      var i :| 0 <= i < |layers| && x in layers[i];
      assert x in layers[1..][i - 1];
    }
  }

  /** The heart of every read: a version memory holds, newest there, is the
      newest write. */
  lemma MemoryIsNewest(layers: seq<Run>, writes: seq<Entry>, k: Bytes, s: nat, e: Entry)
    requires SeqnosGrow(writes, false) && MemWritten(layers, writes) && MemNewest(layers, writes)
    requires InMem(layers, e) && Visible(e, k, s)
    requires forall x | InMem(layers, x) && Visible(x, k, s) :: x.seqno <= e.seqno
    ensures NewestWrite(writes, k, s) == Some(e)
  {
    hide SeqnosGrow, InMem;
    IsReference(writes, k, s, e);
  }

  // ---- adding memory -------------------------------------------------------

  ghost predicate SubMemory(layers: seq<Run>, layers': seq<Run>) {
    forall e | InMem(layers, e) :: InMem(layers', e)
  }

  lemma MoreMemory(levels: Levels, layers: seq<Run>, layers': seq<Run>, writes: seq<Entry>, floor: nat)
    requires TablesRight(levels, layers, writes, floor) && SubMemory(layers, layers')
    ensures TablesRight(levels, layers', writes, floor)
  {
    hide InMem, Right, Search, NewestWrite, Visible;
    forall k: Bytes, s: nat | floor <= s && Silent(layers', k, s)
      ensures Right(Search(levels, 0, k, s), NewestWrite(writes, k, s))
    {
      assert Silent(layers, k, s);
    }
  }

  /** A new write of a key is in memory, so it silences nothing wrongly. */
  lemma WriteKeepsTables(levels: Levels, layers: seq<Run>, layers': seq<Run>, writes: seq<Entry>, floor: nat, w: Entry)
    requires TablesRight(levels, layers, writes, floor) && SubMemory(layers, layers') && InMem(layers', w)
    ensures TablesRight(levels, layers', writes + [w], floor)
  {
    hide InMem, Right, Search;
    forall k: Bytes, s: nat | floor <= s && Silent(layers', k, s)
      ensures Right(Search(levels, 0, k, s), NewestWrite(writes + [w], k, s))
    {
      assert Silent(layers, k, s);
      assert (writes + [w])[..|writes|] == writes;
    }
  }

  // ---- flushing the oldest layer -------------------------------------------

  lemma FlushedHit(levels: Levels, t: Table, k: Bytes, s: nat)
    requires t.level == 0 && TableOk(t) && levels != []
    ensures var f := FirstVisible(t.entries, k, s);
            Search(AddTable(levels, t), 0, k, s) == if f.Some? then f else Search(levels, 0, k, s)
  {
    hide TableOk, SearchL0, FindTable, AddTable;
    var f, levels' := FirstVisible(t.entries, k, s), AddTable(levels, t);
    if f.Some? { EntryInRange(t, f.value); }
    AddTableAt(levels, t, 0);
    AddedL0(levels[0], t, k, s);
    forall l: nat | l > 0 ensures LevelAt(levels', l) == LevelAt(levels, l) { AddTableAt(levels, t, l); }
    SearchSame(levels, levels', 1, k, s);
  }

  lemma AddedL0(ts: seq<Table>, t: Table, k: Bytes, s: nat)
    requires FirstVisible(t.entries, k, s).Some? ==> MayContain(t, k)
    ensures var f := FirstVisible(t.entries, k, s);
            SearchL0(ts + [t], k, s) == if f.Some? then f else SearchL0(ts, k, s)
  {
    hide MayContain;
    assert (ts + [t])[..|ts|] == ts;
  }

  /** After a flush the tables answer for what left memory. */
  lemma FlushKeepsTables(levels: Levels, layers: seq<Run>, writes: seq<Entry>, floor: nat, t: Table, strict: bool)
    requires layers != [] && SeqnosGrow(writes, false) && MemWritten(layers, writes) && MemNewest(layers, writes)
    requires TablesRight(levels, layers, writes, floor)
    requires t.entries == layers[0] && t.level == 0 && TableOk(t) && levels != []
    ensures TablesRight(AddTable(levels, t), layers[1..], writes, floor)
  {
    hide SeqnosGrow, MemWritten, MemNewest, InMem, AddTable, Search, NewestWrite, LsmRuns.Sorted;
    forall k: Bytes, s: nat | floor <= s && Silent(layers[1..], k, s)
      ensures Right(Search(AddTable(levels, t), 0, k, s), NewestWrite(writes, k, s))
    {
      forall x ensures InMem(layers, x) <==> InMem(layers[1..], x) || x in layers[0] { InMemFirst(layers, x); }
      FlushedHit(levels, t, k, s);
      FirstIsNewest(t.entries, k, s);
      var f := FirstVisible(t.entries, k, s);
      if f.Some? {
        MemoryIsNewest(layers, writes, k, s, f.value);
      } else {
        assert Silent(layers, k, s);
      }
    }
  }

  // ---- compaction ----------------------------------------------------------

  lemma SwapKeepsTables(levels: Levels, levels': Levels, layers: seq<Run>, writes: seq<Entry>, floor: nat,
                        c: Config, job: Job, retain: nat, out: Option<Table>)
    requires SeqnosGrow(writes, false) && TablesWritten(levels, writes) && TablesRight(levels, layers, writes, floor)
    requires job.sources != [] && Compacted(levels, levels', job, retain, DropsTombstones(c, levels, job), out)
    ensures TablesRight(levels', layers, writes, Max(floor, retain))
  {
    hide Compacted, Silent, Search, SeqnosGrow, NewestWrite, DropsTombstones, TablesWritten, Right;
    forall k: Bytes, s: nat | Max(floor, retain) <= s && Silent(layers, k, s)
      ensures Right(Search(levels', 0, k, s), NewestWrite(writes, k, s))
    {
      WritesBound(levels, writes, k, s);
      CompactionKeepsLookup(levels, levels', job, retain, c, out, k, s, NewestWrite(writes, k, s));
    }
  }

  lemma WritesBound(levels: Levels, writes: seq<Entry>, k: Bytes, s: nat)
    requires SeqnosGrow(writes, false) && TablesWritten(levels, writes)
    ensures Bounds(levels, k, s, NewestWrite(writes, k, s))
  {
    hide SeqnosGrow, InLevel, NewestWrite;
    NewestIsNewest(writes, k, s);
    var n := NewestWrite(writes, k, s);
    forall l: nat, e | InLevel(levels, l, e) && Visible(e, k, s)
      ensures n.Some? && e.seqno <= n.value.seqno && (e.seqno == n.value.seqno ==> e == n.value)
    {
      assert e in writes;
      if e.seqno == n.value.seqno { OneVersion(writes, e, n.value); }
    }
  }

  /** The swap introduces no version that was not written. */
  lemma SwapWritten(levels: Levels, levels': Levels, writes: seq<Entry>, job: Job, retain: nat, drop: bool, out: Option<Table>)
    requires TablesWritten(levels, writes) && Compacted(levels, levels', job, retain, drop, out)
    ensures TablesWritten(levels', writes)
  {
    hide LevelsOk, IdsOk, OutputOk, Apply, LegalJob, InLevel;
    assert levels' == Apply(levels, job, out) && job.source + 1 < |levels| && (out.Some? ==> out.value.level == job.source + 1) by {
      CompactedFacts(levels, levels', job, retain, drop, out);
      OutLevel(job, retain, drop, out);
    }
    forall l: nat, e | InLevel(levels', l, e) ensures e in writes {
      SwapOrigin(levels, levels', job, retain, drop, out, l, e);
    }
  }

  lemma SwapOrigin(levels: Levels, levels': Levels, job: Job, retain: nat, drop: bool, out: Option<Table>, l: nat, e: Entry)
    requires Compacted(levels, levels', job, retain, drop, out) && InLevel(levels', l, e)
    requires job.source + 1 < |levels| && levels' == Apply(levels, job, out)
    requires out.Some? ==> out.value.level == job.source + 1
    ensures exists j: nat :: InLevel(levels, j, e)
  {
    hide Compacted, Apply, Without, InsertByMin;
    if l == job.source + 1 {
      hide InLevel;
      NewTargetOrigin(levels, levels', job, retain, drop, out, e);
    } else if l == job.source {
      var i :| 0 <= i < |LevelAt(levels', l)| && e in LevelAt(levels', l)[i].entries;
      NewTable(levels, levels', job, retain, drop, out, l, LevelAt(levels', l)[i]);
      TableInLevel(levels, l, LevelAt(levels', l)[i], e);
    } else {
      ApplyAt(levels, job, out, l);
      assert InLevel(levels, l, e);
    }
  }

  lemma FlushWritten(levels: Levels, writes: seq<Entry>, t: Table)
    requires TablesWritten(levels, writes) && t.level == 0 && forall e | e in t.entries :: e in writes
    ensures TablesWritten(AddTable(levels, t), writes)
  {
    hide AddTable;
    var levels' := AddTable(levels, t);
    forall l: nat, e | InLevel(levels', l, e) ensures e in writes {
      AddTableAt(levels, t, l);
      var i :| 0 <= i < |LevelAt(levels', l)| && e in LevelAt(levels', l)[i].entries;
      if i < |LevelAt(levels, l)| { assert InLevel(levels, l, e); }
    }
  }
}
