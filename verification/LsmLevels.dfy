/** Tables arranged in levels: point lookup, compaction jobs, and the proof that
    a compaction never changes what a lookup means. */
module LsmLevels {
  import opened Bytes
  import opened Wrappers
  import opened LsmRuns

  /** What is recorded of a table's versions beside its key bounds. */
  datatype Stats = Stats(minSeqno: nat, maxSeqno: nat, count: nat)

  datatype Table = Table(id: nat, level: nat, minKey: Bytes, maxKey: Bytes, stats: Stats, bytes: nat, entries: Run)

  type Levels = seq<seq<Table>>

  function Highest(r: Run): nat {
    if r == [] then 0 else Max(Highest(r[..|r| - 1]), r[|r| - 1].seqno)
  }

  function Lowest(r: Run): nat {
    if r == [] then U64_LIMIT - 1 else
      var rest, last := Lowest(r[..|r| - 1]), r[|r| - 1].seqno;
      if last < rest then last else rest
  }

  /** The highest and lowest sequence numbers of a run, by its versions. */
  lemma {:induction false} SeqnoBounds(r: Run)
    requires r != [] && forall e | e in r :: e.seqno < U64_LIMIT
    ensures forall e | e in r :: Lowest(r) <= e.seqno <= Highest(r)
    ensures (exists e :: e in r && e.seqno == Highest(r)) && exists e :: e in r && e.seqno == Lowest(r)
  {
    var n := |r| - 1;
    assert forall e :: e in r <==> e in r[..n] || e == r[n];
    assert r[n] in r;
    if n > 0 {
      SeqnoBounds(r[..n]);
    } else {
      assert r[..n] == [];
      assert Highest(r[..n]) == 0 && Lowest(r[..n]) == U64_LIMIT - 1;
      assert Highest(r) == r[n].seqno && Lowest(r) == r[n].seqno;
    }
  }

  function StatsOf(r: Run): Stats {
    Stats(Lowest(r), Highest(r), |r|)
  }

  ghost predicate TableOk(t: Table) {
    && t.entries != [] && LsmRuns.Sorted(t.entries)
    && t.minKey == t.entries[0].key && t.maxKey == t.entries[|t.entries| - 1].key
    && t.stats == StatsOf(t.entries)
  }

  predicate MayContain(t: Table, k: Bytes) {
    AtMost(t.minKey, k) && AtMost(k, t.maxKey)
  }

  predicate Overlaps(t: Table, from: Bytes, to: Bytes) {
    AtMost(t.minKey, to) && AtMost(from, t.maxKey)
  }

  function LevelAt(levels: Levels, l: nat): seq<Table> {
    if l < |levels| then levels[l] else []
  }

  /** Within a level below L0, tables are in key order and do not overlap. */
  ghost predicate Disjoint(ts: seq<Table>) {
    forall i, j | 0 <= i < j < |ts| :: Less(ts[i].maxKey, ts[j].minKey)
  }

  ghost predicate LevelOk(levels: Levels, l: nat) {
    && (forall i | 0 <= i < |LevelAt(levels, l)| :: TableOk(LevelAt(levels, l)[i]) && LevelAt(levels, l)[i].level == l)
    && (l > 0 ==> Disjoint(LevelAt(levels, l)))
  }

  ghost predicate LevelsOk(levels: Levels) {
    forall l: nat :: LevelOk(levels, l)
  }

  // ---- key order facts -----------------------------------------------------

  lemma NotLess(a: Bytes, b: Bytes)
    ensures Less(a, b) <==> !AtMost(b, a)
  {
    LessTotal(a, b);
    if Less(a, b) { LessAsymmetric(a, b); }
  }

  /** A table's key range covers its entries. */
  lemma EntryInRange(t: Table, e: Entry)
    requires TableOk(t) && e in t.entries
    ensures MayContain(t, e.key)
  {
    var i :| 0 <= i < |t.entries| && t.entries[i] == e;
    if i > 0 { assert Before(t.entries[0], t.entries[i]); }
    if i < |t.entries| - 1 { assert Before(t.entries[i], t.entries[|t.entries| - 1]); }
  }

  lemma OrderedBounds(t: Table)
    requires TableOk(t)
    ensures AtMost(t.minKey, t.maxKey)
  {
    assert t.entries[0] in t.entries;
    EntryInRange(t, t.entries[0]);
  }

  lemma NotBoth(ts: seq<Table>, i: nat, j: nat, k: Bytes)
    requires Disjoint(ts) && i < |ts| && j < |ts| && i != j && MayContain(ts[i], k)
    ensures !MayContain(ts[j], k)
  {
    if MayContain(ts[j], k) {
      var a, b := if i < j then ts[i] else ts[j], if i < j then ts[j] else ts[i];
      LessAtMost(a.maxKey, b.minKey, k);
      NotLess(a.maxKey, k);
    }
  }

  // ---- lookup --------------------------------------------------------------

  /** L0 tables overlap: search newest first. */
  function SearchL0(ts: seq<Table>, k: Bytes, s: nat): Option<Entry> {
    if ts == [] then None
    else
      var t := ts[|ts| - 1];
      var hit := if MayContain(t, k) then FirstVisible(t.entries, k, s) else None;
      if hit.Some? then hit else SearchL0(ts[..|ts| - 1], k, s)
  }

  /** Below L0 at most one table can hold the key. */
  function FindTable(ts: seq<Table>, k: Bytes): (r: Option<Table>)
    ensures r.Some? ==> r.value in ts && MayContain(r.value, k)
    ensures r.None? ==> forall t | t in ts :: !MayContain(t, k)
  {
    if ts == [] then None else if MayContain(ts[0], k) then Some(ts[0]) else FindTable(ts[1..], k)
  }

  function LevelHit(levels: Levels, l: nat, k: Bytes, s: nat): Option<Entry> {
    if l == 0 then SearchL0(LevelAt(levels, 0), k, s)
    else
      match FindTable(LevelAt(levels, l), k)
      case None => None
      case Some(t) => FirstVisible(t.entries, k, s)
  }

  /** The first level with an answer, from `l` down. */
  function Search(levels: Levels, l: nat, k: Bytes, s: nat): Option<Entry>
    decreases |levels| - l
  {
    if l >= |levels| then None
    else if LevelHit(levels, l, k, s).Some? then LevelHit(levels, l, k, s)
    else Search(levels, l + 1, k, s)
  }

  ghost predicate InLevel(levels: Levels, l: nat, e: Entry) {
    exists i :: 0 <= i < |LevelAt(levels, l)| && e in LevelAt(levels, l)[i].entries
  }

  lemma {:induction false} SearchL0Hit(ts: seq<Table>, k: Bytes, s: nat)
    requires forall i | 0 <= i < |ts| :: TableOk(ts[i])
    ensures var r := SearchL0(ts, k, s);
            && (r.Some? ==> Visible(r.value, k, s) && exists i :: 0 <= i < |ts| && r.value in ts[i].entries)
            && (r.None? ==> forall i, e | 0 <= i < |ts| && e in ts[i].entries :: !Visible(e, k, s))
  {
    hide TableOk, MayContain;
    if ts != [] {
      var n := |ts| - 1;
      SearchL0Hit(ts[..n], k, s);
      forall e | e in ts[n].entries && Visible(e, k, s) ensures MayContain(ts[n], k) { EntryInRange(ts[n], e); }
      var r := SearchL0(ts[..n], k, s);
      if r.Some? {
        var i :| 0 <= i < n && r.value in ts[..n][i].entries;
        assert r.value in ts[i].entries;
      }
    }
  }

  /** A level answers with one of its visible versions, or has none. */
  lemma LevelHitSound(levels: Levels, l: nat, k: Bytes, s: nat)
    requires LevelOk(levels, l)
    ensures var r := LevelHit(levels, l, k, s);
            && (r.Some? ==> Visible(r.value, k, s) && InLevel(levels, l, r.value))
            && (r.None? ==> forall e | InLevel(levels, l, e) :: !Visible(e, k, s))
  {
    hide TableOk, MayContain;
    var ts := LevelAt(levels, l);
    if l == 0 {
      SearchL0Hit(ts, k, s);
    } else {
      var found := FindTable(ts, k);
      if found.Some? {
        var i :| 0 <= i < |ts| && ts[i] == found.value;
        if LevelHit(levels, l, k, s).None? {
          forall e | InLevel(levels, l, e) ensures !Visible(e, k, s) {
            var j :| 0 <= j < |ts| && e in ts[j].entries;
            if Visible(e, k, s) {
              EntryInRange(ts[j], e);
              if j != i { NotBoth(ts, i, j, k); }
            }
          }
        }
      } else {
        forall e | InLevel(levels, l, e) ensures !Visible(e, k, s) {
          var j :| 0 <= j < |ts| && e in ts[j].entries;
          assert ts[j] in ts;
          if Visible(e, k, s) { EntryInRange(ts[j], e); }
        }
      }
    }
  }

  /** Below L0, the table holding a visible version is the one that answers. */
  lemma LevelHitTable(levels: Levels, l: nat, i: nat, k: Bytes, s: nat, e: Entry)
    requires LevelOk(levels, l) && l > 0 && i < |LevelAt(levels, l)|
    requires e in LevelAt(levels, l)[i].entries && Visible(e, k, s)
    ensures LevelHit(levels, l, k, s) == FirstVisible(LevelAt(levels, l)[i].entries, k, s)
  {
    hide TableOk, MayContain;
    var ts := LevelAt(levels, l);
    EntryInRange(ts[i], e);
    assert ts[i] in ts;
    var found := FindTable(ts, k);
    var j :| 0 <= j < |ts| && ts[j] == found.value;
    if j != i { NotBoth(ts, i, j, k); }
  }
}
