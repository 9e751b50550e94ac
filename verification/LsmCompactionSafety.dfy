/** Compaction keeps the level structure and the meaning of every lookup. */
module LsmCompactionSafety {
  import opened Bytes
  import opened Wrappers
  import opened LsmRuns
  import opened LsmLevels
  import opened LsmCompaction

  /** Every entry a job consumes. */
  function Inputs(job: Job): Run {
    Flatten(Runs(job.sources + job.targets))
  }

  function OutRun(out: Option<Table>): Run {
    if out.Some? then out.value.entries else []
  }

  /** The job's output: the merge of its inputs as one table, or nothing. */
  ghost predicate OutputOk(job: Job, floor: nat, drop: bool, out: Option<Table>) {
    && IsMerge(Inputs(job), floor, drop, OutRun(out))
    && (out.Some? ==> TableOk(out.value) && out.value.level == job.source + 1)
  }

  ghost predicate Has(levels: Levels, t: Table) {
    t in LevelAt(levels, t.level)
  }

  /** An id names one table. */
  ghost predicate IdsOk(levels: Levels) {
    forall a, b | Has(levels, a) && Has(levels, b) && a.id == b.id :: a == b
  }

  lemma LevelIds(levels: Levels, l: nat)
    requires LevelsOk(levels) && IdsOk(levels)
    ensures DistinctIds(LevelAt(levels, l))
  {
    hide TableOk, Disjoint;
    assert LevelOk(levels, l);
    forall t | t in LevelAt(levels, l) ensures Has(levels, t) {
      var i :| 0 <= i < |LevelAt(levels, l)| && LevelAt(levels, l)[i] == t;
    }
  }

  lemma InputEntry(job: Job, e: Entry) returns (t: Table)
    requires e in Inputs(job)
    ensures (t in job.sources || t in job.targets) && e in t.entries
  {
    var ts := job.sources + job.targets;
    FlattenMember(Runs(ts), e);
    var i :| 0 <= i < |Runs(ts)| && e in Runs(ts)[i];
    t := ts[i];
  }

  lemma InputHas(job: Job, t: Table, e: Entry)
    requires (t in job.sources || t in job.targets) && e in t.entries
    ensures e in Inputs(job)
  {
    var ts := job.sources + job.targets;
    assert t in ts;
    var i :| 0 <= i < |ts| && ts[i] == t;
    assert e in Runs(ts)[i];
    FlattenMember(Runs(ts), e);
  }

  // ---- what the swap does to each level ------------------------------------

  lemma ApplyAt(levels: Levels, job: Job, out: Option<Table>, l: nat)
    requires job.source + 1 < |levels| && (out.Some? ==> out.value.level == job.source + 1)
    ensures var levels' := Apply(levels, job, out);
            var kept := Without(LevelAt(levels, job.source + 1), Ids(job.targets));
            && |levels'| == |levels|
            && LevelAt(levels', l) == if l == job.source then Without(LevelAt(levels, l), Ids(job.sources))
                                      else if l != job.source + 1 then LevelAt(levels, l)
                                      else if out.Some? then InsertByMin(kept, out.value) else kept
  {
    hide Without, InsertByMin;
  }

  lemma JobTables(levels: Levels, job: Job)
    requires LegalJob(levels, job)
    ensures forall t | t in job.sources :: t in levels[job.source]
    ensures forall t | t in job.targets :: t in levels[job.source + 1]
  {
    hide MinKeyOf, MaxKeyOf, Overlapping;
  }

  /** Inputs and output span: the output lies within its inputs' key range. */
  lemma OutputWithin(levels: Levels, job: Job, floor: nat, drop: bool, out: Table)
    requires LevelsOk(levels) && LegalJob(levels, job) && OutputOk(job, floor, drop, Some(out))
    ensures AtMost(MinKeyOf(job.sources + job.targets), out.minKey)
    ensures AtMost(out.maxKey, MaxKeyOf(job.sources + job.targets))
  {
    hide Less, MinKeyOf, MaxKeyOf, Overlapping, Inputs, LsmRuns.Sorted, Superseded;
    var first, last := out.entries[0], out.entries[|out.entries| - 1];
    assert first in out.entries && last in out.entries;
    InputSpan(levels, job, first);
    InputSpan(levels, job, last);
  }

  lemma InputSpan(levels: Levels, job: Job, e: Entry)
    requires LevelsOk(levels) && LegalJob(levels, job) && e in Inputs(job)
    ensures AtMost(MinKeyOf(job.sources + job.targets), e.key)
    ensures AtMost(e.key, MaxKeyOf(job.sources + job.targets))
  {
    hide Less, MinKeyOf, MaxKeyOf, Overlapping, Inputs, TableOk, AtMost;
    var ts := job.sources + job.targets;
    var t := InputEntry(job, e);
    JobTables(levels, job);
    assert t in ts;
    assert TableOk(t) by { InputTableOk(levels, job, t); }
    EntryInRange(t, e);
    AtMostTrans(MinKeyOf(ts), t.minKey, e.key);
    AtMostTrans(e.key, t.maxKey, MaxKeyOf(ts));
  }

  lemma InputTableOk(levels: Levels, job: Job, t: Table)
    requires LevelsOk(levels) && LegalJob(levels, job) && (t in job.sources || t in job.targets)
    ensures TableOk(t)
  {
    hide TableOk, MinKeyOf, MaxKeyOf, Overlapping, Disjoint;
    JobTables(levels, job);
    var l := if t in job.sources then job.source else job.source + 1;
    assert LevelOk(levels, l) && LevelAt(levels, l) == levels[l];
    var i :| 0 <= i < |levels[l]| && levels[l][i] == t;
    assert TableOk(LevelAt(levels, l)[i]);
  }

  lemma OutputClear(levels: Levels, job: Job, floor: nat, drop: bool, out: Table, x: Table)
    requires LevelsOk(levels) && LegalJob(levels, job) && OutputOk(job, floor, drop, Some(out))
    requires x in levels[job.source + 1] && x !in job.targets
    ensures Clear(x, out)
  {
    hide Less, MinKeyOf, MaxKeyOf, Overlapping, OutputOk, LevelsOk, LegalJob;
    OutputWithin(levels, job, floor, drop, out);
    LeftOutIsClear(levels, job, x);
    var lo, hi := MinKeyOf(job.sources + job.targets), MaxKeyOf(job.sources + job.targets);
    if Less(x.maxKey, lo) { LessAtMost(x.maxKey, lo, out.minKey); } else { LessAtMost(out.maxKey, hi, x.minKey); }
  }

  /** The swap keeps every level well formed; L1 and below stay disjoint. */
  lemma ApplyKeepsLevels(levels: Levels, job: Job, floor: nat, drop: bool, out: Option<Table>)
    requires LevelsOk(levels) && IdsOk(levels) && LegalJob(levels, job) && OutputOk(job, floor, drop, out)
    ensures LevelsOk(Apply(levels, job, out))
  {
    hide OutputOk, Apply, IdsOk, LevelOk, MinKeyOf, MaxKeyOf, Overlapping;
    forall l: nat ensures LevelOk(Apply(levels, job, out), l) {
      ApplyKeepsLevel(levels, job, floor, drop, out, l);
    }
  }

  lemma ApplyKeepsLevel(levels: Levels, job: Job, floor: nat, drop: bool, out: Option<Table>, l: nat)
    requires LevelsOk(levels) && IdsOk(levels) && LegalJob(levels, job) && OutputOk(job, floor, drop, out)
    ensures LevelOk(Apply(levels, job, out), l)
  {
    assert job.source + 1 < |levels| && (out.Some? ==> out.value.level == job.source + 1) && LevelOk(levels, l) by {
      hide LevelOk, TableOk, IsMerge, MinKeyOf, MaxKeyOf, Overlapping;
    }
    hide TablesAt, LevelOk, Apply, Without, InsertByMin, LevelsOk, LegalJob, OutputOk, IdsOk, Ids;
    ApplyAt(levels, job, out, l);
    LevelOkAt(levels, l);
    LevelOkAt(Apply(levels, job, out), l);
    if l == job.source {
      KeptAt(LevelAt(levels, l), Ids(job.sources), l);
    } else if l == job.source + 1 {
      KeptAt(LevelAt(levels, l), Ids(job.targets), l);
      if out.Some? { TargetLevelOk(levels, job, floor, drop, out.value, Without(LevelAt(levels, l), Ids(job.targets))); }
    }
  }

  /** What a level asks of its tables. */
  ghost predicate TablesAt(ts: seq<Table>, l: nat) {
    && (forall i | 0 <= i < |ts| :: TableOk(ts[i]) && ts[i].level == l)
    && (l > 0 ==> Disjoint(ts))
  }

  lemma LevelOkAt(levels: Levels, l: nat)
    ensures LevelOk(levels, l) <==> TablesAt(LevelAt(levels, l), l)
  {
    hide TableOk, Disjoint, LevelAt;
  }

  lemma KeptAt(ts: seq<Table>, ids: set<nat>, l: nat)
    requires TablesAt(ts, l)
    ensures TablesAt(Without(ts, ids), l)
  {
    hide TableOk, Disjoint, Without;
    LevelSubset(ts, Without(ts, ids), l);
    if l > 0 { WithoutDisjoint(ts, ids); }
  }

  lemma TargetLevelOk(levels: Levels, job: Job, floor: nat, drop: bool, out: Table, kept: seq<Table>)
    requires LevelsOk(levels) && IdsOk(levels) && LegalJob(levels, job) && OutputOk(job, floor, drop, Some(out))
    requires kept == Without(levels[job.source + 1], Ids(job.targets)) && TablesAt(kept, job.source + 1)
    ensures TablesAt(InsertByMin(kept, out), job.source + 1)
  {
    hide TableOk, Disjoint, MinKeyOf, MaxKeyOf, Overlapping, Without, InsertByMin, IsMerge, DistinctIds, Less, AtMost, Clear, LevelsOk, Inputs;
    var ts, r := levels[job.source + 1], InsertByMin(kept, out);
    LevelIds(levels, job.source + 1);
    JobTables(levels, job);
    forall x | x in kept ensures Clear(x, out) && AtMost(x.minKey, x.maxKey) {
      RetiredExactly(ts, job.targets, x);
      OutputClear(levels, job, floor, drop, out, x);
      var i :| 0 <= i < |kept| && kept[i] == x;
      OrderedBounds(x);
    }
    OrderedBounds(out);
    InsertDisjoint(kept, out);
    forall i | 0 <= i < |r| ensures TableOk(r[i]) && r[i].level == job.source + 1 {
      assert r[i] in r;
      if r[i] != out { var j :| 0 <= j < |kept| && kept[j] == r[i]; }
    }
  }

  lemma LevelSubset(ts: seq<Table>, sub: seq<Table>, l: nat)
    requires forall i | 0 <= i < |ts| :: TableOk(ts[i]) && ts[i].level == l
    requires forall t | t in sub :: t in ts
    ensures forall i | 0 <= i < |sub| :: TableOk(sub[i]) && sub[i].level == l
  {
    hide TableOk;
    forall i | 0 <= i < |sub| ensures TableOk(sub[i]) && sub[i].level == l {
      assert sub[i] in sub;
      var j :| 0 <= j < |ts| && ts[j] == sub[i];
    }
  }

  // ---- lookups -------------------------------------------------------------

  /** `n` is at least as new as every version of `k` visible in the tables. */
  ghost predicate Bounds(levels: Levels, k: Bytes, s: nat, n: Option<Entry>) {
    forall l: nat, e | InLevel(levels, l, e) && Visible(e, k, s) ::
      n.Some? && e.seqno <= n.value.seqno && (e.seqno == n.value.seqno ==> e == n.value)
  }

  /** The answer is the newest write; only a tombstone may be missing. */
  ghost predicate Right(r: Option<Entry>, n: Option<Entry>) {
    if r.Some? then r == n else n.None? || n.value.slot.None?
  }

  /** Two layouts that agree above `l` differ only in what lies from `l` on. */
  lemma {:induction false} SearchFrom(levels: Levels, levels': Levels, j: nat, l: nat, k: Bytes, s: nat)
    requires j <= l <= |levels| == |levels'|
    requires forall i | 0 <= i < l :: LevelAt(levels, i) == LevelAt(levels', i)
    ensures Search(levels, j, k, s) == Search(levels', j, k, s)
         || (Search(levels, j, k, s) == Search(levels, l, k, s) && Search(levels', j, k, s) == Search(levels', l, k, s))
    decreases l - j
  {
    hide SearchL0, FindTable;
    if j < l {
      assert LevelHit(levels, j, k, s) == LevelHit(levels', j, k, s);
      SearchFrom(levels, levels', j + 1, l, k, s);
    }
  }

  lemma {:induction false} SearchSame(levels: Levels, levels': Levels, j: nat, k: Bytes, s: nat)
    requires |levels| == |levels'|
    requires forall i | j <= i < |levels| :: LevelAt(levels, i) == LevelAt(levels', i)
    ensures Search(levels, j, k, s) == Search(levels', j, k, s)
    decreases |levels| - j
  {
    hide SearchL0, FindTable;
    if j < |levels| { SearchSame(levels, levels', j + 1, k, s); }
  }

  /** With nothing below that could hold the key, deeper levels are silent. */
  lemma {:induction false} NothingBelow(levels: Levels, l: nat, j: nat, k: Bytes, s: nat, from: Bytes, to: Bytes)
    requires LevelsOk(levels) && !HasDataBelow(levels, l, from, to) && l < j && AtMost(from, k) && AtMost(k, to)
    ensures Search(levels, j, k, s) == None
    decreases |levels| - j
  {
    hide TableOk, Less, AtMost;
    if j < |levels| {
      assert LevelOk(levels, j);
      LevelHitSound(levels, j, k, s);
      var hit := LevelHit(levels, j, k, s);
      if hit.Some? {
        var i :| 0 <= i < |levels[j]| && hit.value in levels[j][i].entries;
        EntryInRange(levels[j][i], hit.value);
        AtMostTrans(levels[j][i].minKey, k, to);
        AtMostTrans(from, k, levels[j][i].maxKey);
      }
      NothingBelow(levels, l, j + 1, k, s, from, to);
    }
  }

  /** The newest version among the inputs survives the merge, or was a tombstone
      the merge may drop, and then no older version survives either. */
  lemma NewestSurvives(all: Run, floor: nat, drop: bool, out: Run, k: Bytes, s: nat, e: Entry)
    requires IsMerge(all, floor, drop, out) && floor <= s && e in all && Visible(e, k, s)
    requires forall x | x in all && Visible(x, k, s) :: x.seqno <= e.seqno && (x.seqno == e.seqno ==> x == e)
    ensures if e in out then FirstVisible(out, k, s) == Some(e)
            else drop && e.slot.None? && FirstVisible(out, k, s) == None
  {
    hide Before;
    FirstIsNewest(out, k, s);
    var f := FirstVisible(out, k, s);
    assert f.Some? ==> Keeps(all, f.value, floor, drop);
  }

  /** All the facts about one compaction that the lookup proof uses. */
  ghost predicate Compacted(levels: Levels, levels': Levels, job: Job, floor: nat, drop: bool, out: Option<Table>) {
    && LevelsOk(levels) && IdsOk(levels) && LegalJob(levels, job)
    && OutputOk(job, floor, drop, out) && levels' == Apply(levels, job, out)
    && LevelsOk(levels')
  }

  /** What a compaction says of one of its two levels. */
  lemma CompactedLevel(levels: Levels, levels': Levels, job: Job, floor: nat, drop: bool, out: Option<Table>, l: nat)
    requires Compacted(levels, levels', job, floor, drop, out) && (l == job.source || l == job.source + 1)
    ensures job.source + 1 < |levels| && LevelAt(levels, l) == levels[l] && levels' == Apply(levels, job, out)
    ensures LevelOk(levels, l) && LevelOk(levels', l) && DistinctIds(levels[l])
    ensures forall t | t in (if l == job.source then job.sources else job.targets) :: t in levels[l]
    ensures job.source == 0 ==> job.sources == levels[0]
    ensures out.Some? ==> out.value.level == job.source + 1
  {
    hide Apply, LevelOk, IdsOk, IsMerge, TableOk, MinKeyOf, MaxKeyOf, Overlapping, DistinctIds;
    assert LevelOk(levels, l) && LevelOk(levels', l);
    LevelIds(levels, l);
    JobTables(levels, job);
  }

  lemma InsertedMember(ts: seq<Table>, t: Table, x: Table)
    ensures x in InsertByMin(ts, t) <==> x in ts || x == t
  {
  }

  /** What a table of the new layout at the job's two levels is. */
  lemma NewTable(levels: Levels, levels': Levels, job: Job, floor: nat, drop: bool, out: Option<Table>, l: nat, t: Table)
    requires Compacted(levels, levels', job, floor, drop, out) && (l == job.source || l == job.source + 1)
    ensures t in LevelAt(levels', l) <==>
              || (t in levels[l] && (if l == job.source then t !in job.sources else t !in job.targets))
              || (l == job.source + 1 && out == Some(t))
  {
    hide Compacted, LevelsOk, OutputOk, LegalJob, DistinctIds, Apply, Without, InsertByMin, IdsOk, LevelOk, Ids;
    CompactedLevel(levels, levels', job, floor, drop, out, l);
    ApplyAt(levels, job, out, l);
    var gone := if l == job.source then job.sources else job.targets;
    RetiredExactly(levels[l], gone, t);
    if l == job.source + 1 && out.Some? { InsertedMember(Without(levels[l], Ids(gone)), out.value, t); }
  }

  /** Every version of the new target level comes from the output or from a
      table the job left alone. */
  lemma NewTargetEntry(levels: Levels, levels': Levels, job: Job, floor: nat, drop: bool, out: Option<Table>, x: Entry)
    requires Compacted(levels, levels', job, floor, drop, out) && InLevel(levels', job.source + 1, x)
    ensures x in OutRun(out) || exists t :: t in levels[job.source + 1] && t !in job.targets && x in t.entries
  {
    var ts := LevelAt(levels', job.source + 1);
    var i :| 0 <= i < |ts| && x in ts[i].entries;
    hide Compacted;
    NewTable(levels, levels', job, floor, drop, out, job.source + 1, ts[i]);
  }

  /** A key present in the inputs is in no table the job left alone. */
  lemma InputKeyNotLeft(levels: Levels, job: Job, e: Entry, t: Table, x: Entry)
    requires LevelsOk(levels) && LegalJob(levels, job) && e in Inputs(job)
    requires t in levels[job.source + 1] && t !in job.targets && x in t.entries
    ensures x.key != e.key
  {
    var l := job.source + 1;
    assert TableOk(t) by {
      assert LevelOk(levels, l) && LevelAt(levels, l) == levels[l];
      var i :| 0 <= i < |levels[l]| && levels[l][i] == t;
      assert TableOk(LevelAt(levels, l)[i]);
    }
    LeftOutIsClear(levels, job, t);
    InputSpan(levels, job, e);
    EntryInRange(t, x);
    var lo, hi := MinKeyOf(job.sources + job.targets), MaxKeyOf(job.sources + job.targets);
    hide LevelsOk, LegalJob, TableOk, Less, MinKeyOf, MaxKeyOf;
    if x.key == e.key {
      if Less(t.maxKey, lo) {
        LessAtMost(t.maxKey, lo, e.key);
        NotLess(t.maxKey, e.key);
      } else {
        LessAtMost(e.key, hi, t.minKey);
        NotLess(e.key, t.minKey);
      }
    }
  }

  /** When the newest version lies in the inputs, the target level now answers
      with it, or it was a droppable tombstone and nothing answers. */
  lemma AnswerFromInputs(levels: Levels, levels': Levels, job: Job, floor: nat, c: Config, out: Option<Table>,
                         k: Bytes, s: nat, e: Entry)
    requires job.sources != []
    requires Compacted(levels, levels', job, floor, DropsTombstones(c, levels, job), out) && floor <= s
    requires e in Inputs(job) && Visible(e, k, s) && Bounds(levels, k, s, Some(e))
    ensures var hit := LevelHit(levels', job.source + 1, k, s);
            hit == Some(e) || (hit == None && Search(levels, job.source + 2, k, s) == None && e.slot.None?)
  {
    var drop, l := DropsTombstones(c, levels, job), job.source + 1;
    InputsBounded(levels, job, k, s, e);
    NewestSurvives(Inputs(job), floor, drop, OutRun(out), k, s, e);
    assert LevelOk(levels', l);
    LevelHitSound(levels', l, k, s);
    var hit := LevelHit(levels', l, k, s);
    if e in OutRun(out) {
      NewTable(levels, levels', job, floor, drop, out, l, out.value);
      hide Compacted, LevelOk;
      var i :| 0 <= i < |LevelAt(levels', l)| && LevelAt(levels', l)[i] == out.value;
      LevelHitTable(levels', l, i, k, s, e);
    } else {
      hide LevelOk, OutputOk, Apply, IdsOk, Inputs;
      if hit.Some? {
        NewTargetEntry(levels, levels', job, floor, drop, out, hit.value);
        if t :| t in levels[l] && t !in job.targets && hit.value in t.entries {
          InputKeyNotLeft(levels, job, e, t, hit.value);
        }
      }
      InputSpan(levels, job, e);
      var inputs := job.sources + job.targets;
      NothingBelow(levels, l, l + 1, k, s, MinKeyOf(inputs), MaxKeyOf(inputs));
    }
  }

  lemma InputsBounded(levels: Levels, job: Job, k: Bytes, s: nat, e: Entry)
    requires LegalJob(levels, job) && Bounds(levels, k, s, Some(e))
    ensures forall x | x in Inputs(job) && Visible(x, k, s) :: x.seqno <= e.seqno && (x.seqno == e.seqno ==> x == e)
  {
    hide Inputs, MinKeyOf, MaxKeyOf, Overlapping;
    forall x | x in Inputs(job) && Visible(x, k, s) ensures x.seqno <= e.seqno && (x.seqno == e.seqno ==> x == e) {
      var l := InputInLevel(levels, job, x);
    }
  }

  lemma InputInLevel(levels: Levels, job: Job, x: Entry) returns (l: nat)
    requires LegalJob(levels, job) && x in Inputs(job)
    ensures InLevel(levels, l, x) && (l == job.source || l == job.source + 1)
  {
    hide Inputs, MinKeyOf, MaxKeyOf, Overlapping;
    var t := InputEntry(job, x);
    JobTables(levels, job);
    l := if t in job.sources then job.source else job.source + 1;
    var i :| 0 <= i < |levels[l]| && levels[l][i] == t;
    assert x in LevelAt(levels, l)[i].entries;
  }

  /** Once the source holding the key is gone, the source level is silent. */
  lemma SourceGone(levels: Levels, levels': Levels, job: Job, floor: nat, drop: bool, out: Option<Table>,
                   k: Bytes, s: nat, t: Table, e: Entry)
    requires Compacted(levels, levels', job, floor, drop, out)
    requires t in job.sources && e in t.entries && Visible(e, k, s)
    ensures LevelHit(levels', job.source, k, s) == None
  {
    hide Compacted, LevelsOk, LegalJob, OutputOk, TableOk, Disjoint, LevelHit, IdsOk, Apply, LevelAt, LevelOk;
    var l := job.source;
    CompactedLevel(levels, levels', job, floor, drop, out, l);
    LevelHitSound(levels', l, k, s);
    var hit := LevelHit(levels', l, k, s);
    if hit.Some? {
      var i :| 0 <= i < |LevelAt(levels', l)| && hit.value in LevelAt(levels', l)[i].entries;
      var x := LevelAt(levels', l)[i];
      assert x in LevelAt(levels', l);
      NewTable(levels, levels', job, floor, drop, out, l, x);
      OneHolder(levels, l, t, x, e, hit.value, k, s);
    }
  }

  /** Below L0, two versions of one key lie in one table. */
  lemma OneHolder(levels: Levels, l: nat, t: Table, x: Table, e: Entry, f: Entry, k: Bytes, s: nat)
    requires LevelOk(levels, l) && l > 0 && t in LevelAt(levels, l) && x in LevelAt(levels, l)
    requires e in t.entries && f in x.entries && Visible(e, k, s) && Visible(f, k, s)
    ensures t == x
  {
    hide TableOk, Disjoint, LevelAt;
    var ts := LevelAt(levels, l);
    var p :| 0 <= p < |ts| && ts[p] == t;
    var q :| 0 <= q < |ts| && ts[q] == x;
    EntryInRange(t, e);
    EntryInRange(x, f);
    if p != q { NotBoth(ts, p, q, k); }
  }

  /** A table the job left alone at a deeper level answers as before. */
  lemma LeftAnswersSame(levels: Levels, levels': Levels, job: Job, floor: nat, drop: bool, out: Option<Table>,
                        l: nat, k: Bytes, s: nat, t: Table, e: Entry)
    requires Compacted(levels, levels', job, floor, drop, out)
    requires l > 0 && (l == job.source || l == job.source + 1) && t in levels[l] && e in t.entries && Visible(e, k, s)
    requires if l == job.source then t !in job.sources else t !in job.targets
    ensures LevelHit(levels', l, k, s) == LevelHit(levels, l, k, s)
  {
    assert LevelOk(levels', l) && LevelOk(levels, l) && LevelAt(levels, l) == levels[l];
    NewTable(levels, levels', job, floor, drop, out, l, t);
    hide Compacted, LevelOk;
    var i :| 0 <= i < |levels[l]| && levels[l][i] == t;
    var j :| 0 <= j < |LevelAt(levels', l)| && LevelAt(levels', l)[j] == t;
    LevelHitTable(levels, l, i, k, s, e);
    LevelHitTable(levels', l, j, k, s, e);
  }

  lemma CompactedFacts(levels: Levels, levels': Levels, job: Job, floor: nat, drop: bool, out: Option<Table>)
    requires Compacted(levels, levels', job, floor, drop, out)
    ensures LevelsOk(levels) && LevelsOk(levels') && LegalJob(levels, job) && job.source + 1 < |levels|
    ensures forall x | x in OutRun(out) :: x in Inputs(job)
  {
    hide LevelsOk, IdsOk, Apply, Inputs, OutRun, MinKeyOf, MaxKeyOf, Overlapping;
    assert forall x | x in OutRun(out) :: Keeps(Inputs(job), x, floor, drop);
  }

  /** A source level silent before the swap stays silent. */
  lemma SourceStaysSilent(levels: Levels, levels': Levels, job: Job, floor: nat, drop: bool, out: Option<Table>, k: Bytes, s: nat)
    requires Compacted(levels, levels', job, floor, drop, out)
    requires LevelHit(levels, job.source, k, s) == None
    ensures LevelHit(levels', job.source, k, s) == None
  {
    var l := job.source;
    assert LevelOk(levels', l) && LevelOk(levels, l) && l < |levels|;
    hide LevelOk, LevelHit, Compacted;
    LevelHitSound(levels, l, k, s);
    LevelHitSound(levels', l, k, s);
    var hit := LevelHit(levels', l, k, s);
    if hit.Some? {
      var i :| 0 <= i < |LevelAt(levels', l)| && hit.value in LevelAt(levels', l)[i].entries;
      NewTable(levels, levels', job, floor, drop, out, l, LevelAt(levels', l)[i]);
      TableInLevel(levels, l, LevelAt(levels', l)[i], hit.value);
    }
  }

  /** So does the target level, when both were silent. */
  lemma TargetStaysSilent(levels: Levels, levels': Levels, job: Job, floor: nat, drop: bool, out: Option<Table>, k: Bytes, s: nat)
    requires Compacted(levels, levels', job, floor, drop, out)
    requires LevelHit(levels, job.source, k, s) == None && LevelHit(levels, job.source + 1, k, s) == None
    ensures LevelHit(levels', job.source + 1, k, s) == None
  {
    hide LevelOk, LevelHit, Compacted, LegalJob, Inputs, OutRun, InLevel, Visible, LevelAt;
    var l := job.source + 1;
    CompactedFacts(levels, levels', job, floor, drop, out);
    assert LevelOk(levels', l) && LevelOk(levels, l) && LevelOk(levels, l - 1);
    LevelHitSound(levels, l - 1, k, s);
    LevelHitSound(levels, l, k, s);
    LevelHitSound(levels', l, k, s);
    var hit := LevelHit(levels', l, k, s);
    if hit.Some? {
      NewTargetOrigin(levels, levels', job, floor, drop, out, hit.value);
    }
  }

  /** The new target level holds nothing the two levels did not hold before. */
  lemma NewTargetOrigin(levels: Levels, levels': Levels, job: Job, floor: nat, drop: bool, out: Option<Table>, x: Entry)
    requires Compacted(levels, levels', job, floor, drop, out) && InLevel(levels', job.source + 1, x)
    ensures InLevel(levels, job.source, x) || InLevel(levels, job.source + 1, x)
  {
    hide Compacted, LegalJob, Inputs, OutRun, LevelsOk, InLevel, LevelAt;
    CompactedFacts(levels, levels', job, floor, drop, out);
    NewTargetEntry(levels, levels', job, floor, drop, out, x);
    if x in OutRun(out) {
      var j := InputInLevel(levels, job, x);
    } else {
      var t :| t in levels[job.source + 1] && t !in job.targets && x in t.entries;
      TableInLevel(levels, job.source + 1, t, x);
    }
  }

  lemma TableInLevel(levels: Levels, l: nat, t: Table, e: Entry)
    requires l < |levels| && t in levels[l] && e in t.entries
    ensures InLevel(levels, l, e)
  {
    var i :| 0 <= i < |levels[l]| && levels[l][i] == t;
    assert e in LevelAt(levels, l)[i].entries;
  }

  /** Where the old answer of a level came from. */
  lemma HitOrigin(levels: Levels, l: nat, k: Bytes, s: nat) returns (t: Table)
    requires LevelsOk(levels) && l < |levels| && LevelHit(levels, l, k, s).Some?
    ensures t in levels[l] && LevelHit(levels, l, k, s).value in t.entries && Visible(LevelHit(levels, l, k, s).value, k, s)
    ensures InLevel(levels, l, LevelHit(levels, l, k, s).value)
  {
    hide LevelHit, Visible, LevelOk;
    assert LevelOk(levels, l);
    LevelHitSound(levels, l, k, s);
    var i :| 0 <= i < |levels[l]| && LevelHit(levels, l, k, s).value in levels[l][i].entries;
    t := levels[l][i];
  }

  /** The new layout from the source level down, given the old answer is right. */
  lemma CompactionBelow(levels: Levels, levels': Levels, job: Job, floor: nat, c: Config, out: Option<Table>,
                        k: Bytes, s: nat, n: Option<Entry>)
    requires job.sources != []
    requires Compacted(levels, levels', job, floor, DropsTombstones(c, levels, job), out) && floor <= s
    requires Bounds(levels, k, s, n) && Right(Search(levels, job.source, k, s), n)
    requires |levels'| == |levels| && Search(levels', job.source + 2, k, s) == Search(levels, job.source + 2, k, s)
    ensures Right(Search(levels', job.source, k, s), n)
  {
    hide Compacted, LevelHit, Bounds, LegalJob, LevelsOk, Visible, InLevel, OutRun, Inputs, DropsTombstones;
    var l, drop := job.source, DropsTombstones(c, levels, job);
    CompactedFacts(levels, levels', job, floor, drop, out);
    var a, b := LevelHit(levels, l, k, s), LevelHit(levels, l + 1, k, s);
    assert Search(levels, l, k, s) == if a.Some? then a else if b.Some? then b else Search(levels, l + 2, k, s);
    var a', b' := LevelHit(levels', l, k, s), LevelHit(levels', l + 1, k, s);
    assert Search(levels', l, k, s) == if a'.Some? then a' else if b'.Some? then b' else Search(levels', l + 2, k, s);
    if a.Some? {
      var t := HitOrigin(levels, l, k, s);
      if t in job.sources {
        SourceGone(levels, levels', job, floor, drop, out, k, s, t, a.value);
        InputHas(job, t, a.value);
        AnswerFromInputs(levels, levels', job, floor, c, out, k, s, a.value);
      } else {
        assert l > 0 by { SourceIsAll(levels, job); }
        LeftAnswersSame(levels, levels', job, floor, drop, out, l, k, s, t, a.value);
      }
    } else {
      SourceStaysSilent(levels, levels', job, floor, drop, out, k, s);
      if b.Some? {
        var t := HitOrigin(levels, l + 1, k, s);
        if t in job.targets {
          InputHas(job, t, b.value);
          AnswerFromInputs(levels, levels', job, floor, c, out, k, s, b.value);
        } else {
          LeftAnswersSame(levels, levels', job, floor, drop, out, l + 1, k, s, t, b.value);
        }
      } else {
        TargetStaysSilent(levels, levels', job, floor, drop, out, k, s);
      }
    }
  }

  lemma SourceIsAll(levels: Levels, job: Job)
    requires LegalJob(levels, job)
    ensures job.source == 0 ==> job.sources == levels[0]
  {
  }

  /** A compaction changes no answer at or above its floor, except that the
      tombstone of a deleted key may disappear. */
  lemma CompactionKeepsLookup(levels: Levels, levels': Levels, job: Job, floor: nat, c: Config, out: Option<Table>,
                              k: Bytes, s: nat, n: Option<Entry>)
    requires job.sources != []
    requires Compacted(levels, levels', job, floor, DropsTombstones(c, levels, job), out) && floor <= s
    requires Bounds(levels, k, s, n) && Right(Search(levels, 0, k, s), n)
    ensures Right(Search(levels', 0, k, s), n)
  {
    hide LevelHit, Bounds, LevelsOk, OutputOk, Apply, IdsOk, Search, DropsTombstones, MinKeyOf, MaxKeyOf, Overlapping;
    assert levels' == Apply(levels, job, out) && job.source + 1 < |levels|;
    assert out.Some? ==> out.value.level == job.source + 1 by { OutLevel(job, floor, DropsTombstones(c, levels, job), out); }
    hide Compacted, LegalJob;
    forall i: nat
      ensures |levels'| == |levels|
      ensures i != job.source && i != job.source + 1 ==> LevelAt(levels, i) == LevelAt(levels', i)
    { ApplyAt(levels, job, out, i); }
    assert |levels'| == |levels| by { ApplyAt(levels, job, out, 0); }
    SearchFrom(levels, levels', 0, job.source, k, s);
    SearchSame(levels, levels', job.source + 2, k, s);
    if Search(levels, 0, k, s) != Search(levels', 0, k, s) {
      CompactionBelow(levels, levels', job, floor, c, out, k, s, n);
    }
  }

  lemma OutLevel(job: Job, floor: nat, drop: bool, out: Option<Table>)
    requires OutputOk(job, floor, drop, out)
    ensures out.Some? ==> out.value.level == job.source + 1
  {
    hide IsMerge, TableOk;
  }
}
