/** Compaction: choosing a job, swapping its tables, and the proof that the swap
    keeps levels disjoint and every lookup at or above the retain floor. */
module LsmCompaction {
  import opened Bytes
  import opened Wrappers
  import opened LsmRuns
  import opened LsmLevels

  datatype Config = Config(l0Trigger: nat, baseBytes: nat, multiplier: nat, maxLevels: nat)

  datatype Job = Job(source: nat, sources: seq<Table>, targets: seq<Table>)

  // ---- choosing a job ------------------------------------------------------

  function MinKeyOf(ts: seq<Table>): (k: Bytes)
    requires ts != []
    ensures forall t | t in ts :: AtMost(k, t.minKey)
    ensures exists t :: t in ts && t.minKey == k
  {
    if |ts| == 1 then ts[0].minKey
    else
      var rest := MinKeyOf(ts[1..]);
      var k := if Less(ts[0].minKey, rest) then ts[0].minKey else rest;
      assert forall t | t in ts :: AtMost(k, t.minKey) by {
        NotLess(ts[0].minKey, rest);
        forall t | t in ts ensures AtMost(k, t.minKey) {
          if t in ts[1..] { AtMostTrans(k, rest, t.minKey); }
        }
      }
      k
  }

  function MaxKeyOf(ts: seq<Table>): (k: Bytes)
    requires ts != []
    ensures forall t | t in ts :: AtMost(t.maxKey, k)
    ensures exists t :: t in ts && t.maxKey == k
  {
    if |ts| == 1 then ts[0].maxKey
    else
      var rest := MaxKeyOf(ts[1..]);
      var k := if Less(rest, ts[0].maxKey) then ts[0].maxKey else rest;
      assert forall t | t in ts :: AtMost(t.maxKey, k) by {
        NotLess(rest, ts[0].maxKey);
        forall t | t in ts ensures AtMost(t.maxKey, k) {
          if t in ts[1..] { AtMostTrans(t.maxKey, rest, k); }
        }
      }
      k
  }

  function Overlapping(ts: seq<Table>, from: Bytes, to: Bytes): (r: seq<Table>)
    ensures forall t :: t in r <==> t in ts && Overlaps(t, from, to)
  {
    if ts == [] then []
    else
      var rest := Overlapping(ts[1..], from, to);
      if Overlaps(ts[0], from, to) then [ts[0]] + rest else rest
  }

  /** Any unit of work compaction may plan: the whole of L0, or one table of a
      deeper level, with every table of the next level it overlaps. */
  ghost predicate LegalJob(levels: Levels, job: Job) {
    && job.source + 1 < |levels|
    && job.sources != []
    && (if job.source == 0 then job.sources == levels[0]
        else exists i :: 0 <= i < |levels[job.source]| && job.sources == [levels[job.source][i]])
    && job.targets == Overlapping(levels[job.source + 1], MinKeyOf(job.sources), MaxKeyOf(job.sources))
  }

  function LevelBytes(ts: seq<Table>): nat {
    if ts == [] then 0 else LevelBytes(ts[..|ts| - 1]) + ts[|ts| - 1].bytes
  }

  function Power(b: nat, n: nat): nat {
    if n == 0 then 1 else b * Power(b, n - 1)
  }

  function Budget(c: Config, l: nat): nat
    requires l > 0
  {
    Saturated(c.baseBytes * Power(c.multiplier, l - 1))
  }

  /** Budgets stop at the largest 64-bit number. */
  function Saturated(n: nat): nat {
    if n < U64_LIMIT then n else U64_LIMIT - 1
  }

  /** How far a level exceeds its budget, in exact arithmetic. */
  function Score(c: Config, levels: Levels, l: nat): real
    requires c.l0Trigger > 0 && l < |levels|
  {
    if l == 0 then |levels[0]| as real / c.l0Trigger as real
    else if Budget(c, l) == 0 then 0.0
    else LevelBytes(levels[l]) as real / Budget(c, l) as real
  }

  /** The highest-scoring level that has somewhere to drain to; the first such
      level wins ties. */
  method PickLevel(c: Config, levels: Levels) returns (best: nat, score: real)
    requires c.l0Trigger > 0 && |levels| >= 2
    ensures best + 1 < |levels|
    ensures score == 0.0 || score == Score(c, levels, best)
    ensures forall l | 0 <= l < |levels| - 1 :: Score(c, levels, l) <= score
    ensures forall l | 0 <= l < best :: Score(c, levels, l) < score
  {
    best, score := 0, 0.0;
    for l := 0 to |levels| - 1
      invariant best + 1 < |levels| && best <= l
      invariant score == 0.0 || score == Score(c, levels, best)
      invariant score >= 0.0 && (score == 0.0 ==> best == 0)
      invariant forall j | 0 <= j < l :: Score(c, levels, j) <= score
      invariant forall j | 0 <= j < best :: Score(c, levels, j) < score
    {
      if Score(c, levels, l) > score {
        best, score := l, Score(c, levels, l);
      }
    }
  }

  // What is due, without scores.

  function TotalBytes(ts: seq<Table>): nat {
    if ts == [] then 0 else ts[0].bytes + TotalBytes(ts[1..])
  }

  /** The base at level 1, and the multiplier times the limit above below that. */
  function Limit(c: Config, l: nat): nat
    requires l > 0
  {
    if l == 1 then Saturated(c.baseBytes) else Saturated(c.multiplier * Limit(c, l - 1))
  }

  /** What counts at a level, tables at L0 and bytes below it, and what it may hold. */
  function Load(levels: Levels, l: nat): nat
    requires l < |levels|
  {
    if l == 0 then |levels[0]| else TotalBytes(levels[l])
  }

  function Room(c: Config, l: nat): nat {
    if l == 0 then c.l0Trigger else Limit(c, l)
  }

  predicate Due(c: Config, levels: Levels, l: nat)
    requires l < |levels|
  {
    Room(c, l) > 0 && Load(levels, l) >= Room(c, l)
  }

  lemma {:induction false} LevelBytesTotal(ts: seq<Table>)
    ensures LevelBytes(ts) == TotalBytes(ts)
  {
    if ts != [] {
      var n := |ts| - 1;
      LevelBytesTotal(ts[..n]);
      TotalSnoc(ts[..n], ts[n]);
      assert ts == ts[..n] + [ts[n]];
    }
  }

  lemma {:induction false} TotalSnoc(ts: seq<Table>, t: Table)
    ensures TotalBytes(ts + [t]) == TotalBytes(ts) + t.bytes
  {
    if ts == [] {
      assert ts + [t] == [t] && [t][1..] == [];
    } else {
      TotalSnoc(ts[1..], t);
      assert (ts + [t])[1..] == ts[1..] + [t];
    }
  }

  lemma {:induction false} BudgetIsLimit(c: Config, l: nat)
    requires l > 0
    ensures Budget(c, l) == Limit(c, l)
  {
    if l == 1 {
      assert Power(c.multiplier, 0) == 1;
    } else {
      BudgetIsLimit(c, l - 1);
      var b, m, p := c.baseBytes, c.multiplier, Power(c.multiplier, l - 2);
      assert b * (m * p) == m * (b * p) by { Swap(b, m, p); }
      SaturatedTwice(m, b * p);
    }
  }

  /** Level 1 has the base budget and every level below it the multiplier's worth of the one
      above. */
  lemma BudgetGrows(c: Config, l: nat)
    requires l > 0
    ensures Budget(c, 1) == Saturated(c.baseBytes) && Budget(c, l + 1) == Saturated(c.multiplier * Budget(c, l))
  {
    hide Budget;
    BudgetIsLimit(c, 1);
    BudgetIsLimit(c, l);
    BudgetIsLimit(c, l + 1);
  }

  lemma Swap(b: nat, m: nat, p: nat)
    ensures b * (m * p) == m * (b * p)
  {
  }

  lemma SaturatedTwice(m: nat, x: nat)
    ensures Saturated(m * Saturated(x)) == Saturated(m * x)
  {
    if x >= U64_LIMIT && m >= 1 {
      AtLeast(m, x);
      AtLeast(m, U64_LIMIT - 1);
    }
  }

  lemma AtLeast(m: nat, x: nat)
    requires m >= 1
    ensures m * x >= x
  {
  }

  lemma RatioOrder(a: nat, b: nat, c: nat, d: nat)
    requires b > 0 && d > 0
    ensures a as real / b as real >= c as real / d as real <==> a * d >= c * b
  {
    var x, y, p, q := a as real / b as real, c as real / d as real, b as real, d as real;
    Quotient(a, b);
    Quotient(c, d);
    Scaled(x, y, p, q);
    Product(a, d);
    Product(c, b);
    assert (x * p) * q == (a * d) as real && (y * q) * p == (c * b) as real;
  }

  lemma RatioOne(a: nat, b: nat)
    requires b > 0
    ensures a as real / b as real >= 1.0 <==> a >= b
  {
  }

  lemma Quotient(a: nat, b: nat)
    requires b > 0
    ensures (a as real / b as real) * b as real == a as real
  {
  }

  lemma Product(a: nat, b: nat)
    ensures (a * b) as real == a as real * b as real
  {
  }

  lemma Scaled(x: real, y: real, b: real, d: real)
    requires b > 0.0 && d > 0.0
    ensures x >= y <==> (x * b) * d >= (y * d) * b
  {
    assert (x * b) * d - (y * d) * b == (x - y) * (b * d);
    assert b * d > 0.0;
    if x >= y { assert (x - y) * (b * d) >= 0.0; } else { assert (x - y) * (b * d) < 0.0; }
  }

  lemma ScoreIs(c: Config, levels: Levels, l: nat)
    requires c.l0Trigger > 0 && l < |levels|
    ensures Score(c, levels, l) == if Room(c, l) == 0 then 0.0 else Load(levels, l) as real / Room(c, l) as real
    ensures Score(c, levels, l) >= 1.0 <==> Due(c, levels, l)
  {
    if l > 0 {
      BudgetIsLimit(c, l);
      LevelBytesTotal(levels[l]);
    }
    if Room(c, l) > 0 { RatioOne(Load(levels, l), Room(c, l)); }
  }

  lemma ScoreOrder(c: Config, levels: Levels, a: nat, b: nat)
    requires c.l0Trigger > 0 && a < |levels| && b < |levels| && Room(c, a) > 0 && Room(c, b) > 0
    ensures Score(c, levels, a) >= Score(c, levels, b) <==> Load(levels, a) * Room(c, b) >= Load(levels, b) * Room(c, a)
  {
    hide Score, Load, Room, Due;
    ScoreIs(c, levels, a);
    ScoreIs(c, levels, b);
    RatioOrder(Load(levels, a), Room(c, a), Load(levels, b), Room(c, b));
  }

  /** No level is more overloaded than `b`, and none above it equally so. */
  ghost predicate MostUrgent(c: Config, levels: Levels, b: nat)
    requires b < |levels|
  {
    forall l | 0 <= l < |levels| - 1 && Room(c, l) > 0 ::
      && Load(levels, b) * Room(c, l) >= Load(levels, l) * Room(c, b)
      && (l < b ==> Load(levels, b) * Room(c, l) > Load(levels, l) * Room(c, b))
  }

  /** The inputs span keys from below `t`'s end to above its start. */
  ghost predicate Touches(inputs: seq<Table>, t: Table) {
    (exists a :: a in inputs && AtMost(a.minKey, t.maxKey)) && exists z :: z in inputs && AtMost(t.minKey, z.maxKey)
  }

  lemma SpanTouches(inputs: seq<Table>, t: Table)
    requires inputs != []
    ensures Overlaps(t, MinKeyOf(inputs), MaxKeyOf(inputs)) <==> Touches(inputs, t)
  {
    hide Less, AtMost;
    var lo, hi := MinKeyOf(inputs), MaxKeyOf(inputs);
    forall a | a in inputs && AtMost(a.minKey, t.maxKey) ensures AtMost(lo, t.maxKey) { AtMostTrans(lo, a.minKey, t.maxKey); }
    forall z | z in inputs && AtMost(t.minKey, z.maxKey) ensures AtMost(t.minKey, hi) { AtMostTrans(t.minKey, z.maxKey, hi); }
  }

  /** The whole of L0, or the first of the largest tables of a deeper level; and exactly
      the tables of the next level that they touch. */
  ghost predicate TakesTables(levels: Levels, job: Job)
    requires job.source + 1 < |levels|
  {
    && (if job.source == 0 then job.sources == levels[0]
        else exists i :: 0 <= i < |levels[job.source]| && job.sources == [levels[job.source][i]] && FirstLargest(levels[job.source], i))
    && forall t :: t in job.targets <==> t in levels[job.source + 1] && Touches(job.sources, t)
  }

  predicate FirstLargest(ts: seq<Table>, i: nat)
    requires i < |ts|
  {
    forall j | 0 <= j < |ts| :: ts[j].bytes <= ts[i].bytes && (j < i ==> ts[j].bytes < ts[i].bytes)
  }

  /** The largest table; the first of equals, as a stable sort leaves it. */
  method Largest(ts: seq<Table>) returns (i: nat)
    requires ts != []
    ensures i < |ts| && forall j | 0 <= j < |ts| :: ts[j].bytes <= ts[i].bytes
    ensures forall j | 0 <= j < i :: ts[j].bytes < ts[i].bytes
  {
    i := 0;
    for j := 1 to |ts|
      invariant 0 <= i < j
      invariant forall m | 0 <= m < j :: ts[m].bytes <= ts[i].bytes
      invariant forall m | 0 <= m < i :: ts[m].bytes < ts[i].bytes
    {
      if ts[j].bytes > ts[i].bytes { i := j; }
    }
  }

  /** Plans the most urgent compaction, if any level is over budget. */
  method PickCompaction(c: Config, levels: Levels) returns (job: Option<Job>)
    requires c.l0Trigger > 0 && |levels| >= 2
    ensures job.Some? ==> LegalJob(levels, job.value)
    ensures job.Some? ==> Score(c, levels, job.value.source) >= 1.0
    ensures job.None? ==> forall l | 0 <= l < |levels| - 1 :: Score(c, levels, l) < 1.0 || levels[l] == []
    ensures job.None? <==> forall l | 0 <= l < |levels| - 1 :: !Due(c, levels, l)
    ensures job.Some? ==> Due(c, levels, job.value.source) && MostUrgent(c, levels, job.value.source) && TakesTables(levels, job.value)
  {
    hide Score, Due, MostUrgent, TakesTables, Touches;
    forall l | 0 <= l < |levels| { ScoreIs(c, levels, l); }
    var best, score := PickLevel(c, levels);
    if score < 1.0 { return None; }
    if levels[best] == [] {
      EmptyScoresZero(c, levels, best);
      return None;
    }
    var sources := levels[0];
    if best != 0 {
      var i := Largest(levels[best]);
      sources := [levels[best][i]];
    }
    var j := Job(best, sources, Overlapping(levels[best + 1], MinKeyOf(sources), MaxKeyOf(sources)));
    BestIsUrgent(c, levels, best);
    assert TakesTables(levels, j) by { TablesTaken(levels, j); }
    job := Some(j);
  }

  lemma BestIsUrgent(c: Config, levels: Levels, b: nat)
    requires c.l0Trigger > 0 && b + 1 < |levels| && Score(c, levels, b) >= 1.0
    requires forall l | 0 <= l < |levels| - 1 :: Score(c, levels, l) <= Score(c, levels, b)
    requires forall l | 0 <= l < b :: Score(c, levels, l) < Score(c, levels, b)
    ensures Due(c, levels, b) && MostUrgent(c, levels, b)
  {
    hide Score, Load, Room;
    ScoreIs(c, levels, b);
    forall l | 0 <= l < |levels| - 1 && Room(c, l) > 0
      ensures Load(levels, b) * Room(c, l) >= Load(levels, l) * Room(c, b)
      ensures l < b ==> Load(levels, b) * Room(c, l) > Load(levels, l) * Room(c, b)
    {
      ScoreOrder(c, levels, b, l);
      ScoreOrder(c, levels, l, b);
    }
  }

  lemma TablesTaken(levels: Levels, job: Job)
    requires LegalJob(levels, job)
    requires job.source > 0 ==> exists i :: 0 <= i < |levels[job.source]| && job.sources == [levels[job.source][i]] && FirstLargest(levels[job.source], i)
    ensures TakesTables(levels, job)
  {
    hide MinKeyOf, MaxKeyOf, Overlaps, Touches;
    forall t ensures t in job.targets <==> t in levels[job.source + 1] && Touches(job.sources, t) { SpanTouches(job.sources, t); }
  }

  lemma EmptyScoresZero(c: Config, levels: Levels, l: nat)
    requires c.l0Trigger > 0 && l < |levels| && levels[l] == []
    ensures Score(c, levels, l) == 0.0
  {
  }

  // ---- swapping tables -----------------------------------------------------

  function Ids(ts: seq<Table>): set<nat> {
    set t | t in ts :: t.id
  }

  /** What remains once the tables with these ids are retired. */
  function Without(ts: seq<Table>, ids: set<nat>): (r: seq<Table>)
    ensures forall t :: t in r <==> t in ts && t.id !in ids
  {
    if ts == [] then []
    else
      var rest := Without(ts[1..], ids);
      if ts[0].id in ids then rest else [ts[0]] + rest
  }

  /** Keeps a deeper level sorted by smallest key. */
  function InsertByMin(ts: seq<Table>, t: Table): (r: seq<Table>)
    ensures forall x :: x in r <==> x == t || x in ts
  {
    if ts == [] || !Less(ts[0].minKey, t.minKey) then [t] + ts
    else [ts[0]] + InsertByMin(ts[1..], t)
  }

  function Resized(levels: Levels, n: nat): (r: Levels)
    ensures |r| == if n > |levels| then n else |levels|
    ensures forall l: nat :: LevelAt(r, l) == LevelAt(levels, l)
  {
    if n <= |levels| then levels
    else
      var r := levels + seq(n - |levels|, _ => []);
      assert forall l: nat :: LevelAt(r, l) == LevelAt(levels, l);
      r
  }

  /** L0 keeps insertion order, newest last; deeper levels keep key order. */
  function AddTable(levels: Levels, t: Table): Levels {
    var r := Resized(levels, t.level + 1);
    r[t.level := if t.level == 0 then r[0] + [t] else InsertByMin(r[t.level], t)]
  }

  /** Inputs retired, output (if any) installed one level down. */
  function Apply(levels: Levels, job: Job, out: Option<Table>): Levels
    requires job.source + 1 < |levels|
  {
    var drained := levels[job.source := Without(levels[job.source], Ids(job.sources))]
                         [job.source + 1 := Without(levels[job.source + 1], Ids(job.targets))];
    if out.Some? then AddTable(drained, out.value) else drained
  }

  /** Some deeper level holds a table overlapping `[from, to]`. */
  predicate HasDataBelow(levels: Levels, l: nat, from: Bytes, to: Bytes) {
    exists j, i :: l < j < |levels| && 0 <= i < |levels[j]| && Overlaps(levels[j][i], from, to)
  }

  /** Tombstones may go only at the bottom, and only if nothing lies beneath. */
  predicate DropsTombstones(c: Config, levels: Levels, job: Job)
    requires job.sources != []
  {
    var inputs := job.sources + job.targets;
    job.source + 2 >= c.maxLevels && !HasDataBelow(levels, job.source + 1, MinKeyOf(inputs), MaxKeyOf(inputs))
  }

  /** Exactly when tombstones go: the output is at or below the bottom level of the
      configuration, and no table of a deeper level touches the inputs. */
  lemma DropsExactly(c: Config, levels: Levels, job: Job)
    requires job.sources != []
    ensures DropsTombstones(c, levels, job) <==>
              job.source + 2 >= c.maxLevels
              && forall j, i | job.source + 1 < j < |levels| && 0 <= i < |levels[j]| :: !Touches(job.sources + job.targets, levels[j][i])
  {
    hide Overlaps, Touches, MinKeyOf, MaxKeyOf;
    var inputs := job.sources + job.targets;
    forall j, i | job.source + 1 < j < |levels| && 0 <= i < |levels[j]|
      ensures Overlaps(levels[j][i], MinKeyOf(inputs), MaxKeyOf(inputs)) <==> Touches(inputs, levels[j][i])
    {
      SpanTouches(inputs, levels[j][i]);
    }
  }

  function Runs(ts: seq<Table>): seq<Run> {
    seq(|ts|, i requires 0 <= i < |ts| => ts[i].entries)
  }

  lemma {:induction false} FlattenMember(runs: seq<Run>, e: Entry)
    ensures e in Flatten(runs) <==> exists i :: 0 <= i < |runs| && e in runs[i]
  {
    if runs != [] {
      var n := |runs| - 1;
      FlattenMember(runs[..n], e);
      if exists i :: 0 <= i < |runs| && e in runs[i] {
        var i :| 0 <= i < |runs| && e in runs[i];
        if i < n { assert runs[..n][i] == runs[i]; }
      }
    }
  }

  // ---- ids -----------------------------------------------------------------

  ghost predicate DistinctIds(ts: seq<Table>) {
    forall a, b | a in ts && b in ts && a.id == b.id :: a == b
  }

  lemma RetiredExactly(ts: seq<Table>, gone: seq<Table>, t: Table)
    requires DistinctIds(ts) && forall g | g in gone :: g in ts
    ensures t in Without(ts, Ids(gone)) <==> t in ts && t !in gone
  {
  }

  // ---- order within a level ------------------------------------------------

  predicate Clear(x: Table, t: Table) {
    Less(x.maxKey, t.minKey) || Less(t.maxKey, x.minKey)
  }

  lemma TailDisjoint(ts: seq<Table>)
    requires Disjoint(ts) && ts != []
    ensures Disjoint(ts[1..]) && forall x | x in ts[1..] :: Less(ts[0].maxKey, x.minKey)
  {
    forall x | x in ts[1..] ensures Less(ts[0].maxKey, x.minKey) {
      var i :| 0 <= i < |ts| - 1 && ts[1..][i] == x;
      assert ts[i + 1] == x;
    }
  }

  lemma ConsDisjoint(t: Table, ts: seq<Table>)
    requires Disjoint(ts) && forall x | x in ts :: Less(t.maxKey, x.minKey)
    ensures Disjoint([t] + ts)
  {
    forall i, j | 0 <= i < j < |[t] + ts| ensures Less(([t] + ts)[i].maxKey, ([t] + ts)[j].minKey) {
      assert ([t] + ts)[j] == ts[j - 1] && ts[j - 1] in ts;
    }
  }

  lemma {:induction false} WithoutDisjoint(ts: seq<Table>, ids: set<nat>)
    requires Disjoint(ts)
    ensures Disjoint(Without(ts, ids))
  {
    hide Disjoint, Less;
    if ts == [] {
      NothingDisjoint();
    } else {
      TailDisjoint(ts);
      WithoutDisjoint(ts[1..], ids);
      if ts[0].id !in ids { ConsDisjoint(ts[0], Without(ts[1..], ids)); }
    }
  }

  lemma NothingDisjoint()
    ensures Disjoint([])
  {
  }

  lemma {:induction false} InsertDisjoint(ts: seq<Table>, t: Table)
    requires Disjoint(ts) && AtMost(t.minKey, t.maxKey)
    requires forall x | x in ts :: Clear(x, t) && AtMost(x.minKey, x.maxKey)
    ensures Disjoint(InsertByMin(ts, t))
  {
    hide Disjoint, Less;
    if ts == [] {
      assert [t] + ts == [t];
      NothingDisjoint();
      ConsDisjoint(t, []);
    } else {
      assert ts[0] in ts;
      TailDisjoint(ts);
      if !Less(ts[0].minKey, t.minKey) {
        NotLess(ts[0].minKey, t.minKey);
        forall x | x in ts ensures Less(t.maxKey, x.minKey) {
          if x == ts[0] {
            if Less(x.maxKey, t.minKey) { LessAtMost(x.minKey, x.maxKey, t.minKey); }
          } else {
            assert x in ts[1..];
            if Less(ts[0].maxKey, t.minKey) { LessAtMost(ts[0].minKey, ts[0].maxKey, t.minKey); }
            LessAtMost(t.maxKey, ts[0].minKey, ts[0].maxKey);
            LessTransitive(t.maxKey, ts[0].maxKey, x.minKey);
          }
        }
        ConsDisjoint(t, ts);
      } else {
        if Less(t.maxKey, ts[0].minKey) {
          LessAtMost(t.minKey, t.maxKey, ts[0].minKey);
          LessAsymmetric(t.minKey, ts[0].minKey);
        }
        InsertDisjoint(ts[1..], t);
        ConsDisjoint(ts[0], InsertByMin(ts[1..], t));
      }
    }
  }

  // ---- a job's key span ----------------------------------------------------

  /** Tables of the next level left out of a job lie clear of all its inputs. */
  lemma LeftOutIsClear(levels: Levels, job: Job, x: Table)
    requires LevelsOk(levels) && LegalJob(levels, job)
    requires x in levels[job.source + 1] && x !in job.targets
    ensures var inputs := job.sources + job.targets;
            Less(x.maxKey, MinKeyOf(inputs)) || Less(MaxKeyOf(inputs), x.minKey)
  {
    hide Less, MinKeyOf, MaxKeyOf, Overlapping, TableOk, Disjoint;
    var from, to := MinKeyOf(job.sources), MaxKeyOf(job.sources);
    var inputs, ts := job.sources + job.targets, levels[job.source + 1];
    assert LevelOk(levels, job.source + 1);
    NotLess(to, x.minKey);
    NotLess(x.maxKey, from);
    if Less(x.maxKey, from) {
      var y :| y in inputs && y.minKey == MinKeyOf(inputs);
      LeftOfInput(ts, x, y, from, to, job);
    } else {
      var y :| y in inputs && y.maxKey == MaxKeyOf(inputs);
      RightOfInput(ts, x, y, from, to, job);
    }
  }

  lemma LeftOfInput(ts: seq<Table>, x: Table, y: Table, from: Bytes, to: Bytes, job: Job)
    requires Disjoint(ts) && (forall t | t in ts :: TableOk(t)) && x in ts && x !in job.targets && Less(x.maxKey, from)
    requires job.sources != [] && from == MinKeyOf(job.sources)
    requires forall t | t in job.targets :: t in ts && Overlaps(t, from, to)
    requires y in job.sources || y in job.targets
    ensures Less(x.maxKey, y.minKey)
  {
    hide Less;
    if y in job.sources {
      LessAtMost(x.maxKey, from, y.minKey);
    } else {
      var i :| 0 <= i < |ts| && ts[i] == x;
      var j :| 0 <= j < |ts| && ts[j] == y;
      if j < i {
        OrderedBounds(x);
        LessAtMost(y.maxKey, x.minKey, x.maxKey);
        LessTransitive(y.maxKey, x.maxKey, from);
        NotLess(y.maxKey, from);
      }
    }
  }

  lemma RightOfInput(ts: seq<Table>, x: Table, y: Table, from: Bytes, to: Bytes, job: Job)
    requires Disjoint(ts) && (forall t | t in ts :: TableOk(t)) && x in ts && x !in job.targets && Less(to, x.minKey)
    requires job.sources != [] && to == MaxKeyOf(job.sources)
    requires forall t | t in job.targets :: t in ts && Overlaps(t, from, to)
    requires y in job.sources || y in job.targets
    ensures Less(y.maxKey, x.minKey)
  {
    hide Less;
    if y in job.sources {
      LessAtMost(y.maxKey, to, x.minKey);
    } else {
      var i :| 0 <= i < |ts| && ts[i] == x;
      var j :| 0 <= j < |ts| && ts[j] == y;
      if i < j {
        OrderedBounds(x);
        LessAtMost(x.minKey, x.maxKey, y.minKey);
        LessTransitive(to, x.minKey, y.minKey);
        NotLess(to, y.minKey);
      }
    }
  }
}
