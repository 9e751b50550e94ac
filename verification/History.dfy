/** The abstract object every durable component refines: a history of commits
    folded into a map. Commit `log[i]` carries timestamp `i + 1`. */
module History {
  import opened Bytes
  import opened Wrappers

  /** A write set: `None` deletes the key. */
  type Writes = map<Bytes, Option<Bytes>>

  /** A committed transaction and the snapshot it read from. */
  datatype Commit = Commit(snapshot: nat, writes: Writes)

  type Log = seq<Commit>

  datatype Version = Version(ts: nat, value: Option<Bytes>)

  function Get(m: map<Bytes, Bytes>, k: Bytes): Option<Bytes> {
    if k in m then Some(m[k]) else None
  }

  /** `m` with one key written or deleted. */
  function Write(m: map<Bytes, Bytes>, k: Bytes, w: Option<Bytes>): map<Bytes, Bytes> {
    if w.Some? then m[k := w.value] else m - {k}
  }

  /** `m` overlaid with a whole write set. */
  function Overlay(m: map<Bytes, Bytes>, ws: Writes): map<Bytes, Bytes> {
    map k | k in m.Keys + ws.Keys && (k in ws ==> ws[k].Some?) :: if k in ws then ws[k].value else m[k]
  }

  lemma OverlayNothing(m: map<Bytes, Bytes>)
    ensures Overlay(m, map[]) == m
  {
    var a := Overlay(m, map[]);
    assert a.Keys == m.Keys;
  }

  lemma OverlayOne(m: map<Bytes, Bytes>, ws: Writes, k: Bytes, w: Option<Bytes>)
    ensures Overlay(m, ws[k := w]) == Write(Overlay(m, ws), k, w)
  {
    var a, b := Overlay(m, ws[k := w]), Write(Overlay(m, ws), k, w);
    assert a.Keys == b.Keys;
    assert forall x | x in a.Keys :: a[x] == b[x];
  }

  /** The database after every commit of `log`. */
  function Fold(log: Log): map<Bytes, Bytes> {
    if log == [] then map[] else Overlay(Fold(log[..|log| - 1]), log[|log| - 1].writes)
  }

  function Upto(log: Log, t: nat): Log {
    if t <= |log| then log[..t] else log
  }

  /** The database as of timestamp `t`. */
  function AsOf(log: Log, t: nat): map<Bytes, Bytes> {
    Fold(Upto(log, t))
  }

  /** Versions of `k` committed after timestamp `lo`, oldest first. */
  function ChainFor(log: Log, lo: nat, k: Bytes): (c: seq<Version>)
    ensures forall i | 0 <= i < |c| :: lo < c[i].ts <= |log|
    ensures forall i, j | 0 <= i < j < |c| :: c[i].ts < c[j].ts
  {
    if |log| <= lo then []
    else
      var c := ChainFor(log[..|log| - 1], lo, k);
      var w := log[|log| - 1].writes;
      if k in w then c + [Version(|log|, w[k])] else c
  }

  /** Newest version visible at `snapshot`; `None` when the chain has none. */
  function NewestAt(c: seq<Version>, snapshot: nat): Option<Option<Bytes>> {
    if c == [] then None
    else if c[|c| - 1].ts <= snapshot then Some(c[|c| - 1].value)
    else NewestAt(c[..|c| - 1], snapshot)
  }

  /** How many versions lie at or before the last one with `ts <= w`. */
  function Cut(c: seq<Version>, w: nat): (n: nat)
    ensures n <= |c|
    ensures n > 0 ==> c[n - 1].ts <= w
    ensures forall i | n <= i < |c| :: c[i].ts > w
  {
    if c == [] then 0 else if c[|c| - 1].ts <= w then |c| else Cut(c[..|c| - 1], w)
  }

  // ---- how chains and folds fit together -----------------------------------

  /** One commit changes exactly the keys it writes. */
  lemma FoldStep(log: Log, k: Bytes)
    requires log != []
    ensures var last := log[|log| - 1].writes;
            Get(Fold(log), k) == if k in last then last[k] else Get(Fold(log[..|log| - 1]), k)
  {
  }

  /** Reading a chain over a tree that holds `AsOf(log, lo)` gives exactly
      `AsOf(log, snapshot)`. */
  lemma {:induction false} ChainRead(log: Log, lo: nat, snapshot: nat, k: Bytes)
    requires lo <= snapshot && lo <= |log|
    ensures var read := NewestAt(ChainFor(log, lo, k), snapshot);
            Get(AsOf(log, snapshot), k) == if read.Some? then read.value else Get(AsOf(log, lo), k)
  {
    hide NewestAt, Fold;
    if |log| == lo {
      assert Upto(log, snapshot) == log == Upto(log, lo);
      NewestNone(snapshot);
    } else {
      var p, last := log[..|log| - 1], log[|log| - 1].writes;
      ChainRead(p, lo, snapshot, k);
      assert Upto(p, lo) == Upto(log, lo);
      if k in last { NewestSnoc(ChainFor(p, lo, k), Version(|log|, last[k]), snapshot); }
      if snapshot < |log| {
        assert Upto(p, snapshot) == Upto(log, snapshot);
      } else {
        assert Upto(p, snapshot) == p && Upto(log, snapshot) == log;
        FoldStep(log, k);
      }
    }
  }

  lemma NewestNone(snapshot: nat)
    ensures NewestAt([], snapshot) == None
  {
  }

  lemma NewestSnoc(c: seq<Version>, v: Version, snapshot: nat)
    ensures NewestAt(c + [v], snapshot) == if v.ts <= snapshot then Some(v.value) else NewestAt(c, snapshot)
  {
    assert (c + [v])[..|c|] == c;
  }

  /** The newest version at or below `w` is what the tree must hold at `w`. */
  lemma {:induction false} NewestIsCut(c: seq<Version>, w: nat)
    ensures NewestAt(c, w) == if Cut(c, w) == 0 then None else Some(c[Cut(c, w) - 1].value)
  {
    if c != [] && c[|c| - 1].ts > w {
      NewestIsCut(c[..|c| - 1], w);
    }
  }

  /** Dropping what a merge at `w` supersedes leaves the chain above `w`. */
  lemma {:induction false} CutChain(log: Log, lo: nat, w: nat, k: Bytes)
    requires lo <= w
    ensures ChainFor(log, lo, k)[Cut(ChainFor(log, lo, k), w)..] == ChainFor(log, w, k)
  {
    hide Cut;
    if |log| > lo {
      var p := log[..|log| - 1];
      CutChain(p, lo, w, k);
      if k in log[|log| - 1].writes {
        CutSnoc(ChainFor(p, lo, k), Version(|log|, log[|log| - 1].writes[k]), w);
      }
    }
  }

  /** Cutting a chain with one more version. */
  lemma CutSnoc(c: seq<Version>, v: Version, w: nat)
    ensures (c + [v])[Cut(c + [v], w)..] == if v.ts > w then c[Cut(c, w)..] + [v] else []
  {
    assert (c + [v])[..|c|] == c;
  }

  /** A key's chain above `lo` has a version at `t` exactly when commit `t`
      wrote the key, and that version is what it wrote. */
  lemma {:induction false} ChainAt(log: Log, lo: nat, k: Bytes, t: nat)
    requires lo < t <= |log|
    ensures k in log[t - 1].writes ==> Version(t, log[t - 1].writes[k]) in ChainFor(log, lo, k)
    ensures k !in log[t - 1].writes ==> forall v | v in ChainFor(log, lo, k) :: v.ts != t
  {
    if t < |log| {
      var p := log[..|log| - 1];
      ChainAt(p, lo, k, t);
    } else {
      assert ChainFor(log, lo, k) ==
             ChainFor(log[..|log| - 1], lo, k) +
             (if k in log[t - 1].writes then [Version(t, log[t - 1].writes[k])] else []);
    }
  }

  lemma UptoUpto(log: Log, n: nat, t: nat)
    requires t <= n <= |log|
    ensures Upto(log[..n], t) == Upto(log, t)
  {
    assert log[..n][..t] == log[..t];
  }
}
