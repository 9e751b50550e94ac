/** Rebuilding memory from the log, and rewriting the log from memory. */
module EngineRecovery {
  import opened Bytes
  import opened Wrappers
  import opened History
  import opened VersionStore
  import opened Wal
  import opened Engine
  import opened EngineInvariant

  // ---- replaying one transaction -------------------------------------------

  lemma {:induction false} InsertAtEnd(c: seq<Version>, v: Version)
    requires forall i | 0 <= i < |c| :: c[i].ts <= v.ts
    ensures InsertVersion(c, v) == c + [v]
  {
    InsertionTail(c, v.ts, |c|);
  }

  /** Replaying a logged transaction publishes its write set. */
  lemma {:induction false} ReplayTxnAt(store: Store, ts: nat, ops: seq<Op>, k: Bytes)
    requires forall i, j | 0 <= i < j < |ops| :: ops[i].0 != ops[j].0
    requires forall x | x in store.chains :: forall i | 0 <= i < |store.chains[x]| :: store.chains[x][i].ts < ts
    ensures var r := ReplayTxn(store, ts, ops);
            && (forall i | 0 <= i < |ops| && ops[i].0 == k ::
                  k in r.chains && r.chains[k] == Chain(store.chains, k) + [Version(ts, ops[i].1)])
            && ((forall i | 0 <= i < |ops| :: ops[i].0 != k) ==>
                  (k in r.chains <==> k in store.chains) && Chain(r.chains, k) == Chain(store.chains, k))
            && r.nextTxnId == store.nextTxnId && r.active == store.active
            && r.nextTs == if ops != [] && ts >= store.nextTs then ts + 1 else store.nextTs
  {
    hide InsertVersion;
    if ops != [] {
      var n := |ops| - 1;
      ReplayTxnAt(store, ts, ops[..n], k);
      ReplayTxnAt(store, ts, ops[..n], ops[n].0);
      InsertAtEnd(Chain(store.chains, ops[n].0), Version(ts, ops[n].1));
    }
  }

  lemma ReplayTxnChain(store: Store, ts: nat, ops: seq<Op>, c: History.Commit, log: Log, lo: nat, k: Bytes)
    requires Lists(ops, c.writes)
    requires ChainsOk(store.chains, log, lo) && ts == |log| + 1 && lo <= |log|
    ensures var r := ReplayTxn(store, ts, ops);
            && Chain(r.chains, k) == ChainFor(log + [c], lo, k)
            && (k in r.chains ==> r.chains[k] != [])
            && r == store.(chains := r.chains, nextTs := r.nextTs)
            && r.nextTs == if ops != [] && ts >= store.nextTs then ts + 1 else store.nextTs
  {
    hide ChainFor, ReplayTxn;
    ChainsBelow(store.chains, log, lo);
    ReplayTxnAt(store, ts, ops, k);
    ChainExtends(log, c, lo, k);
    assert Chain(store.chains, k) == ChainFor(log, lo, k);
    if k in c.writes {
      var i :| 0 <= i < |ops| && ops[i].0 == k;
    }
  }

  lemma ChainsBelow(chains: map<Bytes, seq<Version>>, log: Log, lo: nat)
    requires ChainsOk(chains, log, lo)
    ensures forall x | x in chains :: forall i | 0 <= i < |chains[x]| :: chains[x][i].ts < |log| + 1
  {
    forall x | x in chains ensures forall i | 0 <= i < |chains[x]| :: chains[x][i].ts < |log| + 1 {
      assert Chain(chains, x) == ChainFor(log, lo, x);
    }
  }

  lemma ReplayTxnIs(store: Store, ts: nat, ops: seq<Op>, c: History.Commit, log: Log, lo: nat)
    requires Lists(ops, c.writes) && c.writes != map[]
    requires ChainsOk(store.chains, log, lo) && ts == |log| + 1 == store.nextTs && lo <= |log|
    ensures var r := ReplayTxn(store, ts, ops);
            && r == store.(chains := r.chains, nextTs := ts + 1)
            && ChainsOk(r.chains, log + [c], lo)
  {
    hide ChainFor, ReplayTxn;
    var k0 :| k0 in c.writes;
    var i0 :| 0 <= i0 < |ops| && ops[i0].0 == k0;
    forall k { ReplayTxnChain(store, ts, ops, c, log, lo, k); }
    ReplayTxnChain(store, ts, ops, c, log, lo, k0);
  }

  lemma ChainExtends(log: Log, c: History.Commit, lo: nat, k: Bytes)
    requires lo <= |log|
    ensures ChainFor(log + [c], lo, k) ==
            ChainFor(log, lo, k) + if k in c.writes then [Version(|log| + 1, c.writes[k])] else []
  {
    assert (log + [c])[..|log|] == log;
  }

  // ---- what the redo set of a matching log is ------------------------------

  lemma {:induction false} CommitTsTail(rs: seq<Record>, i: nat)
    requires i < |rs| && rs[i].Commit? && FreshId(rs[i + 1..], rs[i].txnId)
    ensures rs[i].txnId in CommitTs(rs) && CommitTs(rs)[rs[i].txnId] == rs[i].ts
    ensures OpsOf(rs, rs[i].txnId) == OpsOf(rs[..i], rs[i].txnId)
  {
    var n := |rs| - 1;
    if i < n {
      var p := rs[..n];
      assert p[i + 1..] == rs[i + 1..][..n - (i + 1)];
      assert rs[n] == rs[i + 1..][n - (i + 1)];
      CommitTsTail(p, i);
      assert p[..i] == rs[..i];
    }
  }

  lemma {:induction false} CommitTsFrom(rs: seq<Record>, id: nat) returns (i: nat)
    requires id in CommitTs(rs)
    ensures i < |rs| && rs[i].Commit? && rs[i].txnId == id
  {
    var n := |rs| - 1;
    if rs[n].Commit? && rs[n].txnId == id {
      i := n;
    } else {
      i := CommitTsFrom(rs[..n], id);
    }
  }

  lemma {:induction false} NoRollbacks(rs: seq<Record>)
    requires forall i | 0 <= i < |rs| :: !rs[i].Rollback?
    ensures RolledBack(rs) == {}
  {
    if rs != [] { NoRollbacks(rs[..|rs| - 1]); }
  }

  /** Every commit record of a matching log is replayed, with its timestamp
      and its write set. */
  lemma CommitReplays(rs: seq<Record>, log: Log, treeTs: nat, i: nat)
    requires LogMatches(rs, log, treeTs) && ValidLog(log)
    requires i < |rs| && rs[i].Commit?
    ensures TsOf(rs, rs[i].txnId) == rs[i].ts
    ensures 1 <= rs[i].ts <= |log| && Lists(OpsOf(rs, rs[i].txnId), log[rs[i].ts - 1].writes)
    ensures Redoes(rs, rs[i].txnId)
  {
    assert CommitOk(rs, i, log);
    hide OpsOf;
    CommitTsTail(rs, i);
    NoRollbacks(rs);
    var ws := log[rs[i].ts - 1].writes;
    assert ws != map[];
    var k :| k in ws;
    var j :| 0 <= j < |OpsOf(rs, rs[i].txnId)| && OpsOf(rs, rs[i].txnId)[j].0 == k;
  }

  lemma ReplayedCommit(rs: seq<Record>, log: Log, treeTs: nat, order: seq<nat>, j: nat) returns (i: nat)
    requires LogMatches(rs, log, treeTs) && ValidLog(log) && RedoOrder(rs, order) && j < |order|
    ensures i < |rs| && rs[i].Commit? && rs[i].txnId == order[j] && rs[i].ts == TsOf(rs, order[j])
    ensures 1 <= rs[i].ts <= |log| && Lists(OpsOf(rs, order[j]), log[rs[i].ts - 1].writes)
  {
    hide LogMatches, ValidLog, Lists;
    assert order[j] in order;
    i := CommitTsFrom(rs, order[j]);
    CommitReplays(rs, log, treeTs, i);
  }

  /** Replay order is strictly increasing in commit timestamp. */
  lemma OrderStrict(rs: seq<Record>, log: Log, treeTs: nat, order: seq<nat>, a: nat, b: nat)
    requires LogMatches(rs, log, treeTs) && ValidLog(log) && RedoOrder(rs, order) && a < b < |order|
    ensures TsOf(rs, order[a]) < TsOf(rs, order[b])
  {
    hide ValidLog, Lists, CommitOk;
    var i := ReplayedCommit(rs, log, treeTs, order, a);
    var j := ReplayedCommit(rs, log, treeTs, order, b);
    assert order[a] != order[b] && TsOf(rs, order[a]) <= TsOf(rs, order[b]);
  }

  lemma CommitInOrder(rs: seq<Record>, log: Log, treeTs: nat, order: seq<nat>, ts: nat) returns (j: nat)
    requires LogMatches(rs, log, treeTs) && ValidLog(log) && RedoOrder(rs, order) && HasCommit(rs, ts)
    ensures j < |order| && TsOf(rs, order[j]) == ts
  {
    hide LogMatches, ValidLog, Lists, ByTs;
    var i :| 0 <= i < |rs| && rs[i].Commit? && rs[i].ts == ts;
    CommitReplays(rs, log, treeTs, i);
    j :| 0 <= j < |order| && order[j] == rs[i].txnId;
  }

  /** The timestamp replay has reached after `j` transactions. */
  function Reached(rs: seq<Record>, order: seq<nat>, treeTs: nat, j: nat): nat
    requires j <= |order|
  {
    if j == 0 then treeTs else Max(treeTs, TsOf(rs, order[j - 1]))
  }

  /** Above the tree, replay never skips a commit. */
  lemma NoGap(rs: seq<Record>, log: Log, treeTs: nat, order: seq<nat>, j: nat)
    requires LogMatches(rs, log, treeTs) && ValidLog(log) && RedoOrder(rs, order) && j < |order|
    requires TsOf(rs, order[j]) > treeTs
    ensures TsOf(rs, order[j]) == Reached(rs, order, treeTs, j) + 1
  {
    hide ValidLog, Lists, CommitOk, ByTs, TsOf;
    var ts := TsOf(rs, order[j]);
    if j > 0 { OrderStrict(rs, log, treeTs, order, j - 1, j); }
    if ts > treeTs + 1 {
      var i := ReplayedCommit(rs, log, treeTs, order, j);
      HasCommitIn(rs[..i], rs, ts - 1);
      var a := CommitInOrder(rs, log, treeTs, order, ts - 1);
      if a > j { OrderStrict(rs, log, treeTs, order, j, a); }
      if a < j - 1 { OrderStrict(rs, log, treeTs, order, a, j - 1); }
    }
  }

  lemma EmptyChains(log: Log, lo: nat)
    requires |log| == lo
    ensures ChainsOk(map[], log, lo)
  {
  }

  /** Replaying a matching log rebuilds exactly the versions above the tree, up
      to the last commit the log holds. */
  lemma {:induction false} ReplayRebuilds(rs: seq<Record>, log: Log, treeTs: nat, order: seq<nat>, empty: Store, j: nat)
    requires LogMatches(rs, log, treeTs) && ValidLog(log) && RedoOrder(rs, order) && j <= |order|
    requires treeTs <= |log|
    requires empty.chains == map[] && empty.nextTs == treeTs + 1 && empty.active == map[]
    ensures var m := Reached(rs, order, treeTs, j);
            var r := Replay(empty, Redo(rs, order)[..j], treeTs);
            && treeTs <= m <= |log|
            && r == empty.(chains := r.chains, nextTs := m + 1)
            && ChainsOk(r.chains, log[..m], treeTs)
  {
    hide LogMatches, RedoOrder, Lists, TsOf, OpsOf, ReplayTxn, ChainsOk, FirstWins;
    var committed := Redo(rs, order);
    if j == 0 {
      EmptyChains(log[..treeTs], treeTs);
    } else {
      ReplayRebuilds(rs, log, treeTs, order, empty, j - 1);
      var ts := TsOf(rs, order[j - 1]);
      assert committed[..j][..j - 1] == committed[..j - 1];
      var before := Replay(empty, committed[..j - 1], treeTs);
      if ts > treeTs {
        NoGap(rs, log, treeTs, order, j - 1);
        var i := ReplayedCommit(rs, log, treeTs, order, j - 1);
        var c := log[ts - 1];
        assert log[..ts] == log[..ts - 1] + [c];
        ReplayTxnIs(before, ts, OpsOf(rs, order[j - 1]), c, log[..ts - 1], treeTs);
      } else if j > 1 {
        OrderStrict(rs, log, treeTs, order, j - 2, j - 1);
      }
    }
  }

  // ---- rewriting the log ---------------------------------------------------

  lemma {:induction false} ValuesAtChain(log: Log, lo: nat, k: Bytes, t: nat)
    requires lo < t
    ensures ValuesAt(k, ChainFor(log, lo, k), t) ==
            if t <= |log| && k in log[t - 1].writes then [(k, log[t - 1].writes[k])] else []
  {
    if |log| > lo {
      var p, c := log[..|log| - 1], ChainFor(log, lo, k);
      ValuesAtChain(p, lo, k, t);
      if k in log[|log| - 1].writes { assert c[..|c| - 1] == ChainFor(p, lo, k); }
    }
  }

  /** The writes `ws` makes to the keys `ks`, in their order. */
  function InKeyOrder(ks: seq<Bytes>, ws: Writes): seq<Op> {
    if ks == [] then []
    else
      var last := ks[|ks| - 1];
      InKeyOrder(ks[..|ks| - 1], ws) + if last in ws then [(last, ws[last])] else []
  }

  /** The versions stamped `t` are the writes of commit `t`. */
  lemma {:induction false} GroupIsWrites(chains: map<Bytes, seq<Version>>, log: Log, lo: nat, ks: seq<Bytes>, t: nat)
    requires ChainsOk(chains, log, lo) && lo < t <= |log|
    ensures GroupAt(chains, ks, t) == InKeyOrder(ks, log[t - 1].writes)
  {
    hide ChainFor;
    if ks != [] {
      var n := |ks| - 1;
      GroupIsWrites(chains, log, lo, ks[..n], t);
      ValuesAtChain(log, lo, ks[n], t);
      assert Chain(chains, ks[n]) == ChainFor(log, lo, ks[n]);
    }
  }

  ghost predicate WithinKeys(g: seq<Op>, ks: seq<Bytes>, ws: Writes) {
    && (forall i | 0 <= i < |g| :: g[i].0 in ks && g[i].0 in ws && g[i].1 == ws[g[i].0])
    && (forall i, j | 0 <= i < j < |g| :: g[i].0 != g[j].0)
  }

  lemma {:induction false} InKeyOrderSound(ks: seq<Bytes>, ws: Writes)
    requires Ascending(ks)
    ensures WithinKeys(InKeyOrder(ks, ws), ks, ws)
  {
    if ks != [] {
      var n := |ks| - 1;
      InKeyOrderSound(ks[..n], ws);
      if ks[n] in ks[..n] {
        var j :| 0 <= j < n && ks[j] == ks[n];
        AscendingDistinct(ks, n, j);
      }
      WithinKeysGrows(InKeyOrder(ks[..n], ws), ks[..n], ws, ks[n]);
      assert ks[..n] + [ks[n]] == ks;
    }
  }

  lemma WithinKeysGrows(g: seq<Op>, ks: seq<Bytes>, ws: Writes, k: Bytes)
    requires WithinKeys(g, ks, ws) && k !in ks
    ensures WithinKeys(g + if k in ws then [(k, ws[k])] else [], ks + [k], ws)
  {
  }

  lemma {:induction false} InKeyOrderComplete(ks: seq<Bytes>, ws: Writes, k: Bytes) returns (i: nat)
    requires k in ks && k in ws
    ensures i < |InKeyOrder(ks, ws)| && InKeyOrder(ks, ws)[i].0 == k
  {
    var n := |ks| - 1;
    if k == ks[n] {
      i := |InKeyOrder(ks[..n], ws)|;
    } else {
      i := InKeyOrderComplete(ks[..n], ws, k);
    }
  }

  lemma {:induction false} GroupBeyond(chains: map<Bytes, seq<Version>>, log: Log, lo: nat, ks: seq<Bytes>, t: nat)
    requires ChainsOk(chains, log, lo) && lo < t && |log| < t
    ensures GroupAt(chains, ks, t) == []
  {
    hide ChainFor;
    if ks != [] {
      GroupBeyond(chains, log, lo, ks[..|ks| - 1], t);
      ValuesAtChain(log, lo, ks[|ks| - 1], t);
      assert Chain(chains, ks[|ks| - 1]) == ChainFor(log, lo, ks[|ks| - 1]);
    }
  }

  /** A group is one commit's whole write set. */
  lemma GroupIsCommit(chains: map<Bytes, seq<Version>>, log: Log, lo: nat, ks: seq<Bytes>, t: nat)
    requires ChainsOk(chains, log, lo) && lo < t <= |log| && ValidLog(log) && Iterates(ks, chains.Keys)
    ensures Lists(GroupAt(chains, ks, t), log[t - 1].writes) && GroupAt(chains, ks, t) != []
  {
    hide FirstWins, GroupAt, Ascending, ChainFor, InKeyOrder;
    var ws := log[t - 1].writes;
    GroupIsWrites(chains, log, lo, ks, t);
    InKeyOrderSound(ks, ws);
    forall k | k in ws ensures exists i :: 0 <= i < |InKeyOrder(ks, ws)| && InKeyOrder(ks, ws)[i].0 == k {
      WrittenHasChain(chains, log, lo, k, t);
      var i := InKeyOrderComplete(ks, ws, k);
    }
    assert ws != map[];
    var k :| k in ws;
  }

  lemma WrittenHasChain(chains: map<Bytes, seq<Version>>, log: Log, lo: nat, k: Bytes, t: nat)
    requires ChainsOk(chains, log, lo) && lo < t <= |log| && k in log[t - 1].writes
    ensures k in chains
  {
    ChainAt(log, lo, k, t);
    assert Chain(chains, k) == ChainFor(log, lo, k);
  }

  /** A checkpoint retains every commit above the tree, in order. */
  lemma {:induction false} RetainedTs(s: Store, log: Log, lo: nat, ks: seq<Bytes>, r: seq<Retained>, i: nat)
    requires ChainsOk(s.chains, log, lo) && ValidLog(log) && IsRetained(s, lo, ks, r) && lo <= |log|
    requires i <= |r|
    ensures i < |r| ==> r[i].ts == lo + 1 + i <= |log|
    ensures i == |r| ==> i == |log| - lo
  {
    hide ChainsOk, ValidLog, GroupAt, Iterates, ChainFor;
    if i > 0 { RetainedTs(s, log, lo, ks, r, i - 1); }
    var t := lo + 1 + i;
    if i < |r| {
      if r[i].ts > |log| { GroupBeyond(s.chains, log, lo, ks, r[i].ts); }
      assert i > 0 ==> r[i - 1].ts < r[i].ts;
    }
    if t <= |log| {
      GroupIsCommit(s.chains, log, lo, ks, t);
      assert HasTs(r, t);
      var j :| 0 <= j < |r| && r[j].ts == t;
      if i < j { assert r[i].ts < r[j].ts; }
    }
  }

  predicate IdsBelow(rs: seq<Record>, id: nat) {
    forall i | 0 <= i < |rs| :: rs[i].Checkpoint? || rs[i].txnId < id
  }

  predicate IdsFrom(rs: seq<Record>, id: nat) {
    forall i | 0 <= i < |rs| :: rs[i].Checkpoint? || rs[i].txnId >= id
  }

  /** The rewritten log matches the history and covers its latest commit. */
  lemma {:induction false} RewriteMatches(s: Store, log: Log, lo: nat, ks: seq<Bytes>, r: seq<Retained>, n: nat)
    requires ChainsOk(s.chains, log, lo) && ValidLog(log) && IsRetained(s, lo, ks, r) && lo <= |log|
    requires n <= |r|
    ensures lo + n <= |log|
    ensures var rs := [Checkpoint(lo)] + RetainedRecords(r[..n]);
            && LogMatches(rs, log[..lo + n], lo) && Covers(rs, log[..lo + n], lo)
            && IdsBelow(rs, s.nextTxnId + n) && IdsFrom(rs, s.nextTxnId)
  {
    hide ChainsOk, ValidLog, GroupAt, Iterates, ChainFor, LogMatches, Lists, RetainedRecords, Covers, CommitRecords;
    RetainedTs(s, log, lo, ks, r, n);
    if n == 0 {
      MarkerMatches(log[..lo], lo);
      assert r[..0] == [];
    } else {
      RewriteMatches(s, log, lo, ks, r, n - 1);
      RetainedTs(s, log, lo, ks, r, n - 1);
      var last, t := r[n - 1], lo + n;
      GroupIsCommit(s.chains, log, lo, ks, t);
      RetainedStep(r, n);
      RewriteStep([Checkpoint(lo)] + RetainedRecords(r[..n - 1]), log, lo, t, last.txnId, last.writes, s.nextTxnId);
      assert [Checkpoint(lo)] + RetainedRecords(r[..n])
          == [Checkpoint(lo)] + RetainedRecords(r[..n - 1]) + CommitRecords(last.txnId, t, last.writes);
    }
  }

  lemma RewriteStep(rs: seq<Record>, log: Log, lo: nat, t: nat, id: nat, ops: seq<Op>, base: nat)
    requires lo < t <= |log| && Lists(ops, log[t - 1].writes)
    requires LogMatches(rs, log[..t - 1], lo) && Covers(rs, log[..t - 1], lo)
    requires IdsBelow(rs, id) && IdsFrom(rs, base) && base <= id
    ensures var qs := rs + CommitRecords(id, t, ops);
            && LogMatches(qs, log[..t], lo) && Covers(qs, log[..t], lo)
            && IdsBelow(qs, id + 1) && IdsFrom(qs, base)
  {
    hide LogMatches, Lists;
    MatchesAppend(rs, log[..t - 1], lo, id, ops, log[t - 1]);
    assert log[..t - 1] + [log[t - 1]] == log[..t];
  }

  lemma RetainedStep(r: seq<Retained>, n: nat)
    requires 0 < n <= |r|
    ensures RetainedRecords(r[..n]) ==
            RetainedRecords(r[..n - 1]) + CommitRecords(r[n - 1].txnId, r[n - 1].ts, r[n - 1].writes)
  {
    assert r[..n][..n - 1] == r[..n - 1] && r[..n][n - 1] == r[n - 1];
  }

  lemma MarkerMatches(log: Log, lo: nat)
    requires |log| == lo
    ensures var rs := [Checkpoint(lo)] + RetainedRecords([]);
            |rs| == 1 && rs[0].Checkpoint? && LogMatches(rs, log, lo) && Covers(rs, log, lo)
  {
  }
}
