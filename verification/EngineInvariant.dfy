/** What the engine's log and memory always mean, in terms of the history. */
module EngineInvariant {
  import opened Bytes
  import opened Wrappers
  import opened History
  import opened VersionStore
  import opened Wal
  import opened Engine

  // ---- histories -----------------------------------------------------------

  /** First committer wins: no commit between a transaction's snapshot and its
      own commit wrote a key it writes. */
  ghost predicate FirstWins(log: Log) {
    forall i, j | 0 <= j < i < |log| && log[i].snapshot <= j :: log[i].writes.Keys !! log[j].writes.Keys
  }

  ghost predicate ValidLog(log: Log) {
    && FirstWins(log)
    && forall i | 0 <= i < |log| ::
         && log[i].writes != map[] && log[i].snapshot <= i
         && forall k | k in log[i].writes :: ValidWrite(k, log[i].writes[k])
  }

  // ---- memory --------------------------------------------------------------

  /** The chains hold exactly the versions newer than `lo`. */
  ghost predicate ChainsOk(chains: map<Bytes, seq<Version>>, log: Log, lo: nat) {
    forall k :: Chain(chains, k) == ChainFor(log, lo, k) && (k in chains ==> chains[k] != [])
  }

  ghost predicate ActiveOk(store: Store, log: Log, treeTs: nat) {
    forall i | i in store.active ::
      && i < store.nextTxnId
      && treeTs <= store.active[i].snapshot <= |log|
      && forall k | k in store.active[i].writes :: ValidWrite(k, store.active[i].writes[k])
  }

  ghost predicate MemOk(store: Store, tree: map<Bytes, Bytes>, treeTs: nat, log: Log) {
    && store.nextTs == |log| + 1 && treeTs <= |log|
    && tree == AsOf(log, treeTs)
    && ChainsOk(store.chains, log, treeTs)
    && ActiveOk(store, log, treeTs)
  }

  // ---- the log file --------------------------------------------------------

  /** `ops` are the writes `ws`, each key once. */
  ghost predicate Lists(ops: seq<Op>, ws: Writes) {
    && (forall i | 0 <= i < |ops| :: ops[i].0 in ws && ops[i].1 == ws[ops[i].0])
    && (forall k | k in ws :: exists i :: 0 <= i < |ops| && ops[i].0 == k)
    && (forall i, j | 0 <= i < j < |ops| :: ops[i].0 != ops[j].0)
  }

  ghost predicate HasCommit(rs: seq<Record>, ts: nat) {
    exists i :: 0 <= i < |rs| && rs[i].Commit? && rs[i].ts == ts
  }

  predicate FreshId(rs: seq<Record>, id: nat) {
    forall i | 0 <= i < |rs| :: rs[i].Checkpoint? || rs[i].txnId != id
  }

  /** The commit record at `i` closes exactly the writes of that commit. */
  ghost predicate CommitOk(rs: seq<Record>, i: nat, log: Log)
    requires i < |rs| && rs[i].Commit?
  {
    && 1 <= rs[i].ts <= |log|
    && Lists(OpsOf(rs[..i], rs[i].txnId), log[rs[i].ts - 1].writes)
    && FreshId(rs[i + 1..], rs[i].txnId)
  }

  /** The log agrees with the history, and above `treeTs` it has no gaps. */
  ghost predicate LogMatches(rs: seq<Record>, log: Log, treeTs: nat) {
    && (forall i | 0 <= i < |rs| :: !rs[i].Begin? && !rs[i].Rollback?)
    && (forall i | 0 <= i < |rs| && rs[i].Commit? :: CommitOk(rs, i, log))
    && (forall i | 0 <= i < |rs| && rs[i].Commit? && rs[i].ts > treeTs + 1 :: HasCommit(rs[..i], rs[i].ts - 1))
    && (forall i, j | 0 <= i < j < |rs| && rs[i].Commit? && rs[j].Commit? :: rs[i].ts < rs[j].ts)
  }

  /** The latest commit is in the tree or in the log. */
  ghost predicate Covers(rs: seq<Record>, log: Log, treeTs: nat) {
    |log| <= treeTs || HasCommit(rs, |log|)
  }

  ghost predicate Durable(rs: seq<Record>, synced: nat, treeTs: nat, acked: nat) {
    acked <= treeTs || HasCommit(FirstN(rs, synced), acked)
  }

  // ---- the log under the engine's operations -------------------------------

  lemma HasCommitIn(rs: seq<Record>, qs: seq<Record>, ts: nat)
    requires rs <= qs && HasCommit(rs, ts)
    ensures HasCommit(qs, ts)
  {
    var i :| 0 <= i < |rs| && rs[i].Commit? && rs[i].ts == ts;
    assert qs[i] == rs[i];
  }

  /** A crash leaves a prefix of the log, which still matches. */
  lemma MatchesPrefix(rs: seq<Record>, n: nat, log: Log, treeTs: nat)
    requires LogMatches(rs, log, treeTs) && n <= |rs|
    ensures LogMatches(rs[..n], log, treeTs)
  {
    hide Lists, OpsOf;
    var qs := rs[..n];
    forall i | 0 <= i < n ensures qs[..i] == rs[..i] && qs[i] == rs[i] {}
    forall i | 0 <= i < n && qs[i].Commit? ensures CommitOk(qs, i, log) {
      assert CommitOk(rs, i, log);
      assert qs[i + 1..] == rs[i + 1..][..n - (i + 1)];
    }
  }

  /** A newer tree asks less of the log. */
  lemma MatchesLater(rs: seq<Record>, log: Log, t: nat, t': nat)
    requires LogMatches(rs, log, t) && t <= t'
    ensures LogMatches(rs, log, t')
  {
    hide CommitOk;
  }

  /** Histories that agree on every logged commit are interchangeable. */
  lemma MatchesOther(rs: seq<Record>, log: Log, log': Log, treeTs: nat)
    requires LogMatches(rs, log, treeTs)
    requires forall i | 0 <= i < |rs| && rs[i].Commit? ::
               1 <= rs[i].ts <= |log| && rs[i].ts <= |log'| && log'[rs[i].ts - 1] == log[rs[i].ts - 1]
    ensures LogMatches(rs, log', treeTs)
  {
    hide Lists, OpsOf;
    forall i | 0 <= i < |rs| && rs[i].Commit? ensures CommitOk(rs, i, log') {
      assert CommitOk(rs, i, log);
    }
  }

  lemma {:induction false} OpsOfFresh(rs: seq<Record>, id: nat)
    requires FreshId(rs, id)
    ensures OpsOf(rs, id) == []
  {
    if rs != [] { OpsOfFresh(rs[..|rs| - 1], id); }
  }

  lemma {:induction false} OpsOfBlock(rs: seq<Record>, id: nat, ts: nat, ops: seq<Op>, n: nat)
    requires FreshId(rs, id) && n <= |ops|
    ensures OpsOf(rs + CommitRecords(id, ts, ops)[..n], id) == ops[..n]
  {
    hide FreshId, OpsOf;
    var block := CommitRecords(id, ts, ops);
    if n == 0 {
      assert rs + block[..0] == rs;
      OpsOfFresh(rs, id);
    } else {
      OpsOfBlock(rs, id, ts, ops, n - 1);
      assert rs + block[..n] == (rs + block[..n - 1]) + [block[n - 1]];
      OpsOfSnoc(rs + block[..n - 1], id, block[n - 1]);
      assert block[n - 1] == OpRecord(id, ops[n - 1]);
      assert ops[..n] == ops[..n - 1] + [ops[n - 1]];
    }
  }

  lemma OpsOfSnoc(rs: seq<Record>, id: nat, r: Record)
    ensures OpsOf(rs + [r], id) == OpsOf(rs, id) + OpIn(r, id)
  {
    assert (rs + [r])[..|rs|] == rs;
  }

  /** The commit at the end of an appended block closes that block's writes. */
  lemma BlockCommitOk(rs: seq<Record>, log: Log, id: nat, ops: seq<Op>, c: History.Commit)
    requires FreshId(rs, id) && Lists(ops, c.writes)
    ensures var qs := rs + CommitRecords(id, |log| + 1, ops);
            qs[|qs| - 1].Commit? && CommitOk(qs, |qs| - 1, log + [c])
  {
    hide Lists, OpsOf;
    var block := CommitRecords(id, |log| + 1, ops);
    var qs := rs + block;
    var n := |qs| - 1;
    OpsOfBlock(rs, id, |log| + 1, ops, |ops|);
    assert qs[..n] == rs + block[..|ops|];
    assert ops[..|ops|] == ops;
    assert (log + [c])[|log|] == c;
  }

  /** Logging a commit under a fresh id extends the match by that commit. */
  lemma MatchesAppend(rs: seq<Record>, log: Log, treeTs: nat, id: nat, ops: seq<Op>, c: History.Commit)
    requires LogMatches(rs, log, treeTs) && Covers(rs, log, treeTs)
    requires FreshId(rs, id) && Lists(ops, c.writes)
    ensures LogMatches(rs + CommitRecords(id, |log| + 1, ops), log + [c], treeTs)
    ensures HasCommit(rs + CommitRecords(id, |log| + 1, ops), |log| + 1)
  {
    hide Lists, OpsOf, HasCommit, CommitOk, FreshId, CommitRecords;
    var qs, n := rs + CommitRecords(id, |log| + 1, ops), |rs| + |ops|;
    BlockShape(rs, id, |log| + 1, ops);
    BlockCommitOk(rs, log, id, ops, c);
    forall i | 0 <= i < |qs| && qs[i].Commit? ensures CommitOk(qs, i, log + [c]) {
      if i < n { KeepCommitOk(rs, log, id, ops, c, i); }
    }
    forall i | 0 <= i < |qs| && qs[i].Commit? && qs[i].ts > treeTs + 1 ensures HasCommit(qs[..i], qs[i].ts - 1) {
      if i < n { assert qs[..i] == rs[..i]; } else { HasCommitIn(rs, qs[..n], |log|); }
    }
    forall i, j | 0 <= i < j < |qs| && qs[i].Commit? && qs[j].Commit? ensures qs[i].ts < qs[j].ts {
      if j == n { CommitTsInLog(rs, log, i); }
    }
    HasCommitAt(qs, n);
  }

  /** What an appended commit block looks like. */
  lemma BlockShape(rs: seq<Record>, id: nat, ts: nat, ops: seq<Op>)
    ensures var qs, n := rs + CommitRecords(id, ts, ops), |rs| + |ops|;
            && |qs| == n + 1 && qs[n] == Record.Commit(id, ts)
            && (forall i | 0 <= i < |rs| :: qs[i] == rs[i])
            && (forall i | |rs| <= i < n :: !qs[i].Commit? && !qs[i].Begin? && !qs[i].Rollback?)
  {
    var qs, n := rs + CommitRecords(id, ts, ops), |rs| + |ops|;
    forall i | |rs| <= i < n ensures !qs[i].Commit? && !qs[i].Begin? && !qs[i].Rollback? {
      assert qs[i] == OpRecord(id, ops[i - |rs|]);
    }
  }

  /** An earlier commit record is not disturbed by a block under a fresh id. */
  lemma KeepCommitOk(rs: seq<Record>, log: Log, id: nat, ops: seq<Op>, c: History.Commit, i: nat)
    requires i < |rs| && rs[i].Commit? && CommitOk(rs, i, log) && FreshId(rs, id)
    ensures var qs := rs + CommitRecords(id, |log| + 1, ops);
            qs[i] == rs[i] && CommitOk(qs, i, log + [c])
  {
    hide Lists, OpsOf;
    var block := CommitRecords(id, |log| + 1, ops);
    var qs := rs + block;
    assert qs[..i] == rs[..i] && qs[i + 1..] == rs[i + 1..] + block;
    assert rs[i].txnId != id;
    forall j | 0 <= j < |block| ensures block[j].Checkpoint? || block[j].txnId == id {
      if j < |ops| { assert block[j] == OpRecord(id, ops[j]); }
    }
    FreshConcat(rs[i + 1..], block, rs[i].txnId);
  }

  lemma FreshConcat(a: seq<Record>, b: seq<Record>, id: nat)
    requires FreshId(a, id) && forall j | 0 <= j < |b| :: b[j].Checkpoint? || b[j].txnId != id
    ensures FreshId(a + b, id)
  {
  }

  lemma CommitTsInLog(rs: seq<Record>, log: Log, i: nat)
    requires i < |rs| && rs[i].Commit? && CommitOk(rs, i, log)
    ensures rs[i].ts <= |log|
  {
  }

  lemma HasCommitAt(qs: seq<Record>, n: nat)
    requires n < |qs| && qs[n].Commit?
    ensures HasCommit(qs, qs[n].ts)
  {
  }
}
