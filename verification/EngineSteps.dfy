/** Every sub-step of commit, checkpoint, crash and recovery keeps the
    engine's invariant. */
module EngineSteps {
  import opened Bytes
  import opened Wrappers
  import opened History
  import opened VersionStore
  import opened Wal
  import opened Engine
  import opened EngineInvariant
  import opened EngineRecovery
  import opened EngineSafety

  // ---- commit --------------------------------------------------------------

  /** Conflict detection is exact: a transaction conflicts iff some commit
      after its snapshot wrote one of its keys, although merges drop versions
      from the chains. */
  lemma ConflictExact(store: Store, tree: map<Bytes, Bytes>, treeTs: nat, log: Log, id: nat)
    requires MemOk(store, tree, treeTs, log) && id in store.active
    ensures Conflicts(store, id) <==>
            exists j, k :: store.active[id].snapshot <= j < |log| && k in log[j].writes && k in store.active[id].writes
  {
    hide AsOf, ChainFor, ValidWrite;
    var txn := store.active[id];
    forall j, k | txn.snapshot <= j < |log| && k in log[j].writes && k in txn.writes
      ensures Conflicts(store, id)
    {
      LaterWriteShows(store.chains, log, treeTs, k, j, txn.snapshot);
    }
    if Conflicts(store, id) {
      var k :| k in txn.writes.Keys && NewerThan(store.chains, k, txn.snapshot);
      var j := NewerWasWritten(store.chains, log, treeTs, k, txn.snapshot);
    }
  }

  lemma LaterWriteShows(chains: map<Bytes, seq<Version>>, log: Log, treeTs: nat, k: Bytes, j: nat, snapshot: nat)
    requires ChainsOk(chains, log, treeTs) && treeTs <= snapshot <= j < |log| && k in log[j].writes
    ensures NewerThan(chains, k, snapshot)
  {
    ChainAt(log, treeTs, k, j + 1);
    var c := ChainFor(log, treeTs, k);
    assert Chain(chains, k) == c;
    var i :| 0 <= i < |c| && c[i] == Version(j + 1, log[j].writes[k]);
    assert i < |c| - 1 ==> c[i].ts < c[|c| - 1].ts;
  }

  lemma NewerWasWritten(chains: map<Bytes, seq<Version>>, log: Log, treeTs: nat, k: Bytes, snapshot: nat) returns (j: nat)
    requires ChainsOk(chains, log, treeTs) && NewerThan(chains, k, snapshot)
    ensures snapshot <= j < |log| && k in log[j].writes
  {
    var c := ChainFor(log, treeTs, k);
    assert Chain(chains, k) == c;
    j := c[|c| - 1].ts - 1;
    ChainAt(log, treeTs, k, j + 1);
  }

  lemma ValidLogGrows(log: Log, c: History.Commit)
    requires ValidLog(log)
    requires c.writes != map[] && c.snapshot <= |log|
    requires forall k | k in c.writes :: ValidWrite(k, c.writes[k])
    requires forall j, k | c.snapshot <= j < |log| && k in log[j].writes :: k !in c.writes
    ensures ValidLog(log + [c])
  {
    hide ValidWrite;
    var log' := log + [c];
    forall i, j | 0 <= j < i < |log'| && log'[i].snapshot <= j ensures log'[i].writes.Keys !! log'[j].writes.Keys {
      if i < |log| { assert log'[i] == log[i] && log'[j] == log[j]; }
    }
  }

  lemma ListedInOrder(ops: seq<Op>, ws: Writes)
    requires ListsInOrder(ops, ws)
    ensures Lists(ops, ws)
  {
    forall i, j | 0 <= i < j < |ops| ensures ops[i].0 != ops[j].0 {
      LessAsymmetric(ops[i].0, ops[j].0);
    }
  }

  lemma RecordsEncodable(id: nat, ts: nat, ops: seq<Op>, ws: Writes)
    requires Lists(ops, ws) && id < U64_LIMIT && ts < U64_LIMIT
    requires forall k | k in ws :: ValidWrite(k, ws[k])
    ensures AllEncodable(CommitRecords(id, ts, ops))
  {
    var rs := CommitRecords(id, ts, ops);
    forall i | 0 <= i < |rs| ensures Encodable(rs[i]) {
      if i < |ops| {
        assert rs[i] == OpRecord(id, ops[i]) && ValidWrite(ops[i].0, ws[ops[i].0]);
        EngineWritesEncodable(id, ops[i].0, if ops[i].1.Some? then ops[i].1.value else []);
      } else {
        assert rs[i] == Record.Commit(id, ts);
      }
    }
  }

  lemma AsOfGrows(log: Log, c: History.Commit, t: nat)
    requires t <= |log|
    ensures AsOf(log + [c], t) == AsOf(log, t)
  {
    assert (log + [c])[..t] == log[..t];
  }

  lemma DurableGrows(rs: seq<Record>, more: seq<Record>, synced: nat, treeTs: nat, acked: nat)
    requires Durable(rs, synced, treeTs, acked) && synced <= |rs|
    ensures Durable(rs + more, synced, treeTs, acked)
  {
    assert (rs + more)[..synced] == rs[..synced];
  }

  /** The commit being logged, and what it needs to be one. */
  lemma CommitIsValid(s: State, id: nat)
    requires MemOk(s.store, s.tree, s.treeTs, s.log) && ValidLog(s.log) && MayCommit(s, id)
    ensures var txn := s.store.active[id];
            ValidLog(s.log + [History.Commit(txn.snapshot, txn.writes)])
  {
    hide ChainsOk, AsOf, ValidWrite, Conflicts;
    var txn := s.store.active[id];
    ConflictExact(s.store, s.tree, s.treeTs, s.log, id);
    hide ValidLog;
    ValidLogGrows(s.log, History.Commit(txn.snapshot, txn.writes));
  }

  lemma LogCommitKeeps(env: Env, s: State, s': State, id: nat, ops: seq<Op>)
    requires Inv(env, s) && LogCommit(env, s, s', id, ops)
    ensures Inv(env, s')
  {
    hide LogMatches, ValidLog, Parse, EncodeLog, ChainsOk, AsOf, ValidWrite, Lists, ListsInOrder, Conflicts, FileOk, Durable, CommitRecords, AllEncodable;
    var txn, ts := s.store.active[id], s.store.nextTs;
    var c := History.Commit(txn.snapshot, txn.writes);
    var block, rs := CommitRecords(id, ts, ops), Records(env, s.disk);
    CommitIsValid(s, id);
    ListedInOrder(ops, txn.writes);
    RecordsEncodable(id, ts, ops, txn.writes);
    FileAppend(env, s.disk, block);
    MatchesAppend(rs, s.log, s.treeTs, id, ops, c);
    AsOfGrows(s.log, c, s.treeTs);
    FileSynced(env, s.disk);
    DurableGrows(rs, block, s.disk.synced, s.treeTs, s.acked);
    BlockFresh(rs, block, s.store, id, ts, ops);
    assert s'.log[..|s'.log| - 1] == s.log;
  }

  lemma FileSynced(env: Env, d: Disk)
    requires FileOk(env, d)
    ensures d.synced <= |Records(env, d)|
  {
  }

  lemma BlockFresh(rs: seq<Record>, block: seq<Record>, store: Store, id: nat, ts: nat, ops: seq<Op>)
    requires ActiveFresh(rs, store, {}) && block == CommitRecords(id, ts, ops) && id < store.nextTxnId
    ensures ActiveFresh(rs + block, store, {id})
  {
    forall i | 0 <= i < |rs + block| ensures (rs + block)[i].Checkpoint? || (rs + block)[i].txnId == id || (i < |rs| && (rs + block)[i] == rs[i]) {
      if i >= |rs| && i - |rs| < |ops| { assert (rs + block)[i] == OpRecord(id, ops[i - |rs|]); }
    }
  }

  lemma PublishedChains(chains: map<Bytes, seq<Version>>, log: Log, lo: nat, c: History.Commit)
    requires ChainsOk(chains, log, lo) && lo <= |log|
    ensures ChainsOk(VersionStore.Publish(chains, c.writes, |log| + 1), log + [c], lo)
  {
    hide ChainFor;
    forall k ensures Chain(VersionStore.Publish(chains, c.writes, |log| + 1), k) == ChainFor(log + [c], lo, k) {
      assert Chain(chains, k) == ChainFor(log, lo, k);
      ChainExtends(log, c, lo, k);
    }
  }

  lemma AllDurable(rs: seq<Record>, log: Log, treeTs: nat)
    requires Covers(rs, log, treeTs)
    ensures Durable(rs, |rs|, treeTs, |log|)
  {
    assert rs[..|rs|] == rs;
  }

  lemma PublishKeeps(env: Env, s: State, s': State)
    requires Inv(env, s) && PublishCommit(env, s, s')
    ensures Inv(env, s')
  {
    hide LogMatches, ValidLog, Parse, EncodeLog, ChainsOk, ValidWrite, Durable, AllEncodable, IdsBelow, FreshId, VersionStore.Publish;
    var p, c := s.log[..|s.log| - 1], s.log[|s.log| - 1];
    assert s.log == p + [c];
    PublishedChains(s.store.chains, p, s.treeTs, c);
    AsOfGrows(p, c, s.treeTs);
    hide AsOf;
    AllDurable(Records(env, s.disk), s.log, s.treeTs);
  }

  lemma FlushKeeps(env: Env, s: State, s': State)
    requires Inv(env, s) && FlushLog(env, s, s')
    ensures Inv(env, s')
  {
    hide LogMatches, ValidLog, Parse, EncodeLog, MemOk, Durable, AllEncodable, ActiveFresh;
    AllDurable(Records(env, s.disk), s.log, s.treeTs);
  }

  // ---- checkpoint ----------------------------------------------------------

  /** Merging at a watermark no live snapshot is below moves the tree forward
      and trims the chains, and changes no read. */
  lemma MergeKeepsMemory(store: Store, tree: map<Bytes, Bytes>, treeTs: nat, log: Log, w: nat)
    requires MemOk(store, tree, treeTs, log) && IsWatermark(store, w)
    ensures treeTs <= w <= |log|
    ensures MemOk(store.(chains := MergedChains(store.chains, w)), Overlay(tree, MergedWrites(store.chains, w)), w, log)
  {
    hide AsOf, ChainFor, ValidWrite, Overlay, MergedWrites, MergedChains;
    MergedTreeIs(store.chains, tree, treeTs, log, w);
    MergedChainsAre(store.chains, treeTs, log, w);
  }

  lemma MergedChainsAre(chains: map<Bytes, seq<Version>>, treeTs: nat, log: Log, w: nat)
    requires ChainsOk(chains, log, treeTs) && treeTs <= w
    ensures ChainsOk(MergedChains(chains, w), log, w)
  {
    hide ChainFor, History.Cut;
    forall k ensures Chain(MergedChains(chains, w), k) == ChainFor(log, w, k) {
      assert Chain(chains, k) == ChainFor(log, treeTs, k);
      CutChain(log, treeTs, w, k);
      if k !in chains { assert History.Cut([], w) == 0; }
    }
  }

  lemma MergedTreeIs(chains: map<Bytes, seq<Version>>, tree: map<Bytes, Bytes>, treeTs: nat, log: Log, w: nat)
    requires ChainsOk(chains, log, treeTs) && treeTs <= w && treeTs <= |log| && tree == AsOf(log, treeTs)
    ensures Overlay(tree, MergedWrites(chains, w)) == AsOf(log, w)
  {
    hide ChainFor, AsOf, History.Cut, NewestAt, Overlay, MergedWrites;
    var m := Overlay(tree, MergedWrites(chains, w));
    forall k ensures Get(m, k) == Get(AsOf(log, w), k) {
      assert Chain(chains, k) == ChainFor(log, treeTs, k);
      ChainRead(log, treeTs, w, k);
      NewestIsCut(ChainFor(log, treeTs, k), w);
      MergedWriteAt(chains, tree, w, k);
    }
    SameGets(m, AsOf(log, w));
  }

  lemma MergedWriteAt(chains: map<Bytes, seq<Version>>, tree: map<Bytes, Bytes>, w: nat, k: Bytes)
    ensures var c := Chain(chains, k);
            Get(Overlay(tree, MergedWrites(chains, w)), k) ==
            if History.Cut(c, w) == 0 then Get(tree, k) else c[History.Cut(c, w) - 1].value
  {
  }

  lemma SameGets(a: map<Bytes, Bytes>, b: map<Bytes, Bytes>)
    requires forall k :: Get(a, k) == Get(b, k)
    ensures a == b
  {
    assert forall k :: k in a <==> Get(a, k).Some?;
    assert forall k :: k in b <==> Get(b, k).Some?;
    forall k | k in a ensures k in b && a[k] == b[k] { assert Get(a, k) == Get(b, k); }
    forall k | k in b ensures k in a { assert Get(a, k) == Get(b, k); }
  }

  /** Everything the rewritten log contains fits a frame. */
  lemma {:induction false} RewriteEncodable(s: Store, log: Log, lo: nat, ks: seq<Bytes>, r: seq<Retained>, n: nat)
    requires ChainsOk(s.chains, log, lo) && ValidLog(log) && IsRetained(s, lo, ks, r) && lo <= |log|
    requires n <= |r| && s.nextTxnId + |r| <= U64_LIMIT && |log| < U64_LIMIT
    ensures AllEncodable(RetainedRecords(r[..n]))
  {
    hide ChainsOk, GroupAt, Iterates, ChainFor, Lists, CommitRecords, Encodable, FirstWins, ValidWrite;
    if n > 0 {
      RewriteEncodable(s, log, lo, ks, r, n - 1);
      RetainedTs(s, log, lo, ks, r, n - 1);
      RetainedStep(r, n);
      var last := r[n - 1];
      GroupIsCommit(s.chains, log, lo, ks, lo + n);
      RecordsEncodable(last.txnId, last.ts, last.writes, log[lo + n - 1].writes);
    }
  }

  lemma RewriteOk(store: Store, log: Log, treeTs: nat, ks: seq<Bytes>, r: seq<Retained>)
    requires ChainsOk(store.chains, log, treeTs) && ValidLog(log) && treeTs <= |log| < U64_LIMIT
    requires store.nextTxnId + |r| <= U64_LIMIT
    requires IsRetained(store, treeTs, ks, r)
    requires forall id | id in store.active :: id < store.nextTxnId
    ensures NewLogOk([Checkpoint(treeTs)] + RetainedRecords(r), store.(nextTxnId := store.nextTxnId + |r|), log, treeTs)
  {
    hide ChainsOk, ValidLog, LogMatches, RetainedRecords, IsRetained, Covers, IdsBelow, IdsFrom, FreshId, AllEncodable;
    var newLog := [Checkpoint(treeTs)] + RetainedRecords(r);
    assert r[..|r|] == r;
    RewriteMatches(store, log, treeTs, ks, r, |r|);
    RetainedTs(store, log, treeTs, ks, r, |r|);
    assert log[..|log|] == log;
    RewriteEncodable(store, log, treeTs, ks, r, |r|);
    MarkerEncodable(treeTs, RetainedRecords(r));
    RetainedLength(r);
    forall id | id in store.active ensures FreshId(newLog, id) { OlderIsFresh(newLog, store.nextTxnId, id); }
  }

  lemma MarkerEncodable(treeTs: nat, rs: seq<Record>)
    requires treeTs < U64_LIMIT && AllEncodable(rs)
    ensures AllEncodable([Checkpoint(treeTs)] + rs)
  {
    assert Encodable(Checkpoint(treeTs));
    hide Encodable;
  }

  lemma OlderIsFresh(rs: seq<Record>, base: nat, id: nat)
    requires IdsFrom(rs, base) && id < base
    ensures FreshId(rs, id)
  {
  }

  lemma RetainedLength(r: seq<Retained>)
    ensures |RetainedRecords(r)| >= |r|
  {
  }

  lemma StartCheckpointKeeps(env: Env, s: State, s': State, w: nat, ks: seq<Bytes>, r: seq<Retained>, dirty: Pages)
    requires Inv(env, s) && StartCheckpoint(env, s, s', w, ks, r, dirty)
    ensures Inv(env, s')
  {
    hide LogMatches, ValidLog, Parse, ChainsOk, AsOf, ValidWrite, IsRetained, IsWatermark, FileOk, Durable, RetainedRecords, Overlay, MergedWrites, MergedChains, NewLogOk;
    var rs := Records(env, s.disk);
    MergeKeepsMemory(s.store, s.tree, s.treeTs, s.log, w);
    RewriteOk(s.store.(chains := MergedChains(s.store.chains, w)), s.log, w, ks, r);
    MatchesLater(rs, s.log, s.treeTs, w);
    DurableLater(rs, s.disk.synced, s.treeTs, w, s.acked);
    FileIgnoresPages(env, s.disk, s.disk.(journal := Complete(dirty)));
    if dirty == map[] { assert s.disk.pages + dirty == s.disk.pages; }
  }

  lemma DurableLater(rs: seq<Record>, synced: nat, t: nat, t': nat, acked: nat)
    requires Durable(rs, synced, t, acked) && t <= t'
    ensures Durable(rs, synced, t', acked)
  {
  }

  lemma FileIgnoresPages(env: Env, d: Disk, d': Disk)
    requires FileOk(env, d) && d'.wal == d.wal && d'.synced == d.synced
    ensures FileOk(env, d')
  {
  }

  /** Re-applying a journal changes nothing. */
  lemma ReplayIdempotent(pages: Pages, dirty: Pages)
    ensures (pages + dirty) + dirty == pages + dirty
  {
  }

  /** However far in-place writes got, the journal restores the same pages. */
  lemma ReplayRestores(before: Pages, torn: Pages, dirty: Pages)
    requires AgreeOff(before, torn, dirty.Keys)
    ensures torn + dirty == before + dirty
  {
    var a, b := torn + dirty, before + dirty;
    assert forall id :: id in a <==> id in b;
    assert forall id | id in a :: a[id] == b[id];
  }

  lemma SyncJournalKeeps(env: Env, s: State, s': State)
    requires Inv(env, s) && SyncJournal(s, s')
    ensures Inv(env, s')
  {
    hide DiskOk, ValidLog, MemOk, NewLogOk, Parse;
  }

  lemma SyncPagesKeeps(env: Env, s: State, s': State)
    requires Inv(env, s) && SyncPages(s, s')
    ensures Inv(env, s')
  {
    hide LogMatches, ValidLog, MemOk, NewLogOk, Parse, FileOk, ImageOk, Durable;
    ReplayIdempotent(s.disk.pages, s.phase.dirty);
    FileIgnoresPages(env, s.disk, s'.disk);
  }

  lemma ClearJournalKeeps(env: Env, s: State, s': State)
    requires Inv(env, s) && ClearJournal(s, s')
    ensures Inv(env, s')
  {
    hide LogMatches, ValidLog, MemOk, NewLogOk, Parse, FileOk, ImageOk, Durable;
    FileIgnoresPages(env, s.disk, s'.disk);
  }

  /** Above the tree the log holds every commit, not only the last. */
  lemma {:induction false} EveryCommitAbove(rs: seq<Record>, log: Log, treeTs: nat, t: nat)
    requires LogMatches(rs, log, treeTs) && HasCommit(rs, |log|) && treeTs < t <= |log|
    ensures HasCommit(rs, t)
    decreases |log| - t
  {
    if t < |log| {
      EveryCommitAbove(rs, log, treeTs, t + 1);
      hide CommitOk;
      var i :| 0 <= i < |rs| && rs[i].Commit? && rs[i].ts == t + 1;
      HasCommitIn(rs[..i], rs, t);
    }
  }

  lemma CoverIsDurable(rs: seq<Record>, log: Log, treeTs: nat, acked: nat)
    requires LogMatches(rs, log, treeTs) && Covers(rs, log, treeTs) && acked <= |log|
    ensures Durable(rs, |rs|, treeTs, acked)
  {
    hide LogMatches;
    assert rs[..|rs|] == rs;
    if acked > treeTs { EveryCommitAbove(rs, log, treeTs, acked); }
  }

  lemma FinishResetKeeps(env: Env, s: State, s': State)
    requires Inv(env, s) && FinishReset(env, s, s')
    ensures Inv(env, s')
  {
    hide LogMatches, ValidLog, MemOk, Parse, ImageOk, Durable, FileOk, ActiveFresh, Covers;
    FreshFile(env, s.phase.newLog, s.disk);
    CoverIsDurable(s.phase.newLog, s.log, s.treeTs, s.acked);
  }
}
