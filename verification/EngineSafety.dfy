/** Safety of every run of the engine. */
module EngineSafety {
  import opened Bytes
  import opened Wrappers
  import opened History
  import opened VersionStore
  import opened Wal
  import opened Engine
  import opened EngineInvariant
  import opened EngineRecovery

  // ---- the invariant -------------------------------------------------------

  function Records(env: Env, d: Disk): seq<Record> {
    Parse(d.wal, env.crc).records
  }

  /** The log file is a sequence of intact frames, perhaps with a torn tail. */
  ghost predicate FileOk(env: Env, d: Disk) {
    var p := Parse(d.wal, env.crc);
    AllEncodable(p.records) && d.wal[..p.valid] == EncodeLog(p.records, env.crc) && d.synced <= |p.records|
  }

  /** The page file recovery would end with. */
  function RecoveredPages(d: Disk): Pages {
    if d.journal.Complete? then d.pages + d.journal.pages else d.pages
  }

  ghost predicate ImageOk(image: Image, log: Log) {
    image.treeTs <= |log| && image.tree == AsOf(log, image.treeTs)
  }

  /** From this disk, recovery reaches a prefix of the history that contains
      every acknowledged commit. */
  ghost predicate DiskOk(env: Env, d: Disk, log: Log, acked: nat) {
    var image := env.decode(RecoveredPages(d));
    && FileOk(env, d)
    && ImageOk(image, log)
    && LogMatches(Records(env, d), log, image.treeTs)
    && Durable(Records(env, d), d.synced, image.treeTs, acked)
  }

  ghost predicate ActiveFresh(rs: seq<Record>, store: Store, except: set<nat>) {
    && IdsBelow(rs, store.nextTxnId)
    && forall id | id in store.active && id !in except :: FreshId(rs, id)
  }

  /** A rewritten log may replace the old one. */
  ghost predicate NewLogOk(newLog: seq<Record>, store: Store, log: Log, treeTs: nat) {
    && AllEncodable(newLog)
    && LogMatches(newLog, log, treeTs) && Covers(newLog, log, treeTs)
    && ActiveFresh(newLog, store, {})
    && newLog != [] && (|newLog| == 1 ==> |log| <= treeTs)
  }

  ghost predicate HasImage(env: Env, pages: Pages, s: State) {
    env.decode(pages).tree == s.tree && env.decode(pages).treeTs == s.treeTs
  }

  ghost predicate Whole(env: Env, d: Disk) {
    Parse(d.wal, env.crc).valid == |d.wal|
  }

  /** The commits memory reflects: all but one still being logged. */
  function Published(s: State): Log {
    if s.phase.Logging? && s.log != [] then s.log[..|s.log| - 1] else s.log
  }

  ghost predicate MemoryOk(env: Env, s: State) {
    Whole(env, s.disk) && MemOk(s.store, s.tree, s.treeTs, Published(s))
  }

  ghost predicate SettledOk(env: Env, s: State, except: set<nat>) {
    && MemoryOk(env, s)
    && s.disk.journal == NoJournal && HasImage(env, s.disk.pages, s)
    && Covers(Records(env, s.disk), s.log, s.treeTs)
    && ActiveFresh(Records(env, s.disk), s.store, except)
  }

  ghost predicate PhaseOk(env: Env, s: State) {
    match s.phase
    case Running => SettledOk(env, s, {})
    case Opening => SettledOk(env, s, {})
    case Logging(id) =>
      && SettledOk(env, s, {id})
      && s.log != [] && id in s.store.active
      && s.log[|s.log| - 1] == History.Commit(s.store.active[id].snapshot, s.store.active[id].writes)
    case Journaling(dirty, newLog) =>
      && MemoryOk(env, s) && NewLogOk(newLog, s.store, s.log, s.treeTs)
      && s.disk.journal == NoJournal && HasImage(env, s.disk.pages + dirty, s)
      && DiskOk(env, s.disk.(journal := Complete(dirty)), s.log, s.acked)
    case Writing(dirty, newLog) =>
      && MemoryOk(env, s) && NewLogOk(newLog, s.store, s.log, s.treeTs)
      && s.disk.journal == Complete(dirty) && HasImage(env, s.disk.pages + dirty, s)
    case Clearing(dirty, newLog) =>
      && MemoryOk(env, s) && NewLogOk(newLog, s.store, s.log, s.treeTs)
      && s.disk.journal == Complete(dirty) && HasImage(env, s.disk.pages, s) && s.disk.pages + dirty == s.disk.pages
    case Resetting(newLog) =>
      && MemoryOk(env, s) && NewLogOk(newLog, s.store, s.log, s.treeTs)
      && s.disk.journal == NoJournal && HasImage(env, s.disk.pages, s)
    case Down => true
    case Replaying(dirty) => s.disk.journal == Complete(dirty)
    case Unjournaling => s.disk.journal.Complete? && s.disk.pages + s.disk.journal.pages == s.disk.pages
  }

  ghost predicate Inv(env: Env, s: State) {
    && ValidLog(s.log) && s.acked <= |s.log|
    && DiskOk(env, s.disk, s.log, s.acked)
    && PhaseOk(env, s)
  }

  // ---- the log file --------------------------------------------------------

  /** Appending encoded records to a whole log file appends them to the log. */
  lemma FileAppend(env: Env, d: Disk, more: seq<Record>)
    requires FileOk(env, d) && Whole(env, d) && AllEncodable(more)
    ensures var d' := d.(wal := d.wal + EncodeLog(more, env.crc));
            FileOk(env, d') && Whole(env, d') && Records(env, d') == Records(env, d) + more
  {
    hide Parse, EncodeLog, AllEncodable;
    var p := Parse(d.wal, env.crc);
    ParseResumes(d.wal, env.crc, more);
    assert d.wal[..p.valid] == d.wal;
    var d' := d.(wal := d.wal + EncodeLog(more, env.crc));
    EncodeLogAppend(p.records, more, env.crc);
    assert d'.wal[..|d'.wal|] == d'.wal;
    AllEncodableAppend(p.records, more);
  }

  lemma AllEncodableAppend(a: seq<Record>, b: seq<Record>)
    requires AllEncodable(a) && AllEncodable(b)
    ensures AllEncodable(a + b)
  {
    hide Encodable;
  }

  lemma {:induction false} EncodeLogAppend(a: seq<Record>, b: seq<Record>, crc: Checksum)
    ensures EncodeLog(a + b, crc) == EncodeLog(a, crc) + EncodeLog(b, crc)
  {
    hide Frame, Encode, LE;
    if a == [] {
      assert a + b == b;
    } else {
      EncodeLogAppend(a[1..], b, crc);
      assert (a + b)[1..] == a[1..] + b && (a + b)[0] == a[0];
      var f, x, y := Frame(a[0], crc), EncodeLog(a[1..], crc), EncodeLog(b, crc);
      assert EncodeLog(a + b, crc) == f + (x + y);
      assert EncodeLog(a, crc) == f + x;
      Associate(f, x, y);
    }
  }

  lemma Associate(a: Bytes, b: Bytes, c: Bytes)
    ensures a + (b + c) == (a + b) + c
  {
  }

  lemma FreshFile(env: Env, rs: seq<Record>, d: Disk)
    requires AllEncodable(rs)
    ensures var d' := d.(wal := EncodeLog(rs, env.crc), synced := |rs|);
            FileOk(env, d') && Whole(env, d') && Records(env, d') == rs
  {
    hide EncodeLog, Encodable;
    WholeLog(rs, env.crc);
    assert EncodeLog(rs, env.crc)[..|EncodeLog(rs, env.crc)|] == EncodeLog(rs, env.crc);
  }

  /** Cutting a whole log file keeps a prefix of its records, at least those
      known to be durable. */
  lemma FileCut(env: Env, rs: seq<Record>, synced: nat, n: nat, d': Disk)
    requires AllEncodable(rs) && synced <= |rs|
    requires d'.wal == CutAt(EncodeLog(rs, env.crc), n) && d'.synced == |Records(env, d')|
    ensures FileOk(env, d') && Records(env, d') <= rs
    ensures |EncodeLog(rs[..synced], env.crc)| <= n ==> synced <= |Records(env, d')|
  {
    hide EncodeLog, Parse, Encodable, WholeFrames;
    var b := EncodeLog(rs, env.crc);
    var m := if n <= |b| then n else |b|;
    assert b[..|b|] == b;
    assert d'.wal == b[..m];
    ParseCut(rs, env.crc, m);
    if |EncodeLog(rs[..synced], env.crc)| <= n {
      assert rs == rs[..synced] + rs[synced..];
      EncodeLogAppend(rs[..synced], rs[synced..], env.crc);
      CutKeepsPrefix(rs, env.crc, synced, m);
    }
  }

  // ---- transactions --------------------------------------------------------

  /** What memory answers is the history as of the reader's snapshot. */
  lemma ReadIsAsOf(store: Store, tree: map<Bytes, Bytes>, treeTs: nat, log: Log, snapshot: nat, k: Bytes)
    requires MemOk(store, tree, treeTs, log) && treeTs <= snapshot
    ensures OrTree(NewestAt(Chain(store.chains, k), snapshot), tree, k) == Get(AsOf(log, snapshot), k)
  {
    hide NewestAt, AsOf, ChainFor;
    assert Chain(store.chains, k) == ChainFor(log, treeTs, k);
    ChainRead(log, treeTs, snapshot, k);
  }

  /** A live transaction reads its snapshot overlaid with its own writes. */
  lemma TxnReadsSnapshot(store: Store, tree: map<Bytes, Bytes>, treeTs: nat, log: Log, s: State, id: nat, k: Bytes)
    requires MemOk(store, tree, treeTs, log) && s.store == store && s.tree == tree && id in store.active
    ensures ReadTxn(s, id, k) == Get(Overlay(AsOf(log, store.active[id].snapshot), store.active[id].writes), k)
  {
    hide NewestAt, AsOf, ChainFor, ChainsOk, ValidWrite;
    ReadIsAsOf(store, tree, treeTs, log, store.active[id].snapshot, k);
  }

  lemma {:induction false} StoredKeysValid(log: Log, k: Bytes)
    requires ValidLog(log) && k in Fold(log)
    ensures ValidKey(k)
  {
    hide FirstWins;
    var n := |log| - 1;
    if k !in log[n].writes { ValidLogPrefix(log, n); StoredKeysValid(log[..n], k); }
  }

  lemma ValidLogPrefix(log: Log, n: nat)
    requires ValidLog(log) && n <= |log|
    ensures ValidLog(log[..n])
  {
  }

  lemma BeginKeeps(env: Env, s: State, s': State, readOnly: bool)
    requires Inv(env, s) && BeginTxn(s, s', readOnly)
    ensures Inv(env, s')
  {
    hide DiskOk, ValidLog, ChainsOk, AsOf, Parse, ValidWrite;
    var rs := Records(env, s.disk);
    assert FreshId(rs, s.store.nextTxnId);
  }

  lemma StageKeeps(env: Env, s: State, s': State, id: nat, k: Bytes, w: Option<Bytes>)
    requires Inv(env, s) && StageWrite(s, s', id, k, w)
    ensures Inv(env, s')
  {
    hide DiskOk, ChainsOk, AsOf, Parse, ReadTxn;
    assert ValidWrite(k, w) by {
      if w.None? {
        TxnReadsSnapshot(s.store, s.tree, s.treeTs, s.log, s, id, k);
        DeleteValid(s.log, s.store.active[id], k);
      }
    }
    hide ValidWrite, ValidLog;
  }

  lemma DeleteValid(log: Log, txn: Txn, k: Bytes)
    requires ValidLog(log)
    requires forall x | x in txn.writes :: ValidWrite(x, txn.writes[x])
    requires Get(Overlay(AsOf(log, txn.snapshot), txn.writes), k).Some?
    ensures ValidKey(k)
  {
    hide FirstWins;
    if k !in txn.writes {
      ValidLogPrefix(log, |History.Upto(log, txn.snapshot)|);
      StoredKeysValid(History.Upto(log, txn.snapshot), k);
    }
  }

  lemma AbortKeeps(env: Env, s: State, s': State, id: nat)
    requires Inv(env, s) && AbortTxn(s, s', id)
    ensures Inv(env, s')
  {
    hide DiskOk, ValidLog, ChainsOk, AsOf, Parse, ValidWrite;
  }
}
