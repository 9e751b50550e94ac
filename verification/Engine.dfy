/** The durable engine as a state machine: transactions, commit logging,
    journaled checkpoints, log rewrites, crashes and recovery. A crash may
    interrupt any sub-step, recovery's own included. */
module Engine {
  import opened Bytes
  import opened Wrappers
  import opened History
  import opened VersionStore
  import opened Wal

  type Page = Bytes
  type Pages = map<nat, Page>

  /** What the pages of one complete flush hold: the tree, the timestamp it
      reflects, and the transaction-id counter. */
  datatype Image = Image(tree: map<Bytes, Bytes>, treeTs: nat, nextTxnId: nat)

  /** The environment the engine runs in: a checksum, the page format, and
      whether commits are synced. */
  datatype Env = Env(crc: Checksum, decode: Pages -> Image, syncOnCommit: bool)

  datatype Journal = NoJournal | Torn | Complete(pages: Pages)

  /** `synced` counts the log records known to be on stable storage. */
  datatype Disk = Disk(pages: Pages, journal: Journal, wal: Bytes, synced: nat)

  datatype Phase =
    | Running
    | Logging(id: nat)                              // commit records handed to the log
    | Journaling(dirty: Pages, newLog: seq<Record>)  // flush journal being written
    | Writing(dirty: Pages, newLog: seq<Record>)     // journal durable, pages going in place
    | Clearing(dirty: Pages, newLog: seq<Record>)    // pages durable, journal being cleared
    | Resetting(newLog: seq<Record>)                 // log being replaced by `newLog`
    | Opening                                       // log replayed, first checkpoint pending
    | Down                                          // crashed
    | Replaying(dirty: Pages)                       // recovery writing journaled pages in place
    | Unjournaling                                  // recovery clearing the journal

  /** `log` and `acked` observe the run: every commit handed to the log, and
      how many of them were acknowledged as durable. No step depends on them. */
  datatype State = State(
    disk: Disk,
    phase: Phase,
    store: Store,
    tree: map<Bytes, Bytes>,
    treeTs: nat,
    log: Log,
    acked: nat)

  // ---- reads ---------------------------------------------------------------

  function OrTree(read: Option<Option<Bytes>>, tree: map<Bytes, Bytes>, k: Bytes): Option<Bytes> {
    if read.Some? then read.value else Get(tree, k)
  }

  /** What an implicit snapshot reads. */
  function ReadLatest(s: State, k: Bytes): Option<Bytes> {
    OrTree(NewestAt(Chain(s.store.chains, k), CurrentTs(s.store)), s.tree, k)
  }

  /** What a live transaction reads: its own writes, its snapshot, the tree. */
  function ReadTxn(s: State, id: nat, k: Bytes): Option<Bytes>
    requires id in s.store.active
  {
    var txn := s.store.active[id];
    if k in txn.writes then txn.writes[k]
    else OrTree(NewestAt(Chain(s.store.chains, k), txn.snapshot), s.tree, k)
  }

  // ---- steps of a running engine -------------------------------------------

  predicate ValidKey(k: Bytes) { 0 < |k| <= 1024 }

  predicate ValidWrite(k: Bytes, w: Option<Bytes>) {
    ValidKey(k) && (w.Some? ==> |w.value| <= 10 * 1024 * 1024)
  }

  predicate BeginTxn(s: State, s': State, readOnly: bool) {
    s.phase == Running && s' == s.(store := AfterBegin(s.store, readOnly))
  }

  /** Inserts are validated; a delete is staged only for a key the transaction
      can see. */
  predicate StageWrite(s: State, s': State, id: nat, k: Bytes, w: Option<Bytes>) {
    && s.phase == Running
    && id in s.store.active && !s.store.active[id].readOnly
    && (if w.Some? then ValidWrite(k, w) else ReadTxn(s, id, k).Some?)
    && s' == s.(store := AfterStage(s.store, id, k, w))
  }

  /** Ends a transaction without publishing: an explicit rollback, a commit
      with nothing to write, or a commit that lost a write-write race. */
  ghost predicate AbortTxn(s: State, s': State, id: nat) {
    s.phase == Running && id in s.store.active && s' == s.(store := AfterRollback(s.store, id))
  }

  ghost predicate MayCommit(s: State, id: nat) {
    && id in s.store.active
    && !s.store.active[id].readOnly && s.store.active[id].writes != map[]
    && !Conflicts(s.store, id)
  }

  /** A write set in the key order the log receives it. */
  ghost predicate ListsInOrder(ops: seq<Op>, ws: Writes) {
    && (forall i | 0 <= i < |ops| :: ops[i].0 in ws && ops[i].1 == ws[ops[i].0])
    && (forall k | k in ws :: exists i :: 0 <= i < |ops| && ops[i].0 == k)
    && (forall i, j | 0 <= i < j < |ops| :: Less(ops[i].0, ops[j].0))
  }

  /** Appends a transaction's writes and its commit record; nothing is durable
      yet. Counters stay within 64 bits. */
  ghost predicate LogCommit(env: Env, s: State, s': State, id: nat, ops: seq<Op>) {
    && s.phase == Running && MayCommit(s, id)
    && id < U64_LIMIT && s.store.nextTs < U64_LIMIT
    && ListsInOrder(ops, s.store.active[id].writes)
    && var txn := s.store.active[id];
       s' == s.(phase := Logging(id),
                disk := s.disk.(wal := s.disk.wal + EncodeLog(CommitRecords(id, s.store.nextTs, ops), env.crc)),
                log := s.log + [History.Commit(txn.snapshot, txn.writes)])
  }

  /** The log is synced (or merely handed over) and the versions published. */
  predicate PublishCommit(env: Env, s: State, s': State) {
    && s.phase.Logging? && s.phase.id in s.store.active
    && s' == s.(phase := Running,
                disk := if env.syncOnCommit then AllSynced(env, s.disk) else s.disk,
                store := AfterCommit(s.store, s.phase.id),
                acked := if env.syncOnCommit then |s.log| else s.acked)
  }

  function AllSynced(env: Env, d: Disk): Disk {
    d.(synced := |Parse(d.wal, env.crc).records|)
  }

  /** An explicit flush makes everything logged so far durable. */
  predicate FlushLog(env: Env, s: State, s': State) {
    s.phase == Running && s' == s.(disk := AllSynced(env, s.disk), acked := |s.log|)
  }

  // ---- checkpoint ----------------------------------------------------------

  function RetainedRecords(r: seq<Retained>): seq<Record> {
    if r == [] then []
    else
      var last := r[|r| - 1];
      RetainedRecords(r[..|r| - 1]) + CommitRecords(last.txnId, last.ts, last.writes)
  }

  /** Merges versions at or below the watermark into the tree and stages a
      flush whose pages decode to the merged tree. `dirty` is empty exactly
      when there is nothing to flush. */
  ghost predicate StartCheckpoint(env: Env, s: State, s': State, w: nat, ks: seq<Bytes>, r: seq<Retained>, dirty: Pages) {
    && (s.phase == Running || s.phase == Opening)
    && IsWatermark(s.store, w)
    && s.store.nextTs <= U64_LIMIT && s.store.nextTxnId + |r| <= U64_LIMIT
    && var treeTs := Max(s.treeTs, w);
       var tree := Overlay(s.tree, MergedWrites(s.store.chains, w));
       var merged := s.store.(chains := MergedChains(s.store.chains, w));
       var newLog := [Checkpoint(treeTs)] + RetainedRecords(r);
       && IsRetained(merged, treeTs, ks, r)
       && env.decode(s.disk.pages + dirty) == Image(tree, treeTs, s.store.nextTxnId + |r|)
       && s' == s.(store := merged.(nextTxnId := s.store.nextTxnId + |r|), tree := tree, treeTs := treeTs,
                   phase := if dirty == map[] then Resetting(newLog) else Journaling(dirty, newLog))
  }

  /** The journal reached stable storage. */
  predicate SyncJournal(s: State, s': State) {
    && s.phase.Journaling?
    && s' == s.(phase := Writing(s.phase.dirty, s.phase.newLog), disk := s.disk.(journal := Complete(s.phase.dirty)))
  }

  /** Every page is in place and the file is synced. */
  predicate SyncPages(s: State, s': State) {
    && s.phase.Writing?
    && s' == s.(phase := Clearing(s.phase.dirty, s.phase.newLog), disk := s.disk.(pages := s.disk.pages + s.phase.dirty))
  }

  predicate ClearJournal(s: State, s': State) {
    s.phase.Clearing? && s' == s.(phase := Resetting(s.phase.newLog), disk := s.disk.(journal := NoJournal))
  }

  predicate FinishReset(env: Env, s: State, s': State) {
    && s.phase.Resetting?
    && s' == s.(phase := Running,
                disk := s.disk.(wal := EncodeLog(s.phase.newLog, env.crc), synced := |s.phase.newLog|))
  }

  // ---- crash ---------------------------------------------------------------

  /** Page files equal outside `ids`. */
  ghost predicate AgreeOff(p: Pages, q: Pages, ids: set<nat>) {
    forall id | id !in ids :: (id in p <==> id in q) && (id in p ==> p[id] == q[id])
  }

  /** Pages an in-place write may have reached, torn or not. */
  function InFlight(s: State): set<nat> {
    match s.phase
    case Writing(dirty, _) => dirty.Keys
    case Replaying(dirty) => dirty.Keys
    case _ => {}
  }

  ghost predicate JournalAfterCrash(s: State, j: Journal) {
    match s.phase
    case Journaling(dirty, _) => j == NoJournal || j == Torn || j == Complete(dirty)
    case Clearing(_, _) => j == s.disk.journal || j == Torn || j == NoJournal
    case Unjournaling => j == s.disk.journal || j == Torn || j == NoJournal
    case _ => j == s.disk.journal
  }

  function CutAt(b: Bytes, n: nat): Bytes {
    if n <= |b| then b[..n] else b
  }

  /** The log loses any tail that was not synced, cut at any byte. A rewrite
      that retains nothing truncates in place; otherwise it is renamed over
      the old log, which a crash may undo but not tear. */
  ghost predicate LogAfterCrash(env: Env, s: State, wal: Bytes) {
    var durable := |EncodeLog(FirstN(Parse(s.disk.wal, env.crc).records, s.disk.synced), env.crc)|;
    match s.phase
    case Down => wal == s.disk.wal
    case Replaying(_) => wal == s.disk.wal
    case Unjournaling => wal == s.disk.wal
    case Resetting(newLog) =>
      if |newLog| == 1 then exists n: nat :: wal == CutAt(s.disk.wal, n) || wal == CutAt(EncodeLog(newLog, env.crc), n)
      else wal == EncodeLog(newLog, env.crc) || exists n: nat :: durable <= n && wal == CutAt(s.disk.wal, n)
    case _ => exists n: nat :: durable <= n && wal == CutAt(s.disk.wal, n)
  }

  function FirstN<T>(s: seq<T>, n: nat): seq<T> {
    if n <= |s| then s[..n] else s
  }

  ghost predicate Crash(env: Env, s: State, s': State) {
    && s'.phase == Down && s'.log == s.log && s'.acked == s.acked
    && AgreeOff(s.disk.pages, s'.disk.pages, InFlight(s))
    && JournalAfterCrash(s, s'.disk.journal)
    && LogAfterCrash(env, s, s'.disk.wal)
    && s'.disk.synced == |Parse(s'.disk.wal, env.crc).records|
  }

  // ---- recovery ------------------------------------------------------------

  /** Opening finds a complete journal and starts writing it in place. */
  predicate StartReplay(s: State, s': State) {
    && s.phase == Down && s.disk.journal.Complete?
    && s' == s.(phase := Replaying(s.disk.journal.pages))
  }

  predicate SyncReplay(s: State, s': State) {
    s.phase.Replaying? && s' == s.(phase := Unjournaling, disk := s.disk.(pages := s.disk.pages + s.phase.dirty))
  }

  /** The journal is consumed, or was incomplete and is discarded. */
  predicate DiscardJournal(s: State, s': State) {
    && (s.phase == Unjournaling || (s.phase == Down && !s.disk.journal.Complete?))
    && s' == s.(phase := Down, disk := s.disk.(journal := NoJournal))
  }

  function ReplayTxn(store: Store, ts: nat, ops: seq<Op>): Store {
    if ops == [] then store
    else
      var last := ops[|ops| - 1];
      AfterRecovered(ReplayTxn(store, ts, ops[..|ops| - 1]), ts, last.0, last.1)
  }

  /** Replays every recovered transaction the tree does not hold yet. */
  function Replay(store: Store, committed: seq<(nat, seq<Op>)>, treeTs: nat): Store {
    if committed == [] then store
    else
      var last := committed[|committed| - 1];
      var before := Replay(store, committed[..|committed| - 1], treeTs);
      if last.0 <= treeTs then before else ReplayTxn(before, last.0, last.1)
  }

  /** Rebuilds memory from the page file and the log, and cuts the torn tail
      off the log. The recovered history is whatever the counters say. */
  ghost predicate RecoverLog(env: Env, s: State, s': State, order: seq<nat>) {
    && s.phase == Down && s.disk.journal == NoJournal
    && var image := env.decode(s.disk.pages);
       var p := Parse(s.disk.wal, env.crc);
       && RedoOrder(p.records, order)
       && var committed := Redo(p.records, order);
          var empty := Store(map[], Max(image.treeTs + 1, 1), Max(Max(image.nextTxnId, 1), MaxTxnId(p.records) + 1), map[]);
          var store := Replay(empty, committed, image.treeTs);
          var replayed := exists i :: 0 <= i < |committed| && committed[i].0 > image.treeTs;
          s' == State(s.disk.(wal := s.disk.wal[..p.valid], synced := |p.records|),
                      if replayed then Opening else Running,
                      store, image.tree, image.treeTs,
                      History.Upto(s.log, CurrentTs(store)), s.acked)
  }

  // ---- runs ----------------------------------------------------------------

  datatype Event =
    | Begins(readOnly: bool)
    | Stages(id: nat, key: Bytes, write: Option<Bytes>)
    | Aborts(id: nat)
    | LogsCommit(id: nat, ops: seq<Op>)
    | Publishes
    | Flushes
    | StartsCheckpoint(watermark: nat, ks: seq<Bytes>, r: seq<Retained>, dirty: Pages)
    | SyncsJournal | SyncsPages | ClearsJournal | FinishesReset
    | Crashes
    | StartsReplay | SyncsReplay | DiscardsJournal
    | Recovers(order: seq<nat>)

  ghost predicate Step(env: Env, s: State, e: Event, s': State) {
    match e
    case Begins(ro) => BeginTxn(s, s', ro)
    case Stages(id, k, w) => StageWrite(s, s', id, k, w)
    case Aborts(id) => AbortTxn(s, s', id)
    case LogsCommit(id, ops) => LogCommit(env, s, s', id, ops)
    case Publishes => PublishCommit(env, s, s')
    case Flushes => FlushLog(env, s, s')
    case StartsCheckpoint(w, ks, r, dirty) => StartCheckpoint(env, s, s', w, ks, r, dirty)
    case SyncsJournal => SyncJournal(s, s')
    case SyncsPages => SyncPages(s, s')
    case ClearsJournal => ClearJournal(s, s')
    case FinishesReset => FinishReset(env, s, s')
    case Crashes => Crash(env, s, s')
    case StartsReplay => StartReplay(s, s')
    case SyncsReplay => SyncReplay(s, s')
    case DiscardsJournal => DiscardJournal(s, s')
    case Recovers(order) => RecoverLog(env, s, s', order)
  }

  /** A freshly initialised database file and an empty log. */
  ghost predicate Init(env: Env, s: State) {
    && env.decode(s.disk.pages).tree == map[] && env.decode(s.disk.pages).treeTs == 0
    && s.disk.journal == NoJournal && s.disk.wal == [] && s.disk.synced == 0
    && s.phase == Down && s.log == [] && s.acked == 0
  }

  ghost predicate IsRun(env: Env, states: seq<State>, events: seq<Event>) {
    && |states| == |events| + 1
    && Init(env, states[0])
    && forall i | 0 <= i < |events| :: Step(env, states[i], events[i], states[i + 1])
  }
}
