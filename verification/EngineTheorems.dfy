/** What every run of the engine guarantees. */
module EngineTheorems {
  import opened Bytes
  import opened Wrappers
  import opened History
  import opened VersionStore
  import opened Wal
  import opened Engine
  import opened EngineInvariant
  import opened EngineRecovery
  import opened EngineSafety
  import opened EngineSteps
  import opened EngineCrash

  // ---- recovery ------------------------------------------------------------

  /** The store recovery starts replaying into. */
  function EmptyStore(image: Image, rs: seq<Record>): Store {
    Store(map[], Max(image.treeTs + 1, 1), Max(Max(image.nextTxnId, 1), MaxTxnId(rs) + 1), map[])
  }

  /** Memory rebuilt from disk is the state after a prefix of the history. */
  lemma RecoveredMemory(env: Env, s: State, s': State, order: seq<nat>)
    requires Inv(env, s) && RecoverLog(env, s, s', order)
    ensures var m := CurrentTs(s'.store);
            && s.acked <= m <= |s.log| && s'.log == s.log[..m]
            && s'.store.active == map[]
            && MemOk(s'.store, s'.tree, s'.treeTs, s'.log)
  {
    hide LogMatches, ValidLog, Parse, FileOk, Durable, RedoOrder, Replay, Redo, ChainsOk, Fold;
    var image, rs := env.decode(s.disk.pages), Records(env, s.disk);
    var empty := EmptyStore(image, rs);
    assert Redo(rs, order)[..|order|] == Redo(rs, order) by { RedoLength(rs, order); }
    ReplayRebuilds(rs, s.log, image.treeTs, order, empty, |order|);
    RecoveredCount(rs, s.log, image.treeTs, order, s.disk.synced, s.acked);
    var m := Reached(rs, order, image.treeTs, |order|);
    UptoUpto(s.log, m, image.treeTs);
  }

  lemma RedoLength(rs: seq<Record>, order: seq<nat>)
    ensures |Redo(rs, order)| == |order|
  {
    hide TsOf, OpsOf;
  }

  lemma RecoverKeeps(env: Env, s: State, s': State, order: seq<nat>)
    requires Inv(env, s) && RecoverLog(env, s, s', order)
    ensures Inv(env, s')
  {
    hide LogMatches, ValidLog, Parse, Durable, RedoOrder, Replay, Redo, MemOk, Fold, AllEncodable, EncodeLog;
    var image, rs := env.decode(s.disk.pages), Records(env, s.disk);
    RecoveredMemory(env, s, s', order);
    RecoveredIds(env, s, s', order);
    RecoveredCount(rs, s.log, image.treeTs, order, s.disk.synced, s.acked);
    RecoveredReach(env, s, s', order);
    FreshFile(env, rs, s.disk);
    ValidLogPrefix(s.log, |s'.log|);
    LoggedWithin(rs, s.log, image.treeTs, |s'.log|);
    MatchesOther(rs, s.log, s'.log, image.treeTs);
    UptoUpto(s.log, |s'.log|, image.treeTs);
    DurablePrefix(rs, rs, s.disk.synced, image.treeTs, s.acked);
  }

  lemma RecoveredReach(env: Env, s: State, s': State, order: seq<nat>)
    requires Inv(env, s) && RecoverLog(env, s, s', order)
    ensures var image, rs := env.decode(s.disk.pages), Records(env, s.disk);
            && CurrentTs(s'.store) == Reached(rs, order, image.treeTs, |order|)
            && image.treeTs <= CurrentTs(s'.store)
  {
    hide LogMatches, ValidLog, Parse, FileOk, Durable, RedoOrder, Replay, Redo, ChainsOk, Fold;
    var image, rs := env.decode(s.disk.pages), Records(env, s.disk);
    assert Redo(rs, order)[..|order|] == Redo(rs, order) by { RedoLength(rs, order); }
    ReplayRebuilds(rs, s.log, image.treeTs, order, EmptyStore(image, rs), |order|);
  }

  lemma RecoveredIds(env: Env, s: State, s': State, order: seq<nat>)
    requires Inv(env, s) && RecoverLog(env, s, s', order)
    ensures IdsBelow(Records(env, s.disk), s'.store.nextTxnId)
  {
    hide LogMatches, ValidLog, Parse, FileOk, Durable, RedoOrder, Replay, Redo, ChainsOk, Fold;
    var image, rs := env.decode(s.disk.pages), Records(env, s.disk);
    assert Redo(rs, order)[..|order|] == Redo(rs, order) by { RedoLength(rs, order); }
    ReplayRebuilds(rs, s.log, image.treeTs, order, EmptyStore(image, rs), |order|);
  }

  lemma LoggedWithin(rs: seq<Record>, log: Log, treeTs: nat, m: nat)
    requires LogMatches(rs, log, treeTs) && m <= |log|
    requires forall i | 0 <= i < |rs| && rs[i].Commit? :: rs[i].ts <= m
    ensures forall i | 0 <= i < |rs| && rs[i].Commit? ::
              1 <= rs[i].ts <= |log| && rs[i].ts <= |log[..m]| && log[..m][rs[i].ts - 1] == log[rs[i].ts - 1]
  {
    hide Lists, OpsOf;
    forall i | 0 <= i < |rs| && rs[i].Commit? ensures 1 <= rs[i].ts <= |log| { assert CommitOk(rs, i, log); }
  }

  // ---- the invariant over runs ---------------------------------------------

  lemma InitHolds(env: Env, s: State)
    requires Init(env, s)
    ensures Inv(env, s)
  {
  }

  lemma StepKeeps(env: Env, s: State, e: Event, s': State)
    requires Inv(env, s) && Step(env, s, e, s')
    ensures Inv(env, s')
  {
    hide Inv, BeginTxn, StageWrite, AbortTxn, LogCommit, PublishCommit, FlushLog, StartCheckpoint, Crash, RecoverLog;
    hide SyncJournal, SyncPages, ClearJournal, FinishReset, StartReplay, SyncReplay, DiscardJournal;
    match e
    case Begins(ro) => BeginKeeps(env, s, s', ro);
    case Stages(id, k, w) => StageKeeps(env, s, s', id, k, w);
    case Aborts(id) => AbortKeeps(env, s, s', id);
    case LogsCommit(id, ops) => LogCommitKeeps(env, s, s', id, ops);
    case Publishes => PublishKeeps(env, s, s');
    case Flushes => FlushKeeps(env, s, s');
    case StartsCheckpoint(w, ks, r, dirty) => StartCheckpointKeeps(env, s, s', w, ks, r, dirty);
    case SyncsJournal => SyncJournalKeeps(env, s, s');
    case SyncsPages => SyncPagesKeeps(env, s, s');
    case ClearsJournal => ClearJournalKeeps(env, s, s');
    case FinishesReset => FinishResetKeeps(env, s, s');
    case Crashes => CrashKeeps(env, s, s');
    case StartsReplay => StartReplayKeeps(env, s, s');
    case SyncsReplay => SyncReplayKeeps(env, s, s');
    case DiscardsJournal => DiscardJournalKeeps(env, s, s');
    case Recovers(order) => RecoverKeeps(env, s, s', order);
  }

  lemma {:induction false} InvAlways(env: Env, states: seq<State>, events: seq<Event>, i: nat)
    requires IsRun(env, states, events) && i < |states|
    ensures Inv(env, states[i])
  {
    hide Inv, Init, Step;
    if i == 0 {
      InitHolds(env, states[0]);
    } else {
      InvAlways(env, states, events, i - 1);
      StepKeeps(env, states[i - 1], events[i - 1], states[i]);
    }
  }

  // ---- crash safety --------------------------------------------------------

  /** After any run, with crashes at any sub-step of commit, flush, log rewrite
      or recovery itself, reopening yields exactly the fold of a prefix of the
      commit sequence, and the prefix contains every acknowledged commit. */
  lemma CrashSafety(env: Env, states: seq<State>, events: seq<Event>, i: nat) returns (n: nat)
    requires IsRun(env, states, events) && i < |events| && events[i].Recovers?
    ensures states[i].acked <= n <= |states[i].log|
    ensures forall k :: ReadLatest(states[i + 1], k) == Get(Fold(states[i].log[..n]), k)
  {
    hide Inv, Init, MemOk, Fold, NewestAt;
    InvAlways(env, states, events, i);
    var s, s', order := states[i], states[i + 1], events[i].order;
    assert Step(env, s, events[i], s');
    RecoveredMemory(env, s, s', order);
    n := CurrentTs(s'.store);
    forall k ensures ReadLatest(s', k) == Get(Fold(s.log[..n]), k) { LatestIsFold(s', k); }
  }

  lemma LatestIsFold(s: State, k: Bytes)
    requires MemOk(s.store, s.tree, s.treeTs, s.log)
    ensures ReadLatest(s, k) == Get(Fold(s.log), k)
  {
    ReadIsAsOf(s.store, s.tree, s.treeTs, s.log, CurrentTs(s.store), k);
    assert History.Upto(s.log, |s.log|) == s.log;
  }

  /** A commit acknowledged under `sync_on_commit` is counted as such. */
  lemma SyncedCommitIsAcknowledged(env: Env, s: State, s': State)
    requires Inv(env, s) && PublishCommit(env, s, s') && env.syncOnCommit
    ensures s'.acked == |s'.log| == CurrentTs(s'.store)
  {
    hide DiskOk, ChainsOk, AsOf, ValidLog, Parse;
  }

  /** Recovery is never stuck: some replay order always exists. */
  lemma RecoveryEnabled(env: Env, s: State) returns (s': State, order: seq<nat>)
    requires Inv(env, s) && s.phase == Down && s.disk.journal == NoJournal
    ensures RecoverLog(env, s, s', order)
  {
    hide Inv, Parse, MaxTxnId;
    var image, p := env.decode(s.disk.pages), Parse(s.disk.wal, env.crc);
    order := RedoOrderExists(p.records);
    hide RedoOrder;
    var committed := Redo(p.records, order);
    var store := Replay(EmptyStore(image, p.records), committed, image.treeTs);
    var replayed := exists i :: 0 <= i < |committed| && committed[i].0 > image.treeTs;
    s' := State(s.disk.(wal := s.disk.wal[..p.valid], synced := |p.records|),
                if replayed then Opening else Running,
                store, image.tree, image.treeTs, History.Upto(s.log, CurrentTs(store)), s.acked);
  }

  predicate Recovering(s: State) {
    s.phase.Down? || s.phase.Replaying? || s.phase.Unjournaling?
  }

  /** How many steps recovery still takes. */
  function Distance(s: State): nat {
    if s.phase.Replaying? then 3 else if s.phase.Unjournaling? then 2
    else if s.disk.journal.Complete? then 4 else if s.disk.journal == Torn then 2 else 1
  }

  /** A path of steps, none of them a crash. */
  ghost predicate IsPath(env: Env, states: seq<State>, events: seq<Event>) {
    && |states| == |events| + 1
    && forall i | 0 <= i < |events| :: !events[i].Crashes? && Step(env, states[i], events[i], states[i + 1])
  }

  lemma PathCons(env: Env, s: State, e: Event, states: seq<State>, events: seq<Event>)
    requires IsPath(env, states, events) && !e.Crashes? && Step(env, s, e, states[0])
    ensures IsPath(env, [s] + states, [e] + events)
  {
    hide Step;
    var ss, es := [s] + states, [e] + events;
    forall i | 0 <= i < |es| ensures !es[i].Crashes? && Step(env, ss[i], es[i], ss[i + 1]) {
      if i > 0 { assert es[i] == events[i - 1] && ss[i] == states[i - 1] && ss[i + 1] == states[i]; }
    }
  }

  /** From every crashed state, with any journal and at any point of a replay, at most
      four more steps open the engine. */
  lemma RecoveryCompletes(env: Env, s: State) returns (states: seq<State>, events: seq<Event>)
    requires Inv(env, s) && Recovering(s)
    ensures IsPath(env, states, events) && |events| == Distance(s) <= 4 && states[0] == s
    ensures var end := states[|events|];
            (end.phase == Running || end.phase == Opening) && Inv(env, end)
    decreases Distance(s)
  {
    hide Inv, RecoverLog, Parse;
    var e, next;
    if s.phase.Replaying? {
      e, next := SyncsReplay, s.(phase := Unjournaling, disk := s.disk.(pages := s.disk.pages + s.phase.dirty));
      SyncReplayKeeps(env, s, next);
    } else if s.phase.Unjournaling? || !(s.disk.journal.Complete? || s.disk.journal == NoJournal) {
      e, next := DiscardsJournal, s.(phase := Down, disk := s.disk.(journal := NoJournal));
      DiscardJournalKeeps(env, s, next);
    } else if s.disk.journal.Complete? {
      e, next := StartsReplay, s.(phase := Replaying(s.disk.journal.pages));
      StartReplayKeeps(env, s, next);
    } else {
      var order;
      next, order := RecoveryEnabled(env, s);
      RecoverKeeps(env, s, next, order);
      RecoveredPhase(env, s, next, order);
      states, events := [s, next], [Recovers(order)];
      return;
    }
    states, events := RecoveryCompletes(env, next);
    PathCons(env, s, e, states, events);
    states, events := [s] + states, [e] + events;
  }

  lemma RecoveredPhase(env: Env, s: State, s': State, order: seq<nat>)
    requires RecoverLog(env, s, s', order)
    ensures s'.phase == Running || s'.phase == Opening
  {
    hide Parse, Redo, Replay, RedoOrder;
  }

  lemma RedoOrderExists(rs: seq<Record>) returns (order: seq<nat>)
    ensures RedoOrder(rs, order)
  {
    hide CommitTs, OpsOf, RolledBack, TsOf;
    var rest := set id | id in CommitTs(rs) && Redoes(rs, id);
    order := [];
    while rest != {}
      invariant forall id :: id in order + [] || id in rest <==> Redoes(rs, id)
      invariant forall id | id in rest :: id !in order
      invariant ByTs(rs, order)
      invariant forall i, id | 0 <= i < |order| && id in rest :: TsOf(rs, order[i]) <= TsOf(rs, id)
      decreases |rest|
    {
      var id := EarliestTxn(rs, rest);
      order := order + [id];
      rest := rest - {id};
    }
  }

  lemma {:induction false} EarliestTxn(rs: seq<Record>, ids: set<nat>) returns (id: nat)
    requires ids != {}
    ensures id in ids && forall x | x in ids :: TsOf(rs, id) <= TsOf(rs, x)
    decreases |ids|
  {
    hide TsOf;
    id :| id in ids;
    if ids != {id} {
      var other := EarliestTxn(rs, ids - {id});
      if TsOf(rs, other) < TsOf(rs, id) { id := other; }
    }
  }

  // ---- snapshot isolation --------------------------------------------------

  predicate InMemory(s: State) {
    !s.phase.Down? && !s.phase.Replaying? && !s.phase.Unjournaling?
  }

  lemma MemoryHolds(env: Env, s: State)
    requires Inv(env, s) && InMemory(s)
    ensures MemOk(s.store, s.tree, s.treeTs, Published(s)) && Published(s) <= s.log
  {
    hide MemOk, DiskOk, NewLogOk, ActiveFresh, Covers, Parse;
  }

  /** In every reachable state, a live transaction reads the history as of its
      snapshot, overlaid with its own writes. */
  lemma SnapshotReads(env: Env, states: seq<State>, events: seq<Event>, i: nat, id: nat, k: Bytes)
    requires IsRun(env, states, events) && i < |states|
    requires InMemory(states[i]) && id in states[i].store.active
    ensures var s, txn := states[i], states[i].store.active[id];
            && txn.snapshot <= |s.log|
            && ReadTxn(s, id, k) == Get(Overlay(AsOf(s.log, txn.snapshot), txn.writes), k)
  {
    hide Inv, Step, ReadTxn, Overlay, Fold, ChainsOk, ValidWrite;
    var s := states[i];
    InvAlways(env, states, events, i);
    MemoryHolds(env, s);
    TxnReadsSnapshot(s.store, s.tree, s.treeTs, Published(s), s, id, k);
    UptoUpto(s.log, |Published(s)|, s.store.active[id].snapshot);
  }

  /** One step of a running engine extends the history and leaves every
      surviving transaction's snapshot alone. */
  lemma StepExtends(env: Env, s: State, e: Event, s': State, id: nat)
    requires Step(env, s, e, s') && InMemory(s) && InMemory(s')
    requires id in s.store.active && id in s'.store.active && id < s.store.nextTxnId
    ensures s.log <= s'.log && s'.store.active[id].snapshot == s.store.active[id].snapshot
  {
    hide IsRetained, IsWatermark, Overlay, MergedWrites, MergedChains, Parse, EncodeLog, ListsInOrder, Conflicts, VersionStore.Publish, ReadTxn;
  }

  /** Later commits, rollbacks and checkpoints never change what a live
      transaction reads from its snapshot. */
  lemma {:induction false} SnapshotNeverMoves(env: Env, states: seq<State>, events: seq<Event>, i: nat, j: nat, id: nat)
    requires IsRun(env, states, events) && i <= j < |states|
    requires forall m | i <= m <= j :: InMemory(states[m]) && id in states[m].store.active
    ensures states[i].log <= states[j].log
    ensures states[j].store.active[id].snapshot == states[i].store.active[id].snapshot
    ensures AsOf(states[j].log, states[j].store.active[id].snapshot) == AsOf(states[i].log, states[i].store.active[id].snapshot)
  {
    hide Inv, Step, Fold, MemOk;
    InvAlways(env, states, events, i);
    MemoryHolds(env, states[i]);
    ActiveWithin(states[i], id);
    if i < j {
      SnapshotNeverMoves(env, states, events, i, j - 1, id);
      InvAlways(env, states, events, j - 1);
      MemoryHolds(env, states[j - 1]);
      ActiveWithin(states[j - 1], id);
      StepExtends(env, states[j - 1], events[j - 1], states[j], id);
      assert states[j].log[..|states[i].log|] == states[i].log;
      UptoUpto(states[j].log, |states[i].log|, states[i].store.active[id].snapshot);
    }
  }

  lemma ActiveWithin(s: State, id: nat)
    requires MemOk(s.store, s.tree, s.treeTs, Published(s)) && Published(s) <= s.log && id in s.store.active
    ensures id < s.store.nextTxnId && s.store.active[id].snapshot <= |s.log|
  {
    hide ChainsOk, AsOf;
  }

  // ---- first committer wins ------------------------------------------------

  /** In every reachable history, if a commit wrote a key, no other commit
      between its snapshot and itself wrote that key. */
  lemma FirstCommitterWins(env: Env, states: seq<State>, events: seq<Event>, i: nat)
    requires IsRun(env, states, events) && i < |states|
    ensures FirstWins(states[i].log)
  {
    InvAlways(env, states, events, i);
  }

  /** And a transaction is refused only for that reason: it may commit iff it
      has something to write and nobody committed one of its keys since. */
  lemma CommitRefusedIffOvertaken(env: Env, states: seq<State>, events: seq<Event>, i: nat, id: nat)
    requires IsRun(env, states, events) && i < |states|
    requires states[i].phase == Running && id in states[i].store.active
    ensures var s, txn := states[i], states[i].store.active[id];
            MayCommit(s, id) <==>
              && !txn.readOnly && txn.writes != map[]
              && !exists j, k :: txn.snapshot <= j < |s.log| && k in s.log[j].writes && k in txn.writes
  {
    hide Inv, Step, MemOk, Conflicts;
    InvAlways(env, states, events, i);
    MemoryHolds(env, states[i]);
    var s := states[i];
    ConflictExact(s.store, s.tree, s.treeTs, s.log, id);
  }
}
