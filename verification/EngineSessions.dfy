/** What a transaction sees from its begin to its end, told by the events of the run. */
module EngineSessions {
  import opened Bytes
  import opened Wrappers
  import opened History
  import opened VersionStore
  import opened Wal
  import opened Engine
  import opened EngineInvariant
  import opened EngineSafety
  import opened EngineSteps
  import opened EngineTheorems

  // ---- reads in terms of the history --------------------------------------------

  lemma ReadsHistory(env: Env, s: State, id: nat, k: Bytes)
    requires Inv(env, s) && InMemory(s) && id in s.store.active
    ensures var txn := s.store.active[id];
            && id < s.store.nextTxnId && txn.snapshot <= |s.log|
            && ReadTxn(s, id, k) == if k in txn.writes then txn.writes[k] else Get(AsOf(s.log, txn.snapshot), k)
  {
    hide Inv, ReadTxn, Fold, ChainsOk, ValidWrite;
    MemoryHolds(env, s);
    TxnReadsSnapshot(s.store, s.tree, s.treeTs, Published(s), s, id, k);
    UptoUpto(s.log, |Published(s)|, s.store.active[id].snapshot);
  }

  lemma LatestIsPublished(env: Env, s: State, k: Bytes)
    requires Inv(env, s) && InMemory(s)
    ensures ReadLatest(s, k) == Get(Fold(Published(s)), k) && CurrentTs(s.store) == |Published(s)|
  {
    hide Inv, Fold, ChainsOk, ActiveOk;
    MemoryHolds(env, s);
    ReadIsAsOf(s.store, s.tree, s.treeTs, Published(s), CurrentTs(s.store), k);
    assert History.Upto(Published(s), |Published(s)|) == Published(s);
  }

  // ---- one step -------------------------------------------------------------------

  /** Everyone but `id` reads what they read before. */
  ghost predicate OthersRead(s: State, s': State, id: nat) {
    forall j | j in s.store.active && j != id :: j in s'.store.active && forall k :: ReadTxn(s', j, k) == ReadTxn(s, j, k)
  }

  /** What is committed reads the same. */
  ghost predicate SameLatest(s: State, s': State) {
    forall k :: ReadLatest(s', k) == ReadLatest(s, k)
  }

  predicate Writes(e: Event, id: nat, k: Bytes) {
    e.Stages? && e.id == id && e.key == k
  }

  /** A transaction that survives a step keeps snapshot and mode, and its write set but for
      a write it stages. */
  lemma StepKeepsTxn(env: Env, s: State, e: Event, s': State, j: nat)
    requires Step(env, s, e, s') && InMemory(s) && InMemory(s')
    requires j in s.store.active && j in s'.store.active && j < s.store.nextTxnId
    ensures var t, t' := s.store.active[j], s'.store.active[j];
            && s.log <= s'.log && t'.snapshot == t.snapshot && t'.readOnly == t.readOnly
            && (forall k :: !Writes(e, j, k) ==> (k in t'.writes <==> k in t.writes) && (k in t.writes ==> t'.writes[k] == t.writes[k]))
            && (e.Stages? && e.id == j ==> e.key in t'.writes && t'.writes[e.key] == e.write)
  {
    hide IsRetained, IsWatermark, Overlay, MergedWrites, MergedChains, Parse, EncodeLog, ListsInOrder, Conflicts, VersionStore.Publish, ReadTxn;
  }

  /** What a step does to a surviving transaction's reads: a staged key reads as staged,
      every other key as before. */
  lemma StepReads(env: Env, s: State, e: Event, s': State, j: nat, k: Bytes)
    requires Inv(env, s) && Step(env, s, e, s') && InMemory(s) && InMemory(s')
    requires j in s.store.active && j in s'.store.active
    ensures ReadTxn(s', j, k) == if Writes(e, j, k) then e.write else ReadTxn(s, j, k)
  {
    hide Inv, Step, ReadTxn, Fold;
    StepKeeps(env, s, e, s');
    ReadsHistory(env, s, j, k);
    ReadsHistory(env, s', j, k);
    StepKeepsTxn(env, s, e, s', j);
    UptoUpto(s'.log, |s.log|, s.store.active[j].snapshot);
    assert s'.log[..|s.log|] == s.log;
  }

  /** Only publishing a commit changes what is committed. */
  lemma StepKeepsLatest(env: Env, s: State, e: Event, s': State)
    requires Inv(env, s) && Step(env, s, e, s') && InMemory(s) && InMemory(s') && !e.Publishes?
    ensures SameLatest(s, s')
  {
    hide Inv, Step, ReadLatest, Fold;
    StepKeeps(env, s, e, s');
    PublishedSame(env, s, e, s');
    forall k ensures ReadLatest(s', k) == ReadLatest(s, k) {
      LatestIsPublished(env, s, k);
      LatestIsPublished(env, s', k);
    }
  }

  lemma PublishedSame(env: Env, s: State, e: Event, s': State)
    requires Step(env, s, e, s') && InMemory(s) && InMemory(s') && !e.Publishes?
    ensures Published(s') == Published(s)
  {
    hide IsRetained, IsWatermark, Overlay, MergedWrites, MergedChains, Parse, EncodeLog, ListsInOrder, Conflicts, VersionStore.Publish, ReadTxn;
  }

  lemma OthersReadOn(env: Env, s: State, e: Event, s': State, id: nat)
    requires Inv(env, s) && Step(env, s, e, s') && InMemory(s) && InMemory(s') && (e.Stages? ==> e.id == id)
    requires forall j | j in s.store.active && j != id :: j in s'.store.active
    ensures OthersRead(s, s', id)
  {
    hide Inv, Step, ReadTxn;
    forall j, k | j in s.store.active && j != id ensures ReadTxn(s', j, k) == ReadTxn(s, j, k) { StepReads(env, s, e, s', j, k); }
  }

  /** A new transaction sees everything published before it, and nothing of its own. */
  lemma BeginSees(env: Env, s: State, ro: bool, s': State)
    requires Inv(env, s) && Step(env, s, Begins(ro), s')
    ensures var id := s.store.nextTxnId;
            && id !in s.store.active && s'.store.active.Keys == s.store.active.Keys + {id}
            && s'.store.active[id].readOnly == ro && s'.store.active[id].writes == map[]
            && (forall k :: ReadTxn(s', id, k) == Get(Fold(Published(s)), k) == ReadLatest(s, k))
            && OthersRead(s, s', id) && SameLatest(s, s')
  {
    var id := s.store.nextTxnId;
    BeginFacts(env, s, ro, s');
    hide Inv, Step, ReadTxn, ReadLatest, Fold;
    forall k ensures ReadTxn(s', id, k) == Get(Fold(Published(s)), k) == ReadLatest(s, k) { BeginReads(env, s, ro, s', k); }
    hide Published, Get, InMemory;
    OthersReadOn(env, s, Begins(ro), s', id);
    StepKeepsLatest(env, s, Begins(ro), s');
  }

  lemma BeginReads(env: Env, s: State, ro: bool, s': State, k: Bytes)
    requires Inv(env, s) && Step(env, s, Begins(ro), s') && s.store.nextTxnId in s'.store.active
    ensures ReadTxn(s', s.store.nextTxnId, k) == Get(Fold(Published(s)), k) == ReadLatest(s, k)
  {
    hide Inv, Step, ReadTxn, ReadLatest, Fold;
    BeginFacts(env, s, ro, s');
    StepKeeps(env, s, Begins(ro), s');
    LatestIsPublished(env, s, k);
    ReadsHistory(env, s', s.store.nextTxnId, k);
    assert History.Upto(s.log, |Published(s)|) == Published(s);
  }

  lemma BeginFacts(env: Env, s: State, ro: bool, s': State)
    requires Inv(env, s) && Step(env, s, Begins(ro), s')
    ensures var id := s.store.nextTxnId;
            && InMemory(s) && InMemory(s') && s'.log == s.log && Published(s) <= s.log
            && id !in s.store.active && s'.store.active.Keys == s.store.active.Keys + {id}
            && s'.store.active[id] == Txn(CurrentTs(s.store), map[], ro)
  {
    MemoryHolds(env, s);
    hide DiskOk, ChainsOk, AsOf, ValidLog, Parse, Covers, ValidWrite;
  }

  /** A staged write is what the transaction reads from then on; nobody else notices. */
  lemma StageSees(env: Env, s: State, id: nat, k: Bytes, w: Option<Bytes>, s': State)
    requires Inv(env, s) && Step(env, s, Stages(id, k, w), s')
    ensures s'.store.active.Keys == s.store.active.Keys && id in s.store.active
    ensures ReadTxn(s', id, k) == w && forall x | x != k :: ReadTxn(s', id, x) == ReadTxn(s, id, x)
    ensures OthersRead(s, s', id) && SameLatest(s, s')
  {
    assert InMemory(s) && InMemory(s') && id in s.store.active && s'.store.active.Keys == s.store.active.Keys by { hide Inv, ReadTxn; }
    hide Inv, Step, ReadTxn;
    var e := Stages(id, k, w);
    forall x { StepReads(env, s, e, s', id, x); }
    OthersReadOn(env, s, e, s', id);
    StepKeepsLatest(env, s, e, s');
  }

  /** A transaction that ends without publishing is gone: nobody else's reads change, and
      it holds the watermark back no longer. */
  lemma AbortEnds(env: Env, s: State, id: nat, s': State)
    requires Inv(env, s) && Step(env, s, Aborts(id), s')
    ensures s'.store.active.Keys == s.store.active.Keys - {id} && id !in s'.store.active
    ensures OthersRead(s, s', id) && SameLatest(s, s')
    ensures forall w :: IsWatermark(s'.store, w) <==> OldestWithout(s.store, id, w)
  {
    assert InMemory(s) && InMemory(s') && s'.store.active.Keys == s.store.active.Keys - {id} by { hide Inv; }
    assert CurrentTs(s'.store) == CurrentTs(s.store) by { hide Inv; }
    hide Inv, Step;
    var e := Aborts(id);
    OthersReadOn(env, s, e, s', id);
    StepKeepsLatest(env, s, e, s');
    assert forall i | i in s'.store.active :: s'.store.active[i].snapshot == s.store.active[i].snapshot by {
      forall i | i in s'.store.active ensures s'.store.active[i].snapshot == s.store.active[i].snapshot {
        ReadsHistory(env, s, i, []);
        StepKeepsTxn(env, s, e, s', i);
      }
    }
    hide CurrentTs, OthersRead, SameLatest;
    WatermarkWithout(s.store, s'.store, id);
  }

  /** Publishing a commit: its writes are what everyone reads from then on who starts
      afresh, the transaction is gone, and live transactions notice nothing. */
  lemma PublishSees(env: Env, s: State, s': State)
    requires Inv(env, s) && Step(env, s, Publishes, s')
    ensures s.phase.Logging? && s.phase.id in s.store.active && s'.store.active.Keys == s.store.active.Keys - {s.phase.id}
    ensures var ws := s.store.active[s.phase.id].writes;
            && OthersRead(s, s', s.phase.id)
            && forall k :: ReadLatest(s', k) == if k in ws then ws[k] else ReadLatest(s, k)
  {
    hide Inv, Step, ReadTxn, ReadLatest, Fold;
    PublishFacts(env, s, s');
    hide Published, Get, InMemory;
    var id := s.phase.id;
    OthersReadOn(env, s, Publishes, s', id);
    hide OthersRead;
    forall k { PublishLatest(env, s, s', k); }
  }

  lemma PublishLatest(env: Env, s: State, s': State, k: Bytes)
    requires Inv(env, s) && Step(env, s, Publishes, s') && s.phase.Logging? && s.phase.id in s.store.active
    ensures var ws := s.store.active[s.phase.id].writes;
            ReadLatest(s', k) == if k in ws then ws[k] else ReadLatest(s, k)
  {
    hide Inv, Step, ReadLatest, Fold;
    PublishFacts(env, s, s');
    StepKeeps(env, s, Publishes, s');
    LatestIsPublished(env, s, k);
    LatestIsPublished(env, s', k);
    FoldStep(s.log, k);
  }

  lemma PublishFacts(env: Env, s: State, s': State)
    requires Inv(env, s) && Step(env, s, Publishes, s')
    ensures s.phase.Logging? && s.phase.id in s.store.active && InMemory(s) && InMemory(s')
    ensures s'.store.active.Keys == s.store.active.Keys - {s.phase.id}
    ensures s.log != [] && Published(s) == s.log[..|s.log| - 1] && Published(s') == s.log
    ensures s.log[|s.log| - 1].writes == s.store.active[s.phase.id].writes
  {
    hide DiskOk, SettledOk, ValidLog, Parse, VersionStore.Publish;
  }

  /** Handing a commit to the log appends the transaction's writes to the history. */
  lemma LogSees(env: Env, s: State, id: nat, ops: seq<Op>, s': State)
    requires Inv(env, s) && Step(env, s, LogsCommit(id, ops), s')
    ensures id in s.store.active && s'.store == s.store && s'.phase == Logging(id)
    ensures |s'.log| == |s.log| + 1 && s'.log[..|s.log|] == s.log && s'.log[|s.log|].writes == s.store.active[id].writes
    ensures OthersRead(s, s', id) && SameLatest(s, s')
  {
    assert InMemory(s) && InMemory(s') && id in s.store.active && s'.store == s.store && s'.phase == Logging(id) by { hide Inv, ListsInOrder, EncodeLog, Conflicts; }
    assert |s'.log| == |s.log| + 1 && s'.log[..|s.log|] == s.log && s'.log[|s.log|].writes == s.store.active[id].writes by { hide Inv, ListsInOrder, EncodeLog, Conflicts; }
    hide Inv, Step, ReadTxn;
    OthersReadOn(env, s, LogsCommit(id, ops), s', id);
    StepKeepsLatest(env, s, LogsCommit(id, ops), s');
  }

  predicate Quiet(e: Event) {
    e.Flushes? || e.StartsCheckpoint? || e.SyncsJournal? || e.SyncsPages? || e.ClearsJournal? || e.FinishesReset?
  }

  /** No part of a flush or checkpoint changes what anyone reads. */
  lemma QuietSees(env: Env, s: State, e: Event, s': State)
    requires Inv(env, s) && Step(env, s, e, s') && Quiet(e)
    ensures s'.store.active == s.store.active && SameLatest(s, s')
    ensures forall j, k | j in s.store.active :: ReadTxn(s', j, k) == ReadTxn(s, j, k)
  {
    assert InMemory(s) && InMemory(s') && s'.store.active == s.store.active by {
      hide Inv, IsRetained, IsWatermark, Overlay, MergedWrites, MergedChains, Parse, EncodeLog;
    }
    hide Inv, Step, ReadTxn;
    StepKeepsLatest(env, s, e, s');
    forall j, k | j in s.store.active ensures ReadTxn(s', j, k) == ReadTxn(s, j, k) { StepReads(env, s, e, s', j, k); }
  }

  /** An explicit flush acknowledges every commit made so far. */
  lemma FlushAcknowledges(env: Env, s: State, s': State)
    requires Inv(env, s) && Step(env, s, Flushes, s')
    ensures s'.acked == |s'.log| && s'.log == s.log && Inv(env, s')
  {
    assert s'.acked == |s'.log| && s'.log == s.log by { hide Inv, Parse; }
    hide Step, Inv;
    StepKeeps(env, s, Flushes, s');
  }

  /** What a checkpoint moves into the tree: the history up to the watermark; and with no
      transaction live, all of it, so that no version is left in memory. */
  lemma CheckpointMerges(env: Env, s: State, w: nat, ks: seq<Bytes>, r: seq<Retained>, dirty: Pages, s': State)
    requires Inv(env, s) && Step(env, s, StartsCheckpoint(w, ks, r, dirty), s')
    ensures s.treeTs <= w <= |s.log| && s'.log == s.log && s'.treeTs == w && s'.tree == AsOf(s.log, w)
    ensures forall k | k in s'.store.chains :: s'.store.chains[k] != [] && forall i | 0 <= i < |s'.store.chains[k]| :: s'.store.chains[k][i].ts > w
    ensures s.store.active == map[] ==> w == |s.log| && s'.tree == Fold(s.log) && s'.store.chains == map[]
  {
    CheckpointFacts(env, s, w, ks, r, dirty, s');
    hide Inv, Step, Fold;
    forall k | k in s'.store.chains ensures s'.store.chains[k] != [] && forall i | 0 <= i < |s'.store.chains[k]| :: s'.store.chains[k][i].ts > w {
      assert Chain(s'.store.chains, k) == ChainFor(s.log, w, k);
    }
    if s.store.active == map[] {
      assert History.Upto(s.log, |s.log|) == s.log;
      forall k ensures k !in s'.store.chains { assert Chain(s'.store.chains, k) == ChainFor(s.log, w, k); }
      assert s'.store.chains == map[];
    }
  }

  lemma CheckpointFacts(env: Env, s: State, w: nat, ks: seq<Bytes>, r: seq<Retained>, dirty: Pages, s': State)
    requires Inv(env, s) && Step(env, s, StartsCheckpoint(w, ks, r, dirty), s')
    ensures s.treeTs <= w <= |s.log| && s'.log == s.log && s'.treeTs == w && s'.tree == AsOf(s.log, w)
    ensures ChainsOk(s'.store.chains, s.log, w) && (s.store.active == map[] ==> w == |s.log|)
  {
    hide DiskOk, ValidLog, IsRetained, Overlay, MergedWrites, MergedChains, ChainsOk, AsOf, ActiveOk, Covers, ActiveFresh, Whole;
    MergeKeepsMemory(s.store, s.tree, s.treeTs, s.log, w);
  }

  // ---- whole sessions -----------------------------------------------------------------

  /** `id` is the transaction that began at event `b`, and it is live up to state `i`. */
  ghost predicate Session(env: Env, states: seq<State>, events: seq<Event>, b: nat, i: nat, id: nat) {
    && IsRun(env, states, events) && b < i < |states| && events[b].Begins? && id == states[b].store.nextTxnId
    && forall m | b < m <= i :: InMemory(states[m]) && id in states[m].store.active
  }

  /** The last write of `k` that `id` staged before event `i` was event `j`. */
  ghost predicate LastWrite(events: seq<Event>, id: nat, k: Bytes, j: nat, i: nat) {
    j < i <= |events| && Writes(events[j], id, k) && forall m | j < m < i :: !Writes(events[m], id, k)
  }

  lemma SessionStep(env: Env, states: seq<State>, events: seq<Event>, b: nat, i: nat, id: nat)
    requires Session(env, states, events, b, i, id)
    ensures Inv(env, states[i]) && InMemory(states[i]) && Step(env, states[i - 1], events[i - 1], states[i])
    ensures b + 1 < i ==> Session(env, states, events, b, i - 1, id) && Inv(env, states[i - 1]) && InMemory(states[i - 1]) && id in states[i - 1].store.active
    ensures id in states[i].store.active
  {
    hide Inv, Step;
    InvAlways(env, states, events, i);
    InvAlways(env, states, events, i - 1);
  }

  lemma SessionStart(env: Env, states: seq<State>, events: seq<Event>, b: nat, id: nat)
    requires Session(env, states, events, b, b + 1, id)
    ensures states[b + 1].store.active[id].writes == map[] && states[b + 1].store.active[id].readOnly == events[b].readOnly
    ensures forall k :: ReadTxn(states[b + 1], id, k) == Get(Fold(Published(states[b])), k)
  {
    hide Inv, Step, Fold, ReadTxn, ReadLatest, OthersRead, SameLatest;
    InvAlways(env, states, events, b);
    SessionStep(env, states, events, b, b + 1, id);
    BeginSees(env, states[b], events[b].readOnly, states[b + 1]);
  }

  /** A key the transaction has not written reads as of its begin, however long it runs. */
  lemma {:induction false} SessionReadsBegin(env: Env, states: seq<State>, events: seq<Event>, b: nat, i: nat, id: nat, k: Bytes)
    requires Session(env, states, events, b, i, id) && forall m | b < m < i :: !Writes(events[m], id, k)
    ensures ReadTxn(states[i], id, k) == Get(Fold(Published(states[b])), k)
    ensures k !in states[i].store.active[id].writes
    decreases i
  {
    hide Inv, Step, ReadTxn, Fold, Session;
    SessionStep(env, states, events, b, i, id);
    SessionBounds(env, states, events, b, i, id);
    if i == b + 1 {
      SessionStart(env, states, events, b, id);
    } else {
      SessionReadsBegin(env, states, events, b, i - 1, id, k);
      SessionGoesOn(env, states, events, b, i, id, k);
    }
  }

  lemma SessionBounds(env: Env, states: seq<State>, events: seq<Event>, b: nat, i: nat, id: nat)
    requires Session(env, states, events, b, i, id)
    ensures b < i < |states| == |events| + 1 && id in states[i].store.active
  {
    hide Step, Init;
  }

  /** One more event of the session. */
  lemma SessionGoesOn(env: Env, states: seq<State>, events: seq<Event>, b: nat, i: nat, id: nat, k: Bytes)
    requires Session(env, states, events, b, i, id) && b + 1 < i
    ensures id in states[i - 1].store.active && id in states[i].store.active
    ensures var e, ws, ws' := events[i - 1], states[i - 1].store.active[id].writes, states[i].store.active[id].writes;
            && ReadTxn(states[i], id, k) == (if Writes(e, id, k) then e.write else ReadTxn(states[i - 1], id, k))
            && (Writes(e, id, k) ==> k in ws' && ws'[k] == e.write)
            && (!Writes(e, id, k) ==> (k in ws' <==> k in ws) && (k in ws ==> ws'[k] == ws[k]))
  {
    hide Inv, Step, ReadTxn, Session;
    SessionBounds(env, states, events, b, i, id);
    SessionStep(env, states, events, b, i, id);
    StepReads(env, states[i - 1], events[i - 1], states[i], id, k);
    ReadsHistory(env, states[i - 1], id, k);
    StepKeepsTxn(env, states[i - 1], events[i - 1], states[i], id);
  }

  /** A key the transaction has written reads as its last write. */
  lemma {:induction false} SessionReadsOwn(env: Env, states: seq<State>, events: seq<Event>, b: nat, i: nat, id: nat, k: Bytes, j: nat)
    requires Session(env, states, events, b, i, id) && b < j && LastWrite(events, id, k, j, i)
    ensures ReadTxn(states[i], id, k) == events[j].write
    ensures k in states[i].store.active[id].writes && states[i].store.active[id].writes[k] == events[j].write
    decreases i
  {
    hide Inv, Step, ReadTxn, Session;
    SessionBounds(env, states, events, b, i, id);
    SessionGoesOn(env, states, events, b, i, id, k);
    if j < i - 1 {
      SessionStep(env, states, events, b, i, id);
      SessionReadsOwn(env, states, events, b, i - 1, id, k, j);
    }
  }

  /** What a commit hands to the log is, key by key, the last write the transaction staged,
      and nothing else; once published, that is what everyone reads. */
  lemma SessionCommits(env: Env, states: seq<State>, events: seq<Event>, b: nat, i: nat, id: nat, k: Bytes)
    requires Session(env, states, events, b, i, id) && i < |events| && events[i].LogsCommit? && events[i].id == id
    ensures |states[i + 1].log| == |states[i].log| + 1 && states[i + 1].log[..|states[i].log|] == states[i].log
    ensures var ws := states[i + 1].log[|states[i].log|].writes;
            && (k in ws <==> exists j :: b < j && LastWrite(events, id, k, j, i))
            && forall j | b < j && LastWrite(events, id, k, j, i) :: ws[k] == events[j].write
    ensures i + 1 < |events| && events[i + 1].Publishes? ==>
              && ((forall j | b < j < i :: !Writes(events[j], id, k)) ==> ReadLatest(states[i + 2], k) == ReadLatest(states[i], k))
              && forall j | b < j && LastWrite(events, id, k, j, i) :: ReadLatest(states[i + 2], k) == events[j].write
  {
    hide Inv, Step, ReadTxn, ReadLatest, Session, OthersRead;
    SessionBounds(env, states, events, b, i, id);
    SessionStep(env, states, events, b, i, id);
    CommitStep(env, states, events, b, i, id);
    var ws := states[i].store.active[id].writes;
    forall j | b < j && LastWrite(events, id, k, j, i) ensures k in ws && ws[k] == events[j].write {
      SessionReadsOwn(env, states, events, b, i, id, k, j);
    }
    if forall j | b < j < i :: !Writes(events[j], id, k) {
      SessionReadsBegin(env, states, events, b, i, id, k);
      assert !exists j :: b < j && LastWrite(events, id, k, j, i) by { NoLastWrite(events, b, i, id, k); }
    } else {
      var j := SomeLastWrite(events, b, i, id, k);
    }
  }

  lemma NoLastWrite(events: seq<Event>, b: nat, i: nat, id: nat, k: Bytes)
    requires i <= |events| && forall j | b < j < i :: !Writes(events[j], id, k)
    ensures !exists j :: b < j && LastWrite(events, id, k, j, i)
  {
  }

  lemma {:induction false} SomeLastWrite(events: seq<Event>, b: nat, i: nat, id: nat, k: Bytes) returns (j: nat)
    requires b < i <= |events| && exists m :: b < m < i && Writes(events[m], id, k)
    ensures b < j && LastWrite(events, id, k, j, i)
    decreases i
  {
    if Writes(events[i - 1], id, k) { j := i - 1; } else { j := SomeLastWrite(events, b, i - 1, id, k); }
  }

  lemma CommitStep(env: Env, states: seq<State>, events: seq<Event>, b: nat, i: nat, id: nat)
    requires Session(env, states, events, b, i, id) && i < |events| && events[i].LogsCommit? && events[i].id == id
    ensures |states[i + 1].log| == |states[i].log| + 1 && states[i + 1].log[..|states[i].log|] == states[i].log
    ensures var ws := states[i].store.active[id].writes;
            && states[i + 1].log[|states[i].log|].writes == ws
            && (i + 1 < |events| && events[i + 1].Publishes? ==>
                  forall k :: ReadLatest(states[i + 2], k) == if k in ws then ws[k] else ReadLatest(states[i], k))
  {
    hide Inv, Step, ReadTxn, ReadLatest, OthersRead, Init;
    InvAlways(env, states, events, i);
    InvAlways(env, states, events, i + 1);
    assert Step(env, states[i], events[i], states[i + 1]);
    LogSees(env, states[i], id, events[i].ops, states[i + 1]);
    if i + 1 < |events| && events[i + 1].Publishes? {
      assert Step(env, states[i + 1], events[i + 1], states[i + 2]);
      PublishSees(env, states[i + 1], states[i + 2]);
    }
  }
}
