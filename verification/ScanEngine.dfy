/** Scans, counts and backups of a running engine: each is the map its snapshot
    denotes, whatever has been committed or merged into the tree meanwhile. */
module ScanEngine {
  import opened Bytes
  import opened Wrappers
  import opened History
  import opened VersionStore
  import opened Wal
  import opened Ranges
  import opened Scan
  import opened Engine
  import opened EngineInvariant
  import opened EngineSafety
  import opened EngineSteps
  import opened EngineTheorems
  import Filter
  import Scalar

  function RangeOf(m: map<Bytes, Bytes>, lo: Bound, hi: Bound): map<Bytes, Bytes> {
    map k | k in m && InRange(lo, hi, k) :: m[k]
  }

  /** Committed versions visible at `snapshot` for keys in range. */
  function Visible(chains: map<Bytes, seq<Version>>, snapshot: nat, lo: Bound, hi: Bound): Writes {
    map k | k in chains && InRange(lo, hi, k) && NewestAt(chains[k], snapshot).Some? :: NewestAt(chains[k], snapshot).value
  }

  /** The same, overridden by a transaction's own writes. */
  function TxnVisible(chains: map<Bytes, seq<Version>>, txn: Txn, lo: Bound, hi: Bound): Writes {
    Visible(chains, txn.snapshot, lo, hi) + map k | k in txn.writes && InRange(lo, hi, k) :: txn.writes[k]
  }

  /** A run and one of its in-memory states. */
  ghost predicate Reached(env: Env, states: seq<State>, events: seq<Event>, i: nat) {
    IsRun(env, states, events) && i < |states| && InMemory(states[i])
  }

  // ---- building the overlay ------------------------------------------------

  /** In-memory versions visible at a snapshot, ascending by key. */
  method CommittedOverlay(chains: map<Bytes, seq<Version>>, snapshot: nat, lo: Bound, hi: Bound) returns (es: seq<OverlayEntry>)
    ensures IsOverlay(es, Visible(chains, snapshot, lo, hi))
  {
    hide Less, Ascending, IsOverlay, NewestAt, InRange, Visible, ListFor;
    ghost var ws := Visible(chains, snapshot, lo, hi);
    var ks := InOrder(chains.Keys);
    es := [];
    assert ks[0..] == ks;
    for i := 0 to |ks|
      invariant es + ListFor(ks[i..], ws) == ListFor(ks, ws)
    {
      assert ks[i] in ks;
      VisibleAt(chains, snapshot, lo, hi, ks[i]);
      ListedStep(ks, ws, es, i);
      var newest := NewestAt(chains[ks[i]], snapshot);
      if InRange(lo, hi, ks[i]) && newest.Some? {
        es := es + [(ks[i], newest.value)];
      }
    }
    ListedEnd(ks, ws, es);
    assert forall k | k in ws :: k in ks by { VisibleKeys(chains, snapshot, lo, hi); }
    ListedAll(ks, ws, es);
  }

  /** One key further down the list. */
  lemma ListedStep(ks: seq<Bytes>, ws: Writes, es: seq<OverlayEntry>, i: nat)
    requires i < |ks| && es + ListFor(ks[i..], ws) == ListFor(ks, ws)
    ensures (if ks[i] in ws then es + [(ks[i], ws[ks[i]])] else es) + ListFor(ks[i + 1..], ws) == ListFor(ks, ws)
  {
    hide ListFor;
    ListForStep(ks, ws, i);
  }

  lemma VisibleAt(chains: map<Bytes, seq<Version>>, snapshot: nat, lo: Bound, hi: Bound, k: Bytes)
    requires k in chains
    ensures var newest, ws := NewestAt(chains[k], snapshot), Visible(chains, snapshot, lo, hi);
            && (k in ws <==> InRange(lo, hi, k) && newest.Some?)
            && (k in ws ==> ws[k] == newest.value)
  {
    hide NewestAt, InRange;
  }

  lemma VisibleKeys(chains: map<Bytes, seq<Version>>, snapshot: nat, lo: Bound, hi: Bound)
    ensures forall k | k in chains ::
              var newest := NewestAt(chains[k], snapshot);
              if InRange(lo, hi, k) && newest.Some? then k in Visible(chains, snapshot, lo, hi) && Visible(chains, snapshot, lo, hi)[k] == newest.value
              else k !in Visible(chains, snapshot, lo, hi)
    ensures forall k | k in Visible(chains, snapshot, lo, hi) :: k in chains
  {
    hide NewestAt, InRange;
  }

  lemma ListedEnd(ks: seq<Bytes>, ws: Writes, es: seq<OverlayEntry>)
    ensures ks[|ks|..] == [] && es + ListFor(ks[|ks|..], ws) == es
  {
  }

  lemma ListedAll(ks: seq<Bytes>, ws: Writes, es: seq<OverlayEntry>)
    requires Ascending(ks) && es == ListFor(ks, ws) && forall k | k in ws :: k in ks
    ensures IsOverlay(es, ws)
  {
    hide Less, Ordered, Find;
    forall k ensures Find(es, k) == if k in ws then Some(ws[k]) else None { ListForFind(ks, ws, k); }
    ListForFind(ks, ws, []);
  }

  /** What a transaction sees in memory, ascending by key; only an unknown one is an
      error. */
  method TxnOverlay(store: Store, id: nat, lo: Bound, hi: Bound) returns (r: Result<seq<OverlayEntry>>)
    ensures r.Err? <==> id !in store.active
    ensures r.Err? ==> r.error == TxnNotFound
    ensures r.Ok? ==> IsOverlay(r.value, TxnVisible(store.chains, store.active[id], lo, hi))
  {
    hide Less, IsOverlay, Visible, InRange;
    if id !in store.active { return Err(TxnNotFound); }
    var txn := store.active[id];
    var committed := CommittedOverlay(store.chains, txn.snapshot, lo, hi);
    if txn.writes == map[] {
      NoOwnWrites(store.chains, txn, lo, hi);
      return Ok(committed);
    }
    ListedWrites(committed, Visible(store.chains, txn.snapshot, lo, hi));
    var merged := ToWrites(committed) + map k | k in txn.writes && InRange(lo, hi, k) :: txn.writes[k];
    var es := ListWrites(merged);
    r := Ok(es);
  }

  method ListWrites(ws: Writes) returns (es: seq<OverlayEntry>)
    ensures IsOverlay(es, ws)
  {
    hide Less, IsOverlay, ListFor;
    var ks := InOrder(ws.Keys);
    es := [];
    assert ks[0..] == ks;
    for i := 0 to |ks|
      invariant es + ListFor(ks[i..], ws) == ListFor(ks, ws)
    {
      assert ks[i] in ks;
      ListedStep(ks, ws, es, i);
      es := es + [(ks[i], ws[ks[i]])];
    }
    ListedEnd(ks, ws, es);
    ListedAll(ks, ws, es);
  }

  lemma NoOwnWrites(chains: map<Bytes, seq<Version>>, txn: Txn, lo: Bound, hi: Bound)
    requires txn.writes == map[]
    ensures TxnVisible(chains, txn, lo, hi) == Visible(chains, txn.snapshot, lo, hi)
  {
  }

  // ---- what a scan visits --------------------------------------------------

  lemma RangeRead(s: State, id: nat, lo: Bound, hi: Bound, k: Bytes)
    requires id in s.store.active
    ensures Get(Overlay(RangeOf(s.tree, lo, hi), TxnVisible(s.store.chains, s.store.active[id], lo, hi)), k)
         == if InRange(lo, hi, k) then ReadTxn(s, id, k) else None
  {
    assert NewestAt([], s.store.active[id].snapshot) == None;
    hide InRange, NewestAt;
    var ws := TxnVisible(s.store.chains, s.store.active[id], lo, hi);
    VisibleKeys(s.store.chains, s.store.active[id].snapshot, lo, hi);
    hide Visible;
    assert k in ws ==> InRange(lo, hi, k);
  }

  /** In every reachable state, a transaction's scan lists exactly the in-range
      part of its snapshot overlaid with its own writes, in ascending order. */
  lemma ScanIsSnapshot(env: Env, states: seq<State>, events: seq<Event>, i: nat, id: nat, lo: Bound, hi: Bound,
                       t: seq<Pair>, o: seq<OverlayEntry>)
    requires Reached(env, states, events, i) && id in states[i].store.active
    requires IsListing(t, RangeOf(states[i].tree, lo, hi))
    requires IsOverlay(o, TxnVisible(states[i].store.chains, states[i].store.active[id], lo, hi))
    ensures IsListing(Merge(t, o), RangeOf(View(states[i], id), lo, hi))
  {
    hide IsRun, Merge, IsListing, IsOverlay, InRange, ReadTxn, Overlay, AsOf, TxnVisible, InMemory;
    var s, txn := states[i], states[i].store.active[id];
    var ws := TxnVisible(s.store.chains, txn, lo, hi);
    MergeIsVisible(t, o, RangeOf(s.tree, lo, hi), ws);
    var a := Overlay(RangeOf(s.tree, lo, hi), ws);
    var b := RangeOf(View(s, id), lo, hi);
    forall k ensures Get(a, k) == Get(b, k) {
      RangeRead(s, id, lo, hi, k);
      SnapshotReads(env, states, events, i, id, k);
    }
    hide RangeOf;
    SameGets(a, b);
  }

  /** The map a live transaction sees. */
  function View(s: State, id: nat): map<Bytes, Bytes>
    requires id in s.store.active
  {
    Overlay(AsOf(s.log, s.store.active[id].snapshot), s.store.active[id].writes)
  }

  lemma LatestRead(s: State, lo: Bound, hi: Bound, k: Bytes)
    ensures Get(Overlay(RangeOf(s.tree, lo, hi), Visible(s.store.chains, CurrentTs(s.store), lo, hi)), k)
         == if InRange(lo, hi, k) then ReadLatest(s, k) else None
  {
    assert NewestAt([], CurrentTs(s.store)) == None;
    hide InRange, NewestAt;
  }

  /** What an implicit snapshot reads is the published history. */
  lemma LatestIsPublished(env: Env, states: seq<State>, events: seq<Event>, i: nat, k: Bytes)
    requires Reached(env, states, events, i)
    ensures ReadLatest(states[i], k) == Get(Fold(Published(states[i])), k)
  {
    hide Inv, MemOk, IsRun, Fold, NewestAt;
    var s := states[i];
    InvAlways(env, states, events, i);
    MemoryHolds(env, s);
    PublishedClock(s);
    ReadIsAsOf(s.store, s.tree, s.treeTs, Published(s), CurrentTs(s.store), k);
    assert History.Upto(Published(s), |Published(s)|) == Published(s);
  }

  lemma PublishedClock(s: State)
    requires MemOk(s.store, s.tree, s.treeTs, Published(s))
    ensures CurrentTs(s.store) == |Published(s)| && s.treeTs <= CurrentTs(s.store)
  {
    hide ChainsOk, ActiveOk, AsOf;
  }

  /** In every reachable state, a scan at the current timestamp lists exactly the
      in-range part of the published history. */
  lemma ScanIsLatest(env: Env, states: seq<State>, events: seq<Event>, i: nat, lo: Bound, hi: Bound, t: seq<Pair>, o: seq<OverlayEntry>)
    requires Reached(env, states, events, i)
    requires IsListing(t, RangeOf(states[i].tree, lo, hi))
    requires IsOverlay(o, Visible(states[i].store.chains, CurrentTs(states[i].store), lo, hi))
    ensures IsListing(Merge(t, o), RangeOf(Fold(Published(states[i])), lo, hi))
  {
    hide IsRun, InMemory, Merge, IsListing, IsOverlay, InRange, ReadLatest, Overlay, Fold, Visible;
    var s := states[i];
    var ws := Visible(s.store.chains, CurrentTs(s.store), lo, hi);
    MergeIsVisible(t, o, RangeOf(s.tree, lo, hi), ws);
    var a, b := Overlay(RangeOf(s.tree, lo, hi), ws), RangeOf(Fold(Published(s)), lo, hi);
    forall k ensures Get(a, k) == Get(b, k) {
      LatestRead(s, lo, hi, k);
      LatestIsPublished(env, states, events, i, k);
    }
    hide RangeOf;
    SameGets(a, b);
  }

  // ---- the scans -----------------------------------------------------------

  /** The tree's pairs in range, ascending. */
  method TreeRange(tree: map<Bytes, Bytes>, lo: Bound, hi: Bound) returns (t: seq<Pair>)
    ensures IsListing(t, RangeOf(tree, lo, hi))
  {
    hide IsListing, InRange;
    var m := RangeOf(tree, lo, hi);
    t := ListOf(m);
    ListOfIs(m);
  }

  /** Streams the latest committed pairs in range: the callback receives the in-range
      listing of the published history, up to where it stops. */
  method ScanRange(s: State, lo: Bound, hi: Bound, go: seq<Pair> -> bool,
                   ghost env: Env, ghost states: seq<State>, ghost events: seq<Event>, ghost i: nat)
    returns (out: seq<Pair>)
    requires Reached(env, states, events, i) && s == states[i]
    ensures out == Until([], ListOf(RangeOf(Fold(Published(s)), lo, hi)), go)
    ensures Delivered(out, ListOf(RangeOf(Fold(Published(s)), lo, hi)), go)
  {
    hide Delivered, Reached, Merge, IsListing, IsOverlay, InRange, Fold, Visible, Until, ListOf, RangeOf;
    var o := CommittedOverlay(s.store.chains, CurrentTs(s.store), lo, hi);
    var t := TreeRange(s.tree, lo, hi);
    ScanIsLatest(env, states, events, i, lo, hi, t, o);
    ListingIs(Merge(t, o), RangeOf(Fold(Published(s)), lo, hi));
    out := MergeScan(t, o, go);
  }

  function WithPrefix(m: map<Bytes, Bytes>, p: Bytes): map<Bytes, Bytes> {
    map k | k in m && |p| <= |k| && k[..|p|] == p :: m[k]
  }

  /** Streams the latest committed pairs whose key starts with `p`, and no others. */
  method ScanPrefix(s: State, p: Bytes, go: seq<Pair> -> bool,
                    ghost env: Env, ghost states: seq<State>, ghost events: seq<Event>, ghost i: nat)
    returns (out: seq<Pair>)
    requires Reached(env, states, events, i) && s == states[i]
    ensures Delivered(out, ListOf(WithPrefix(Fold(Published(s)), p)), go)
  {
    hide Delivered, Reached, Fold, Until, ListOf;
    var end := Filter.PrefixSuccessor(p);
    var lo := if p == [] then Unbounded else Included(p);
    var hi := if end.Some? then Excluded(end.value) else Unbounded;
    ghost var m := Fold(Published(s));
    forall k ensures InRange(lo, hi, k) <==> |p| <= |k| && k[..|p|] == p {
      assert Scalar.IsPrefix(p, k) <==> AtMost(p, k) && (end.Some? ==> Less(k, end.value));
      if p == [] { EmptyIsLeast(k); }
    }
    assert RangeOf(m, lo, hi) == WithPrefix(m, p);
    out := ScanRange(s, lo, hi, go, env, states, events, i);
  }

  lemma EmptyIsLeast(k: Bytes)
    ensures AtMost([], k)
  {
  }

  /** Streams what a transaction sees in range. */
  method ScanTxn(s: State, id: nat, lo: Bound, hi: Bound, go: seq<Pair> -> bool,
                 ghost env: Env, ghost states: seq<State>, ghost events: seq<Event>, ghost i: nat)
    returns (r: Result<seq<Pair>>)
    requires Reached(env, states, events, i) && s == states[i]
    ensures r == if id in s.store.active then Ok(Until([], ListOf(RangeOf(View(s, id), lo, hi)), go)) else Err(TxnNotFound)
    ensures r.Ok? ==> Delivered(r.value, ListOf(RangeOf(View(s, id), lo, hi)), go)
  {
    hide Delivered, Reached, Merge, IsListing, IsOverlay, InRange, View, TxnVisible, Until, ListOf, RangeOf;
    var o := TxnOverlay(s.store, id, lo, hi);
    if o.Err? { return Err(o.error); }
    var t := TreeRange(s.tree, lo, hi);
    ScanIsSnapshot(env, states, events, i, id, lo, hi, t, o.value);
    ListingIs(Merge(t, o.value), RangeOf(View(s, id), lo, hi));
    var out := MergeScan(t, o.value, go);
    r := Ok(out);
  }

  /** In every reachable state the count is the size of the published history. */
  method Len(s: State, ghost env: Env, ghost states: seq<State>, ghost events: seq<Event>, ghost i: nat) returns (n: nat)
    requires Reached(env, states, events, i) && s == states[i]
    ensures n == |Fold(Published(s))|
  {
    hide Reached, IsOverlay, Visible, Fold, Overlay, ReadLatest;
    var o := CommittedOverlay(s.store.chains, CurrentTs(s.store), Unbounded, Unbounded);
    OverlayInOrder(o, Visible(s.store.chains, CurrentTs(s.store), Unbounded, Unbounded));
    n := CountWith(s.tree, o);
    ListedWrites(o, Visible(s.store.chains, CurrentTs(s.store), Unbounded, Unbounded));
    var a, b := Overlay(s.tree, ToWrites(o)), Fold(Published(s));
    forall k ensures Get(a, k) == Get(b, k) {
      WholeRange(s.tree);
      LatestRead(s, Unbounded, Unbounded, k);
      LatestIsPublished(env, states, events, i, k);
    }
    SameGets(a, b);
  }

  lemma OverlayInOrder(o: seq<OverlayEntry>, ws: Writes)
    requires IsOverlay(o, ws)
    ensures Ordered(o)
  {
  }

  lemma WholeRange(m: map<Bytes, Bytes>)
    ensures RangeOf(m, Unbounded, Unbounded) == m
  {
  }

  // ---- backup --------------------------------------------------------------

  /** A transaction stays live in memory from state `i` to state `j`. */
  ghost predicate Lives(states: seq<State>, id: nat, i: nat, j: nat) {
    i <= j < |states| && forall m | i <= m <= j :: InMemory(states[m]) && id in states[m].store.active
  }

  /** While a read-only transaction lives, its view does not change. */
  lemma {:induction false} ReadOnlyView(env: Env, states: seq<State>, events: seq<Event>, id: nat, i: nat, j: nat)
    requires IsRun(env, states, events) && Lives(states, id, i, j) && states[i].store.active[id].readOnly
    ensures states[j].store.active[id].readOnly
    ensures states[j].store.active[id].writes == states[i].store.active[id].writes
    ensures View(states[j], id) == View(states[i], id)
  {
    hide Inv, Step, Init, AsOf, Overlay, InMemory;
    SnapshotNeverMoves(env, states, events, i, j, id);
    if i < j {
      ReadOnlyView(env, states, events, id, i, j - 1);
      InvAlways(env, states, events, j - 1);
      MemoryHolds(env, states[j - 1]);
      ActiveWithin(states[j - 1], id);
      StepKeepsReadOnly(env, states[j - 1], events[j - 1], states[j], id);
    }
  }

  lemma StepKeepsReadOnly(env: Env, s: State, e: Event, s': State, id: nat)
    requires Step(env, s, e, s') && InMemory(s) && InMemory(s')
    requires id in s.store.active && id in s'.store.active && id < s.store.nextTxnId && s.store.active[id].readOnly
    ensures s'.store.active[id].readOnly && s'.store.active[id].writes == s.store.active[id].writes
  {
    hide IsRetained, IsWatermark, Overlay, MergedWrites, MergedChains, Parse, EncodeLog, ListsInOrder, Conflicts, VersionStore.Publish, ReadTxn;
  }

  function From(cursor: Option<Bytes>): Bound {
    if cursor.Some? then Excluded(cursor.value) else Unbounded
  }

  /** A fresh scan beyond the cursor continues the listing where the last one ended. */
  lemma ScanContinues(m: map<Bytes, Bytes>, cursor: Option<Bytes>)
    ensures ListOf(RangeOf(m, From(cursor), Unbounded)) == After(ListOf(m), cursor)
  {
    hide ListOf, Ordered, Find, Less;
    if cursor.None? {
      WholeRange(m);
      AfterNone(ListOf(m));
    } else {
      ListOfIs(m);
      var rest, part := After(ListOf(m), cursor), RangeOf(m, From(cursor), Unbounded);
      forall k ensures Find(rest, k) == Get(part, k) {
        AfterFind(ListOf(m), cursor.value, k);
        assert Find(ListOf(m), k) == Get(m, k);
      }
      AfterFind(ListOf(m), cursor.value, []);
      ListingIs(rest, part);
    }
  }

  /** Copies a read-only snapshot in batches of bounded size. Batch `n` is a fresh scan
      of state `at(n)`, beyond the last key copied; between batches the engine takes
      any steps it likes, commits and checkpoints included, as long as the transaction
      stays live. The copy is exactly the listing of what the snapshot saw. */
  method CopySnapshot(states: seq<State>, id: nat, at: nat -> nat, go: seq<Pair> -> bool,
                      ghost env: Env, ghost events: seq<Event>, ghost i: nat, ghost j: nat)
    returns (copied: seq<Pair>)
    requires IsRun(env, states, events) && Lives(states, id, i, j) && states[i].store.active[id].readOnly
    requires forall n :: i <= at(n) <= j
    ensures copied == ListOf(View(states[i], id))
  {
    hide IsRun, Until, After, ListOf, View, RangeOf, InMemory, Ordered;
    ghost var all := ListOf(View(states[i], id));
    ListOrdered(View(states[i], id));
    copied := [];
    var cursor: Option<Bytes> := None;
    var n := 0;
    AfterNone(all);
    while true
      invariant |copied| <= |all| && copied == all[..|copied|] && After(all, cursor) == all[|copied|..]
      decreases |all| - |copied|
    {
      var s := states[at(n)];
      LivesAt(states, id, i, j, at(n));
      ReadOnlyView(env, states, events, id, i, at(n));
      ScanContinues(View(s, id), cursor);
      var scan := ScanTxn(s, id, From(cursor), Unbounded, go, env, states, events, at(n));
      var batch := scan.value;
      BatchOf(all, |copied|, batch, go);
      if batch == [] { break; }
      cursor := Some(batch[|batch| - 1].0);
      AfterLast(all, |copied| + |batch|);
      copied := copied + batch;
      n := n + 1;
    }
  }

  lemma ListOrdered(m: map<Bytes, Bytes>)
    ensures Ordered(ListOf(m))
  {
    hide ListOf;
    ListOfIs(m);
  }

  lemma LivesAt(states: seq<State>, id: nat, i: nat, j: nat, k: nat)
    requires Lives(states, id, i, j) && i <= k <= j
    ensures Lives(states, id, i, k) && k < |states| && InMemory(states[k]) && id in states[k].store.active
  {
  }
}
