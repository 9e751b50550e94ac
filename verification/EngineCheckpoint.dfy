/** A checkpoint down to the pages: the merged versions go into the B+Tree page by page,
    the changed pages are rendered and journaled, and the engine's step is taken. */
module EngineCheckpoint {
  import opened Bytes
  import opened PageLayout
  import opened Wrappers
  import opened History
  import opened VersionStore
  import opened Engine
  import opened EngineInvariant
  import opened EngineSafety
  import opened EngineSteps
  import opened EngineTheorems
  import opened EngineTree
  import opened BTreeBytes
  import opened PageFormat
  import BTree
  import BTreePages
  import BTreePager
  import BTreeStates
  import BTreeRoot
  import BTreeInsert
  import BTreeStore
  import FlushJournal

  // ---- what is merged is valid --------------------------------------------------

  lemma {:induction false} ChainValid(log: Log, lo: nat, k: Bytes, i: nat)
    requires ValidLog(log) && i < |ChainFor(log, lo, k)|
    ensures ValidWrite(k, ChainFor(log, lo, k)[i].value)
    decreases |log|
  {
    hide FirstWins, ValidWrite;
    var n := |log| - 1;
    if i < |ChainFor(log[..n], lo, k)| {
      ValidLogPrefix(log, n);
      ChainValid(log[..n], lo, k, i);
    }
  }

  lemma {:induction false} FoldValid(log: Log, k: Bytes)
    requires ValidLog(log) && k in Fold(log)
    ensures ValidWrite(k, Some(Fold(log)[k]))
  {
    hide FirstWins, ValidWrite;
    var n := |log| - 1;
    if k !in log[n].writes { ValidLogPrefix(log, n); FoldValid(log[..n], k); }
  }

  ghost predicate ChainsValid(chains: map<Bytes, seq<Version>>) {
    forall k | k in chains :: forall i | 0 <= i < |chains[k]| :: ValidWrite(k, chains[k][i].value)
  }

  /** Every version in memory and every value in the tree respects the limits. */
  lemma MemValid(store: Store, tree: map<Bytes, Bytes>, treeTs: nat, log: Log)
    requires MemOk(store, tree, treeTs, log) && ValidLog(log)
    ensures ChainsValid(store.chains) && AllShort(tree)
  {
    hide ActiveOk, ValidLog, Fold;
    forall k | k in store.chains ensures forall i | 0 <= i < |store.chains[k]| :: ValidWrite(k, store.chains[k][i].value) {
      assert Chain(store.chains, k) == ChainFor(log, treeTs, k);
      forall i | 0 <= i < |store.chains[k]| ensures ValidWrite(k, store.chains[k][i].value) { ChainValid(log, treeTs, k, i); }
    }
    forall k | k in tree ensures |tree[k]| < U32_LIMIT {
      ValidLogPrefix(log, |Upto(log, treeTs)|);
      FoldValid(Upto(log, treeTs), k);
    }
  }

  // ---- merging into the tree -----------------------------------------------------

  /** How deep a descent goes. */
  method Depth(p: BTreePager.Pager, ghost t: BTree.Tree, ghost h: nat) returns (n: nat)
    requires BTreeStates.TreeIn(p.View(), t, h) && p.root == t.id
    ensures n == h
  {
    hide BTreePages.Linked, BTreePager.Whole, BTree.EntriesOk, BTree.SepsOk, BTree.LeafBytes, BTree.NodeBytes, BTreePages.ChainsAt;
    var at := p.root;
    n := 0;
    ghost var sub, lo, hi := t, None, None;
    while p.pages[at].NodePage?
      invariant n <= h && at == sub.id && BTreePages.Stored(p.pages, sub, h - n) && BTree.Good(sub, lo, hi, h - n)
      decreases h - n
    {
      at := p.pages[at].first;
      lo, hi, sub := BTree.KidLo(sub.seps, 0, lo), BTree.KidHi(sub.seps, 0, hi), sub.kids[0];
      n := n + 1;
    }
  }

  /** Moves the newest version at or below `w` of every key into the tree. It gives up only
      on a tree deeper than a descent may go. */
  method MergeTree(p: BTreePager.Pager, chains: map<Bytes, seq<Version>>, ks: seq<Bytes>, w: nat, maxUsed: nat,
                   ghost t: BTree.Tree, ghost h: nat)
    returns (ok: bool, ghost t': BTree.Tree, ghost h': nat)
    requires p.Valid() && BTreeStates.TreeIn(p.View(), t, h) && p.root == t.id
    requires ChainsValid(chains) && forall k | k in ks :: k in chains
    modifies p
    ensures p.Valid() && BTreeStates.TreeIn(p.View(), t', h') && p.root == t'.id
    ensures ok ==> BTreeRoot.Contents(t', h') == MergeKeys(BTreeRoot.Contents(t, h), chains, ks, w)
    ensures !ok ==> h' > BTreeInsert.MAX_DEPTH
  {
    hide BTreeStates.TreeIn, BTreeRoot.Contents, MergeKeys, Cut;
    t', h' := t, h;
    NothingMerged(BTreeRoot.Contents(t, h), chains, w);
    for i := 0 to |ks|
      invariant p.Valid() && BTreeStates.TreeIn(p.View(), t', h') && p.root == t'.id
      invariant BTreeRoot.Contents(t', h') == MergeKeys(BTreeRoot.Contents(t, h), chains, ks[..i], w)
    {
      var depth := Depth(p, t', h');
      if depth > BTreeInsert.MAX_DEPTH { return false, t', h'; }
      assert ks[i] in ks;
      MergeNext(BTreeRoot.Contents(t, h), chains, ks, i, w);
      t', h' := MergeOne(p, ks[i], chains[ks[i]], w, maxUsed, t', h');
    }
    assert ks[..|ks|] == ks;
    ok := true;
  }

  lemma NothingMerged(tree: map<Bytes, Bytes>, chains: map<Bytes, seq<Version>>, w: nat)
    ensures MergeKeys(tree, chains, [], w) == tree
  {
  }

  lemma MergeNext(tree: map<Bytes, Bytes>, chains: map<Bytes, seq<Version>>, ks: seq<Bytes>, i: nat, w: nat)
    requires i < |ks| && ks[i] in chains
    ensures MergeKeys(tree, chains, ks[..i + 1], w) == MergeKey(MergeKeys(tree, chains, ks[..i], w), ks[i], chains[ks[i]], w)
  {
    hide Cut;
    assert ks[..i + 1][..i] == ks[..i];
  }

  /** One key's newest version at or below `w`, if it has one. */
  method MergeOne(p: BTreePager.Pager, k: Bytes, c: seq<Version>, w: nat, maxUsed: nat, ghost t: BTree.Tree, ghost h: nat)
    returns (ghost t': BTree.Tree, ghost h': nat)
    requires p.Valid() && BTreeStates.TreeIn(p.View(), t, h) && p.root == t.id && h <= BTreeInsert.MAX_DEPTH
    requires forall i | 0 <= i < |c| :: ValidWrite(k, c[i].value)
    modifies p
    ensures p.Valid() && BTreeStates.TreeIn(p.View(), t', h') && p.root == t'.id
    ensures BTreeRoot.Contents(t', h') == MergeKey(BTreeRoot.Contents(t, h), k, c, w)
  {
    hide BTreeStates.TreeIn, BTreeRoot.Contents;
    t', h' := t, h;
    var n := Cut(c, w);
    if n > 0 {
      assert ValidWrite(k, c[n - 1].value);
      var value := c[n - 1].value;
      if value.Some? {
        var ok;
        ok, t', h' := BTreeStore.Insert(p, k, value.value, maxUsed, t, h);
      } else {
        var found;
        found, t', h' := BTreeStore.Delete(p, k, t, h);
        if !found { assert BTreeRoot.Contents(t, h) - {k} == BTreeRoot.Contents(t, h); }
      }
    }
  }

  // ---- staging --------------------------------------------------------------------

  /** Renders every page that the file does not hold as it should, and the meta page, in
      page order: what a flush journals. */
  method StagePages(crc: Checksum, p: BTreePager.Pager, file: Pages, m: FilePage, ghost t: BTree.Tree, ghost h: nat)
    returns (dirty: Pages, entries: seq<FlushJournal.Entry>)
    requires BTreeStates.TreeIn(p.View(), t, h) && p.count <= SENTINEL && AllShort(BTreeRoot.Contents(t, h))
    requires m.MetaPage? && PageFits(m) && p.count >= 1
    ensures Staged(crc, file, p.View(), m, dirty)
    ensures FlushJournal.Journalable(entries, p.count) && FlushJournal.PagesOf(entries) == dirty
  {
    hide BTreeStates.TreeIn, BTreeRoot.Contents, PageFits, ReadPage, AllShort, FlushJournal.PagesOf;
    var b := RenderPage(m, 0, crc);
    FirstEntry(b);
    entries, dirty := [FlushJournal.Entry(0, b)], map[0 := b];
    for q := 1 to p.count
      invariant Reads(crc, dirty, 0, m) && forall x | x in dirty :: x < q
      invariant forall x: nat | 1 <= x < q && x in p.pages :: Reads(crc, if x in dirty then dirty else file, x, TreePage(p.pages[x]))
      invariant |entries| <= q && FlushJournal.PagesOf(entries) == dirty
      invariant forall i | 0 <= i < |entries| :: entries[i].id < q && |entries[i].page| == PAGE_SIZE
    {
      TreeFits(p.View(), t, h, q);
      var x := TreePage(p.pages[q]);
      if !Reads(crc, file, q, x) {
        var b := RenderPage(x, q, crc);
        NextEntry(entries, FlushJournal.Entry(q, b));
        dirty := dirty[q := b];
        entries := entries + [FlushJournal.Entry(q, b)];
      }
    }
  }

  lemma FirstEntry(b: Bytes)
    ensures FlushJournal.PagesOf([FlushJournal.Entry(0, b)]) == map[0 := b]
  {
    var ps := [FlushJournal.Entry(0, b)];
    assert ps[..0] == [];
    assert FlushJournal.PagesOf([]) == map[];
  }

  lemma NextEntry(ps: seq<FlushJournal.Entry>, e: FlushJournal.Entry)
    ensures FlushJournal.PagesOf(ps + [e]) == FlushJournal.PagesOf(ps)[e.id := e.page]
  {
    assert (ps + [e])[..|ps|] == ps;
  }

  // ---- a checkpoint ----------------------------------------------------------------

  /** What a checkpoint is given: the watermark, the versions to keep in the log, and
      counters that keep to 64 bits. */
  ghost predicate Planned(s: State, w: nat, ks: seq<Bytes>, r: seq<Retained>) {
    && (s.phase == Running || s.phase == Opening) && IsWatermark(s.store, w)
    && s.store.nextTs <= U64_LIMIT && s.store.nextTxnId + |r| < U64_LIMIT
    && IsRetained(s.store.(chains := MergedChains(s.store.chains, w)), Max(s.treeTs, w), ks, r)
  }

  function AfterCheckpoint(s: State, w: nat, r: seq<Retained>, dirty: Pages): State {
    var treeTs := Max(s.treeTs, w);
    var newLog := [Wal.Checkpoint(treeTs)] + RetainedRecords(r);
    s.(store := s.store.(chains := MergedChains(s.store.chains, w), nextTxnId := s.store.nextTxnId + |r|),
       tree := Overlay(s.tree, MergedWrites(s.store.chains, w)), treeTs := treeTs,
       phase := if dirty == map[] then Resetting(newLog) else Journaling(dirty, newLog))
  }

  lemma StepTaken(env: Env, s: State, w: nat, ks: seq<Bytes>, r: seq<Retained>, dirty: Pages)
    requires Planned(s, w, ks, r)
    requires env.decode(s.disk.pages + dirty) == Image(Overlay(s.tree, MergedWrites(s.store.chains, w)), Max(s.treeTs, w), s.store.nextTxnId + |r|)
    ensures Step(env, s, StartsCheckpoint(w, ks, r, dirty), AfterCheckpoint(s, w, r, dirty))
  {
    hide IsRetained, IsWatermark, Overlay, MergedWrites, MergedChains, RetainedRecords;
  }

  /** The merged tree's values respect the limits, and its timestamp keeps to 64 bits. */
  lemma MergedFits(env: Env, s: State, w: nat, ks: seq<Bytes>, r: seq<Retained>)
    requires Inv(env, s) && Planned(s, w, ks, r)
    ensures ChainsValid(s.store.chains) && AllShort(Overlay(s.tree, MergedWrites(s.store.chains, w)))
    ensures Max(s.treeTs, w) < U64_LIMIT
  {
    hide DiskOk, ValidLog, IsRetained, IsWatermark, Overlay, MergedWrites, MergedChains, AllShort, ChainsValid, ChainsOk, AsOf, ActiveOk, Covers, ActiveFresh, Whole;
    MemValid(s.store, s.tree, s.treeTs, s.log);
    MergeKeepsMemory(s.store, s.tree, s.treeTs, s.log, w);
    MemValid(s.store.(chains := MergedChains(s.store.chains, w)), Overlay(s.tree, MergedWrites(s.store.chains, w)), w, s.log);
  }

  /** The checkpoint of an engine whose pager is in step with its file. It succeeds, and its
      pages make the engine's checkpoint step possible, unless the tree is too deep for
      a descent or page numbers have run out. */
  method StageCheckpoint(ghost env: Env, crc: Checksum, s: State, p: BTreePager.Pager, w: nat, ks: seq<Bytes>, r: seq<Retained>,
                         all: seq<Bytes>, maxUsed: nat, ghost t: BTree.Tree, ghost h: nat)
    returns (ok: bool, dirty: Pages, entries: seq<FlushJournal.Entry>, ghost t': BTree.Tree, ghost h': nat)
    requires Inv(env, s) && ReadsTrees(env) && env.crc == crc && Planned(s, w, ks, r)
    requires forall k :: k in all <==> k in s.store.chains
    requires p.Valid() && BTreeStates.TreeIn(p.View(), t, h) && p.root == t.id && BTreeRoot.Contents(t, h) == s.tree
    modifies p
    ensures p.Valid() && BTreeStates.TreeIn(p.View(), t', h') && p.root == t'.id
    ensures ok ==> BTreeRoot.Contents(t', h') == AfterCheckpoint(s, w, r, dirty).tree && InFile(crc, s.disk.pages + dirty, p.View())
    ensures ok ==> Step(env, s, StartsCheckpoint(w, ks, r, dirty), AfterCheckpoint(s, w, r, dirty))
    ensures ok ==> FlushJournal.Journalable(entries, p.count) && FlushJournal.PagesOf(entries) == dirty
    ensures !ok ==> h' > BTreeInsert.MAX_DEPTH || p.count > SENTINEL
  {
    hide Inv, Planned, BTreeStates.TreeIn, BTreeRoot.Contents, MergeKeys, Overlay, MergedWrites, ChainsValid, AllShort, PageFits, Staged,
      FlushJournal.Journalable, FlushJournal.PagesOf, Step, InFile, ReadsTrees, AfterCheckpoint;
    dirty, entries := map[], [];
    MergedFits(env, s, w, ks, r);
    ok, t', h' := MergeTree(p, s.store.chains, all, w, maxUsed, t, h);
    if !ok { return; }
    MergeKeysIs(s.tree, s.store.chains, all, w);
    if p.count > SENTINEL { ok := false; return; }
    var m := MetaPage(p.root, p.freeHead, p.count, Max(s.treeTs, w), s.store.nextTxnId + |r|);
    MetaReady(p.View(), t', h', m);
    assert m.nextTxnId < U64_LIMIT by { PlannedIds(s, w, ks, r); }
    assert PageFits(m) by { MetaFits(m); }
    dirty, entries := StagePages(crc, p, s.disk.pages, m, t', h');
    StagedStep(env, crc, s, p.View(), w, ks, r, m, t', h', dirty);
  }

  lemma PlannedIds(s: State, w: nat, ks: seq<Bytes>, r: seq<Retained>)
    requires Planned(s, w, ks, r)
    ensures s.store.nextTxnId + |r| < U64_LIMIT
  {
    hide IsRetained, IsWatermark, MergedChains;
  }

  lemma MetaFits(m: FilePage)
    requires m.MetaPage? && m.root < SENTINEL && PointerFits(m.freeHead) && m.count <= SENTINEL
    requires m.treeTs < U64_LIMIT && m.nextTxnId < U64_LIMIT
    ensures PageFits(m)
  {
  }

  /** Root and free list lie inside the file. */
  lemma MetaReady(d: BTreePager.Disk, t: BTree.Tree, h: nat, m: FilePage)
    requires BTreeStates.TreeIn(d, t, h) && d.count <= SENTINEL && m.MetaPage? && m.root == t.id && m.freeHead == BTreePages.Head(d.free)
    ensures d.count >= 1 && m.root < SENTINEL && PointerFits(m.freeHead)
  {
    hide BTreePages.Stored, BTreePages.Linked, BTree.Good, BTree.Ids, BTreePages.FreeAt, BTreePages.AllPages;
    OwnId(t, h);
    BTreePager.UsedOnce(d, BTree.Ids(t, h), t.id);
    if d.free != [] {
      BTreePager.UsedOnce(d, BTree.Ids(t, h), d.free[0]);
      assert d.free[0] in multiset(d.free);
    }
  }

  lemma StagedStep(env: Env, crc: Checksum, s: State, d: BTreePager.Disk, w: nat, ks: seq<Bytes>, r: seq<Retained>, m: FilePage,
                   t: BTree.Tree, h: nat, dirty: Pages)
    requires ReadsTrees(env) && env.crc == crc && Planned(s, w, ks, r) && BTreeStates.TreeIn(d, t, h)
    requires Staged(crc, s.disk.pages, d, m, dirty)
    requires m == MetaPage(t.id, BTreePages.Head(d.free), d.count, Max(s.treeTs, w), s.store.nextTxnId + |r|)
    requires BTreeRoot.Contents(t, h) == Overlay(s.tree, MergedWrites(s.store.chains, w))
    ensures Step(env, s, StartsCheckpoint(w, ks, r, dirty), AfterCheckpoint(s, w, r, dirty))
    ensures InFile(crc, s.disk.pages + dirty, d) && BTreeRoot.Contents(t, h) == AfterCheckpoint(s, w, r, dirty).tree
  {
    hide Planned, BTreeStates.TreeIn, BTreeRoot.Contents, Overlay, MergedWrites, MergedChains, RetainedRecords, Staged, Step, InFile, HoldsTree, Holds;
    var f := Found(t, h, d.free);
    FlushHoldsTree(crc, s.disk.pages, d, m, f, dirty);
    assert env.decode(s.disk.pages + dirty) == TreeImage(crc, s.disk.pages + dirty);
    StepTaken(env, s, w, ks, r, dirty);
  }

  // ---- from any reachable state ------------------------------------------------------

  /** The pager over a file that holds a tree. */
  method OpenPager(crc: Checksum, file: Pages, ghost m: FilePage, ghost f: Found) returns (p: BTreePager.Pager)
    requires HoldsTree(crc, file, m, f)
    ensures fresh(p) && p.Valid() && BTreeStates.TreeIn(p.View(), f.tree, f.height) && p.root == f.tree.id
  {
    hide BTreeStates.TreeIn, ReadPage, TreePages;
    var x := ReadPage(file[0], 0, crc).value;
    OpenFree(BTreePager.Disk(TreePages(crc, file), f.free, m.count), f.tree, f.height);
    p := new BTreePager.Pager(TreePages(crc, file), x.freeHead, x.count, x.root, f.free);
  }

  lemma OpenFree(d: BTreePager.Disk, t: BTree.Tree, h: nat)
    requires BTreeStates.TreeIn(d, t, h)
    ensures BTreePages.FreeAt(d.pages, d.free)
  {
    hide BTreePages.Stored, BTreePages.Linked, BTree.Good;
  }

  /** While the engine is open and no flush is under way, its file holds its tree. */
  lemma OpenFileHoldsTree(env: Env, states: seq<State>, events: seq<Event>, i: nat) returns (m: FilePage, f: Found)
    requires TreeRun(env, states, events) && i < |states| && (states[i].phase == Running || states[i].phase == Opening)
    ensures Inv(env, states[i]) && HoldsTree(env.crc, states[i].disk.pages, m, f)
    ensures BTreeRoot.Contents(f.tree, f.height) == states[i].tree
  {
    hide Inv, HoldsTree, Holds, IsRun, BTreeRoot.Contents, FlushHolds;
    var s := states[i];
    AlwaysATree(env, states, events, i);
    InvAlways(env, states, events, i);
    SettledFile(env, s);
    var image :| Holds(env.crc, s.disk.pages, image);
    m, f := TheTree(env.crc, s.disk.pages, image);
    assert env.decode(s.disk.pages) == TreeImage(env.crc, s.disk.pages);
  }

  lemma SettledFile(env: Env, s: State)
    requires Inv(env, s) && FlushHolds(env.crc, s) && (s.phase == Running || s.phase == Opening)
    ensures HoldsSome(env.crc, s.disk.pages) && env.decode(s.disk.pages).tree == s.tree
  {
    hide DiskOk, ValidLog, MemoryOk, Covers, ActiveFresh, HoldsSome;
  }

  /** From every state a run can reach with the engine open, a checkpoint goes through to
      the engine's step with a journal that fits its format, unless the merged tree would
      be too deep or page numbers have run out. */
  method TakeCheckpoint(ghost env: Env, crc: Checksum, s: State, w: nat, ks: seq<Bytes>, r: seq<Retained>, all: seq<Bytes>, maxUsed: nat,
                        ghost states: seq<State>, ghost events: seq<Event>, ghost i: nat)
    returns (ok: bool, dirty: Pages, entries: seq<FlushJournal.Entry>, target: nat, ghost t: BTree.Tree, ghost h: nat)
    requires TreeRun(env, states, events) && i < |states| && s == states[i] && env.crc == crc
    requires Planned(s, w, ks, r) && forall k :: k in all <==> k in s.store.chains
    ensures ok ==> Step(env, s, StartsCheckpoint(w, ks, r, dirty), AfterCheckpoint(s, w, r, dirty))
    ensures ok ==> FlushJournal.Journalable(entries, target) && FlushJournal.PagesOf(entries) == dirty
    ensures !ok ==> h > BTreeInsert.MAX_DEPTH || target > SENTINEL
    ensures ok ==> BTreeRoot.Contents(t, h) == AfterCheckpoint(s, w, r, dirty).tree
  {
    hide Inv, HoldsTree, Step, BTreeStates.TreeIn, BTreeRoot.Contents, AfterCheckpoint, FlushJournal.Journalable, FlushJournal.PagesOf, InFile;
    ghost var m, f;
    assert s.phase == Running || s.phase == Opening by { hide IsRetained, IsWatermark, MergedChains; }
    m, f := OpenFileHoldsTree(env, states, events, i);
    hide Planned;
    var p := OpenPager(crc, s.disk.pages, m, f);
    ok, dirty, entries, t, h := StageCheckpoint(env, crc, s, p, w, ks, r, all, maxUsed, f.tree, f.height);
    target := p.count;
  }

  // ---- a new database -----------------------------------------------------------------

  function NewDatabase(pages: Pages): State {
    State(Disk(pages, NoJournal, [], 0), Down, Store(map[], 1, 1, map[]), map[], 0, [], 0)
  }

  /** An empty database file: one empty leaf and the meta page. Runs start from it. */
  method CreateFile(crc: Checksum) returns (pages: Pages)
    ensures Holds(crc, pages, Image(map[], 0, 1))
    ensures forall sync :: TreeRun(TreeEnv(crc, sync), [NewDatabase(pages)], [])
  {
    hide BTreeStates.TreeIn, BTreeRoot.Contents, Holds, HoldsTree, PageFits, AllShort, ReadsTrees, Staged, ReadPage;
    ghost var t := BTree.Leaf(1, []);
    EmptyTree();
    NoFree(map[1 := BTreePages.LeafPage([], None)]);
    var p := new BTreePager.Pager(map[1 := BTreePages.LeafPage([], None)], None, 2, 1, []);
    var m := MetaPage(1, None, 2, 0, 1);
    MetaFits(m);
    var dirty, entries := StagePages(crc, p, map[], m, t, 0);
    pages := map[] + dirty;
    FlushHoldsTree(crc, map[], p.View(), m, Found(t, 0, []), dirty);
    forall sync ensures TreeRun(TreeEnv(crc, sync), [NewDatabase(pages)], []) { FirstState(crc, sync, pages); }
  }

  lemma EmptyTree()
    ensures BTreeStates.TreeIn(BTreePager.Disk(map[1 := BTreePages.LeafPage([], None)], [], 2), BTree.Leaf(1, []), 0)
    ensures BTreeRoot.Contents(BTree.Leaf(1, []), 0) == map[] && AllShort(map[])
  {
    var t := BTree.Leaf(1, []);
    assert BTree.Leaves(t, 0) == [t];
    assert BTree.Flat([t]) == [] by { assert [t][..0] == []; }
    assert BTreePages.AllPages(1) == multiset{};
  }

  lemma NoFree(pages: BTreePages.Pages)
    ensures BTreePages.FreeAt(pages, [])
  {
  }

  lemma FirstState(crc: Checksum, sync: bool, pages: Pages)
    requires Holds(crc, pages, Image(map[], 0, 1))
    ensures TreeRun(TreeEnv(crc, sync), [NewDatabase(pages)], [])
  {
    hide Holds;
    var env := TreeEnv(crc, sync);
    assert env.decode(pages) == TreeImage(crc, pages);
  }
}
