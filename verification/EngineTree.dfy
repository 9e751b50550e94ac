/** The durable engine over a real page file: the pages of a flush hold a B+Tree and a
    meta page, and every crash leaves such a file behind. */
module EngineTree {
  import opened Bytes
  import opened Wrappers
  import opened History
  import opened VersionStore
  import opened Wal
  import opened Engine
  import opened EngineInvariant
  import opened EngineSafety
  import opened EngineSteps
  import opened EngineTheorems
  import opened EngineFlush
  import BTree
  import BTreePages
  import BTreePager
  import BTreeStates
  import BTreeRoot
  import BTreeInsert
  import BTreeCheck
  import BTreeVerify
  import BTreeRead
  import BTreeDeleteSteps
  import PageFormat

  type FilePage = PageFormat.FilePage

  /** Page `p` of the file reads as `x`. */
  predicate Reads(crc: Checksum, pages: Pages, p: nat, x: FilePage) {
    p in pages && PageFormat.ReadPage(pages[p], p, crc) == Some(x)
  }

  predicate IsTreePage(crc: Checksum, p: nat, b: Bytes) {
    var x := PageFormat.ReadPage(b, p, crc);
    p != 0 && x.Some? && x.value.TreePage?
  }

  /** The tree pages of a file, decoded. */
  function TreePages(crc: Checksum, pages: Pages): BTreePages.Pages {
    map p | p in pages && IsTreePage(crc, p, pages[p]) :: PageFormat.ReadPage(pages[p], p, crc).value.page
  }

  lemma TreePagesAt(crc: Checksum, pages: Pages, p: nat, page: BTreePages.Page)
    requires p != 0
    ensures p in TreePages(crc, pages) && TreePages(crc, pages)[p] == page <==> Reads(crc, pages, p, PageFormat.TreePage(page))
  {
    hide PageFormat.ReadPage;
  }

  /** A tree in the file, found through the meta page. */
  datatype Found = Found(tree: BTree.Tree, height: nat, free: seq<nat>)

  ghost predicate HasMeta(crc: Checksum, pages: Pages, m: FilePage) {
    Reads(crc, pages, 0, m) && m.MetaPage?
  }

  ghost predicate HoldsTree(crc: Checksum, pages: Pages, m: FilePage, f: Found) {
    && HasMeta(crc, pages, m) && f.tree.id == m.root && m.freeHead == BTreePages.Head(f.free)
    && BTreeStates.TreeIn(BTreePager.Disk(TreePages(crc, pages), f.free, m.count), f.tree, f.height)
  }

  ghost function ImageOf(m: FilePage, f: Found): Image
    requires m.MetaPage?
  {
    Image(BTreeRoot.Contents(f.tree, f.height), m.treeTs, m.nextTxnId)
  }

  ghost predicate Holds(crc: Checksum, pages: Pages, image: Image) {
    exists m: FilePage, f: Found :: HoldsTree(crc, pages, m, f) && image == ImageOf(m, f)
  }

  /** A file determines the tree it holds. */
  lemma HoldsOnce(crc: Checksum, pages: Pages, a: Image, b: Image)
    requires Holds(crc, pages, a) && Holds(crc, pages, b)
    ensures a == b
  {
    hide BTreeStates.TreeIn;
    var m: FilePage, f: Found :| HoldsTree(crc, pages, m, f) && a == ImageOf(m, f);
    var n: FilePage, g: Found :| HoldsTree(crc, pages, n, g) && b == ImageOf(n, g);
    TreeSane(crc, pages, m, f);
    TreeSane(crc, pages, n, g);
    BTreeCheck.SaneOnce(TreePages(crc, pages), f.tree, g.tree, None, None, f.height, g.height);
  }

  lemma TreeSane(crc: Checksum, pages: Pages, m: FilePage, f: Found)
    requires HoldsTree(crc, pages, m, f)
    ensures BTreeCheck.Sane(TreePages(crc, pages), f.tree, None, None, f.height)
  {
    hide TreePages, BTreePages.Linked, BTreePager.Whole;
    BTreeVerify.StoredIsSane(TreePages(crc, pages), f.tree, None, None, f.height);
  }

  /** What opening reads from a page file. */
  ghost function TreeImage(crc: Checksum, pages: Pages): (image: Image)
    ensures forall x | Holds(crc, pages, x) :: image == x
  {
    if x :| Holds(crc, pages, x) then
      assert forall y | Holds(crc, pages, y) :: y == x by {
        forall y | Holds(crc, pages, y) ensures y == x { HoldsOnce(crc, pages, x, y); }
      }
      x
    else Image(map[], 0, 0)
  }

  /** An engine whose page files are read as trees. */
  ghost predicate ReadsTrees(env: Env) {
    forall pages :: env.decode(pages) == TreeImage(env.crc, pages)
  }

  /** There is one for every checksum. */
  ghost function TreeEnv(crc: Checksum, sync: bool): (env: Env)
    ensures ReadsTrees(env) && env.crc == crc && env.syncOnCommit == sync
  {
    Env(crc, (pages: Pages) => TreeImage(crc, pages), sync)
  }

  // ---- a flush ---------------------------------------------------------------

  /** The pages a flush stages: every tree page that is not in the file as it should be,
      and the meta page. */
  ghost predicate Staged(crc: Checksum, pages: Pages, now: BTreePager.Disk, m: FilePage, dirty: Pages) {
    && m.MetaPage? && Reads(crc, dirty, 0, m)
    && (forall p: nat | 1 <= p < now.count && p in now.pages ::
          Reads(crc, if p in dirty then dirty else pages, p, PageFormat.TreePage(now.pages[p])))
  }

  /** Whatever the tree operations did to the pages since the last flush, the staged
      pages laid over the file make it hold the new tree. */
  lemma FlushHoldsTree(crc: Checksum, pages: Pages, now: BTreePager.Disk, m: FilePage, f: Found, dirty: Pages)
    requires BTreeStates.TreeIn(now, f.tree, f.height) && now.free == f.free
    requires Staged(crc, pages, now, m, dirty) && m.root == f.tree.id && m.freeHead == BTreePages.Head(f.free) && m.count == now.count
    ensures HoldsTree(crc, pages + dirty, m, f) && Holds(crc, pages + dirty, ImageOf(m, f))
    ensures InFile(crc, pages + dirty, now)
  {
    hide BTreeStates.TreeIn, BTreeRoot.Contents, PageFormat.ReadPage, TreePages;
    var after := TreePages(crc, pages + dirty);
    forall p: nat | 1 <= p < now.count && p in now.pages ensures Reads(crc, pages + dirty, p, PageFormat.TreePage(now.pages[p])) {}
    assert InFile(crc, pages + dirty, now);
    forall p: nat | 1 <= p < now.count && p in now.pages ensures p in after && after[p] == now.pages[p] {
      TreePagesAt(crc, pages + dirty, p, now.pages[p]);
    }
    SamePagesTree(now, after, f.tree, f.height);
    assert HoldsTree(crc, pages + dirty, m, f);
  }

  /** The file holds a pager's pages. */
  ghost predicate InFile(crc: Checksum, pages: Pages, d: BTreePager.Disk) {
    forall p: nat | 1 <= p < d.count && p in d.pages :: Reads(crc, pages, p, PageFormat.TreePage(d.pages[p]))
  }

  /** Pages outside the file's declared size are no part of the tree. */
  lemma SamePagesTree(d: BTreePager.Disk, pages: BTreePages.Pages, t: BTree.Tree, h: nat)
    requires BTreeStates.TreeIn(d, t, h)
    requires forall p: nat | 1 <= p < d.count && p in d.pages :: p in pages && pages[p] == d.pages[p]
    ensures BTreeStates.TreeIn(BTreePager.Disk(pages, d.free, d.count), t, h)
  {
    hide BTree.Good, BTreePages.Stored, BTreePages.FreeAt, BTreePages.AllPages, BTree.Ids, BTree.Leaves, BTreePages.LinkOk;
    var ids := BTree.Ids(t, h);
    forall p | p in ids && p in d.pages ensures p in pages && pages[p] == d.pages[p] { BTreePager.UsedOnce(d, ids, p); }
    forall p | p in d.free && p in d.pages ensures p in pages && pages[p] == d.pages[p] {
      BTreePager.UsedOnce(d, ids, p);
      assert p in multiset(d.free);
    }
    BTreePages.StoredFrame(d.pages, pages, t, h);
    BTreePages.FreeFrame(d.pages, pages, d.free);
    SamePagesLinked(d.pages, pages, t, h);
  }

  lemma SamePagesLinked(pages: BTreePages.Pages, pages': BTreePages.Pages, t: BTree.Tree, h: nat)
    requires BTreePages.Linked(pages, BTree.Leaves(t, h)) && BTreePages.SameOn(pages, pages', BTree.Ids(t, h))
    ensures BTreePages.Linked(pages', BTree.Leaves(t, h))
  {
    hide BTree.Ids, BTree.Leaves;
    var leaves := BTree.Leaves(t, h);
    BTreeDeleteSteps.LeafIdsWithin(t, h);
    forall i | 0 <= i < |leaves| ensures BTreePages.LinkOk(pages', leaves, i) {
      BTreeDeleteSteps.RowIdsHas(leaves, i);
      assert BTreePages.LinkOk(pages, leaves, i);
    }
  }

  // ---- whole runs ------------------------------------------------------------

  /** A run that starts from a file holding a tree. */
  ghost predicate TreeRun(env: Env, states: seq<State>, events: seq<Event>) {
    IsRun(env, states, events) && ReadsTrees(env) && HoldsSome(env.crc, states[0].disk.pages)
  }

  ghost predicate HoldsSome(crc: Checksum, pages: Pages) {
    exists image :: Holds(crc, pages, image)
  }

  ghost predicate FlushHolds(crc: Checksum, s: State) {
    && HoldsSome(crc, RecoveredPages(s.disk))
    && (s.phase.Journaling? ==> HoldsSome(crc, s.disk.pages + s.phase.dirty))
  }

  /** While the engine is open, transaction ids have started from one. */
  ghost predicate Counting(s: State) {
    s.phase.Down? || s.phase.Replaying? || s.phase.Unjournaling? || s.store.nextTxnId >= 1
  }

  lemma {:induction false} ReplayTxnCounts(store: Store, ts: nat, ops: seq<Op>)
    ensures ReplayTxn(store, ts, ops).nextTxnId == store.nextTxnId
  {
    if ops != [] { ReplayTxnCounts(store, ts, ops[..|ops| - 1]); }
  }

  lemma {:induction false} ReplayCounts(store: Store, committed: seq<(nat, seq<Op>)>, treeTs: nat)
    ensures Replay(store, committed, treeTs).nextTxnId == store.nextTxnId
  {
    hide ReplayTxn;
    if committed != [] {
      var n := |committed| - 1;
      ReplayCounts(store, committed[..n], treeTs);
      ReplayTxnCounts(Replay(store, committed[..n], treeTs), committed[n].0, committed[n].1);
    }
  }

  lemma StepCounts(env: Env, s: State, e: Event, s': State)
    requires Step(env, s, e, s') && Counting(s)
    ensures Counting(s')
  {
    hide IsRetained, IsWatermark, Overlay, MergedWrites, MergedChains, Parse, EncodeLog, ListsInOrder, Conflicts, VersionStore.Publish, ReadTxn,
      LogAfterCrash, Replay, Redo, RedoOrder, MaxTxnId;
    if e.Recovers? {
      var image, p := env.decode(s.disk.pages), Parse(s.disk.wal, env.crc);
      ReplayCounts(Store(map[], Max(image.treeTs + 1, 1), Max(Max(image.nextTxnId, 1), MaxTxnId(p.records) + 1), map[]),
                   Redo(p.records, e.order), image.treeTs);
    }
  }

  lemma {:induction false} AlwaysCounting(env: Env, states: seq<State>, events: seq<Event>, i: nat)
    requires IsRun(env, states, events) && i < |states|
    ensures Counting(states[i])
  {
    hide Step, Counting;
    if i == 0 {
      assert Counting(states[0]) by { InitialFile(env, states[0]); }
    } else {
      AlwaysCounting(env, states, events, i - 1);
      StepCounts(env, states[i - 1], events[i - 1], states[i]);
    }
  }

  /** A file that is no tree reads as an empty one without a counter, so what a checkpoint
      stages holds a tree. */
  lemma CheckpointStagesTree(env: Env, s: State, e: Event, s': State)
    requires ReadsTrees(env) && Counting(s) && Step(env, s, e, s') && e.StartsCheckpoint?
    ensures HoldsSome(env.crc, s.disk.pages + e.dirty)
  {
    hide IsRetained, IsWatermark, Overlay, MergedWrites, MergedChains, Holds;
    var pages := s.disk.pages + e.dirty;
    assert env.decode(pages) == TreeImage(env.crc, pages);
    if !HoldsSome(env.crc, pages) { NoTree(env.crc, pages); }
  }

  lemma NoTree(crc: Checksum, pages: Pages)
    requires !HoldsSome(crc, pages)
    ensures TreeImage(crc, pages).nextTxnId == 0
  {
    hide Holds;
  }

  /** At every moment, whatever crash struck, recovery leads to a file that holds a tree. */
  lemma {:induction false} AlwaysATree(env: Env, states: seq<State>, events: seq<Event>, i: nat)
    requires TreeRun(env, states, events) && i < |states|
    ensures FlushHolds(env.crc, states[i])
  {
    hide Inv, Step, Holds, ReadsTrees, HoldsSome, Counting;
    if i == 0 {
      InitialFile(env, states[0]);
    } else {
      AlwaysATree(env, states, events, i - 1);
      InvAlways(env, states, events, i - 1);
      AlwaysCounting(env, states, events, i - 1);
      var s, e, s' := states[i - 1], events[i - 1], states[i];
      assert Step(env, s, e, s');
      if s.phase.Journaling? {
        JournalingEnds(env, s, e, s');
      } else {
        StepKeepsPages(env, s, e, s');
        EntersFlush(env, s, e, s');
        if e.StartsCheckpoint? { CheckpointStagesTree(env, s, e, s'); }
      }
    }
  }

  lemma InitialFile(env: Env, s: State)
    requires Init(env, s)
    ensures RecoveredPages(s.disk) == s.disk.pages && !s.phase.Journaling? && Counting(s)
  {
  }

  lemma EntersFlush(env: Env, s: State, e: Event, s': State)
    requires Step(env, s, e, s') && !s.phase.Journaling?
    ensures s'.phase.Journaling? ==> e.StartsCheckpoint? && s'.disk == s.disk && s'.phase.dirty == e.dirty
  {
    hide IsRetained, IsWatermark, Overlay, MergedWrites, MergedChains, Parse, EncodeLog, ListsInOrder, Conflicts, VersionStore.Publish, ReadTxn,
      LogAfterCrash, Replay, Redo, RedoOrder, MaxTxnId;
  }

  /** Crash safety down to the pages. Crash anywhere, recover: the page file holds a
      B+Tree that the structural check accepts and whose every value can be read, with
      no page leaked; the tree recovery loads is its contents; and tree and replayed log
      together read as the fold of a prefix of the commits with every acknowledged one. */
  lemma TreeCrashSafety(env: Env, states: seq<State>, events: seq<Event>, i: nat)
    returns (m: FilePage, f: Found, n: nat)
    requires TreeRun(env, states, events) && i < |events| && events[i].Recovers?
    ensures HoldsTree(env.crc, states[i].disk.pages, m, f) && states[i + 1].tree == BTreeRoot.Contents(f.tree, f.height)
    ensures states[i + 1].treeTs == m.treeTs
    ensures f.height < BTreeInsert.MAX_DEPTH ==>
              && BTreeVerify.WellFormedFile(TreePages(env.crc, states[i].disk.pages), m.root, m.freeHead, m.count, f.tree, f.height, f.free)
              && |BTreeCheck.PagesOf(f.tree, f.height)| + |f.free| + 1 == m.count
              && BTreeRead.AllReadable(BTree.Flat(BTree.Leaves(f.tree, f.height)), m.count)
    ensures states[i].acked <= n <= |states[i].log|
    ensures forall k :: ReadLatest(states[i + 1], k) == Get(Fold(states[i].log[..n]), k)
  {
    hide Step, Holds, HoldsTree, Fold, ReadLatest, BTreeStates.TreeIn, BTreeVerify.WellFormedFile, BTreeRead.AllReadable;
    var s := states[i];
    AlwaysATree(env, states, events, i);
    assert RecoverLog(env, s, states[i + 1], events[i].order) by { RunStep(env, states, events, i); }
    RecoverReadsPages(env, s, states[i + 1], events[i].order);
    hide RecoverLog;
    var image :| Holds(env.crc, s.disk.pages, image);
    m, f := TheTree(env.crc, s.disk.pages, image);
    assert env.decode(s.disk.pages) == TreeImage(env.crc, s.disk.pages);
    if f.height < BTreeInsert.MAX_DEPTH {
      FoundTree(env.crc, s.disk.pages, m, f);
    }
    n := CrashSafety(env, states, events, i);
  }

  lemma RunStep(env: Env, states: seq<State>, events: seq<Event>, i: nat)
    requires IsRun(env, states, events) && i < |events| && events[i].Recovers?
    ensures RecoverLog(env, states[i], states[i + 1], events[i].order)
  {
    hide RecoverLog;
    assert Step(env, states[i], events[i], states[i + 1]);
  }

  lemma TheTree(crc: Checksum, pages: Pages, image: Image) returns (m: FilePage, f: Found)
    requires Holds(crc, pages, image)
    ensures HoldsTree(crc, pages, m, f) && image == ImageOf(m, f)
  {
    m, f :| HoldsTree(crc, pages, m, f) && image == ImageOf(m, f);
  }

  lemma FoundTree(crc: Checksum, pages: Pages, m: FilePage, f: Found)
    requires HoldsTree(crc, pages, m, f) && f.height < BTreeInsert.MAX_DEPTH
    ensures BTreeVerify.WellFormedFile(TreePages(crc, pages), m.root, m.freeHead, m.count, f.tree, f.height, f.free)
    ensures |BTreeCheck.PagesOf(f.tree, f.height)| + |f.free| + 1 == m.count
    ensures BTreeRead.AllReadable(BTree.Flat(BTree.Leaves(f.tree, f.height)), m.count)
  {
    hide BTreeStates.TreeIn, BTreeVerify.WellFormedFile, BTreeRead.AllReadable, TreePages;
    var d := BTreePager.Disk(TreePages(crc, pages), f.free, m.count);
    BTreeVerify.EngineTreePasses(d, f.tree, f.height);
    BTreeRead.EngineTreeReads(d, f.tree, f.height);
  }
}
