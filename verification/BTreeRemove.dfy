/** Removing an emptied leaf together with the ancestors only it kept alive. */
module BTreeRemove {
  import opened Bytes
  import opened Wrappers
  import opened BTree
  import opened BTreePages
  import opened BTreeZipper
  import opened BTreePager
  import opened BTreeEdit
  import opened BTreeStates
  import opened BTreeInsertSteps
  import opened BTreeInsert
  import opened BTreeOps
  import opened BTreeMap
  import opened BTreeRoot
  import opened BTreeDeleteSteps
  import opened BTreeDelete

  // ---- the root ------------------------------------------------------------

  lemma CollapseStep(d: Disk, t: Tree, h: nat)
    requires TreeIn(d, t, h) && t.Node? && t.seps == []
    ensures h > 0 && |t.kids| == 1 && t.id in d.pages && d.pages[t.id] == NodePage(t.kids[0].id, [])
    ensures TreeIn(Released(d, t.id), t.kids[0], h - 1) && Leaves(t, h) == Leaves(t.kids[0], h - 1)
    ensures t.id !in d.free && 1 <= t.id < d.count
  {
    hide Good, Linked, Whole, Leaves, Ids, Stored, TreeIn;
    CollapseParts(d, t, h);
    CollapseIds(t, h);
    var kid, d' := t.kids[0], Released(d, t.id);
    var used := Ids(kid, h - 1);
    ReleaseKeeps(d, used, t.id);
    NotFree(d, used + multiset{t.id}, t.id);
    StoredFrame(d.pages, d'.pages, kid, h - 1);
    OneUsed(kid, h - 1);
    RowSame(d.pages, d'.pages, Leaves(kid, h - 1), used);
    IntroTree(d', kid, h - 1);
  }

  lemma IntroTree(d: Disk, t: Tree, h: nat)
    requires Stored(d.pages, t, h) && Linked(d.pages, Leaves(t, h)) && Whole(d, Ids(t, h)) && Good(t, None, None, h)
    ensures TreeIn(d, t, h)
  {
  }

  lemma CollapseParts(d: Disk, t: Tree, h: nat)
    requires TreeIn(d, t, h) && t.Node? && t.seps == []
    ensures h > 0 && |t.kids| == 1 && t.id in d.pages && d.pages[t.id] == NodePage(t.kids[0].id, [])
    ensures Stored(d.pages, t.kids[0], h - 1) && Good(t.kids[0], None, None, h - 1)
    ensures Linked(d.pages, Leaves(t, h)) && Whole(d, Ids(t, h))
  {
    hide Good, Linked, Whole, Leaves, Ids, Stored;
    GoodKid(t, None, None, h, 0) by { SomeKid(t, None, None, h); }
    StoredNode(d.pages, t, h);
  }

  lemma SomeKid(t: Tree, lo: Option<Bytes>, hi: Option<Bytes>, h: nat)
    requires Good(t, lo, hi, h) && t.Node?
    ensures h > 0 && |t.kids| == |t.seps| + 1
  {
    hide SepsOk;
  }

  lemma CollapseIds(t: Tree, h: nat)
    requires t.Node? && |t.kids| == 1 && h > 0
    ensures Leaves(t, h) == Leaves(t.kids[0], h - 1) && Ids(t, h) == Ids(t.kids[0], h - 1) + multiset{t.id}
  {
    hide Leaves, Ids, LeavesAll, IdsAll;
    assert t.kids == [t.kids[0]];
    NodeLeaves(t, h);
    LeavesOne(t.kids[0], h - 1);
  }

  lemma OneUsed(t: Tree, h: nat)
    ensures RowIn(Leaves(t, h), Ids(t, h))
  {
    hide Leaves, Ids;
    forall x | x in Leaves(t, h) ensures x.id in Ids(t, h) { LeafIdUsed(t, h, x); }
  }

  lemma RootPageKind(d: Disk, t: Tree, h: nat)
    requires TreeIn(d, t, h)
    ensures t.id in d.pages && (t.Node? <==> d.pages[t.id].NodePage?)
    ensures t.Node? ==> |d.pages[t.id].seps| == |t.seps|
  {
    hide Good, Linked, Whole, Leaves, Ids, StoredAll, ChainsAt;
  }

  /** A root left with a single child hands the tree to that child. */
  method CollapseRoot(p: Pager, ghost t: Tree, ghost h: nat) returns (ghost t': Tree, ghost h': nat)
    requires p.Valid() && TreeIn(p.View(), t, h) && p.root == t.id
    modifies p`pages, p`freeHead, p`free, p`root
    ensures p.Valid() && TreeIn(p.View(), t', h') && p.root == t'.id && h' <= h && Leaves(t', h') == Leaves(t, h)
    ensures t'.Leaf? || t'.seps != []
  {
    hide TreeIn, FreeAt, Leaves;
    t', h' := t, h;
    RootPageKind(p.View(), t', h');
    while p.pages[p.root].NodePage? && p.pages[p.root].seps == []
      invariant p.Valid() && TreeIn(p.View(), t', h') && p.root == t'.id && h' <= h && Leaves(t', h') == Leaves(t, h)
      invariant p.root in p.pages && (t'.Node? <==> p.pages[p.root].NodePage?) && (t'.Node? ==> |p.pages[p.root].seps| == |t'.seps|)
      decreases h'
    {
      CollapseStep(p.View(), t', h');
      var was := p.root;
      p.root := p.pages[p.root].first;
      var freed := p.ReleasePage(was);
      t', h' := t'.kids[0], h' - 1;
      RootPageKind(p.View(), t', h');
    }
  }

  // ---- orphaned ancestors --------------------------------------------------

  lemma LastFrame(path: Path, k: nat)
    requires PathOk(path) && 0 < k <= |path|
    ensures path[..k] == path[..k - 1] + [path[k - 1]] && PathOk(path[..k]) && PathOk(path[..k - 1]) && FrameOk(path[k - 1])
  {
  }

  lemma OrphanSides(path: Path, f: Frame, h: nat)
    requires PathOk(path) && FrameOk(f) && f.seps == []
    ensures PathOk(path + [f])
    ensures LeftLeaves(path + [f], h) == LeftLeaves(path, h + 1) && RightLeaves(path + [f], h) == RightLeaves(path, h + 1)
  {
    hide LeftLeaves, RightLeaves, PathIds;
    PathSnoc(path, f, h);
    assert f.slot == 0 && f.kids[..0] == [] && f.kids[1..] == [];
    NoLeaves(h);
  }

  /** What is known after popping down to `k` frames. */
  ghost predicate Popped(d: Disk, path: Path, k: nat, child: nat, leaf: Tree, sub: Tree, gone: seq<nat>) {
    && k <= |path| && PathOk(path) && PathOk(path[..k])
    && Doomed(d, path[..k], child, leaf, |path| - k, gone)
    && Good(Plug(path[..k], sub), None, None, |path|)
    && LeftLeaves(path[..k], |path| - k) == LeftLeaves(path, 0) && RightLeaves(path[..k], |path| - k) == RightLeaves(path, 0)
  }

  lemma PoppedPage(d: Disk, path: Path, k: nat, child: nat, leaf: Tree, sub: Tree, gone: seq<nat>)
    requires Popped(d, path, k, child, leaf, sub, gone) && k > 0
    ensures var f := path[k - 1];
            FrameOk(f) && f.id in d.pages && d.pages[f.id].NodePage? && |d.pages[f.id].seps| == |f.seps|
  {
    hide Doomed, Good, Plug, LeftLeaves, RightLeaves, FrameStored;
    LastFrame(path, k);
    AnchorPage(d, path[..k - 1], path[k - 1], child, leaf, |path| - k, gone);
    FrameImage(d.pages, path[k - 1], child, |path| - k);
  }

  lemma PopOne(d: Disk, path: Path, k: nat, child: nat, leaf: Tree, sub: Tree, gone: seq<nat>)
    requires Popped(d, path, k, child, leaf, sub, gone) && k > 0 && FrameOk(path[k - 1]) && path[k - 1].seps == []
    ensures Popped(d, path, k - 1, path[k - 1].id, leaf, Fill(path[k - 1], sub), gone + [path[k - 1].id])
  {
    hide Doomed, Good, Plug, LeftLeaves, RightLeaves, Fill;
    var f, up, h := path[k - 1], path[..k - 1], |path| - k;
    LastFrame(path, k);
    OrphanUp(d, up, f, child, leaf, h, gone);
    OrphanSides(up, f, h);
    PlugStep(path[..k], sub);
    assert path[..k][..k - 1] == up && path[..k][k - 1] == f;
  }

  /** Ancestors directly above the leaf that have no other child. */
  method PopOrphans(p: Pager, id: nat, steps: seq<Step>, ghost path: Path, ghost leaf: Tree)
    returns (k: nat, orphaned: seq<nat>, ghost child: nat, ghost sub: Tree)
    requires p.Valid() && Traces(path, steps) && Popped(p.View(), path, |path|, id, leaf, leaf, [id])
    ensures Popped(p.View(), path, k, child, leaf, sub, [id] + orphaned)
    ensures k > 0 ==> k <= |path| && path[k - 1].seps != []
  {
    hide Popped, FreeAt, FrameOk, Fill;
    k, orphaned := |steps|, [];
    child, sub := id, leaf;
    assert [id] + orphaned == [id];
    while k > 0
      invariant 0 <= k <= |path| && Popped(p.View(), path, k, child, leaf, sub, [id] + orphaned)
    {
      PoppedPage(p.View(), path, k, child, leaf, sub, [id] + orphaned);
      var page := p.pages[steps[k - 1].id];
      if page.seps != [] { return; }
      PopOne(p.View(), path, k, child, leaf, sub, [id] + orphaned);
      assert [id] + orphaned + [path[k - 1].id] == [id] + (orphaned + [path[k - 1].id]);
      orphaned := orphaned + [steps[k - 1].id];
      child, sub := path[k - 1].id, Fill(path[k - 1], sub);
      k := k - 1;
    }
  }

  lemma FrameImage(pages: Pages, f: Frame, child: nat, h: nat)
    requires FrameOk(f) && FrameStored(pages, f, child, h)
    ensures f.id in pages && pages[f.id].NodePage? && |pages[f.id].seps| == |f.seps|
  {
    hide StoredAll;
  }

  // ---- the whole removal ---------------------------------------------------

  lemma LastLeafRoot(d: Disk, child: nat, leaf: Tree, h: nat, id: nat, orphaned: seq<nat>, page: Page)
    requires Doomed(d, [], child, leaf, h, [id] + orphaned) && leaf.id == id && leaf.Leaf?
    requires id in d.pages && d.pages[id].LeafPage? && page == LeafPage([], d.pages[id].next)
    ensures SettledBut(Written(d, id, page), [], Leaf(id, []), 0, orphaned) && id !in d.free
  {
    hide Whole, Linked;
    var d', root, gone := Written(d, id, page), Leaf(id, []), [id] + orphaned;
    assert PathIds([], h) + multiset(gone) == multiset(orphaned) + multiset{id};
    WriteKeeps(d, multiset(orphaned) + multiset{id}, multiset(orphaned), id, page);
    NotFree(d, multiset(orphaned) + multiset{id}, id);
    assert Ids(root, 0) == multiset{id};
    assert PathIds([], 0) + Ids(root, 0) + multiset(orphaned) == multiset(orphaned) + multiset{id};
    assert [] + [leaf] + [] == [leaf] && [] + Leaves(root, 0) + [] == [root];
    LoneLink(d.pages, d'.pages, leaf, root);
    EmptyGood();
  }

  lemma LoneLink(pages: Pages, pages': Pages, leaf: Tree, root: Tree)
    requires Linked(pages, [leaf]) && leaf.id == root.id && root.id in pages'
    requires pages'[root.id].LeafPage? && leaf.id in pages && pages[leaf.id].LeafPage? && pages'[root.id].next == pages[leaf.id].next
    ensures Linked(pages', [root])
  {
    assert LinkOk(pages, [leaf], 0);
  }

  lemma EmptyGood()
    ensures EntriesOk([], None, None) && LeafBytes([]) == 0
  {
  }

  /** Unlinks the emptied leaf and everything that goes with it. */
  method RemoveEmptyLeaf(p: Pager, id: nat, next: Option<nat>, steps: seq<Step>, ghost path: Path, ghost leaf: Tree)
    returns (ghost t': Tree, ghost h': nat)
    requires p.Valid() && Traces(path, steps) && Popped(p.View(), path, |path|, id, leaf, leaf, [id]) && leaf.id == id
    requires id in p.pages && p.pages[id].LeafPage? && next == p.pages[id].next && p.root == (if path == [] then id else TopId(path))
    modifies p`pages, p`freeHead, p`free, p`root
    ensures p.Valid() && TreeIn(p.View(), t', h') && p.root == t'.id && h' <= |path|
    ensures PathOk(path) && Flat(Leaves(t', h')) == Flat(LeftLeaves(path, 0)) + Flat(RightLeaves(path, 0))
  {
    hide Popped, Doomed, Good, Plug, FreeAt, TreeIn, LeftLeaves, RightLeaves, PathOk, FrameOk, Settled, SettledBut, Leaves, Flat, Linked, Whole;
    ghost var child, sub;
    var k, orphaned;
    k, orphaned, child, sub := PopOrphans(p, id, steps, path, leaf);
    PoppedFacts(p.View(), path, k, child, leaf, sub, [id] + orphaned);
    if k == 0 {
      assert path[..0] == [];
      LastLeafRoot(p.View(), child, leaf, |path|, id, orphaned, LeafPage([], next));
      p.WritePage(id, LeafPage([], next));
      p.root := id;
      t', h' := Leaf(id, []), 0;
      FreeAll(p, orphaned, [], t', 0);
      WholeTree(p.View(), t', 0);
      OnlyLeafFlat(id, |path|);
      return;
    }
    t', h' := DropChild(p, id, next, steps[..k], orphaned, path[..k], child, leaf, sub, |path| - k);
    t', h' := CollapseRoot(p, t', h');
    FlatConcat(LeftLeaves(path, 0), RightLeaves(path, 0));
  }

  lemma PoppedFacts(d: Disk, path: Path, k: nat, child: nat, leaf: Tree, sub: Tree, gone: seq<nat>)
    requires Popped(d, path, k, child, leaf, sub, gone)
    ensures k <= |path| && PathOk(path) && PathOk(path[..k]) && leaf.Leaf?
    ensures Doomed(d, path[..k], child, leaf, |path| - k, gone) && Good(Plug(path[..k], sub), None, None, |path|)
    ensures LeftLeaves(path[..k], |path| - k) == LeftLeaves(path, 0) && RightLeaves(path[..k], |path| - k) == RightLeaves(path, 0)
  {
    hide Good, Plug, LeftLeaves, RightLeaves;
  }

  lemma OnlyLeafFlat(id: nat, h: nat)
    ensures Flat(Leaves(Leaf(id, []), 0)) == [] && LeftLeaves([], h) == [] && RightLeaves([], h) == [] && Flat([]) == []
  {
    FlatOne(Leaf(id, []));
  }

  /** The predecessor skips the leaf, the anchor drops it, its pages are freed. */
  method DropChild(p: Pager, id: nat, next: Option<nat>, steps: seq<Step>, orphaned: seq<nat>,
                   ghost path: Path, ghost child: nat, ghost leaf: Tree, ghost sub: Tree, ghost h: nat)
    returns (ghost t': Tree, ghost h': nat)
    requires p.Valid() && PathOk(path) && steps != [] && Traces(path, steps) && leaf.id == id && leaf.Leaf?
    requires Doomed(p.View(), path, child, leaf, h, [id] + orphaned) && Good(Plug(path, sub), None, None, h + |path|)
    requires path[|path| - 1].seps != []
    requires id in p.pages && p.pages[id].LeafPage? && next == p.pages[id].next
    modifies p`pages, p`freeHead, p`free
    ensures p.Valid() && TreeIn(p.View(), t', h') && p.root == old(p.root) && h' == h + |path| && t'.id == TopId(path)
    ensures Leaves(t', h') == LeftLeaves(path, h) + RightLeaves(path, h)
  {
    hide Doomed, Good, Plug, FreeAt, TreeIn, LeftLeaves, RightLeaves, Settled, SettledBut, Leaves;
    var last := |steps| - 1;
    ghost var f, up := path[last], path[..last];
    LastFrame(path, |path|);
    assert path == up + [f];
    SkipLeaf(p, id, next, steps, path, child, leaf, sub, h, [id] + orphaned);
    var anchor, slot := steps[last].id, steps[last].slot;
    RewriteAnchor(p, anchor, slot, up, f, child, sub, h, [id] + orphaned);
    FreeAll(p, [id] + orphaned, up, AnchorWithout(f), h + 1);
    t', h' := Plug(up, AnchorWithout(f)), h + |path|;
    DroppedTree(p.View(), path, up, f, sub, h);
  }

  lemma DroppedTree(d: Disk, path: Path, up: Path, f: Frame, sub: Tree, h: nat)
    requires PathOk(path) && path == up + [f] && PathOk(up) && FrameOk(f) && f.seps != []
    requires Settled(d, up, AnchorWithout(f), h + 1) && Good(Plug(path, sub), None, None, h + |path|)
    ensures var t := Plug(up, AnchorWithout(f));
            TreeIn(d, t, h + |path|) && t.id == TopId(path) && Leaves(t, h + |path|) == LeftLeaves(path, h) + RightLeaves(path, h)
  {
    hide Good, Plug, TreeIn, LeftLeaves, RightLeaves, Settled, Leaves;
    PlugStep(path, sub);
    SettledPlug(d, up, Fill(f, sub), AnchorWithout(f), h + 1);
    DetachRow(up, f, h);
    NodeLeaves(AnchorWithout(f), h + 1);
    TopOfPlug(up, AnchorWithout(f));
  }

  /** The predecessor's link now skips the leaf. */
  method SkipLeaf(p: Pager, id: nat, next: Option<nat>, steps: seq<Step>, ghost path: Path, ghost child: nat, ghost leaf: Tree,
                  ghost sub: Tree, ghost h: nat, ghost gone: seq<nat>)
    requires p.Valid() && PathOk(path) && steps != [] && Traces(path, steps) && leaf.id == id
    requires Doomed(p.View(), path, child, leaf, h, gone) && Good(Plug(path, sub), None, None, h + |path|)
    requires id in p.pages && p.pages[id].LeafPage? && next == p.pages[id].next
    modifies p`pages
    ensures p.Valid()
    ensures Detached(p.View(), path[..|path| - 1], path[|path| - 1], h, gone)
    ensures FrameOk(path[|path| - 1]) && FrameStored(p.pages, path[|path| - 1], child, h)
  {
    hide Doomed, Good, Plug, FreeAt, LeftLeaves, RightLeaves, Detached, FrameStored, PathStored, PathOk, FrameOk, Traces, PathIds;
    TracesLength(path, steps);
    ghost var f, up := path[|path| - 1], path[..|path| - 1];
    LastFrame(path, |path|);
    assert path == up + [f];
    DoomedParts(p.View(), path, child, leaf, h, gone);
    var prev := PreviousLeaf(p, steps, path, child, sub, h);
    Detach(p.View(), up, f, child, leaf, h, gone);
    RelinkKeeps(p.View(), path, child, leaf, h, gone);
    DoomedLink(p.View(), path, child, leaf, h, gone);
    if prev.Some? {
      var page := p.pages[prev.value];
      p.WritePage(prev.value, LeafPage(page.cells, next));
    }
  }

  lemma TracesLength(path: Path, steps: seq<Step>)
    requires Traces(path, steps)
    ensures |path| == |steps|
  {
  }

  method RewriteAnchor(p: Pager, anchor: nat, slot: nat, ghost up: Path, ghost f: Frame, ghost child: nat, ghost sub: Tree, ghost h: nat, ghost gone: seq<nat>)
    requires p.Valid() && PathOk(up) && FrameOk(f) && anchor == f.id && slot == f.slot && f.seps != []
    requires Detached(p.View(), up, f, h, gone) && FrameStored(p.pages, f, child, h)
    requires Good(Plug(up + [f], sub), None, None, h + |up| + 1) && PathOk(up + [f])
    modifies p`pages
    ensures p.Valid() && SettledBut(p.View(), up, AnchorWithout(f), h + 1, gone)
  {
    hide Good, Plug, FreeAt, SettledBut, Detached, FrameStored;
    AnchorImage(p.pages, f, child, h);
    var page := PageWithout(p.pages[anchor], slot);
    PlugStep(up + [f], sub);
    assert (up + [f])[..|up|] == up;
    PlugGoodIn(up, Fill(f, sub), h + 1);
    AnchorSettled(p.View(), up, f, sub, h, gone, page);
    p.WritePage(anchor, page);
  }

  /** The page at the top of a path. */
  function TopId(path: Path): nat
    requires path != []
  {
    path[0].id
  }

  lemma {:induction false} TopOfPlug(up: Path, sub: Tree)
    requires PathOk(up)
    ensures Plug(up, sub).id == if up == [] then sub.id else up[0].id
  {
    if up != [] { TopOfPlug(up[..|up| - 1], Fill(up[|up| - 1], sub)); }
  }

  lemma DoomedParts(d: Disk, path: Path, child: nat, leaf: Tree, h: nat, gone: seq<nat>)
    requires Doomed(d, path, child, leaf, h, gone)
    ensures PathOk(path) && PathStored(d.pages, path, child, h)
  {
  }

  lemma AnchorImage(pages: Pages, f: Frame, child: nat, h: nat)
    requires FrameOk(f) && FrameStored(pages, f, child, h) && f.seps != []
    ensures f.id in pages && pages[f.id].NodePage? && pages[f.id].seps != [] && f.slot <= |pages[f.id].seps|
    ensures var n := AnchorWithout(f);
            |n.kids| == |n.seps| + 1 && PageWithout(pages[f.id], f.slot) == NodePage(n.kids[0].id, SepsOf(n.seps, n.kids))
  {
    hide StoredAll;
    PageWithoutIs(f, child, pages[f.id]);
  }
}
