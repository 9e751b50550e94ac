/** The states a tree passes through while an insert works its way back up. */
module BTreeStates {
  import opened Bytes
  import opened Wrappers
  import opened BTree
  import opened BTreePages
  import opened BTreeZipper
  import opened BTreePager
  import opened BTreeEdit

  /** A complete tree with `sub` at the end of the path. */
  ghost predicate Settled(d: Disk, path: Path, sub: Tree, h: nat) {
    && PathOk(path)
    && PathStored(d.pages, path, sub.id, h) && Stored(d.pages, sub, h)
    && Linked(d.pages, LeftLeaves(path, h) + Leaves(sub, h) + RightLeaves(path, h))
    && Whole(d, PathIds(path, h) + Ids(sub, h))
    && Good(sub, HoleLo(path), HoleHi(path), h)
  }

  /** The subtree has split; its right half waits to be taken in above. */
  ghost predicate Pending(d: Disk, path: Path, left: Tree, right: Tree, sep: Bytes, h: nat) {
    && PathOk(path)
    && PathStored(d.pages, path, left.id, h) && Stored(d.pages, left, h) && Stored(d.pages, right, h)
    && Linked(d.pages, LeftLeaves(path, h) + (Leaves(left, h) + Leaves(right, h)) + RightLeaves(path, h))
    && Whole(d, PathIds(path, h) + (Ids(left, h) + Ids(right, h)))
    && Good(left, HoleLo(path), Some(sep), h) && Good(right, Some(sep), HoleHi(path), h)
    && KeyOk(sep) && Inside(sep, HoleLo(path), HoleHi(path))
  }

  /** A whole tree on disk. */
  ghost predicate TreeIn(d: Disk, t: Tree, h: nat) {
    Stored(d.pages, t, h) && Linked(d.pages, Leaves(t, h)) && Whole(d, Ids(t, h)) && Good(t, None, None, h)
  }

  lemma WholeTree(d: Disk, t: Tree, h: nat)
    ensures Settled(d, [], t, h) <==> TreeIn(d, t, h)
  {
    hide Stored, Linked, Whole, Good, Leaves, Ids;
    assert [] + Leaves(t, h) + [] == Leaves(t, h);
    assert multiset{} + Ids(t, h) == Ids(t, h);
  }

  /** One more frame on the path. */
  lemma PathSnoc(path: Path, f: Frame, h: nat)
    requires PathOk(path) && FrameOk(f)
    ensures var path' := path + [f];
            && PathOk(path') && path'[..|path|] == path && path'[|path|] == f
            && LeftLeaves(path', h) == LeftLeaves(path, h + 1) + LeavesAll(f.kids[..f.slot], h)
            && RightLeaves(path', h) == LeavesAll(f.kids[f.slot + 1..], h) + RightLeaves(path, h + 1)
            && PathIds(path', h) == PathIds(path, h + 1) + FrameIds(f, h)
            && HoleLo(path') == KidLo(f.seps, f.slot, HoleLo(path)) && HoleHi(path') == KidHi(f.seps, f.slot, HoleHi(path))
  {
    var path' := path + [f];
    assert path'[..|path|] == path && path'[|path|] == f;
  }

  lemma PathStoredSnoc(pages: Pages, path: Path, f: Frame, child: nat, h: nat)
    requires PathOk(path) && FrameOk(f)
    ensures PathOk(path + [f])
    ensures PathStored(pages, path + [f], child, h) <==> FrameStored(pages, f, child, h) && PathStored(pages, path, f.id, h + 1)
  {
    hide FrameStored;
    var path' := path + [f];
    assert path'[..|path|] == path && path'[|path|] == f;
  }

  /** Moving the focus up or down one level changes nothing. */
  lemma SettledUp(d: Disk, path: Path, f: Frame, sub: Tree, h: nat)
    requires PathOk(path) && FrameOk(f)
    ensures PathOk(path + [f])
    ensures PathStored(d.pages, path + [f], sub.id, h) && Stored(d.pages, sub, h) <==>
              PathStored(d.pages, path, f.id, h + 1) && Stored(d.pages, Fill(f, sub), h + 1)
    ensures LeftLeaves(path + [f], h) + Leaves(sub, h) + RightLeaves(path + [f], h) ==
            LeftLeaves(path, h + 1) + Leaves(Fill(f, sub), h + 1) + RightLeaves(path, h + 1)
    ensures PathIds(path + [f], h) + Ids(sub, h) == PathIds(path, h + 1) + Ids(Fill(f, sub), h + 1)
  {
    hide Stored, PathStored, FrameStored, Leaves, LeavesAll, Ids, LeftLeaves, RightLeaves, PathIds, FrameIds, Fill;
    PathSnoc(path, f, h);
    PathStoredSnoc(d.pages, path, f, sub.id, h);
    FillStored(d.pages, f, sub, h);
    FillLeaves(f, sub, h);
  }

  lemma SettledDown(d: Disk, path: Path, t: Tree, slot: nat, h: nat)
    requires h > 0 && Settled(d, path, t, h) && t.Node? && slot < |t.kids|
    ensures |t.kids| == |t.seps| + 1
    ensures Settled(d, path + [Frame(t.id, t.seps, t.kids, slot)], t.kids[slot], h - 1)
  {
    hide Stored, PathStored, Linked, Whole, Leaves, Ids, Good, LeftLeaves, RightLeaves, PathIds;
    GoodKid(t, HoleLo(path), HoleHi(path), h, slot);
    var f := Frame(t.id, t.seps, t.kids, slot);
    assert Fill(f, t.kids[slot]) == t by { assert t.kids[slot := t.kids[slot]] == t.kids; }
    SettledUp(d, path, f, t.kids[slot], h - 1);
    PathSnoc(path, f, h - 1);
  }

  lemma SettledRise(d: Disk, path: Path, f: Frame, was: Tree, sub: Tree, h: nat)
    requires FrameOk(f) && PathOk(path) && Settled(d, path + [f], sub, h)
    requires Good(Fill(f, was), HoleLo(path), HoleHi(path), h + 1)
    ensures Settled(d, path, Fill(f, sub), h + 1)
  {
    hide Stored, PathStored, Linked, Whole, Leaves, Ids, Good, LeftLeaves, RightLeaves, PathIds, Fill;
    SettledUp(d, path, f, sub, h);
    PathSnoc(path, f, h);
    FillGood(f, was, sub, HoleLo(path), HoleHi(path), h);
    FillId(f, sub);
  }

  // ---- leaf ids ------------------------------------------------------------

  lemma {:induction false} LeafIdUsed(t: Tree, h: nat, x: Tree)
    requires x in Leaves(t, h)
    ensures x.Leaf? && x.id in Ids(t, h)
    decreases h, 0
  {
    if t.Node? { LeafIdUsedAll(t.kids, h - 1, x); }
  }

  lemma {:induction false} LeafIdUsedAll(kids: seq<Tree>, h: nat, x: Tree)
    requires x in LeavesAll(kids, h)
    ensures x.Leaf? && x.id in IdsAll(kids, h)
    decreases h, 1, |kids|
  {
    var n := |kids| - 1;
    if x in LeavesAll(kids[..n], h) { LeafIdUsedAll(kids[..n], h, x); } else { LeafIdUsed(kids[n], h, x); }
  }

  lemma {:induction false} SideLeafUsed(path: Path, h: nat, x: Tree)
    requires PathOk(path) && (x in LeftLeaves(path, h) || x in RightLeaves(path, h))
    ensures x.Leaf? && x.id in PathIds(path, h)
    decreases |path|
  {
    hide LeavesAll, IdsAll;
    var f, up := path[|path| - 1], path[..|path| - 1];
    if x in LeavesAll(f.kids[..f.slot], h) { LeafIdUsedAll(f.kids[..f.slot], h, x); }
    else if x in LeavesAll(f.kids[f.slot + 1..], h) { LeafIdUsedAll(f.kids[f.slot + 1..], h, x); }
    else { SideLeafUsed(up, h + 1, x); }
  }

  // ---- relinking -----------------------------------------------------------

  /** Replacing the middle of a linked row: the outside keeps its pages, the new
      middle starts with the same page and ends with the old link. */
  lemma Relink(pages: Pages, pages': Pages, a: seq<Tree>, mid: seq<Tree>, mid': seq<Tree>, b: seq<Tree>)
    requires Linked(pages, a + mid + b) && |mid| == 1 && mid' != [] && mid'[0].id == mid[0].id
    requires forall x | x in a || x in b :: x.id in pages ==> x.id in pages' && pages'[x.id] == pages[x.id]
    requires forall i | 0 <= i < |mid'| :: mid'[i].id in pages' && pages'[mid'[i].id].LeafPage?
    requires forall i | 0 <= i < |mid'| - 1 :: pages'[mid'[i].id].next == NextOf(mid', i)
    requires mid[0].id in pages && pages[mid[0].id].LeafPage?
    requires pages'[mid'[|mid'| - 1].id].next == pages[mid[0].id].next
    ensures Linked(pages', a + mid' + b)
  {
    var was, now, n, k := a + mid + b, a + mid' + b, |a|, |mid'|;
    assert was[n] == mid[0];
    assert LinkOk(pages, was, n);
    forall i | 0 <= i < |now| ensures LinkOk(pages', now, i) {
      if i < n {
        assert now[i] == was[i] == a[i];
        assert a[i] in a && LinkOk(pages, was, i);
        if i + 1 < n { assert now[i + 1] == was[i + 1]; } else { assert now[n] == mid'[0] && was[n] == mid[0]; }
      } else if i < n + k {
        assert now[i] == mid'[i - n];
        if i + 1 < n + k { assert now[i + 1] == mid'[i + 1 - n]; }
        else if b != [] { assert now[i + 1] == b[0] && was[n + 1] == b[0]; }
      } else {
        var j := i - n - k;
        assert now[i] == b[j] && was[n + 1 + j] == b[j] && b[j] in b;
        assert LinkOk(pages, was, n + 1 + j);
        if j + 1 < |b| { assert now[i + 1] == b[j + 1] && was[n + 2 + j] == b[j + 1]; }
      }
    }
  }
}
