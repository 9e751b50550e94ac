/** The B+Tree as a map: insert from the root down and back up. */
module BTreeMap {
  import opened Bytes
  import opened PageLayout
  import opened Wrappers
  import opened BTree
  import opened BTreePages
  import opened BTreeZipper
  import opened BTreePager
  import opened BTreeSplit
  import opened BTreeEdit
  import opened BTreeStates
  import opened BTreeInsertSteps
  import opened BTreeInsert
  import opened BTreeOps

  // ---- taking a split in ---------------------------------------------------

  /** The separator belongs exactly where the path came from. */
  lemma SlotOfSplit(seps: seq<Bytes>, slot: nat, k: Bytes, lo: Option<Bytes>, hi: Option<Bytes>, found: bool, i: nat)
    requires SepsOk(seps, lo, hi) && slot <= |seps| && Inside(k, KidLo(seps, slot, lo), KidHi(seps, slot, hi))
    requires KeyPosition(seps, k, found, i)
    ensures !found && i == slot
  {
    hide Less, KeyOk;
    if i < slot {
      if i < slot - 1 { LessTransitive(seps[i], seps[slot - 1], k); }
      LessAsymmetric(seps[i], k);
    } else if i > slot {
      LessAsymmetric(seps[slot], k);
    } else if found {
      LessAsymmetric(k, seps[slot]);
    }
  }

  lemma SepsSorted(t: Tree, lo: Option<Bytes>, hi: Option<Bytes>, h: nat)
    requires Good(t, lo, hi, h) && t.Node?
    ensures h > 0 && |t.kids| == |t.seps| + 1 && SepsOk(t.seps, lo, hi) && KeysSorted(t.seps) && NodeBytes(t.seps) <= USABLE_SPACE
  {
    hide Less, KeyOk, Inside, NodeBytes;
  }

  /** The page of a node whose child has just split. */
  lemma PendingPage(d: Disk, path: Path, f: Frame, was: Tree, left: Tree, right: Tree, sep: Bytes, h: nat)
    requires FrameOk(f) && PathOk(path) && Pending(d, path + [f], left, right, sep, h)
    requires Good(Fill(f, was), HoleLo(path), HoleHi(path), h + 1)
    ensures f.id in d.pages && d.pages[f.id].NodePage? && SepKeys(d.pages[f.id].seps) == f.seps
    ensures f.id !in d.free && (d.free != [] ==> d.free[0] !in d.free[1..]) && f.id != NextId(d)
    ensures Inside(sep, KidLo(f.seps, f.slot, HoleLo(path)), KidHi(f.seps, f.slot, HoleHi(path))) && KeyOk(sep)
  {
    hide Good, Linked, Whole, PathStored, Stored, Leaves, Ids, LeftLeaves, RightLeaves, PathIds, Inside, KeyOk, Fill, IdsAll, StoredAll, LeavesAll;
    PathSnoc(path, f, h);
    PendingParts(d, path, f, left, right, sep, h);
    SepKeysOf(f.seps, f.kids[f.slot := left]);
    var used := PathIds(path, h + 1) + IdsAll(KidsWith(f.kids, f.slot, left, right), h) + multiset{f.id};
    assert f.id in used;
    NotFree(d, used, f.id);
    FreeDistinct(d, used);
    AllocKeeps(d, used, FreePage(None));
  }

  /** Inserts a promoted separator, splitting the node when it is full. */
  method AbsorbSplit(p: Pager, page: Page, id: nat, split: Split, ghost path: Path, ghost f: Frame, ghost was: Tree,
                     ghost left: Tree, ghost right: Tree, ghost h: nat)
    returns (up: Option<Split>, ghost left': Tree, ghost right': Tree)
    requires p.Valid() && FrameOk(f) && PathOk(path) && Pending(p.View(), path + [f], left, right, split.key, h)
    requires Good(Fill(f, was), HoleLo(path), HoleHi(path), h + 1) && right.id == split.right
    requires id == f.id && id in p.pages && page == p.pages[id]
    modifies p`pages, p`freeHead, p`count, p`free
    ensures p.Valid() && left'.id == id
    ensures up.None? ==> Settled(p.View(), path, left', h + 1) && Leaves(left', h + 1) == Absorbing(f, left, right, h)
    ensures up.Some? ==> Pending(p.View(), path, left', right', up.value.key, h + 1) && right'.id == up.value.right
    ensures up.Some? ==> Leaves(left', h + 1) + Leaves(right', h + 1) == Absorbing(f, left, right, h)
    ensures up.None? <==> NodeBytes(SepsWith(f.seps, f.slot, split.key)) <= USABLE_SPACE
  {
    hide Settled, Pending, Good, HoleLo, HoleHi, FreeAt, NodeBytes, Total, Leaves, Inside, KeyOk, Fill, SepsOk, KeysSorted, KeyPosition;
    PendingPage(p.View(), path, f, was, left, right, split.key, h);
    FrameGood(f, was, HoleLo(path), HoleHi(path), h);
    var found, i := Search(SepKeys(page.seps), split.key);
    var pos := if found then i + 1 else i;
    SlotOfSplit(f.seps, f.slot, split.key, HoleLo(path), HoleHi(path), found, i);
    var image := InsertSep(page.seps, pos, Sep(split.key, split.right));
    ghost var seps := SepsWith(f.seps, f.slot, split.key);
    ImageSizes(page.seps, pos, split.key, split.right);
    AbsorbedGoodFrom(p.View(), path, f, was, left, right, split.key, h);
    SepSizesTotal(seps);
    var used := Sum(ChildSizes(image));
    if used <= USABLE_SPACE {
      Absorbed(p.View(), path, f, was, left, right, split.key, h);
      p.WritePage(id, NodePage(page.first, image));
      up, left', right' := None, Node(id, seps, KidsWith(f.kids, f.slot, left, right)), right;
      AbsorbingIs(f, left, right, h);
      NodeLeaves(left', h + 1);
    } else {
      up, left', right' := SplitNode(p, page, id, split, image, pos, path, f, was, left, right, h);
    }
  }

  /** Sizes of the node's cells with the new separator in place. */
  lemma ImageSizes(seps: seq<Sep>, pos: nat, k: Bytes, child: nat)
    requires pos <= |seps|
    ensures var image := InsertSep(seps, pos, Sep(k, child));
            SepKeys(image) == SepsWith(SepKeys(seps), pos, k) && ChildSizes(image) == SepSizes(SepsWith(SepKeys(seps), pos, k))
  {
    ImageKeys(seps, pos, k, child);
  }

  /** The full node is split over its cells, the new one included. */
  method SplitNode(p: Pager, page: Page, id: nat, split: Split, image: seq<Sep>, pos: nat, ghost path: Path, ghost f: Frame, ghost was: Tree,
                   ghost left: Tree, ghost right: Tree, ghost h: nat)
    returns (up: Option<Split>, ghost left': Tree, ghost right': Tree)
    requires p.Valid() && FrameOk(f) && PathOk(path) && Pending(p.View(), path + [f], left, right, split.key, h)
    requires Good(Fill(f, was), HoleLo(path), HoleHi(path), h + 1) && right.id == split.right
    requires id == f.id && id in p.pages && page == p.pages[id] && page.NodePage? && pos == f.slot && pos <= |page.seps|
    requires image == InsertSep(page.seps, pos, Sep(split.key, split.right)) && SepKeys(image) == SepsWith(f.seps, f.slot, split.key)
    modifies p`pages, p`freeHead, p`count, p`free
    ensures p.Valid() && left'.id == id && up.Some?
    ensures Pending(p.View(), path, left', right', up.value.key, h + 1) && right'.id == up.value.right
    ensures Leaves(left', h + 1) + Leaves(right', h + 1) == Absorbing(f, left, right, h)
  {
    hide Pending, Good, HoleLo, HoleHi, FreeAt, NodeBytes, Leaves, KeyOk, Fill, GoodParts;
    ghost var seps, kids := SepsWith(f.seps, f.slot, split.key), KidsWith(f.kids, f.slot, left, right);
    PendingPage(p.View(), path, f, was, left, right, split.key, h);
    AbsorbedGoodFrom(p.View(), path, f, was, left, right, split.key, h);
    PartsKeys(seps, kids, HoleLo(path), HoleHi(path), h + 1);
    var m := ChooseSeparator(image, pos, seps, f.seps, split.key);
    SplitUp(p.View(), path, f, was, left, right, split.key, m, h);
    assert SepKeys(image)[m] == image[m].key;
    var r := p.AllocatePage(NodePage(image[m].child, image[m + 1..]));
    p.WritePage(id, NodePage(page.first, image[..m]));
    up := Some(Split(image[m].key, r));
    left', right' := Node(id, seps[..m], kids[..m + 1]), Node(r, seps[m + 1..], kids[m + 1..]);
    CutLeaves(left', right', kids, m, h);
    AbsorbingIs(f, left, right, h);
  }

  lemma PartsKeys(seps: seq<Bytes>, kids: seq<Tree>, lo: Option<Bytes>, hi: Option<Bytes>, h: nat)
    requires h > 0 && GoodParts(seps, kids, lo, hi, h)
    ensures forall i | 0 <= i < |seps| :: KeyOk(seps[i])
  {
    hide Good;
  }

  function Absorbing(f: Frame, left: Tree, right: Tree, h: nat): seq<Tree>
    requires FrameOk(f)
  {
    LeavesAll(f.kids[..f.slot], h) + (Leaves(left, h) + Leaves(right, h)) + LeavesAll(f.kids[f.slot + 1..], h)
  }

  lemma AbsorbingIs(f: Frame, left: Tree, right: Tree, h: nat)
    requires FrameOk(f)
    ensures LeavesAll(KidsWith(f.kids, f.slot, left, right), h) == Absorbing(f, left, right, h)
  {
    hide Leaves, LeavesAll, IdsAll, Ids;
    AbsorbParts(f, left, right, h);
  }

  lemma FrameGood(f: Frame, was: Tree, lo: Option<Bytes>, hi: Option<Bytes>, h: nat)
    requires FrameOk(f) && Good(Fill(f, was), lo, hi, h + 1)
    ensures SepsOk(f.seps, lo, hi) && KeysSorted(f.seps) && NodeBytes(f.seps) <= USABLE_SPACE
  {
    hide Good, SepsOk, KeysSorted, NodeBytes;
    SepsSorted(Fill(f, was), lo, hi, h + 1);
  }

  lemma ImageKeys(seps: seq<Sep>, pos: nat, k: Bytes, child: nat)
    requires pos <= |seps|
    ensures SepKeys(InsertSep(seps, pos, Sep(k, child))) == SepsWith(SepKeys(seps), pos, k)
  {
  }

  /** Which separator moves up: the new one alone at the right edge, otherwise
      the most even choice. One always exists. */
  method ChooseSeparator(image: seq<Sep>, pos: nat, ghost seps: seq<Bytes>, ghost before: seq<Bytes>, ghost k: Bytes) returns (m: nat)
    requires SepKeys(image) == seps && pos <= |before| && seps == SepsWith(before, pos, k)
    requires NodeBytes(before) <= USABLE_SPACE && NodeBytes(seps) == NodeBytes(before) + SepSize(k)
    requires forall i | 0 <= i < |seps| :: KeyOk(seps[i])
    ensures m < |image| && NodeBytes(seps[..m]) <= USABLE_SPACE && NodeBytes(seps[m + 1..]) <= USABLE_SPACE
    ensures if pos == |before| then m == pos else BestBelow(SepSizes(seps), true, |seps|, Some(m))
  {
    hide NodeBytes, Total;
    assert |image| == |seps| == |before| + 1;
    if pos == |image| - 1 {
      m := pos;
      assert seps[..m] == before && seps[m + 1..] == [];
      assert NodeBytes([]) == 0 by { EmptyNode(); }
    } else {
      assert ChildSizes(image) == SepSizes(seps);
      SepSizesTotal(seps);
      assert SepSize(k) <= LARGEST_CELL by { assert seps[pos] == k; }
      NodeDivides(SepSizes(seps));
      var at := SplitPoint(ChildSizes(image), true);
      m := at.value;
      BestDivides(SepSizes(seps), true, at);
      SepsDivided(seps, m);
    }
  }

  lemma EmptyNode()
    ensures NodeBytes([]) == 0
  {
  }

  // ---- the recursion -------------------------------------------------------

  lemma NodeOnDisk(d: Disk, path: Path, t: Tree, h: nat)
    requires Settled(d, path, t, h)
    ensures PathOk(path) && t.id in d.pages && (t.Leaf? <==> d.pages[t.id].LeafPage?) && (t.Leaf? <==> h == 0)
    ensures Good(t, HoleLo(path), HoleHi(path), h)
    ensures t.Node? ==> |t.kids| == |t.seps| + 1 && d.pages[t.id] == NodePage(t.kids[0].id, SepsOf(t.seps, t.kids))
    ensures t.Node? ==> KeysSorted(t.seps) && SepsOk(t.seps, HoleLo(path), HoleHi(path))
  {
    hide Linked, Whole, PathStored, Leaves, Ids, LeftLeaves, RightLeaves, PathIds, HoleLo, HoleHi, StoredAll, ChainsAt, NodeBytes, LeafBytes, Less;
  }

  lemma FoundSlot(seps: seq<Bytes>, k: Bytes, found: bool, i: nat)
    requires KeyPosition(seps, k, found, i)
    ensures IsSlot(seps, k, if found then i + 1 else i)
  {
  }

  /** Inserts below page `id`; a split is handed to the caller. */
  method InsertInto(p: Pager, id: nat, key: Bytes, value: Bytes, maxUsed: nat, depth: nat,
                    ghost path: Path, ghost sub: Tree, ghost h: nat)
    returns (split: Option<Split>, ghost left: Tree, ghost right: Tree)
    requires p.Valid() && Settled(p.View(), path, sub, h) && id == sub.id
    requires KeyOk(key) && InBounds(key, HoleLo(path), HoleHi(path)) && depth == |path| && depth + h <= MAX_DEPTH
    modifies p`pages, p`freeHead, p`count, p`free
    ensures p.Valid() && left.id == id
    ensures split.None? ==> Settled(p.View(), path, left, h) && PutInto(Flat(Leaves(sub, h)), Flat(Leaves(left, h)), key, value)
    ensures split.Some? ==> Pending(p.View(), path, left, right, split.value.key, h) && right.id == split.value.right
    ensures split.Some? ==> PutInto(Flat(Leaves(sub, h)), Flat(Leaves(left, h) + Leaves(right, h)), key, value)
    decreases h
  {
    hide Settled, Pending, Good, HoleLo, HoleHi, FreeAt, InBounds, KeyOk, KeysSorted, KeyPosition, PutInto, SepsOk, IsSlot, Leaves, LeavesAll, Flat, Ids, Fill;
    NodeOnDisk(p.View(), path, sub, h);
    var page := p.pages[id];
    if page.LeafPage? {
      ghost var now, cut;
      split, now, cut := InsertIntoLeaf(p, id, key, value, maxUsed, path, sub.entries);
      left, right := Leaf(id, now), Leaf(id, now);
      if split.Some? { left, right := Leaf(id, now[..cut]), Leaf(split.value.right, now[cut..]); }
      LeafFlat(sub, now, cut, left, right, split.Some?);
      return;
    }
    SepKeysOf(sub.seps, sub.kids);
    var found, i := Search(SepKeys(page.seps), key);
    var slot := if found then i + 1 else i;
    ghost var f := Frame(sub.id, sub.seps, sub.kids, slot);
    Descend(p.View(), path, sub, key, found, i, h);
    var child := ChildAt(page, slot);
    ghost var was, l, r := sub.kids[slot], sub, sub;
    var below;
    below, l, r := InsertInto(p, child, key, value, maxUsed, depth + 1, path + [f], was, h - 1);
    if below.None? {
      SettledRise(p.View(), path, f, was, l, h - 1);
      split, left, right := None, Fill(f, l), r;
      FillId(f, l);
      FillLeaves(f, l, h - 1);
      PutUp(f, was, Leaves(l, h - 1), Leaves(left, h), key, value, h - 1);
    } else {
      PageUnchanged(p.View(), path, f, l, r, below.value.key, h - 1, page);
      split, left, right := AbsorbSplit(p, page, id, below.value, path, f, was, l, r, h - 1);
      PutUp(f, was, Leaves(l, h - 1) + Leaves(r, h - 1), Absorbing(f, l, r, h - 1), key, value, h - 1);
    }
  }

  lemma ChildOfImage(sub: Tree, slot: nat)
    requires sub.Node? && |sub.kids| == |sub.seps| + 1 && slot <= |sub.seps|
    ensures ChildAt(NodePage(sub.kids[0].id, SepsOf(sub.seps, sub.kids)), slot) == sub.kids[slot].id
    ensures Fill(Frame(sub.id, sub.seps, sub.kids, slot), sub.kids[slot]) == sub
  {
    assert sub.kids[slot := sub.kids[slot]] == sub.kids;
  }

  /** One step of the descent. */
  lemma Descend(d: Disk, path: Path, sub: Tree, key: Bytes, found: bool, i: nat, h: nat)
    requires Settled(d, path, sub, h) && sub.Node? && |sub.kids| == |sub.seps| + 1 && h > 0
    requires KeyPosition(sub.seps, key, found, i) && PathOk(path) && InBounds(key, HoleLo(path), HoleHi(path))
    ensures var slot := if found then i + 1 else i;
            var f := Frame(sub.id, sub.seps, sub.kids, slot);
            && slot <= |sub.seps| && FrameOk(f) && PathOk(path + [f]) && Settled(d, path + [f], sub.kids[slot], h - 1)
            && InBounds(key, HoleLo(path + [f]), HoleHi(path + [f])) && Fill(f, sub.kids[slot]) == sub
            && IsSlot(sub.seps, key, slot)
            && ChildAt(NodePage(sub.kids[0].id, SepsOf(sub.seps, sub.kids)), slot) == sub.kids[slot].id
  {
    hide Settled, HoleLo, HoleHi, KeyPosition, IsSlot, InBounds, LeftLeaves, RightLeaves, PathIds, LeavesAll, IdsAll, FrameIds;
    var slot := if found then i + 1 else i;
    FoundSlot(sub.seps, key, found, i);
    SlotInside(sub.seps, key, slot);
    var f := Frame(sub.id, sub.seps, sub.kids, slot);
    SettledDown(d, path, sub, slot, h);
    PathSnoc(path, f, h - 1);
    SlotBounds(sub.seps, key, slot, HoleLo(path), HoleHi(path));
    ChildOfImage(sub, slot);
  }

  lemma SlotInside(seps: seq<Bytes>, k: Bytes, slot: nat)
    requires IsSlot(seps, k, slot)
    ensures slot <= |seps|
  {
  }

  lemma LeafFlat(sub: Tree, now: seq<Entry>, cut: nat, left: Tree, right: Tree, split: bool)
    requires sub.Leaf? && left.Leaf? && right.Leaf?
    requires if split then cut <= |now| && left.entries == now[..cut] && right.entries == now[cut..] else left.entries == now
    ensures Flat(Leaves(sub, 0)) == sub.entries
    ensures if split then Flat(Leaves(left, 0) + Leaves(right, 0)) == now else Flat(Leaves(left, 0)) == now
  {
    hide Flat;
    FlatOne(sub);
    FlatOne(left);
    FlatOne(right);
    FlatConcat([left], [right]);
  }

  /** A put in a child is a put in the node. */
  lemma PutUp(f: Frame, was: Tree, mid: seq<Tree>, row: seq<Tree>, key: Bytes, value: Bytes, h: nat)
    requires FrameOk(f) && PutInto(Flat(Leaves(was, h)), Flat(mid), key, value)
    requires row == LeavesAll(f.kids[..f.slot], h) + mid + LeavesAll(f.kids[f.slot + 1..], h)
    ensures PutInto(Flat(Leaves(Fill(f, was), h + 1)), Flat(row), key, value)
  {
    hide Flat, Leaves, LeavesAll, PutInto, Fill, Ids;
    var a, b := LeavesAll(f.kids[..f.slot], h), LeavesAll(f.kids[f.slot + 1..], h);
    FillLeaves(f, was, h);
    FlatConcat(a + Leaves(was, h), b);
    FlatConcat(a, Leaves(was, h));
    FlatConcat(a + mid, b);
    FlatConcat(a, mid);
    PutIntoAround(Flat(a), Flat(Leaves(was, h)), Flat(mid), Flat(b), key, value);
  }

  /** The node's own page is untouched by the insert below it. */
  lemma PageUnchanged(d: Disk, path: Path, f: Frame, left: Tree, right: Tree, sep: Bytes, h: nat, page: Page)
    requires FrameOk(f) && PathOk(path) && Pending(d, path + [f], left, right, sep, h) && left.id == f.kids[f.slot].id
    requires page == NodePage(f.kids[0].id, SepsOf(f.seps, f.kids))
    ensures f.id in d.pages && d.pages[f.id] == page
  {
    hide Pending, Parts;
    PendingParts(d, path, f, left, right, sep, h);
    assert SepsOf(f.seps, f.kids[f.slot := left]) == SepsOf(f.seps, f.kids);
  }
}
