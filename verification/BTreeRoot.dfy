/** The root of the tree: growing it, and what the contents become. */
module BTreeRoot {
  import opened Bytes
  import opened PageLayout
  import opened Wrappers
  import opened BTree
  import opened BTreePages
  import opened BTreeZipper
  import opened BTreePager
  import opened BTreeSplit
  import opened BTreeEdit
  import opened BTreeStates
  import opened BTreeInsertSteps
  import opened BTreeInsert

  /** The contents of a tree. */
  function Contents(t: Tree, h: nat): map<Bytes, Bytes> {
    ToMap(Flat(Leaves(t, h)))
  }

  lemma ContentsSorted(d: Disk, t: Tree, h: nat)
    requires TreeIn(d, t, h)
    ensures BTreePages.Ascending(Flat(Leaves(t, h)))
  {
    hide Stored, Linked, Whole, Good, Leaves, Flat, Less, EntryOk, InBounds;
    FlatGood(t, None, None, h);
  }

  /** A put among sorted entries is a map update. */
  lemma PutContents(was: seq<Entry>, now: seq<Entry>, k: Bytes, v: Bytes)
    requires BTreePages.Ascending(was) && BTreePages.Ascending(now) && PutInto(was, now, k, v)
    ensures ToMap(now) == ToMap(was)[k := v]
  {
    hide ToMap, BTreePages.Ascending;
    var a, o, e, b :| PutBy(was, now, k, v, a, o, e, b);
    MapPut(a, o, e, b);
  }

  function RootPage(left: Tree, sep: Bytes, right: Tree): Page {
    NodePage(left.id, [Sep(sep, right.id)])
  }

  /** A split root gets a new root above it. */
  lemma RootSplit(d: Disk, left: Tree, right: Tree, sep: Bytes, h: nat)
    requires Pending(d, [], left, right, sep, h)
    ensures TreeIn(Allocated(d, RootPage(left, sep, right)), Node(NextId(d), [sep], [left, right]), h + 1)
    ensures Leaves(Node(NextId(d), [sep], [left, right]), h + 1) == Leaves(left, h) + Leaves(right, h)
    ensures d.free != [] ==> d.free[0] !in d.free[1..]
  {
    hide Linked, Whole, Stored, Leaves, LeavesAll, Ids, IdsAll, Good, Allocated;
    var r, page := NextId(d), RootPage(left, sep, right);
    var d' := Allocated(d, page);
    var root := Node(r, [sep], [left, right]);
    var used := Ids(left, h) + Ids(right, h);
    assert PathIds([], h) + used == used;
    FreeDistinct(d, used);
    AllocKeeps(d, used, page);
    StoredFrame(d.pages, d'.pages, left, h);
    StoredFrame(d.pages, d'.pages, right, h);
    NodeLeaves(root, h + 1);
    assert [left, right] == [left] + [right];
    LeavesConcat([left], [right], h);
    LeavesOne(left, h);
    LeavesOne(right, h);
    StoredNode(d'.pages, root, h + 1);
    assert StoredAll(d'.pages, root.kids, h);
    assert SepsOf([sep], [left, right]) == [Sep(sep, right.id)];
    assert used + multiset{r} == Ids(root, h + 1);
    RootGood(root, left, right, sep, h);
    assert [] + (Leaves(left, h) + Leaves(right, h)) + [] == Leaves(root, h + 1);
    PairUsed(left, right, h);
    NewPageLinks(d.pages, d'.pages, Leaves(root, h + 1), r, used);
  }

  lemma RootGood(root: Tree, left: Tree, right: Tree, sep: Bytes, h: nat)
    requires root.Node? && root.seps == [sep] && root.kids == [left, right]
    requires Good(left, None, Some(sep), h) && Good(right, Some(sep), None, h) && KeyOk(sep)
    ensures Good(root, None, None, h + 1)
  {
    assert NodeBytes([sep]) <= USABLE_SPACE by { NodeBytesOne(sep); }
    assert SepsOk([sep], None, None);
    hide SepsOk, NodeBytes;
  }

  lemma PairUsed(left: Tree, right: Tree, h: nat)
    ensures RowIn(Leaves(left, h) + Leaves(right, h), Ids(left, h) + Ids(right, h))
  {
    hide Leaves, Ids;
    forall x | x in Leaves(left, h) + Leaves(right, h) ensures x.id in Ids(left, h) + Ids(right, h) {
      if x in Leaves(left, h) { LeafIdUsed(left, h, x); } else { LeafIdUsed(right, h, x); }
    }
  }

  lemma NewPageLinks(pages: Pages, pages': Pages, leaves: seq<Tree>, r: nat, used: multiset<nat>)
    requires Linked(pages, leaves) && RowIn(leaves, used) && SameOn(pages, pages', used)
    ensures Linked(pages', leaves)
  {
    forall i | 0 <= i < |leaves| ensures LinkOk(pages', leaves, i) { assert LinkOk(pages, leaves, i) && leaves[i] in leaves; }
  }
}
