/** The B+Tree's operations over a pager: a sorted map kept in pages. */
module BTreeStore {
  import opened Bytes
  import opened PageLayout
  import opened Wrappers
  import opened BTree
  import opened BTreePages
  import opened BTreeZipper
  import opened BTreePager
  import opened BTreeEdit
  import opened BTreeStates
  import opened BTreeInsertSteps
  import opened BTreeInsert
  import opened BTreeOps
  import opened BTreeMap
  import opened BTreeRoot
  import opened BTreeDeleteSteps
  import opened BTreeDelete
  import opened BTreeRemove

  // ---- insert --------------------------------------------------------------

  lemma PutTree(d: Disk, t: Tree, h: nat, d': Disk, t': Tree, h': nat, k: Bytes, v: Bytes)
    requires TreeIn(d, t, h) && TreeIn(d', t', h') && PutInto(Flat(Leaves(t, h)), Flat(Leaves(t', h')), k, v)
    ensures Contents(t', h') == Contents(t, h)[k := v]
  {
    hide TreeIn, Flat, Leaves, PutInto, ToMap, BTreePages.Ascending;
    ContentsSorted(d, t, h);
    ContentsSorted(d', t', h');
    PutContents(Flat(Leaves(t, h)), Flat(Leaves(t', h')), k, v);
  }

  /** Inserts or replaces a key. Refused only for a key outside 1..=1024 bytes or
      a value whose length does not fit 32 bits; a split never fails. */
  method Insert(p: Pager, key: Bytes, value: Bytes, maxUsed: nat, ghost t: Tree, ghost h: nat)
    returns (ok: bool, ghost t': Tree, ghost h': nat)
    requires p.Valid() && TreeIn(p.View(), t, h) && p.root == t.id && h <= MAX_DEPTH
    modifies p
    ensures p.Valid() && TreeIn(p.View(), t', h') && p.root == t'.id && h' <= h + 1
    ensures ok == (KeyOk(key) && |value| < U32_LIMIT)
    ensures !ok ==> p.View() == old(p.View()) && t' == t && h' == h
    ensures Contents(t', h') == if ok then Contents(t, h)[key := value] else Contents(t, h)
  {
    hide TreeIn, Settled, Pending, FreeAt, Flat, Leaves, PutInto, Contents;
    t', h' := t, h;
    if !KeyOk(key) || |value| >= U32_LIMIT { return false, t', h'; }
    ghost var d := p.View();
    WholeTree(d, t, h);
    PathStart(t);
    ghost var left, right;
    var split;
    split, left, right := InsertInto(p, p.root, key, value, maxUsed, 0, [], t, h);
    ok, t' := true, left;
    if split.None? {
      WholeTree(p.View(), left, h);
    } else {
      RootSplit(p.View(), left, right, split.value.key, h);
      var root := p.AllocatePage(NodePage(p.root, [Sep(split.value.key, split.value.right)]));
      p.root := root;
      t', h' := Node(root, [split.value.key], [left, right]), h + 1;
    }
    PutTree(d, t, h, p.View(), t', h', key, value);
  }

  // ---- delete --------------------------------------------------------------

  lemma DropTree(d: Disk, t: Tree, h: nat, d': Disk, t': Tree, h': nat, a: seq<Entry>, e: Entry, b: seq<Entry>)
    requires TreeIn(d, t, h) && TreeIn(d', t', h') && Flat(Leaves(t, h)) == a + [e] + b && Flat(Leaves(t', h')) == a + b
    ensures e.key in Contents(t, h) && Contents(t', h') == Contents(t, h) - {e.key}
  {
    hide TreeIn, Flat, Leaves, ToMap, BTreePages.Ascending;
    ContentsSorted(d, t, h);
    MapDrop(a, e, b);
    assert e in a + [e] + b;
    MapHas(a + [e] + b, e.key);
  }

  /** The leaf's row within the whole tree. */
  lemma LeafInRow(t: Tree, h: nat, path: Path, leaf: Tree)
    requires PathOk(path) && leaf.Leaf? && Plug(path, leaf) == t && |path| == h
    ensures Leaves(t, h) == LeftLeaves(path, 0) + [leaf] + RightLeaves(path, 0)
    ensures Flat(Leaves(t, h)) == Flat(LeftLeaves(path, 0)) + leaf.entries + Flat(RightLeaves(path, 0))
    ensures Ids(t, h) == PathIds(path, 0) + (multiset{leaf.id} + ChainIds(leaf.entries))
  {
    hide Plug, LeftLeaves, RightLeaves, Flat, PathIds;
    PlugLeaves(path, leaf, 0);
    var a, b := LeftLeaves(path, 0), RightLeaves(path, 0);
    FlatConcat(a + [leaf], b);
    FlatConcat(a, [leaf]);
    FlatOne(leaf);
  }

  /** Frees the removed value's pages. */
  method ReleaseValue(p: Pager, id: nat, i: nat, cell: Cell, ghost path: Path, ghost es: seq<Entry>)
    requires p.Valid() && Settled(p.View(), path, Leaf(id, es), 0) && i < |es| && cell == CellOf(es[i])
    modifies p`pages, p`freeHead, p`free
    ensures p.Valid() && p.count == old(p.count) && Prepared(old(p.View()), p.View(), path, id, es, Rest(es, true, i))
  {
    hide Settled, Whole, ChainsAt, SameOn, EntriesOk, LeafBytes, PathIds, ChainIds, HoleLo, HoleHi, FreeAt, Prepared, RestIds, ChainAt;
    ghost var d := p.View();
    SettledLeaf(d, path, id, es);
    ghost var rest := Rest(es, true, i);
    ghost var used := RestIds(path, id, rest);
    RestChains(p.pages, es, true, i);
    SameSelf(p.pages, used);
    TakeOut(path, id, es, i);
    EntryChain(p.pages, es, i, HoleLo(path), HoleHi(path));
    if cell.payload.Spilled? {
      ChainFreeable(d, used, es[i].chain, es[i].value);
      ReleaseAllKeeps(d, used, es[i].chain);
      var freed := p.FreeOverflowChain(cell.payload.head);
    } else {
      NoChainIds(used);
    }
    FinishRemoved(d, p.View(), path, id, es, i);
  }

  lemma FinishRemoved(d: Disk, d1: Disk, path: Path, id: nat, es: seq<Entry>, i: nat)
    requires Settled(d, path, Leaf(id, es), 0) && i < |es| && PathOk(path)
    requires Whole(d1, RestIds(path, id, Rest(es, true, i))) && SameOn(d.pages, d1.pages, RestIds(path, id, Rest(es, true, i)))
    requires ChainsAt(d.pages, Rest(es, true, i))
    ensures Prepared(d, d1, path, id, es, Rest(es, true, i))
  {
    hide Settled, Whole, EntriesOk, LeafBytes, PathIds, ChainIds, HoleLo, HoleHi, ChainsAt, SameOn;
    SettledLeaf(d, path, id, es);
    RemoveGood(es, i, HoleLo(path), HoleHi(path));
    SameRest(d.pages, d1.pages, PathIds(path, 0), id, ChainIds(Rest(es, true, i)));
    ChainsFrame(d.pages, d1.pages, Rest(es, true, i));
  }

  /** An emptied leaf below the root is on its way out. */
  lemma EmptiedLeaf(d: Disk, d1: Disk, t: Tree, h: nat, path: Path, id: nat, es: seq<Entry>)
    requires PathOk(path) && Prepared(d, d1, path, id, es, []) && Good(Plug(path, Leaf(id, es)), None, None, |path|)
    ensures Popped(d1, path, |path|, id, Leaf(id, es), Leaf(id, es), [id])
  {
    hide Good, Plug, Whole, PathStored, LeftLeaves, RightLeaves, PathIds, HoleLo, HoleHi, Linked;
    var leaf := Leaf(id, es);
    assert path[..|path|] == path;
    assert Settled(d, path, leaf, 0);
    SamePart(d.pages, d1.pages, PathIds(path, 0), multiset{id});
    PathFrame(d.pages, d1.pages, path, id, 0);
    assert PathIds(path, 0) + (multiset{id} + ChainIds([])) == PathIds(path, 0) + multiset([id]);
    RowWithLeaf(path, leaf);
    RowSame(d.pages, d1.pages, LeftLeaves(path, 0) + [leaf] + RightLeaves(path, 0), PathIds(path, 0) + multiset{id});
  }

  lemma RowWithLeaf(path: Path, leaf: Tree)
    requires PathOk(path) && leaf.Leaf?
    ensures RowIn(LeftLeaves(path, 0) + [leaf] + RightLeaves(path, 0), PathIds(path, 0) + multiset{leaf.id})
  {
    hide LeftLeaves, RightLeaves, PathIds;
    var row := LeftLeaves(path, 0) + [leaf] + RightLeaves(path, 0);
    forall x | x in row ensures x.id in PathIds(path, 0) + multiset{leaf.id} {
      if x != leaf { SideLeafUsed(path, 0, x); }
    }
  }

  /** Deletes a key; reports whether it was there. */
  method Delete(p: Pager, key: Bytes, ghost t: Tree, ghost h: nat) returns (found: bool, ghost t': Tree, ghost h': nat)
    requires p.Valid() && TreeIn(p.View(), t, h) && p.root == t.id && h <= MAX_DEPTH
    modifies p
    ensures p.Valid() && TreeIn(p.View(), t', h') && p.root == t'.id && h' <= h
    ensures found <==> key in Contents(t, h)
    ensures !found ==> p.View() == old(p.View()) && t' == t && h' == h
    ensures found ==> Contents(t', h') == Contents(t, h) - {key}
  {
    hide TreeIn, Settled, FreeAt, Flat, Leaves, Contents, Good, Prepared, Popped, IsPosition, KeyPosition, KeysSorted, EntriesOk, LeafBytes, Whole, Plug, HoleLo, HoleHi, PathIds, InBounds, ChainsAt, Traces;
    ghost var d := p.View();
    ghost var path, es;
    var id, steps;
    id, steps, path, es := FindPath(p, key, t, h);
    TreeGood(d, t, h);
    SettledLeaf(d, path, id, es);
    OnlyHere(d, path, Leaf(id, es), key);
    var page := p.pages[id];
    LeafSorted(es, HoleLo(path), HoleHi(path));
    var i;
    found, i := Search(CellKeys(page.cells), key);
    LeafPosition(es, key, found, i);
    FoundHere(es, key, found, i);
    t', h' := t, h;
    if !found { return; }
    t', h' := RemoveAt(p, id, i, page, steps, path, es, t, h);
    LeafInRow(t, h, path, Leaf(id, es));
    ghost var a, b := Flat(LeftLeaves(path, 0)), Flat(RightLeaves(path, 0));
    RemovedRow(a, es, i, b);
    DropTree(d, t, h, p.View(), t', h', a + es[..i], es[i], es[i + 1..] + b);
  }

  lemma RemovedRow(a: seq<Entry>, es: seq<Entry>, i: nat, b: seq<Entry>)
    requires i < |es|
    ensures a + es + b == (a + es[..i]) + [es[i]] + (es[i + 1..] + b)
    ensures a + Rest(es, true, i) + b == (a + es[..i]) + (es[i + 1..] + b)
  {
    assert es == es[..i] + [es[i]] + es[i + 1..];
  }

  /** Takes the entry out of its leaf, and the leaf out of the tree if that
      empties it. */
  method RemoveAt(p: Pager, id: nat, i: nat, page: Page, steps: seq<Step>, ghost path: Path, ghost es: seq<Entry>, ghost t: Tree, ghost h: nat)
    returns (ghost t': Tree, ghost h': nat)
    requires p.Valid() && Settled(p.View(), path, Leaf(id, es), 0) && Traces(path, steps) && |path| == h && i < |es|
    requires PathOk(path) && Plug(path, Leaf(id, es)) == t && Good(t, None, None, h) && p.root == t.id
    requires id in p.pages && page == p.pages[id] && page.LeafPage? && page.cells == CellsOf(es)
    modifies p
    ensures p.Valid() && TreeIn(p.View(), t', h') && p.root == t'.id && h' <= h
    ensures Flat(Leaves(t', h')) == Flat(LeftLeaves(path, 0)) + Rest(es, true, i) + Flat(RightLeaves(path, 0))
  {
    hide TreeIn, Settled, FreeAt, Flat, Leaves, Good, Prepared, Popped, EntriesOk, LeafBytes, Whole, Plug, HoleLo, HoleHi, PathIds, ChainIds, ChainsAt, LeftLeaves, RightLeaves, Ids;
    ghost var d := p.View();
    ghost var rest := Rest(es, true, i);
    RemovedFits(d, path, id, es, i);
    ReleaseValue(p, id, i, page.cells[i], path, es);
    ghost var d1 := p.View();
    PreparedPage(d, d1, path, id, es, rest);
    PreparedNotFree(d, d1, path, id, es, rest);
    var cells := page.cells[..i] + page.cells[i + 1..];
    assert cells == CellsOf(rest) && |path| == |steps| by { TracesLength(path, steps); }
    if cells != [] || steps == [] {
      PreparedWrite(d, d1, path, id, es, rest);
      p.WritePage(id, LeafPage(cells, page.next));
      SettledPlug(p.View(), path, Leaf(id, es), Leaf(id, rest), 0);
      t', h' := Plug(path, Leaf(id, rest)), h;
      LeafInRow(t', h, path, Leaf(id, rest));
      SameTop(path, Leaf(id, es), Leaf(id, rest));
    } else {
      assert rest == [];
      EmptiedLeaf(d, d1, t, h, path, id, es);
      TopOfPlug(path, Leaf(id, es));
      t', h' := RemoveEmptyLeaf(p, id, page.next, steps, path, Leaf(id, es));
    }
  }

  lemma RemovedFits(d: Disk, path: Path, id: nat, es: seq<Entry>, i: nat)
    requires Settled(d, path, Leaf(id, es), 0) && i < |es|
    ensures LeafBytes(Rest(es, true, i)) <= USABLE_SPACE
  {
    hide Settled, LeafBytes, EntriesOk, Whole, HoleLo, HoleHi;
    SettledLeaf(d, path, id, es);
    LeafAround(es, i);
  }

  lemma TreeGood(d: Disk, t: Tree, h: nat)
    requires TreeIn(d, t, h)
    ensures Good(t, None, None, h)
  {
  }

  lemma FoundHere(es: seq<Entry>, k: Bytes, found: bool, i: nat)
    requires IsPosition(es, k, found, i)
    ensures found <==> exists e :: e in es && e.key == k
    ensures i <= |es| && (found ==> i < |es| && es[i].key == k)
  {
    hide Less;
    if found { assert es[i] in es; }
    if e :| e in es && e.key == k {
      var j :| 0 <= j < |es| && es[j] == e;
      LessIrreflexive(k);
    }
  }

  lemma SameTop(path: Path, a: Tree, b: Tree)
    requires PathOk(path) && a.id == b.id
    ensures Plug(path, a).id == Plug(path, b).id
  {
    hide Plug;
    TopOfPlug(path, a);
    TopOfPlug(path, b);
  }
}
