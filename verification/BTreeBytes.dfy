/** Every page of a tree the operations built has room for what it holds. */
module BTreeBytes {
  import opened Bytes
  import opened PageLayout
  import opened Wrappers
  import opened BTree
  import opened BTreePages
  import opened BTreePager
  import opened BTreeStates
  import opened BTreeRoot
  import PageImage
  import PageCells
  import opened PageFormat
  import BTreeDeleteSteps

  /** Lengths keep to 32 bits. */
  ghost predicate AllShort(m: map<Bytes, Bytes>) {
    forall k | k in m :: |m[k]| < U32_LIMIT
  }

  predicate ValuesShort(es: seq<Entry>) {
    forall i | 0 <= i < |es| :: |es[i].value| < U32_LIMIT
  }

  ghost predicate LeafReady(pages: Pages, l: Tree) {
    && l.Leaf? && l.id in pages && pages[l.id].LeafPage?
    && PointerFits(pages[l.id].next) && ValuesShort(l.entries)
  }

  // ---- one page ---------------------------------------------------------------

  lemma CellFits(e: Entry)
    requires EntryOk(e) && |e.value| < U32_LIMIT && PointerFits(Head(e.chain))
    ensures PageCells.Encodable(CellOf(e))
  {
  }

  lemma LeafFits(pages: Pages, id: nat, es: seq<Entry>, lo: Option<Bytes>, hi: Option<Bytes>)
    requires Stored(pages, Leaf(id, es), 0) && Good(Leaf(id, es), lo, hi, 0) && LeafReady(pages, Leaf(id, es))
    requires forall q | q in ChainIds(es) :: q < SENTINEL
    ensures PageFits(TreePage(pages[id]))
  {
    hide PageImage.UsedBytes, LeafBytes, ChainAt, ChainIds, EntryOk, PageCells.Encodable, Less, InBounds;
    PageCells.LeafBytesOnPage(es);
    var cells := pages[id].cells;
    forall c | c in cells ensures PageCells.Encodable(c) {
      var i :| 0 <= i < |cells| && cells[i] == c;
      if es[i].chain != [] {
        ChainIdsHas(es, i);
        assert es[i].chain[0] in multiset(es[i].chain);
      }
      CellFits(es[i]);
    }
  }

  lemma NodeFits(seps: seq<Bytes>, kids: seq<Tree>)
    requires |kids| == |seps| + 1 && NodeBytes(seps) <= USABLE_SPACE
    requires (forall i | 0 <= i < |seps| :: KeyOk(seps[i])) && forall i | 0 <= i < |kids| :: kids[i].id < SENTINEL
    ensures PageFits(TreePage(NodePage(kids[0].id, SepsOf(seps, kids))))
  {
    hide PageImage.UsedBytes, NodeBytes;
    var ss := SepsOf(seps, kids);
    PageCells.NodeBytesOnPage(ss);
    assert seq(|ss|, i requires 0 <= i < |ss| => ss[i].key) == seps;
  }

  lemma {:induction false} ChainFits(pages: Pages, chain: seq<nat>, value: Bytes, p: nat)
    requires ChainAt(pages, chain, value) && p in chain && forall q | q in chain :: q < SENTINEL
    ensures p in pages && PageFits(TreePage(pages[p]))
    decreases |chain|
  {
    var n := if |value| < OVERFLOW_PAYLOAD then |value| else OVERFLOW_PAYLOAD;
    if p == chain[0] {
      if |chain| > 1 { assert chain[1] in chain; }
    } else {
      forall q | q in chain[1..] ensures q < SENTINEL { assert q in chain; }
      ChainFits(pages, chain[1..], value[n..], p);
    }
  }

  // ---- a whole tree --------------------------------------------------------------

  lemma {:induction false} IdsAllFind(kids: seq<Tree>, h: nat, p: nat) returns (i: nat)
    requires p in IdsAll(kids, h)
    ensures i < |kids| && p in Ids(kids[i], h)
    decreases |kids|
  {
    hide Ids;
    var n := |kids| - 1;
    if p in Ids(kids[n], h) { i := n; } else { i := IdsAllFind(kids[..n], h, p); }
  }

  ghost predicate IdsShort(ids: multiset<nat>) {
    forall q | q in ids :: q < SENTINEL
  }

  ghost predicate AllReady(pages: Pages, leaves: seq<Tree>) {
    forall l | l in leaves :: LeafReady(pages, l)
  }

  lemma NodeParts(t: Tree, h: nat)
    requires t.Node? && h > 0
    ensures Ids(t, h) == multiset{t.id} + IdsAll(t.kids, h - 1) && Leaves(t, h) == LeavesAll(t.kids, h - 1)
  {
    hide IdsAll, LeavesAll;
  }

  lemma OwnId(t: Tree, h: nat)
    ensures t.id in Ids(t, h)
  {
    hide IdsAll, ChainIds;
  }

  /** What holds under a node holds under its kids. */
  lemma KidWithin(pages: Pages, t: Tree, h: nat, i: nat)
    requires t.Node? && h > 0 && i < |t.kids| && IdsShort(Ids(t, h)) && AllReady(pages, Leaves(t, h))
    ensures IdsShort(Ids(t.kids[i], h - 1)) && AllReady(pages, Leaves(t.kids[i], h - 1)) && t.kids[i].id < SENTINEL
  {
    hide Ids, IdsAll, Leaves, LeavesAll, LeafReady;
    NodeParts(t, h);
    OwnId(t.kids[i], h - 1);
    IdsAllHas(t.kids, i, h - 1);
    LeavesAround(t.kids, i, h - 1);
    var below := Ids(t.kids[i], h - 1);
    forall q | q in below ensures q < SENTINEL {
      assert q in IdsAll(t.kids, h - 1);
      assert q in Ids(t, h);
    }
  }

  lemma LeafPagesFit(pages: Pages, id: nat, es: seq<Entry>, lo: Option<Bytes>, hi: Option<Bytes>, p: nat)
    requires Stored(pages, Leaf(id, es), 0) && Good(Leaf(id, es), lo, hi, 0) && LeafReady(pages, Leaf(id, es))
    requires (p == id || p in ChainIds(es)) && IdsShort(ChainIds(es))
    ensures p in pages && PageFits(TreePage(pages[p]))
  {
    hide PageFits, LeafReady, LeafBytes, ChainIds, EntryOk, InBounds, Less, ChainAt;
    if p == id {
      LeafFits(pages, id, es, lo, hi);
    } else {
      var i := ChainIdsFind(es, p);
      ChainIdsHas(es, i);
      forall q | q in es[i].chain ensures q < SENTINEL { assert q in multiset(es[i].chain); }
      SpilledOnly(es[i]);
      ChainFits(pages, es[i].chain, es[i].value, p);
    }
  }

  lemma {:induction false} StoredFits(pages: Pages, t: Tree, lo: Option<Bytes>, hi: Option<Bytes>, h: nat, p: nat)
    requires Stored(pages, t, h) && Good(t, lo, hi, h) && p in Ids(t, h)
    requires IdsShort(Ids(t, h)) && AllReady(pages, Leaves(t, h))
    ensures p in pages && PageFits(TreePage(pages[p]))
    decreases h
  {
    hide PageFits, LeafBytes, NodeBytes, ChainIds, EntriesOk, Less, ChainsAt, Ids, IdsAll, Leaves, LeavesAll, IdsShort, AllReady;
    match t
    case Leaf(id, es) =>
      LeafParts(pages, id, es, h, p);
      LeafPagesFit(pages, id, es, lo, hi, p);
    case Node(id, seps, kids) =>
      NodeParts(t, h);
      if p == id {
        forall i | 0 <= i < |kids| ensures kids[i].id < SENTINEL { KidWithin(pages, t, h, i); }
        NodeFits(seps, kids);
      } else {
        var i := IdsAllFind(kids, h - 1, p);
        KidWithin(pages, t, h, i);
        StoredFits(pages, kids[i], KidLo(seps, i, lo), KidHi(seps, i, hi), h - 1, p);
      }
  }

  lemma LeafParts(pages: Pages, id: nat, es: seq<Entry>, h: nat, p: nat)
    requires p in Ids(Leaf(id, es), h) && IdsShort(Ids(Leaf(id, es), h)) && AllReady(pages, Leaves(Leaf(id, es), h))
    ensures (p == id || p in ChainIds(es)) && IdsShort(ChainIds(es)) && LeafReady(pages, Leaf(id, es))
  {
    hide LeafReady, ChainIds;
    assert Leaf(id, es) in Leaves(Leaf(id, es), h);
    forall q | q in ChainIds(es) ensures q < SENTINEL { assert q in Ids(Leaf(id, es), h); }
  }

  lemma SpilledOnly(e: Entry)
    requires EntryOk(e) && e.chain != []
    ensures e.spilled
  {
  }

  /** Every page of the file has room for what it holds, as long as page numbers and value
      lengths keep to 32 bits. */
  lemma TreeFits(d: Disk, t: Tree, h: nat, p: nat)
    requires TreeIn(d, t, h) && d.count <= SENTINEL && 1 <= p < d.count
    requires AllShort(Contents(t, h))
    ensures p in d.pages && PageFits(TreePage(d.pages[p]))
  {
    hide Stored, Linked, Good, FreeAt, AllPages, Ids, Leaves, PageFits, Contents, LeafReady;
    var ids := Ids(t, h);
    UsedOnce(d, ids, p);
    assert IdsShort(ids) by {
      forall q | q in ids ensures q < SENTINEL { UsedOnce(d, ids, q); }
    }
    if p in ids {
      LeavesReady(d, t, h);
      StoredFits(d.pages, t, None, None, h, p);
    } else {
      assert p in multiset(d.free);
      FreeFits(d, ids, p);
    }
  }

  lemma FreeFits(d: Disk, used: multiset<nat>, p: nat)
    requires Whole(d, used) && d.count <= SENTINEL && p in d.free
    ensures p in d.pages && PageFits(TreePage(d.pages[p]))
  {
    hide AllPages, FreeAt;
    var i :| 0 <= i < |d.free| && d.free[i] == p;
    FreeLink(d.pages, d.free, i);
    if i + 1 < |d.free| {
      var q := d.free[i + 1];
      UsedOnce(d, used, q);
      assert q in multiset(d.free);
    }
  }

  lemma LeavesReady(d: Disk, t: Tree, h: nat)
    requires TreeIn(d, t, h) && d.count <= SENTINEL
    requires AllShort(Contents(t, h))
    ensures AllReady(d.pages, Leaves(t, h))
  {
    ContentsSorted(d, t, h);
    hide AllShort, Stored, Whole, Good, Ids, Leaves, BTreePages.Ascending, ValuesShort, ToMap, Flat, LinkOk, PointerFits;
    var leaves := Leaves(t, h);
    forall l | l in leaves ensures LeafReady(d.pages, l) {
      var i :| 0 <= i < |leaves| && leaves[i] == l;
      NextFits(d, t, h, i);
      LeavesAreLeaves(t, h, l);
      LeafShort(leaves, i);
    }
  }

  lemma NextFits(d: Disk, t: Tree, h: nat, i: nat)
    requires TreeIn(d, t, h) && d.count <= SENTINEL && i < |Leaves(t, h)|
    ensures var l := Leaves(t, h)[i];
            l.id in d.pages && d.pages[l.id].LeafPage? && PointerFits(d.pages[l.id].next)
  {
    hide Stored, Whole, Good, Ids, Leaves;
    var leaves := Leaves(t, h);
    assert LinkOk(d.pages, leaves, i);
    if i + 1 < |leaves| {
      BTreeDeleteSteps.LeafIdsWithin(t, h);
      BTreeDeleteSteps.RowIdsHas(leaves, i + 1);
      UsedOnce(d, Ids(t, h), leaves[i + 1].id);
    }
  }

  lemma {:induction false} LeavesAreLeaves(t: Tree, h: nat, l: Tree)
    requires l in Leaves(t, h)
    ensures l.Leaf?
    decreases h, 0
  {
    if t.Node? { AllAreLeaves(t.kids, h - 1, l); }
  }

  lemma {:induction false} AllAreLeaves(kids: seq<Tree>, h: nat, l: Tree)
    requires l in LeavesAll(kids, h)
    ensures l.Leaf?
    decreases h, 1, |kids|
  {
    hide Leaves;
    var n := |kids| - 1;
    if l in Leaves(kids[n], h) { LeavesAreLeaves(kids[n], h, l); } else { AllAreLeaves(kids[..n], h, l); }
  }

  lemma LeafShort(leaves: seq<Tree>, i: nat)
    requires i < |leaves| && leaves[i].Leaf? && BTreePages.Ascending(Flat(leaves))
    requires AllShort(ToMap(Flat(leaves)))
    ensures ValuesShort(leaves[i].entries)
  {
    hide BTreePages.Ascending, ToMap;
    var es := leaves[i].entries;
    FlatHas(leaves, i);
    forall j | 0 <= j < |es| ensures |es[j].value| < U32_LIMIT { MapValue(Flat(leaves), es[j]); }
  }

  lemma {:induction false} FlatHas(leaves: seq<Tree>, i: nat)
    requires i < |leaves| && leaves[i].Leaf?
    ensures forall e | e in leaves[i].entries :: e in Flat(leaves)
  {
    var n := |leaves| - 1;
    if i < n { FlatHas(leaves[..n], i); }
  }
}
