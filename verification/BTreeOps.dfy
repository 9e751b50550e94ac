/** The B+Tree's insert, as it edits pages. */
module BTreeOps {
  import opened Bytes
  import opened PageLayout
  import opened Wrappers
  import opened BTree
  import opened BTreePages
  import opened BTreeZipper
  import opened BTreePager
  import opened BTreeSplit
  import opened BTreeEdit
  import opened BTreeStates
  import opened BTreeInsertSteps
  import opened BTreeInsert

  // ---- preparing the new cell ----------------------------------------------

  function Rest(es: seq<Entry>, found: bool, i: nat): seq<Entry>
    requires i <= |es| && (found ==> i < |es|)
  {
    if found then es[..i] + es[i + 1..] else es
  }

  function RestIds(path: Path, id: nat, es: seq<Entry>): multiset<nat>
    requires PathOk(path)
  {
    PathIds(path, 0) + (multiset{id} + ChainIds(es))
  }

  lemma SettledLeaf(d: Disk, path: Path, id: nat, es: seq<Entry>)
    requires Settled(d, path, Leaf(id, es), 0)
    ensures PathOk(path) && Whole(d, RestIds(path, id, es)) && EntriesOk(es, HoleLo(path), HoleHi(path)) && LeafBytes(es) <= USABLE_SPACE
    ensures id in d.pages && d.pages[id].LeafPage? && d.pages[id].cells == CellsOf(es) && ChainsAt(d.pages, es)
  {
    hide Whole, PathStored, Linked, EntriesOk, LeafBytes, ChainsAt, LeftLeaves, RightLeaves, PathIds, ChainIds, HoleLo, HoleHi;
    assert Stored(d.pages, Leaf(id, es), 0) && Good(Leaf(id, es), HoleLo(path), HoleHi(path), 0);
  }

  /** Pages of a leaf with one entry taken out. */
  lemma TakeOut(path: Path, id: nat, es: seq<Entry>, i: nat)
    requires PathOk(path) && i < |es|
    ensures RestIds(path, id, es) == RestIds(path, id, Rest(es, true, i)) + multiset(es[i].chain)
  {
    hide PathIds, ChainIds, LeafBytes;
    LeafAround(es, i);
    Assoc(PathIds(path, 0), multiset{id}, ChainIds(Rest(es, true, i)), multiset(es[i].chain));
  }

  lemma Assoc(p: multiset<nat>, a: multiset<nat>, b: multiset<nat>, c: multiset<nat>)
    ensures p + (a + (b + c)) == p + (a + b) + c
  {
  }

  lemma PutIn(path: Path, id: nat, es: seq<Entry>, found: bool, i: nat, e: Entry)
    requires PathOk(path) && i <= |es| && (found ==> i < |es|)
    ensures RestIds(path, id, Rest(es, found, i)) + multiset(e.chain) == RestIds(path, id, PutAt(es, found, i, e))
  {
    hide PathIds, ChainIds, LeafBytes;
    PutSizes(es, found, i, e);
    Assoc(PathIds(path, 0), multiset{id}, ChainIds(Rest(es, found, i)), multiset(e.chain));
  }

  lemma PutChains(pages: Pages, es: seq<Entry>, found: bool, i: nat, e: Entry)
    requires i <= |es| && (found ==> i < |es|) && ChainsAt(pages, Rest(es, found, i))
    requires e.spilled ==> ChainAt(pages, e.chain, e.value)
    ensures ChainsAt(pages, PutAt(es, found, i, e))
  {
    hide ChainAt;
    var rest, now := Rest(es, found, i), PutAt(es, found, i, e);
    forall j | 0 <= j < |now| && now[j].spilled ensures ChainAt(pages, now[j].chain, now[j].value) {
      if j < i { assert now[j] == rest[j]; } else if j > i { assert now[j] == rest[j - 1]; }
    }
  }

  lemma RestChains(pages: Pages, es: seq<Entry>, found: bool, i: nat)
    requires i <= |es| && (found ==> i < |es|) && ChainsAt(pages, es)
    ensures ChainsAt(pages, Rest(es, found, i))
  {
    hide ChainAt;
    var rest := Rest(es, found, i);
    forall j | 0 <= j < |rest| && rest[j].spilled ensures ChainAt(pages, rest[j].chain, rest[j].value) {
      if found { assert rest[j] == es[if j < i then j else j + 1]; }
    }
  }

  /** Frees the replaced value's pages and writes the new value's. */
  method PrepareCell(p: Pager, id: nat, key: Bytes, value: Bytes, found: bool, i: nat, cells: seq<Cell>,
                     ghost path: Path, ghost es: seq<Entry>)
    returns (cell: Cell, ghost e: Entry)
    requires p.Valid() && Settled(p.View(), path, Leaf(id, es), 0) && cells == CellsOf(es)
    requires KeyOk(key) && InBounds(key, HoleLo(path), HoleHi(path)) && IsPosition(es, key, found, i)
    modifies p`pages, p`freeHead, p`count, p`free
    ensures p.Valid() && cell == CellOf(e) && e.key == key && e.value == value && EntryOk(e)
    ensures Prepared(old(p.View()), p.View(), path, id, es, PutAt(es, found, i, e))
  {
    hide Settled, Whole, ChainsAt, SameOn, EntriesOk, LeafBytes, PathIds, ChainIds, HoleLo, HoleHi, FreeAt, IsPosition, Prepared, RestIds, ChainAt;
    ghost var d := p.View();
    assert i <= |es| && (found ==> i < |es|) by { PositionInside(es, key, found, i); }
    SettledLeaf(d, path, id, es);
    ghost var rest := Rest(es, found, i);
    ghost var used := RestIds(path, id, rest);
    RestChains(p.pages, es, found, i);
    SameSelf(p.pages, used);
    if found {
      TakeOut(path, id, es, i);
      EntryChain(p.pages, es, i, HoleLo(path), HoleHi(path));
      assert cells[i] == CellOf(es[i]);
      if cells[i].payload.Spilled? {
        ChainFreeable(d, used, es[i].chain, es[i].value);
        ReleaseAllKeeps(d, used, es[i].chain);
        var freed := p.FreeOverflowChain(cells[i].payload.head);
      } else {
        NoChainIds(used);
      }
    }
    ghost var d1 := p.View();
    if StaysInline(key, value) {
      cell := Cell(key, Inline(value));
      e := Entry(key, value, false, []);
      NoChainIds(used);
      SameSelf(p.pages, used);
    } else {
      ghost var chain;
      var head;
      head, chain := p.WriteOverflowChain(value, used);
      cell := Cell(key, Spilled(|value|, head));
      e := Entry(key, value, true, chain);
    }
    SameTrans(d.pages, d1.pages, p.pages, used);
    PutIn(path, id, es, found, i, e);
    FinishPrepared(d, p.View(), path, id, es, found, i, e);
  }

  lemma NoChainIds(used: multiset<nat>)
    ensures used + multiset([]) == used
  {
  }

  lemma PositionInside(es: seq<Entry>, k: Bytes, found: bool, i: nat)
    requires IsPosition(es, k, found, i)
    ensures i <= |es| && (found ==> i < |es|)
  {
  }

  lemma EntryChain(pages: Pages, es: seq<Entry>, i: nat, lo: Option<Bytes>, hi: Option<Bytes>)
    requires ChainsAt(pages, es) && EntriesOk(es, lo, hi) && i < |es|
    ensures es[i].spilled ==> ChainAt(pages, es[i].chain, es[i].value)
    ensures !es[i].spilled ==> es[i].chain == []
  {
    hide ChainAt, Less;
    assert EntryOk(es[i]);
  }

  lemma FinishPrepared(d: Disk, d1: Disk, path: Path, id: nat, es: seq<Entry>, found: bool, i: nat, e: Entry)
    requires Settled(d, path, Leaf(id, es), 0) && IsPosition(es, e.key, found, i)
    requires EntryOk(e) && InBounds(e.key, HoleLo(path), HoleHi(path))
    requires Whole(d1, RestIds(path, id, PutAt(es, found, i, e))) && SameOn(d.pages, d1.pages, RestIds(path, id, Rest(es, found, i)))
    requires ChainsAt(d.pages, Rest(es, found, i)) && (e.spilled ==> ChainAt(d1.pages, e.chain, e.value))
    ensures Prepared(d, d1, path, id, es, PutAt(es, found, i, e))
  {
    hide Settled, Whole, EntriesOk, LeafBytes, PathIds, ChainIds, HoleLo, HoleHi, IsPosition, ChainsAt, ChainAt, EntryOk, InBounds, SameOn;
    SettledLeaf(d, path, id, es);
    PutGood(es, found, i, e, HoleLo(path), HoleHi(path));
    PositionInside(es, e.key, found, i);
    SameRest(d.pages, d1.pages, PathIds(path, 0), id, ChainIds(Rest(es, found, i)));
    ChainsFrame(d.pages, d1.pages, Rest(es, found, i));
    PutChains(d1.pages, es, found, i, e);
  }

  lemma SameRest(a: Pages, b: Pages, x: multiset<nat>, id: nat, y: multiset<nat>)
    requires SameOn(a, b, x + (multiset{id} + y))
    ensures SameOn(a, b, x + multiset{id}) && SameOn(a, b, y)
  {
  }

  // ---- leaves --------------------------------------------------------------

  function InsertCell(cells: seq<Cell>, found: bool, i: nat, c: Cell): seq<Cell>
    requires i <= |cells| && (found ==> i < |cells|)
  {
    cells[..i] + [c] + cells[(if found then i + 1 else i)..]
  }

  lemma InsertCellOf(es: seq<Entry>, found: bool, i: nat, e: Entry)
    requires i <= |es| && (found ==> i < |es|)
    ensures InsertCell(CellsOf(es), found, i, CellOf(e)) == CellsOf(PutAt(es, found, i, e))
  {
  }

  /** Inserts into a leaf, splitting it when it is too full. */
  method InsertIntoLeaf(p: Pager, id: nat, key: Bytes, value: Bytes, maxUsed: nat, ghost path: Path, ghost es: seq<Entry>)
    returns (split: Option<Split>, ghost now: seq<Entry>, ghost cut: nat)
    requires p.Valid() && Settled(p.View(), path, Leaf(id, es), 0)
    requires KeyOk(key) && InBounds(key, HoleLo(path), HoleHi(path))
    modifies p`pages, p`freeHead, p`count, p`free
    ensures p.Valid() && PutInto(es, now, key, value)
    ensures split.None? ==> Settled(p.View(), path, Leaf(id, now), 0)
    ensures split.Some? ==> 0 < cut < |now|
    ensures split.Some? ==> Pending(p.View(), path, Leaf(id, now[..cut]), Leaf(split.value.right, now[cut..]), split.value.key, 0)
    ensures split.None? <==> LeafBytes(now) <= USABLE_SPACE && (LeafBytes(now) <= maxUsed || |now| == 1)
  {
    hide Settled, Pending, Whole, EntriesOk, LeafBytes, PathIds, HoleLo, HoleHi, FreeAt, IsPosition, Prepared, KeyPosition, KeysSorted, InBounds, PutInto, Total;
    ghost var d := p.View();
    SettledLeaf(d, path, id, es);
    var page := p.pages[id];
    LeafSorted(es, HoleLo(path), HoleHi(path));
    var found, i := Search(CellKeys(page.cells), key);
    LeafPosition(es, key, found, i);
    PositionInside(es, key, found, i);
    ghost var e;
    var cell;
    cell, e := PrepareCell(p, id, key, value, found, i, page.cells, path, es);
    PutAtPuts(es, found, i, e);
    now := PutAt(es, found, i, e);
    InsertCellOf(es, found, i, e);
    var cells := InsertCell(page.cells, found, i, cell);
    PreparedPage(d, p.View(), path, id, es, now);
    CellSizesOf(now);
    EntrySizesTotal(now);
    var used := Sum(CellSizes(cells));
    if used <= USABLE_SPACE && (used <= maxUsed || |cells| == 1) {
      PreparedWrite(d, p.View(), path, id, es, now);
      PreparedNotFree(d, p.View(), path, id, es, now);
      p.WritePage(id, LeafPage(cells, page.next));
      split, cut := None, 0;
    } else {
      assert |cells| >= 2 by { LoneCellFits(es, found, i, e); }
      split, cut := SplitLeaf(p, id, i, cells, page.next, d, path, es, now, found, e);
    }
  }

  lemma LoneCellFits(es: seq<Entry>, found: bool, i: nat, e: Entry)
    requires i <= |es| && (found ==> i < |es|) && EntryOk(e)
    ensures |PutAt(es, found, i, e)| >= 1
    ensures |PutAt(es, found, i, e)| == 1 ==> LeafBytes(PutAt(es, found, i, e)) <= USABLE_SPACE
  {
    hide LeafBytes;
    if |PutAt(es, found, i, e)| == 1 {
      assert PutAt(es, found, i, e) == [e];
      LeafBytesOne(e);
      EntryLimit(e);
    }
  }

  lemma PreparedNotFree(d: Disk, d1: Disk, path: Path, id: nat, es: seq<Entry>, now: seq<Entry>)
    requires Prepared(d, d1, path, id, es, now)
    ensures id !in d1.free && (d1.free != [] ==> d1.free[0] !in d1.free[1..]) && id != NextId(d1)
  {
    hide Settled, Whole, EntriesOk, PathIds, ChainIds, HoleLo, HoleHi, ChainsAt, SameOn;
    var used := PathIds(path, 0) + (multiset{id} + ChainIds(now));
    assert id in used;
    NotFree(d1, used, id);
    FreeDistinct(d1, used);
    AllocKeeps(d1, used, FreePage(None));
  }

  /** Where the leaf is cut: appending at the right edge keeps it full. */
  method SplitLeaf(p: Pager, id: nat, i: nat, cells: seq<Cell>, next: Option<nat>,
                   ghost d: Disk, ghost path: Path, ghost es: seq<Entry>, ghost now: seq<Entry>, ghost found: bool, ghost e: Entry)
    returns (split: Option<Split>, cut: nat)
    requires p.Valid() && Prepared(d, p.View(), path, id, es, now) && cells == CellsOf(now) && |cells| >= 2
    requires i <= |es| && (found ==> i < |es|) && now == PutAt(es, found, i, e) && LeafBytes(es) <= USABLE_SPACE && EntryOk(e)
    requires id in d.pages && d.pages[id].LeafPage? && next == d.pages[id].next
    modifies p`pages, p`freeHead, p`count, p`free
    ensures p.Valid() && split.Some? && 0 < cut < |now|
    ensures Pending(p.View(), path, Leaf(id, now[..cut]), Leaf(split.value.right, now[cut..]), split.value.key, 0)
    ensures if i == |now| - 1 && next.None? then cut == i else BestBelow(EntrySizes(now), false, |now|, Some(cut))
  {
    hide Settled, Pending, Whole, PathIds, HoleLo, HoleHi, FreeAt, Total, LeafBytes, Prepared, EntryOk;
    CellSizesOf(now);
    assert |now| == |cells|;
    if i == |cells| - 1 && next.None? {
      cut := i;
      AppendFits(es, found, i, e);
    } else {
      assert exists c: nat :: Divides(EntrySizes(now), false, c) by { PutDivides(d, p.View(), path, id, es, found, i, e); }
      var at := SplitPoint(CellSizes(cells), false);
      assert at.Some?;
      cut := at.value;
      assert Divides(EntrySizes(now), false, cut) by { BestDivides(EntrySizes(now), false, at); }
      EntriesDivided(now, cut);
    }
    PreparedSplit(d, p.View(), path, id, es, now, cut);
    PreparedNotFree(d, p.View(), path, id, es, now);
    assert cells[cut..] == CellsOf(now[cut..]) && cells[..cut] == CellsOf(now[..cut]);
    assert cells[cut].key == now[cut].key;
    var r := p.AllocatePage(LeafPage(cells[cut..], next));
    p.WritePage(id, LeafPage(cells[..cut], Some(r)));
    split := Some(Split(cells[cut].key, r));
  }

  lemma BestDivides(sizes: seq<nat>, promote: bool, best: Option<nat>)
    requires BestBelow(sizes, promote, |sizes|, best) && best.Some?
    ensures Divides(sizes, promote, best.value)
  {
  }

  /** Appending: the old cells fit where they are, the new one has its own page. */
  lemma AppendFits(es: seq<Entry>, found: bool, i: nat, e: Entry)
    requires i <= |es| && (found ==> i < |es|) && LeafBytes(es) <= USABLE_SPACE && EntryOk(e)
    requires i == |PutAt(es, found, i, e)| - 1
    ensures var now := PutAt(es, found, i, e);
            LeafBytes(now[..i]) <= USABLE_SPACE && LeafBytes(now[i..]) <= USABLE_SPACE
  {
    hide LeafBytes;
    var now := PutAt(es, found, i, e);
    assert now[..i] == es[..i] && now[i..] == [e];
    assert es == es[..i] + es[i..];
    LeafBytesConcat(es[..i], es[i..]);
    LeafBytesOne(e);
    EntryLimit(e);
  }

  lemma PutDivides(d: Disk, d1: Disk, path: Path, id: nat, es: seq<Entry>, found: bool, i: nat, e: Entry)
    requires i <= |es| && (found ==> i < |es|) && LeafBytes(es) <= USABLE_SPACE && EntryOk(e)
    requires Prepared(d, d1, path, id, es, PutAt(es, found, i, e)) && |PutAt(es, found, i, e)| >= 2
    ensures exists c: nat :: Divides(EntrySizes(PutAt(es, found, i, e)), false, c)
  {
    hide Settled, Whole, PathIds, ChainIds, HoleLo, HoleHi, ChainsAt, LeafBytes, Total, SameOn;
    var now := PutAt(es, found, i, e);
    PutSizes(es, found, i, e);
    EntrySizesTotal(now);
    EntryLimit(e);
    if found { LeafAround(es, i); }
    assert EntriesOk(now, HoleLo(path), HoleHi(path));
    var sizes := EntrySizes(now);
    forall j | 0 <= j < |sizes| ensures 0 < sizes[j] <= LARGEST_CELL {
      assert EntryOk(now[j]);
      EntryLimit(now[j]);
    }
    LeafDivides(sizes);
  }
}
