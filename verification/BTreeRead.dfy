/** Reading a tree: point lookups, range scans and counting along the leaf chain,
    on every file the structural check accepts. */
module BTreeRead {
  import opened Bytes
  import opened PageLayout
  import opened Wrappers
  import opened Ranges
  import opened BTree
  import opened BTreePages
  import opened BTreeLinks
  import opened BTreePager
  import opened BTreeStates
  import opened BTreeInsert
  import opened BTreeRoot
  import opened BTreeCheck
  import opened BTreeVerify

  /** A tree whose keys are in order and whose leaves are linked, in a file with
      more pages than leaves. */
  ghost predicate Walkable(pages: Pages, count: nat, t: Tree, h: nat) {
    Sane(pages, t, None, None, h) && Linked(pages, Leaves(t, h)) && |Leaves(t, h)| < count && h <= MAX_DEPTH
  }

  lemma AcceptedWalkable(pages: Pages, root: nat, freeHead: Option<nat>, count: nat, t: Tree, h: nat, free: seq<nat>)
    requires WellFormedFile(pages, root, freeHead, count, t, h, free)
    ensures Walkable(pages, count, t, h) && t.id == root
  {
    hide Accepts, Linked, Follows, NewPages, Leaves;
    AcceptedSane(pages, root, count, t, h);
    AcceptedDepth(pages, root, count, t, h);
  }

  lemma AcceptedDepth(pages: Pages, root: nat, count: nat, t: Tree, h: nat)
    requires Accepts(pages, root, None, None, 1, {}, None, count, t, h)
    ensures h < MAX_DEPTH
  {
    hide Sane, NewPages;
  }

  /** What a read can return: an inline value, or a chain no longer than a full one
      of its length, in a file with room for as many links. */
  predicate ReadableEntry(e: Entry, count: nat) {
    e.spilled ==> |e.chain| <= |e.value| / OVERFLOW_PAYLOAD + 2 <= count
  }

  ghost predicate AllReadable(es: seq<Entry>, count: nat) {
    forall e | e in es :: ReadableEntry(e, count)
  }

  // ---- order ---------------------------------------------------------------

  ghost predicate InOrder(es: seq<Entry>, lo: Option<Bytes>, hi: Option<Bytes>) {
    BTreePages.Ascending(es) && forall e | e in es :: InBounds(e.key, lo, hi)
  }

  lemma JoinInOrder(a: seq<Entry>, b: seq<Entry>, lo: Option<Bytes>, m: Bytes, hi: Option<Bytes>)
    requires InOrder(a, lo, Some(m)) && InOrder(b, Some(m), hi) && InBounds(m, lo, hi)
    ensures InOrder(a + b, lo, hi)
  {
    hide Less, AtMost;
    var c := a + b;
    forall e | e in c ensures InBounds(e.key, lo, hi) {
      if e in a {
        if hi.Some? { LessTransitive(e.key, m, hi.value); }
      } else {
        if lo.Some? { AtMostTrans(lo.value, m, e.key); }
      }
    }
    forall i, j | 0 <= i < j < |c| ensures Less(c[i].key, c[j].key) {
      if i < |a| <= j {
        assert c[i] in a && c[j] == b[j - |a|] && c[j] in b;
        LessAtMost(c[i].key, m, c[j].key);
      } else if j < |a| {
        assert c[i] == a[i] && c[j] == a[j];
      } else {
        assert c[i] == b[i - |a|] && c[j] == b[j - |a|];
      }
    }
  }

  lemma SaneLeafOrder(pages: Pages, t: Tree, lo: Option<Bytes>, hi: Option<Bytes>, h: nat)
    requires Sane(pages, t, lo, hi, h) && t.Leaf?
    ensures h == 0 && t.id in pages && pages[t.id].LeafPage? && pages[t.id].cells == CellsOf(t.entries)
    ensures InOrder(t.entries, lo, hi) && KeysSorted(CellKeys(CellsOf(t.entries)))
    ensures forall i | 0 <= i < |t.entries| :: EntryStored(pages, t.entries[i])
  {
    hide EntryStored, Less, InBounds;
    var es, keys := t.entries, CellKeys(CellsOf(t.entries));
    assert forall i | 0 <= i < |es| :: keys[i] == es[i].key;
  }

  lemma SaneKid(pages: Pages, t: Tree, lo: Option<Bytes>, hi: Option<Bytes>, h: nat, i: nat)
    requires Sane(pages, t, lo, hi, h) && t.Node? && i < |t.kids|
    ensures h > 0 && |t.kids| == |t.seps| + 1 && Sane(pages, t.kids[i], KidLo(t.seps, i, lo), KidHi(t.seps, i, hi), h - 1)
  {
    hide KeysInOrder;
    assert SaneKids(pages, t.seps, t.kids, lo, hi, h - 1);
  }

  lemma SaneNode(pages: Pages, t: Tree, lo: Option<Bytes>, hi: Option<Bytes>, h: nat)
    requires Sane(pages, t, lo, hi, h) && t.Node?
    ensures h > 0 && |t.kids| == |t.seps| + 1 && t.id in pages && pages[t.id] == NodePage(t.kids[0].id, SepsOf(t.seps, t.kids))
    ensures KeysSorted(t.seps) && SepKeys(pages[t.id].seps) == t.seps && Leaves(t, h) == LeavesAll(t.kids, h - 1)
    ensures forall i | 0 <= i < |t.seps| :: InBounds(t.seps[i], lo, KidHi(t.seps, i + 1, hi))
  {
    hide SaneKids, Less;
    SepKeysOf(t.seps, t.kids);
  }

  /** The entries of a sane tree, in order, are sorted and in bounds. */
  lemma {:induction false} SaneFlat(pages: Pages, t: Tree, lo: Option<Bytes>, hi: Option<Bytes>, h: nat)
    requires Sane(pages, t, lo, hi, h)
    ensures InOrder(Flat(Leaves(t, h)), lo, hi)
    decreases h, 0
  {
    hide Sane, InOrder, KeysSorted;
    if t.Leaf? {
      SaneLeafOrder(pages, t, lo, hi, h);
      FlatOne(t);
    } else {
      SaneNode(pages, t, lo, hi, h);
      SaneFlatKids(pages, t, lo, hi, h, 0, |t.kids|);
      assert t.kids[0..|t.kids|] == t.kids;
    }
  }

  /** So are those of any row of neighbouring children. */
  lemma {:induction false} SaneFlatKids(pages: Pages, t: Tree, lo: Option<Bytes>, hi: Option<Bytes>, h: nat, m: nat, n: nat)
    requires Sane(pages, t, lo, hi, h) && t.Node? && h > 0 && |t.kids| == |t.seps| + 1 && m < n <= |t.kids|
    ensures InOrder(Flat(LeavesAll(t.kids[m..n], h - 1)), KidLo(t.seps, m, lo), KidHi(t.seps, n - 1, hi))
    decreases h - 1, 1, n
  {
    hide Sane, InOrder, Leaves, Flat, KeysSorted, InBounds;
    var kids, seps, last := t.kids, t.seps, t.kids[n - 1];
    SaneKid(pages, t, lo, hi, h, n - 1);
    SaneFlat(pages, last, KidLo(seps, n - 1, lo), KidHi(seps, n - 1, hi), h - 1);
    assert kids[m..n][..n - m - 1] == kids[m..n - 1] && kids[m..n][n - m - 1] == last;
    var a, b := LeavesAll(kids[m..n - 1], h - 1), Leaves(last, h - 1);
    FlatConcat(a, b);
    if m == n - 1 {
      assert kids[m..m] == [];
      NoLeaves(h - 1);
      assert Flat(a) + Flat(b) == Flat(b);
    } else {
      SaneFlatKids(pages, t, lo, hi, h, m, n - 1);
      SaneSepBetween(pages, t, lo, hi, h, m, n - 2);
      JoinInOrder(Flat(a), Flat(b), KidLo(seps, m, lo), seps[n - 2], KidHi(seps, n - 1, hi));
    }
  }

  lemma SaneSepBetween(pages: Pages, t: Tree, lo: Option<Bytes>, hi: Option<Bytes>, h: nat, m: nat, i: nat)
    requires Sane(pages, t, lo, hi, h) && t.Node? && |t.kids| == |t.seps| + 1 && m <= i < |t.seps|
    ensures InBounds(t.seps[i], KidLo(t.seps, m, lo), KidHi(t.seps, i + 1, hi))
  {
    SaneNode(pages, t, lo, hi, h);
    hide Sane, Less;
  }

  lemma WalkableSorted(pages: Pages, count: nat, t: Tree, h: nat)
    requires Walkable(pages, count, t, h)
    ensures BTreePages.Ascending(Flat(Leaves(t, h)))
  {
    hide Sane, Leaves, Flat, Linked;
    SaneFlat(pages, t, None, None, h);
  }

  // ---- leaves --------------------------------------------------------------

  /** A leaf page and the entries behind its cells. */
  ghost predicate LeafOn(pages: Pages, leaf: Tree) {
    && leaf.Leaf? && leaf.id in pages && pages[leaf.id].LeafPage? && pages[leaf.id].cells == CellsOf(leaf.entries)
    && KeysSorted(CellKeys(CellsOf(leaf.entries))) && forall i | 0 <= i < |leaf.entries| :: EntryStored(pages, leaf.entries[i])
  }

  lemma {:induction false} LeavesOn(pages: Pages, t: Tree, lo: Option<Bytes>, hi: Option<Bytes>, h: nat, leaf: Tree)
    requires Sane(pages, t, lo, hi, h) && leaf in Leaves(t, h)
    ensures LeafOn(pages, leaf)
    decreases h, 0
  {
    hide Sane, EntryStored, KeysSorted;
    if t.Leaf? {
      SaneLeafOrder(pages, t, lo, hi, h);
    } else {
      SaneNode(pages, t, lo, hi, h);
      assert t.kids[..|t.kids|] == t.kids;
      LeavesOnAll(pages, t, lo, hi, h, leaf, |t.kids|);
    }
  }

  lemma {:induction false} LeavesOnAll(pages: Pages, t: Tree, lo: Option<Bytes>, hi: Option<Bytes>, h: nat, leaf: Tree, n: nat)
    requires Sane(pages, t, lo, hi, h) && t.Node? && h > 0 && n <= |t.kids| && leaf in LeavesAll(t.kids[..n], h - 1)
    ensures LeafOn(pages, leaf)
    decreases h - 1, 1, n
  {
    hide Sane, Leaves, LeafOn;
    if n > 0 {
      assert t.kids[..n][..n - 1] == t.kids[..n - 1] && t.kids[..n][n - 1] == t.kids[n - 1];
      if leaf in LeavesAll(t.kids[..n - 1], h - 1) {
        LeavesOnAll(pages, t, lo, hi, h, leaf, n - 1);
      } else {
        SaneKid(pages, t, lo, hi, h, n - 1);
        LeavesOn(pages, t.kids[n - 1], KidLo(t.seps, n - 1, lo), KidHi(t.seps, n - 1, hi), h - 1, leaf);
      }
    }
  }

  /** What the chain says about leaf `j`. */
  lemma ChainLeaf(pages: Pages, count: nat, t: Tree, h: nat, j: nat)
    requires Walkable(pages, count, t, h) && j < |Leaves(t, h)|
    ensures LeafOn(pages, Leaves(t, h)[j])
    ensures pages[Leaves(t, h)[j].id].next == NextOf(Leaves(t, h), j)
  {
    hide Sane, Leaves, EntryStored, KeysSorted;
    LeavesOn(pages, t, None, None, h, Leaves(t, h)[j]);
    assert LinkOk(pages, Leaves(t, h), j);
  }

  // ---- descending ----------------------------------------------------------

  /** A row of leaves split around one of them by a key. */
  ghost predicate Around(row: seq<Tree>, a: seq<Tree>, mid: seq<Tree>, b: seq<Tree>, key: Bytes) {
    && row == a + mid + b
    && (forall e | e in Flat(a) :: Less(e.key, key))
    && (forall e | e in Flat(b) :: Less(key, e.key))
  }

  /** Everything below the child taken by the descent that could hold the key. */
  lemma ChildSides(pages: Pages, t: Tree, lo: Option<Bytes>, hi: Option<Bytes>, h: nat, key: Bytes, found: bool, i: nat)
    requires Sane(pages, t, lo, hi, h) && t.Node? && |t.kids| == |t.seps| + 1 && h > 0 && KeyPosition(t.seps, key, found, i)
    ensures var slot := if found then i + 1 else i;
            Around(Leaves(t, h), LeavesAll(t.kids[..slot], h - 1), Leaves(t.kids[slot], h - 1), LeavesAll(t.kids[slot + 1..], h - 1), key)
  {
    hide Sane, Leaves, Flat, KeysSorted, KeyPosition, Less, IdsAll, Ids;
    var slot := if found then i + 1 else i;
    PositionWithin(t.seps, key, found, i);
    SaneNode(pages, t, lo, hi, h);
    LeavesAround(t.kids, slot, h - 1);
    LeftOfSlot(pages, t, lo, hi, h, key, found, i);
    RightOfSlot(pages, t, lo, hi, h, key, found, i);
  }

  lemma LeftOfSlot(pages: Pages, t: Tree, lo: Option<Bytes>, hi: Option<Bytes>, h: nat, key: Bytes, found: bool, i: nat)
    requires Sane(pages, t, lo, hi, h) && t.Node? && |t.kids| == |t.seps| + 1 && h > 0 && KeyPosition(t.seps, key, found, i)
    ensures var slot := if found then i + 1 else i;
            forall e | e in Flat(LeavesAll(t.kids[..slot], h - 1)) :: Less(e.key, key)
  {
    hide Sane, Flat, Less;
    var slot := if found then i + 1 else i;
    if slot == 0 {
      assert t.kids[..0] == [];
      NoLeaves(h - 1);
    } else {
      SaneFlatKids(pages, t, lo, hi, h, 0, slot);
      assert t.kids[0..slot] == t.kids[..slot];
      assert AtMost(t.seps[slot - 1], key);
      forall e | e in Flat(LeavesAll(t.kids[..slot], h - 1)) ensures Less(e.key, key) {
        LessAtMost(e.key, t.seps[slot - 1], key);
      }
    }
  }

  lemma RightOfSlot(pages: Pages, t: Tree, lo: Option<Bytes>, hi: Option<Bytes>, h: nat, key: Bytes, found: bool, i: nat)
    requires Sane(pages, t, lo, hi, h) && t.Node? && |t.kids| == |t.seps| + 1 && h > 0 && KeyPosition(t.seps, key, found, i)
    ensures var slot := if found then i + 1 else i;
            forall e | e in Flat(LeavesAll(t.kids[slot + 1..], h - 1)) :: Less(key, e.key)
  {
    hide Sane, Flat, Less;
    var slot, n := if found then i + 1 else i, |t.kids|;
    if slot + 1 == n {
      assert t.kids[n..] == [];
      NoLeaves(h - 1);
    } else {
      SaneFlatKids(pages, t, lo, hi, h, slot + 1, n);
      assert t.kids[slot + 1..n] == t.kids[slot + 1..];
      forall e | e in Flat(LeavesAll(t.kids[slot + 1..], h - 1)) ensures Less(key, e.key) {
        LessAtMost(key, t.seps[slot], e.key);
      }
    }
  }

  lemma AroundDeeper(row: seq<Tree>, a: seq<Tree>, mid: seq<Tree>, b: seq<Tree>, a': seq<Tree>, mid': seq<Tree>, b': seq<Tree>, key: Bytes)
    requires Around(row, a, mid, b, key) && Around(mid, a', mid', b', key)
    ensures Around(row, a + a', mid', b' + b, key)
  {
    hide Less, Flat;
    FlatConcat(a, a');
    FlatConcat(b', b);
    assert a + (a' + mid' + b') + b == (a + a') + mid' + (b' + b);
  }

  lemma AroundStart(row: seq<Tree>, key: Bytes)
    ensures Around(row, [], row, [], key)
  {
    assert [] + row + [] == row;
  }

  lemma FoundChild(pages: Pages, t: Tree, lo: Option<Bytes>, hi: Option<Bytes>, h: nat, slot: nat)
    requires Sane(pages, t, lo, hi, h) && t.Node? && slot < |t.kids|
    ensures t.id in pages && pages[t.id].NodePage? && slot <= |pages[t.id].seps| && ChildAt(pages[t.id], slot) == t.kids[slot].id
  {
    hide KeysInOrder, SaneKids;
    if slot > 0 { assert SepsOf(t.seps, t.kids)[slot - 1].child == t.kids[slot].id; }
  }

  lemma SanePage(pages: Pages, t: Tree, lo: Option<Bytes>, hi: Option<Bytes>, h: nat)
    requires Sane(pages, t, lo, hi, h)
    ensures t.id in pages && (t.Leaf? <==> pages[t.id].LeafPage?) && (t.Leaf? ==> h == 0 && Leaves(t, h) == [t])
  {
    hide KeysInOrder, SaneKids, EntryStored;
  }

  /** The leaf that owns a key: nothing before it reaches the key and nothing after
      it does. `None` would report a descent of more than 65 pages. */
  method FindLeaf(p: Pager, key: Bytes, ghost t: Tree, ghost h: nat)
    returns (leaf: Option<nat>, ghost mid: Tree, ghost a: seq<Tree>, ghost b: seq<Tree>)
    requires Walkable(p.pages, p.count, t, h) && p.root == t.id
    ensures leaf == Some(mid.id) && LeafOn(p.pages, mid) && Around(Leaves(t, h), a, [mid], b, key)
  {
    hide Walkable, Sane, Leaves, Around, KeyPosition, KeysSorted, EntryStored;
    var current := p.root;
    ghost var lo, hi := None, None;
    ghost var k: nat := h;
    mid, a, b := t, [], [];
    WalkableSane(p.pages, p.count, t, h);
    AroundStart(Leaves(t, h), key);
    for step := 0 to MAX_DEPTH + 1
      invariant Sane(p.pages, mid, lo, hi, k) && current == mid.id && k + step == h
      invariant Around(Leaves(t, h), a, Leaves(mid, k), b, key)
    {
      SanePage(p.pages, mid, lo, hi, k);
      var page := p.pages[current];
      if page.LeafPage? {
        SaneLeafOrder(p.pages, mid, lo, hi, k);
        return Some(current), mid, a, b;
      }
      SaneNode(p.pages, mid, lo, hi, k);
      var found, i := Search(SepKeys(page.seps), key);
      PositionWithin(mid.seps, key, found, i);
      var slot := if found then i + 1 else i;
      ChildSides(p.pages, mid, lo, hi, k, key, found, i);
      AroundDeeper(Leaves(t, h), a, Leaves(mid, k), b, LeavesAll(mid.kids[..slot], k - 1), Leaves(mid.kids[slot], k - 1), LeavesAll(mid.kids[slot + 1..], k - 1), key);
      FoundChild(p.pages, mid, lo, hi, k, slot);
      SaneKid(p.pages, mid, lo, hi, k, slot);
      current := ChildAt(page, slot);
      a, b := a + LeavesAll(mid.kids[..slot], k - 1), LeavesAll(mid.kids[slot + 1..], k - 1) + b;
      lo, hi := KidLo(mid.seps, slot, lo), KidHi(mid.seps, slot, hi);
      mid, k := mid.kids[slot], k - 1;
    }
    return None, mid, a, b;
  }

  lemma WalkableSane(pages: Pages, count: nat, t: Tree, h: nat)
    requires Walkable(pages, count, t, h)
    ensures Sane(pages, t, None, None, h) && h <= MAX_DEPTH && |Leaves(t, h)| < count
  {
  }

  lemma PositionWithin(keys: seq<Bytes>, k: Bytes, found: bool, i: nat)
    requires KeyPosition(keys, k, found, i)
    ensures (if found then i + 1 else i) <= |keys| && (found ==> i < |keys| && keys[i] == k)
  {
  }

  // ---- point lookups -------------------------------------------------------

  datatype Lookup = Value(value: Bytes) | Missing | Corrupt

  /** Reads an entry's value, exactly when it is readable. */
  method CellValue(p: Pager, cell: Cell, ghost e: Entry) returns (v: Option<Bytes>)
    requires cell == CellOf(e) && EntryStored(p.pages, e)
    ensures v == if ReadableEntry(e, p.count) then Some(e.value) else None
  {
    hide Chained, ReadableChain, Payloads;
    if cell.payload.Inline? { return Some(cell.payload.value); }
    ChainedReads(p.pages, p.count, e.chain, e.value);
    v := p.ReadOverflowChain(cell.payload.head, cell.payload.total);
  }

  /** Looks a key up: missing exactly when the tree does not hold it, and
      otherwise its value, unless its chain is one no read accepts. */
  method Get(p: Pager, key: Bytes, ghost t: Tree, ghost h: nat) returns (r: Lookup)
    requires Walkable(p.pages, p.count, t, h) && p.root == t.id
    ensures r == Missing <==> key !in Contents(t, h)
    ensures r.Value? ==> r.value == Contents(t, h)[key]
    ensures r == Corrupt <==> exists e :: e in Flat(Leaves(t, h)) && e.key == key && !ReadableEntry(e, p.count)
  {
    hide Walkable, Sane, Leaves, Around, LeafOn, KeyPosition, KeysSorted, EntryStored, Flat, ToMap, ReadableEntry;
    ghost var mid, a, b;
    var leaf;
    leaf, mid, a, b := FindLeaf(p, key, t, h);
    if leaf.None? { return Corrupt; }
    LeafParts(p.pages, mid);
    var page := p.pages[leaf.value];
    var found, i := Search(CellKeys(page.cells), key);
    PositionWithin(CellKeys(CellsOf(mid.entries)), key, found, i);
    OnlyInLeaf(p.pages, p.count, t, h, a, mid, b, key, found, i);
    if !found { return Missing; }
    assert page.cells[i] == CellOf(mid.entries[i]);
    var v := CellValue(p, page.cells[i], mid.entries[i]);
    return if v.Some? then Value(v.value) else Corrupt;
  }

  lemma LeafParts(pages: Pages, leaf: Tree)
    requires LeafOn(pages, leaf)
    ensures leaf.Leaf? && leaf.id in pages && pages[leaf.id].LeafPage? && pages[leaf.id].cells == CellsOf(leaf.entries)
    ensures KeysSorted(CellKeys(CellsOf(leaf.entries))) && forall i | 0 <= i < |leaf.entries| :: EntryStored(pages, leaf.entries[i])
  {
  }

  /** The search of one leaf settles the matter for the whole tree. */
  lemma OnlyInLeaf(pages: Pages, count: nat, t: Tree, h: nat, a: seq<Tree>, mid: Tree, b: seq<Tree>, key: Bytes, found: bool, i: nat)
    requires Walkable(pages, count, t, h) && mid.Leaf? && Around(Leaves(t, h), a, [mid], b, key)
    requires KeyPosition(CellKeys(CellsOf(mid.entries)), key, found, i)
    ensures found <==> key in Contents(t, h)
    ensures found ==> i < |mid.entries| && Contents(t, h)[key] == mid.entries[i].value
    ensures found ==> mid.entries[i].key == key && mid.entries[i] in Flat(Leaves(t, h))
    ensures forall e | e in Flat(Leaves(t, h)) && e.key == key :: found && e == mid.entries[i]
  {
    hide Walkable, Leaves, Less, ToMap, Flat, KeyPosition, Around, BTreePages.Ascending;
    var es, all := mid.entries, Flat(Leaves(t, h));
    AroundEntries(Leaves(t, h), a, mid, b, key);
    PositionInLeaf(es, key, found, i);
    MapHas(all, key);
    if found {
      assert es[i] in es && es[i] in all;
      WalkableSorted(pages, count, t, h);
      MapValue(all, es[i]);
    }
  }

  lemma PositionInLeaf(es: seq<Entry>, key: Bytes, found: bool, i: nat)
    requires KeyPosition(CellKeys(CellsOf(es)), key, found, i)
    ensures found ==> i < |es| && es[i].key == key
    ensures forall e | e in es && e.key == key :: found && e == es[i]
  {
    hide Less;
    LessIrreflexive(key);
    assert forall j | 0 <= j < |es| :: CellKeys(CellsOf(es))[j] == es[j].key;
    forall e | e in es && e.key == key ensures found && e == es[i] {
      var j :| 0 <= j < |es| && es[j] == e;
    }
  }

  lemma AroundEntries(row: seq<Tree>, a: seq<Tree>, mid: Tree, b: seq<Tree>, key: Bytes)
    requires mid.Leaf? && Around(row, a, [mid], b, key)
    ensures Flat(row) == Flat(a) + mid.entries + Flat(b)
    ensures forall e | e in Flat(row) && e.key == key :: e in mid.entries
  {
    hide Flat, Less;
    FlatConcat(a + [mid], b);
    FlatConcat(a, [mid]);
    FlatOne(mid);
    LessIrreflexive(key);
  }

  // ---- counting ------------------------------------------------------------

  /** Number of keys, counted leaf by leaf; the chain guard never trips. */
  method Len(p: Pager, ghost t: Tree, ghost h: nat) returns (n: Option<nat>)
    requires Walkable(p.pages, p.count, t, h) && p.root == t.id
    ensures n == Some(|Contents(t, h)|) && |Contents(t, h)| == |Flat(Leaves(t, h))|
  {
    hide Walkable, Sane, Leaves, Flat, LeafOn, ToMap, BTreePages.Ascending, KeysSorted, EntryStored;
    ghost var row := Leaves(t, h);
    WalkableSane(p.pages, p.count, t, h);
    var first := FirstLeafOf(p.pages, p.root, t, h);
    var leaf, remaining, total := Some(first), p.count, 0;
    ghost var j := 0;
    assert row[..0] == [];
    NoLeaves(0);
    while leaf.Some?
      invariant 0 <= j <= |row| && leaf == (if j < |row| then Some(row[j].id) else None)
      invariant remaining + j == p.count && total == |Flat(row[..j])|
      decreases |row| - j
    {
      if remaining == 0 { return None; }
      remaining := remaining - 1;
      ChainLeaf(p.pages, p.count, t, h, j);
      LeafParts(p.pages, row[j]);
      var page := p.pages[leaf.value];
      FlatNext(row, j);
      total := total + |page.cells|;
      leaf := page.next;
      j := j + 1;
    }
    assert row[..|row|] == row;
    WalkableSorted(p.pages, p.count, t, h);
    MapSize(Flat(row));
    n := Some(total);
  }

  lemma FlatNext(row: seq<Tree>, j: nat)
    requires j < |row| && row[j].Leaf?
    ensures Flat(row[..j + 1]) == Flat(row[..j]) + row[j].entries
  {
    assert row[..j + 1][..j] == row[..j];
  }

  // ---- range scans ---------------------------------------------------------

  predicate PastEnd(k: Bytes, hi: Bound) { !BelowHigh(hi, k) }

  function Pairs(es: seq<Entry>): seq<(Bytes, Bytes)> {
    seq(|es|, i requires 0 <= i < |es| => (es[i].key, es[i].value))
  }

  /** The reference: all entries in range, in order. */
  function EntriesIn(es: seq<Entry>, lo: Bound, hi: Bound): seq<Entry> {
    if es == [] then []
    else
      var rest := EntriesIn(es[1..], lo, hi);
      if AboveLow(lo, es[0].key) && !PastEnd(es[0].key, hi) then [es[0]] + rest else rest
  }

  /** Entries up to the first one past the end. */
  function Until(es: seq<Entry>, hi: Bound): seq<Entry> {
    if es == [] || PastEnd(es[0].key, hi) then [] else [es[0]] + Until(es[1..], hi)
  }

  predicate Ends(es: seq<Entry>, hi: Bound) {
    exists i :: 0 <= i < |es| && PastEnd(es[i].key, hi)
  }

  lemma PastLater(a: Bytes, b: Bytes, hi: Bound)
    requires Less(a, b) && PastEnd(a, hi)
    ensures PastEnd(b, hi)
  {
    RangeOrder(a, b, hi);
  }

  lemma TailAscending(es: seq<Entry>)
    requires BTreePages.Ascending(es) && es != []
    ensures BTreePages.Ascending(es[1..]) && forall e | e in es[1..] :: Less(es[0].key, e.key)
  {
    hide Less;
    forall e | e in es[1..] ensures Less(es[0].key, e.key) {
      var i :| 0 <= i < |es| - 1 && es[1..][i] == e;
      assert es[i + 1] == e;
    }
  }

  /** From an entry above the lower bound on, stopping at the first one past the
      end loses nothing. */
  lemma {:induction false} UntilIsEntriesIn(es: seq<Entry>, lo: Bound, hi: Bound)
    requires BTreePages.Ascending(es) && forall e | e in es :: AboveLow(lo, e.key)
    ensures Until(es, hi) == EntriesIn(es, lo, hi)
  {
    hide BTreePages.Ascending, AboveLow, PastEnd, Less;
    if es != [] {
      TailAscending(es);
      assert es[0] in es;
      if PastEnd(es[0].key, hi) {
        forall e | e in es[1..] ensures PastEnd(e.key, hi) { PastLater(es[0].key, e.key, hi); }
        NothingEntriesIn(es[1..], lo, hi);
      } else {
        UntilIsEntriesIn(es[1..], lo, hi);
      }
    }
  }

  lemma {:induction false} NothingEntriesIn(es: seq<Entry>, lo: Bound, hi: Bound)
    requires forall e | e in es :: !AboveLow(lo, e.key) || PastEnd(e.key, hi)
    ensures EntriesIn(es, lo, hi) == []
  {
    hide AboveLow, PastEnd;
    if es != [] {
      assert es[0] in es;
      NothingEntriesIn(es[1..], lo, hi);
    }
  }

  lemma {:induction false} EntriesInConcat(a: seq<Entry>, b: seq<Entry>, lo: Bound, hi: Bound)
    ensures EntriesIn(a + b, lo, hi) == EntriesIn(a, lo, hi) + EntriesIn(b, lo, hi)
  {
    hide AboveLow, PastEnd;
    if a == [] {
      assert a + b == b;
    } else {
      assert (a + b)[1..] == a[1..] + b;
      EntriesInConcat(a[1..], b, lo, hi);
    }
  }

  lemma {:induction false} UntilConcat(a: seq<Entry>, b: seq<Entry>, hi: Bound)
    ensures Until(a + b, hi) == if Ends(a, hi) then Until(a, hi) else Until(a, hi) + Until(b, hi)
  {
    hide PastEnd;
    if a == [] {
      assert a + b == b;
    } else {
      assert (a + b)[1..] == a[1..] + b && (a + b)[0] == a[0];
      UntilConcat(a[1..], b, hi);
      EndsTail(a, hi);
    }
  }

  lemma EndsTail(a: seq<Entry>, hi: Bound)
    requires a != []
    ensures Ends(a, hi) <==> PastEnd(a[0].key, hi) || Ends(a[1..], hi)
  {
    hide PastEnd;
    if i :| 0 <= i < |a| && PastEnd(a[i].key, hi) {
      if i > 0 { assert PastEnd(a[1..][i - 1].key, hi); }
    }
    if i :| 0 <= i < |a[1..]| && PastEnd(a[1..][i].key, hi) { assert PastEnd(a[i + 1].key, hi); }
  }

  /** One leaf of a scan, from `start`. */
  method ScanLeaf(p: Pager, cells: seq<Cell>, start: nat, hi: Bound, ghost leaf: Tree)
    returns (ok: bool, done: bool, out: seq<(Bytes, Bytes)>)
    requires LeafOn(p.pages, leaf) && cells == CellsOf(leaf.entries) && start <= |cells|
    ensures ok <==> AllReadable(Until(leaf.entries[start..], hi), p.count)
    ensures ok ==> out == Pairs(Until(leaf.entries[start..], hi)) && (done <==> Ends(leaf.entries[start..], hi))
  {
    hide LeafOn, PastEnd, Ends, Until, UntilFrom, EndsFrom, EntryStored, ReadableEntry, KeysSorted, AllReadable, Pairs;
    LeafParts(p.pages, leaf);
    ghost var es := leaf.entries;
    ghost var all := UntilFrom(es, start, hi);
    out := [];
    FromIsSuffix(es, start, hi);
    StartPairs(all);
    for i := start to |cells|
      invariant out + Pairs(UntilFrom(es, i, hi)) == Pairs(all)
      invariant AllReadable(all, p.count) <==> AllReadable(UntilFrom(es, i, hi), p.count)
      invariant EndsFrom(es, start, hi) <==> EndsFrom(es, i, hi)
    {
      FromStep(es, i, hi);
      assert cells[i] == CellOf(es[i]);
      if PastEnd(cells[i].key, hi) {
        NothingRead(p.count);
        return true, true, out;
      }
      var v := CellValue(p, cells[i], es[i]);
      ReadNext(es[i], UntilFrom(es, i + 1, hi), p.count);
      if v.None? { return false, false, out; }
      out := out + [(cells[i].key, v.value)];
    }
    FromEnd(es, hi);
    NothingRead(p.count);
    ok, done := true, false;
  }

  lemma NothingRead(count: nat)
    ensures AllReadable([], count) && Pairs([]) == []
  {
  }

  lemma ReadNext(e: Entry, rest: seq<Entry>, count: nat)
    ensures AllReadable([e] + rest, count) <==> ReadableEntry(e, count) && AllReadable(rest, count)
    ensures Pairs([e] + rest) == [(e.key, e.value)] + Pairs(rest)
  {
    hide ReadableEntry;
    assert e in [e] + rest;
    assert forall x | x in rest :: x in [e] + rest;
  }

  lemma ReadConcat(a: seq<Entry>, b: seq<Entry>, count: nat)
    ensures AllReadable(a + b, count) <==> AllReadable(a, count) && AllReadable(b, count)
    ensures Pairs(a + b) == Pairs(a) + Pairs(b)
  {
    hide ReadableEntry;
    assert forall x | x in a :: x in a + b;
    assert forall x | x in b :: x in a + b;
  }

  lemma FromStep(es: seq<Entry>, i: nat, hi: Bound)
    requires i < |es|
    ensures PastEnd(es[i].key, hi) ==> UntilFrom(es, i, hi) == [] && EndsFrom(es, i, hi)
    ensures !PastEnd(es[i].key, hi) ==> UntilFrom(es, i, hi) == [es[i]] + UntilFrom(es, i + 1, hi)
    ensures !PastEnd(es[i].key, hi) ==> (EndsFrom(es, i, hi) <==> EndsFrom(es, i + 1, hi))
  {
    hide PastEnd;
  }

  lemma FromEnd(es: seq<Entry>, hi: Bound)
    ensures UntilFrom(es, |es|, hi) == [] && !EndsFrom(es, |es|, hi)
  {
  }

  function UntilFrom(es: seq<Entry>, i: nat, hi: Bound): seq<Entry>
    decreases |es| - i
  {
    if i >= |es| || PastEnd(es[i].key, hi) then [] else [es[i]] + UntilFrom(es, i + 1, hi)
  }

  predicate EndsFrom(es: seq<Entry>, i: nat, hi: Bound)
    decreases |es| - i
  {
    i < |es| && (PastEnd(es[i].key, hi) || EndsFrom(es, i + 1, hi))
  }

  lemma {:induction false} FromIsSuffix(es: seq<Entry>, i: nat, hi: Bound)
    requires i <= |es|
    ensures UntilFrom(es, i, hi) == Until(es[i..], hi) && (EndsFrom(es, i, hi) <==> Ends(es[i..], hi))
    decreases |es| - i
  {
    hide PastEnd, Ends;
    if i == |es| {
      assert es[i..] == [];
      NoEnd(hi);
    } else {
      assert es[i..][1..] == es[i + 1..] && es[i..][0] == es[i];
      FromIsSuffix(es, i + 1, hi);
      EndsTail(es[i..], hi);
    }
  }

  lemma NoEnd(hi: Bound)
    ensures !Ends([], hi)
  {
  }

  /** Slot `start` of leaf `j` is the first entry above the lower bound. */
  ghost predicate StartsAt(row: seq<Tree>, j: nat, start: nat, lo: Bound) {
    && j < |row| && row[j].Leaf? && start <= |row[j].entries|
    && (forall e | e in Flat(row[..j]) + row[j].entries[..start] :: !AboveLow(lo, e.key))
    && (start < |row[j].entries| ==> AboveLow(lo, row[j].entries[start].key))
    && (forall e | e in Flat(row[j + 1..]) :: AboveLow(lo, e.key))
  }

  /** Where a scan starts: the leaf and the slot. */
  method StartOf(p: Pager, lo: Bound, ghost t: Tree, ghost h: nat) returns (leaf: Option<nat>, start: nat, ghost j: nat)
    requires Walkable(p.pages, p.count, t, h) && p.root == t.id
    ensures StartsAt(Leaves(t, h), j, start, lo) && j < |Leaves(t, h)| && leaf == Some(Leaves(t, h)[j].id)
  {
    hide Walkable, Sane, StartsAt, Leaves, Flat, AboveLow, KeyPosition, KeysSorted, LeafOn, Around, EntryStored;
    if lo.Unbounded? {
      WalkableSane(p.pages, p.count, t, h);
      var first := FirstLeafOf(p.pages, p.root, t, h);
      leaf, start, j := Some(first), 0, 0;
      UnboundedStart(p.pages, p.count, t, h);
      return;
    }
    ghost var mid, a, b;
    leaf, mid, a, b := FindLeaf(p, lo.key, t, h);
    LeafParts(p.pages, mid);
    var page := p.pages[leaf.value];
    var found, i := Search(CellKeys(page.cells), lo.key);
    start := if found && lo.Excluded? then i + 1 else i;
    j := |a|;
    BoundedStart(Leaves(t, h), a, mid, b, lo, found, i);
  }

  lemma UnboundedStart(pages: Pages, count: nat, t: Tree, h: nat)
    requires Walkable(pages, count, t, h) && Leaves(t, h) != []
    ensures StartsAt(Leaves(t, h), 0, 0, Unbounded)
  {
    hide Walkable, Leaves, Flat, LeafOn;
    ChainLeaf(pages, count, t, h, 0);
    LeafParts(pages, Leaves(t, h)[0]);
    assert Leaves(t, h)[..0] == [];
    NoLeaves(h);
    assert Flat([]) + Leaves(t, h)[0].entries[..0] == [];
  }

  lemma BoundedStart(row: seq<Tree>, a: seq<Tree>, leaf: Tree, b: seq<Tree>, lo: Bound, found: bool, i: nat)
    requires leaf.Leaf? && !lo.Unbounded? && Around(row, a, [leaf], b, lo.key)
    requires KeyPosition(CellKeys(CellsOf(leaf.entries)), lo.key, found, i)
    ensures |a| < |row| && StartsAt(row, |a|, if found && lo.Excluded? then i + 1 else i, lo) && row[|a|] == leaf
  {
    hide Flat, Less;
    var j, start, es := |a|, if found && lo.Excluded? then i + 1 else i, leaf.entries;
    assert row[..j] == a && row[j + 1..] == b && row[j] == leaf;
    assert forall n | 0 <= n < |es| :: CellKeys(CellsOf(es))[n] == es[n].key;
    forall e | e in Flat(a) ensures !AboveLow(lo, e.key) { NotAbove(e.key, lo); }
    forall e | e in es[..start] ensures !AboveLow(lo, e.key) {
      var n :| 0 <= n < start && es[..start][n] == e;
      assert e == es[n];
      if n < i { NotAbove(e.key, lo); } else { LessIrreflexive(lo.key); }
    }
  }

  lemma NotAbove(k: Bytes, lo: Bound)
    requires !lo.Unbounded? && Less(k, lo.key)
    ensures !AboveLow(lo, k)
  {
    LessAsymmetric(k, lo.key);
  }

  /** Every pair with a key in range, ascending; refused exactly when some value
      in range cannot be read. The chain guard never trips. */
  method RangeIter(p: Pager, lo: Bound, hi: Bound, ghost t: Tree, ghost h: nat) returns (ok: bool, out: seq<(Bytes, Bytes)>)
    requires Walkable(p.pages, p.count, t, h) && p.root == t.id
    ensures ok <==> AllReadable(EntriesIn(Flat(Leaves(t, h)), lo, hi), p.count)
    ensures ok ==> out == Pairs(EntriesIn(Flat(Leaves(t, h)), lo, hi))
  {
    hide Walkable, Leaves, Flat, Until, EntriesIn, Remaining, StartsAt, AllReadable, Pairs;
    ghost var from;
    var id, start;
    id, start, from := StartOf(p, lo, t, h);
    RangeIsUntil(p.pages, p.count, t, h, from, start, lo, hi);
    ok, out := ScanFrom(p, id, start, hi, from, t, h);
  }

  /** Visits leaves from one on, following the links. */
  method ScanFrom(p: Pager, id: Option<nat>, start: nat, hi: Bound, ghost from: nat, ghost t: Tree, ghost h: nat)
    returns (ok: bool, out: seq<(Bytes, Bytes)>)
    requires Walkable(p.pages, p.count, t, h) && from < |Leaves(t, h)| && id == Some(Leaves(t, h)[from].id)
    requires Leaves(t, h)[from].Leaf? && start <= |Leaves(t, h)[from].entries|
    ensures ok <==> AllReadable(Until(Remaining(Leaves(t, h), from, start), hi), p.count)
    ensures ok ==> out == Pairs(Until(Remaining(Leaves(t, h), from, start), hi))
  {
    hide Walkable, Sane, Leaves, LeafOn, Until, Ends, Remaining, CellsOf, AllReadable, Pairs, Flat;
    ghost var row := Leaves(t, h);
    WalkableSane(p.pages, p.count, t, h);
    var leaf, remaining := id, p.count;
    var at: nat := start;
    ghost var j, all := from, Until(Remaining(row, from, start), hi);
    out := [];
    StartPairs(all);
    while leaf.Some?
      invariant 0 <= j <= |row| && leaf == (if j < |row| then Some(row[j].id) else None)
      invariant remaining + j >= p.count && (j < |row| ==> row[j].Leaf? && at <= |row[j].entries|)
      invariant Pairs(all) == out + Pairs(Until(Remaining(row, j, at), hi))
      invariant AllReadable(all, p.count) <==> AllReadable(Until(Remaining(row, j, at), hi), p.count)
      decreases |row| - j
    {
      if remaining == 0 { return false, out; }
      remaining := remaining - 1;
      ScanFacts(p.pages, p.count, t, h, j, at, hi);
      var page := p.pages[leaf.value];
      var done, more;
      ok, done, more := ScanLeaf(p, page.cells, at, hi, row[j]);
      if !ok { return false, out; }
      out := out + more;
      if done { return true, out; }
      at, leaf := 0, page.next;
      j := j + 1;
    }
    RemainingNone(row, at, hi, p.count);
    ok := true;
  }

  lemma StartPairs(all: seq<Entry>)
    ensures [] + Pairs(all) == Pairs(all)
  {
  }

  /** Everything a scan needs to know at leaf `j`. */
  lemma ScanFacts(pages: Pages, count: nat, t: Tree, h: nat, j: nat, at: nat, hi: Bound)
    requires Walkable(pages, count, t, h) && j < |Leaves(t, h)| && Leaves(t, h)[j].Leaf? && at <= |Leaves(t, h)[j].entries|
    ensures var row, leaf := Leaves(t, h), Leaves(t, h)[j];
            && LeafOn(pages, leaf) && leaf.id in pages && pages[leaf.id].LeafPage?
            && pages[leaf.id].cells == CellsOf(leaf.entries) && |pages[leaf.id].cells| == |leaf.entries|
            && pages[leaf.id].next == (if j + 1 < |row| then Some(row[j + 1].id) else None)
            && (j + 1 < |row| ==> row[j + 1].Leaf?)
            && var now, rest := Until(leaf.entries[at..], hi), if Ends(leaf.entries[at..], hi) then [] else Until(Remaining(row, j + 1, 0), hi);
               && Pairs(Until(Remaining(row, j, at), hi)) == Pairs(now) + Pairs(rest)
               && (AllReadable(Until(Remaining(row, j, at), hi), count) <==> AllReadable(now, count) && AllReadable(rest, count))
               && (rest == [] ==> Pairs(rest) == [] && AllReadable(rest, count))
  {
    hide Walkable, Leaves, LeafOn, Until, Ends, Remaining, AllReadable, Pairs, KeysSorted, EntryStored;
    ChainLeaf(pages, count, t, h, j);
    LeafParts(pages, Leaves(t, h)[j]);
    RemainingStep(pages, count, t, h, j, at, hi);
    var row, leaf := Leaves(t, h), Leaves(t, h)[j];
    ReadConcat(Until(leaf.entries[at..], hi), if Ends(leaf.entries[at..], hi) then [] else Until(Remaining(row, j + 1, 0), hi), count);
    NothingRead(count);
  }

  lemma RemainingNone(row: seq<Tree>, at: nat, hi: Bound, count: nat)
    ensures Pairs(Until(Remaining(row, |row|, at), hi)) == [] && AllReadable(Until(Remaining(row, |row|, at), hi), count)
  {
  }

  /** What a scan still has to visit from slot `at` of leaf `j`. */
  function Remaining(row: seq<Tree>, j: nat, at: nat): seq<Entry> {
    if j < |row| && row[j].Leaf? && at <= |row[j].entries| then row[j].entries[at..] + Flat(row[j + 1..]) else []
  }

  lemma RemainingStep(pages: Pages, count: nat, t: Tree, h: nat, j: nat, at: nat, hi: Bound)
    requires Walkable(pages, count, t, h) && j < |Leaves(t, h)| && Leaves(t, h)[j].Leaf? && at <= |Leaves(t, h)[j].entries|
    ensures j + 1 < |Leaves(t, h)| ==> Leaves(t, h)[j + 1].Leaf?
    ensures var row := Leaves(t, h);
            var es := row[j].entries[at..];
            Until(Remaining(row, j, at), hi) == Until(es, hi) + (if Ends(es, hi) then [] else Until(Remaining(row, j + 1, 0), hi))
  {
    hide Walkable, Leaves, Flat, Until, Ends;
    var row := Leaves(t, h);
    UntilConcat(row[j].entries[at..], Flat(row[j + 1..]), hi);
    if j + 1 < |row| {
      ChainLeaf(pages, count, t, h, j + 1);
      LeafParts(pages, row[j + 1]);
      FlatFrom(row, j + 1);
      assert row[j + 1].entries[0..] == row[j + 1].entries;
    } else {
      assert row[j + 1..] == [];
      NothingUntil(hi);
    }
  }

  lemma NothingUntil(hi: Bound)
    ensures Flat([]) == [] && Until([], hi) == []
  {
  }

  lemma FlatFrom(row: seq<Tree>, j: nat)
    requires j < |row| && row[j].Leaf?
    ensures Flat(row[j..]) == row[j].entries + Flat(row[j + 1..])
  {
    hide Flat;
    assert row[j..] == [row[j]] + row[j + 1..];
    FlatConcat([row[j]], row[j + 1..]);
    FlatOne(row[j]);
  }

  lemma RangeIsUntil(pages: Pages, count: nat, t: Tree, h: nat, j: nat, start: nat, lo: Bound, hi: Bound)
    requires Walkable(pages, count, t, h) && StartsAt(Leaves(t, h), j, start, lo)
    ensures j < |Leaves(t, h)| && Leaves(t, h)[j].Leaf? && start <= |Leaves(t, h)[j].entries|
    ensures EntriesIn(Flat(Leaves(t, h)), lo, hi) == Until(Remaining(Leaves(t, h), j, start), hi)
  {
    hide Walkable, Leaves, Flat, AboveLow, PastEnd, Until, EntriesIn, BTreePages.Ascending;
    var row := Leaves(t, h);
    var es := row[j].entries;
    var skip, take := Flat(row[..j]) + es[..start], es[start..] + Flat(row[j + 1..]);
    WalkableSorted(pages, count, t, h);
    assert row == row[..j] + row[j..];
    FlatConcat(row[..j], row[j..]);
    FlatFrom(row, j);
    assert es == es[..start] + es[start..];
    assert Flat(row) == skip + take;
    EntriesInConcat(skip, take, lo, hi);
    NothingEntriesIn(skip, lo, hi);
    SuffixAscending(skip, take);
    forall e | e in take ensures AboveLow(lo, e.key) {
      if e in es[start..] { LaterAbove(take, es[start..], e, lo); }
    }
    UntilIsEntriesIn(take, lo, hi);
  }

  lemma SuffixAscending(a: seq<Entry>, b: seq<Entry>)
    requires BTreePages.Ascending(a + b)
    ensures BTreePages.Ascending(b)
  {
    hide Less;
    forall i, j | 0 <= i < j < |b| ensures Less(b[i].key, b[j].key) {
      assert b[i] == (a + b)[|a| + i] && b[j] == (a + b)[|a| + j];
    }
  }

  lemma LaterAbove(take: seq<Entry>, es: seq<Entry>, e: Entry, lo: Bound)
    requires BTreePages.Ascending(take) && es <= take && e in es && AboveLow(lo, es[0].key)
    ensures AboveLow(lo, e.key)
  {
    hide Less, AboveLow;
    var i :| 0 <= i < |es| && es[i] == e;
    assert take[0] == es[0] && take[i] == e;
    if i > 0 { RangeOrder(es[0].key, e.key, lo); }
  }

  // ---- trees the engine builds ----------------------------------------------

  /** Every value of a tree the engine builds can be read. */
  lemma EngineTreeReads(d: Disk, t: Tree, h: nat)
    requires TreeIn(d, t, h) && h < MAX_DEPTH
    ensures Walkable(d.pages, d.count, t, h) && AllReadable(Flat(Leaves(t, h)), d.count)
  {
    hide TreeIn, WellFormedFile, Walkable, Leaves, Flat, ReadableEntry;
    EngineTreePasses(d, t, h);
    AcceptedWalkable(d.pages, t.id, Head(d.free), d.count, t, h, d.free);
    forall e | e in Flat(Leaves(t, h)) ensures ReadableEntry(e, d.count) { EngineEntryReads(d, t, h, e); }
  }

  lemma EngineEntryReads(d: Disk, t: Tree, h: nat, e: Entry)
    requires TreeIn(d, t, h) && e in Flat(Leaves(t, h))
    ensures ReadableEntry(e, d.count)
  {
    hide Good, Leaves, Flat, Ids, Linked, Whole, ChainAt;
    var leaf := LeafHolding(Leaves(t, h), e);
    var i :| 0 <= i < |Leaves(t, h)| && Leaves(t, h)[i] == leaf;
    LeafStored(d.pages, t, h, i);
    StoredLeaf(d.pages, leaf);
    var j :| 0 <= j < |leaf.entries| && leaf.entries[j] == e;
    if e.spilled {
      ChainIdsHas(leaf.entries, j);
      PartSize(multiset{leaf.id} + multiset(e.chain), Ids(t, h));
      ReadFits(d, Ids(t, h), e.chain, e.value);
    }
  }

  lemma PartSize(a: multiset<nat>, b: multiset<nat>)
    requires a <= b
    ensures |a| <= |b|
  {
    assert b == a + (b - a);
  }

  lemma {:induction false} LeafHolding(row: seq<Tree>, e: Entry) returns (leaf: Tree)
    requires e in Flat(row)
    ensures leaf in row && leaf.Leaf? && e in leaf.entries
  {
    var n := |row| - 1;
    if e in Flat(row[..n]) { leaf := LeafHolding(row[..n], e); } else { leaf := row[n]; }
  }

  lemma StoredLeaf(pages: Pages, leaf: Tree)
    requires Stored(pages, leaf, 0) && leaf.Leaf?
    ensures ChainsAt(pages, leaf.entries) && Ids(leaf, 0) == multiset{leaf.id} + ChainIds(leaf.entries)
  {
  }

  lemma {:induction false} LeafStored(pages: Pages, t: Tree, h: nat, i: nat)
    requires Stored(pages, t, h) && i < |Leaves(t, h)|
    ensures Leaves(t, h)[i].Leaf? && Stored(pages, Leaves(t, h)[i], 0)
    ensures Ids(Leaves(t, h)[i], 0) <= Ids(t, h)
    decreases h, 0
  {
    match t
    case Leaf(_, _) =>
    case Node(_, _, kids) =>
      assert StoredAll(pages, kids, h - 1);
      LeafStoredAll(pages, kids, h - 1, i);
  }

  lemma {:induction false} LeafStoredAll(pages: Pages, kids: seq<Tree>, h: nat, i: nat)
    requires StoredAll(pages, kids, h) && i < |LeavesAll(kids, h)|
    ensures LeavesAll(kids, h)[i].Leaf? && Stored(pages, LeavesAll(kids, h)[i], 0)
    ensures Ids(LeavesAll(kids, h)[i], 0) <= IdsAll(kids, h)
    decreases h, 1, |kids|
  {
    hide Stored, Leaves, Ids;
    var n := |kids| - 1;
    var most := LeavesAll(kids[..n], h);
    if i < |most| {
      assert StoredAll(pages, kids[..n], h);
      LeafStoredAll(pages, kids[..n], h, i);
    } else {
      LeafStored(pages, kids[n], h, i - |most|);
    }
  }

  // ---- where the check is more lenient than a read ----------------------------

  const SHORT_ENTRY: Entry := Entry([5], [7, 8, 9], true, [2, 3, 4])

  const SHORT_PAGES: Pages := map[
    1 := LeafPage([CellOf(SHORT_ENTRY)], None),
    2 := OverflowPage([7], Some(3)), 3 := OverflowPage([8], Some(4)), 4 := OverflowPage([9], None)]

  /** A value of three bytes spread over three overflow pages: the check accepts
      the file, but the chain has more links than a read of three bytes allows. */
  lemma ShortChainAcceptedButUnreadable()
    ensures WellFormedFile(SHORT_PAGES, 1, None, 5, Leaf(1, [SHORT_ENTRY]), 0, [])
    ensures SHORT_ENTRY in Flat(Leaves(Leaf(1, [SHORT_ENTRY]), 0)) && !ReadableEntry(SHORT_ENTRY, 5)
  {
    hide Chained;
    var t := Leaf(1, [SHORT_ENTRY]);
    ShortPagesUsed();
    ShortTreeSane();
    hide Sane, PagesOf;
    FlatOne(t);
  }

  lemma ShortPagesUsed()
    ensures PagesOf(Leaf(1, [SHORT_ENTRY]), 0) == [1, 2, 3, 4]
  {
    var es := [SHORT_ENTRY];
    assert es[..0] == [];
    assert ChainPages(es) == [2, 3, 4];
  }

  lemma ShortTreeSane()
    ensures Sane(SHORT_PAGES, Leaf(1, [SHORT_ENTRY]), None, None, 0)
  {
    hide Chained;
    ShortChainStored();
    assert CellsOf([SHORT_ENTRY]) == [CellOf(SHORT_ENTRY)];
  }

  lemma ShortChainStored()
    ensures Chained(SHORT_PAGES, [2, 3, 4], [7, 8, 9])
  {
    assert [2, 3, 4][1..] == [3, 4] && [3, 4][1..] == [4] && [4][1..] == [];
    assert [7, 8, 9][1..] == [8, 9] && [8, 9][1..] == [9] && [9][1..] == [];
    assert Chained(SHORT_PAGES, [4], [9]);
    assert Chained(SHORT_PAGES, [3, 4], [8, 9]);
  }
}
