/** The steps of an insert: rewriting a leaf, splitting it, and taking a split in
    at the parent. */
module BTreeInsertSteps {
  import opened Bytes
  import opened PageLayout
  import opened Wrappers
  import opened BTree
  import opened BTreePages
  import opened BTreeZipper
  import opened BTreePager
  import opened BTreeEdit
  import opened BTreeStates

  // ---- leaves --------------------------------------------------------------

  lemma SideLeavesSame(pages: Pages, pages': Pages, path: Path, h: nat)
    requires PathOk(path) && SameOn(pages, pages', PathIds(path, h))
    ensures forall x | x in LeftLeaves(path, h) || x in RightLeaves(path, h) ::
              x.id in pages ==> x.id in pages' && pages'[x.id] == pages[x.id]
  {
    hide LeftLeaves, RightLeaves, PathIds;
    forall x | (x in LeftLeaves(path, h) || x in RightLeaves(path, h)) && x.id in pages
      ensures x.id in pages' && pages'[x.id] == pages[x.id]
    {
      SideLeafUsed(path, h, x);
    }
  }

  /** A leaf rewritten in place. */
  lemma LeafRewritten(d: Disk, d': Disk, path: Path, id: nat, es: seq<Entry>, es': seq<Entry>)
    requires Settled(d, path, Leaf(id, es), 0) && SameOn(d.pages, d'.pages, PathIds(path, 0))
    requires id in d'.pages && d'.pages[id] == LeafPage(CellsOf(es'), d.pages[id].next) && ChainsAt(d'.pages, es')
    requires Whole(d', PathIds(path, 0) + (multiset{id} + ChainIds(es')))
    requires EntriesOk(es', HoleLo(path), HoleHi(path)) && LeafBytes(es') <= USABLE_SPACE
    ensures Settled(d', path, Leaf(id, es'), 0)
  {
    hide Whole, PathStored, EntriesOk, LeafBytes, ChainsAt, ChainIds, LeftLeaves, RightLeaves, PathIds, Linked, HoleLo, HoleHi;
    PathFrame(d.pages, d'.pages, path, id, 0);
    SideLeavesSame(d.pages, d'.pages, path, 0);
    Relink(d.pages, d'.pages, LeftLeaves(path, 0), [Leaf(id, es)], [Leaf(id, es')], RightLeaves(path, 0));
  }

  /** A leaf cut in two, the right part on a new page. */
  lemma LeafSplit(d: Disk, d': Disk, path: Path, id: nat, es: seq<Entry>, r: nat, es1: seq<Entry>, es2: seq<Entry>, sep: Bytes)
    requires Settled(d, path, Leaf(id, es), 0) && SameOn(d.pages, d'.pages, PathIds(path, 0))
    requires id in d'.pages && d'.pages[id] == LeafPage(CellsOf(es1), Some(r)) && ChainsAt(d'.pages, es1)
    requires r in d'.pages && d'.pages[r] == LeafPage(CellsOf(es2), d.pages[id].next) && ChainsAt(d'.pages, es2)
    requires Whole(d', PathIds(path, 0) + (multiset{id} + ChainIds(es1) + (multiset{r} + ChainIds(es2))))
    requires EntriesOk(es1, HoleLo(path), Some(sep)) && EntriesOk(es2, Some(sep), HoleHi(path))
    requires LeafBytes(es1) <= USABLE_SPACE && LeafBytes(es2) <= USABLE_SPACE
    requires KeyOk(sep) && Inside(sep, HoleLo(path), HoleHi(path))
    ensures Pending(d', path, Leaf(id, es1), Leaf(r, es2), sep, 0)
  {
    hide Whole, PathStored, EntriesOk, LeafBytes, ChainsAt, ChainIds, LeftLeaves, RightLeaves, PathIds, Linked, HoleLo, HoleHi, KeyOk, Inside;
    PathFrame(d.pages, d'.pages, path, id, 0);
    SideLeavesSame(d.pages, d'.pages, path, 0);
    var left, right := Leaf(id, es1), Leaf(r, es2);
    assert Leaves(left, 0) + Leaves(right, 0) == [left, right];
    assert NextOf([left, right], 0) == Some(r);
    Relink(d.pages, d'.pages, LeftLeaves(path, 0), [Leaf(id, es)], [left, right], RightLeaves(path, 0));
  }

  // ---- page images of nodes ------------------------------------------------

  function InsertSep(image: seq<Sep>, i: nat, s: Sep): seq<Sep>
    requires i <= |image|
  {
    image[..i] + [s] + image[i..]
  }

  lemma ImageAbsorb(seps: seq<Bytes>, kids: seq<Tree>, i: nat, k: Bytes, left: Tree, right: Tree)
    requires |kids| == |seps| + 1 && i < |kids|
    ensures var kids' := KidsWith(kids, i, left, right);
            && |kids'| == |SepsWith(seps, i, k)| + 1 && kids'[0].id == kids[i := left][0].id
            && SepsOf(SepsWith(seps, i, k), kids') == InsertSep(SepsOf(seps, kids[i := left]), i, Sep(k, right.id))
  {
    var seps', kids', was := SepsWith(seps, i, k), KidsWith(kids, i, left, right), SepsOf(seps, kids[i := left]);
    var now := InsertSep(was, i, Sep(k, right.id));
    forall j | 0 <= j < |seps'| ensures Sep(seps'[j], kids'[j + 1].id) == now[j] {
      if j < i { assert now[j] == was[j] && seps'[j] == seps[j] && kids'[j + 1] == kids[i := left][j + 1]; }
      else if j > i { assert now[j] == was[j - 1] && seps'[j] == seps[j - 1] && kids'[j + 1] == kids[j]; }
      else { assert now[i] == Sep(k, right.id) && seps'[i] == k && kids'[i + 1] == right; }
    }
  }

  lemma ImageCut(seps: seq<Bytes>, kids: seq<Tree>, m: nat)
    requires |kids| == |seps| + 1 && m < |seps|
    ensures SepsOf(seps[..m], kids[..m + 1]) == SepsOf(seps, kids)[..m]
    ensures SepsOf(seps[m + 1..], kids[m + 1..]) == SepsOf(seps, kids)[m + 1..]
    ensures SepsOf(seps, kids)[m] == Sep(seps[m], kids[m + 1].id)
  {
  }

  // ---- taking a split in ---------------------------------------------------

  /** The kids of the frame once the halves are in place. */
  lemma AbsorbParts(f: Frame, left: Tree, right: Tree, h: nat)
    requires FrameOk(f)
    ensures var kids' := KidsWith(f.kids, f.slot, left, right);
            && LeavesAll(kids', h) == LeavesAll(f.kids[..f.slot], h) + (Leaves(left, h) + Leaves(right, h)) + LeavesAll(f.kids[f.slot + 1..], h)
            && multiset{f.id} + IdsAll(kids', h) == FrameIds(f, h) + (Ids(left, h) + Ids(right, h))
  {
    hide Leaves, Ids, LeavesAll, IdsAll;
    var a, b := f.kids[..f.slot], f.kids[f.slot + 1..];
    assert KidsWith(f.kids, f.slot, left, right) == a + ([left] + [right]) + b;
    LeavesConcat(a + ([left] + [right]), b, h);
    LeavesConcat(a, [left] + [right], h);
    LeavesConcat([left], [right], h);
    LeavesOne(left, h);
    LeavesOne(right, h);
  }

  lemma AbsorbStored(pages: Pages, f: Frame, left: Tree, right: Tree, h: nat)
    requires FrameOk(f) && FrameStored(pages, f, left.id, h) && Stored(pages, left, h) && Stored(pages, right, h)
    ensures StoredAll(pages, KidsWith(f.kids, f.slot, left, right), h)
    ensures pages[f.id] == NodePage(f.kids[f.slot := left][0].id, SepsOf(f.seps, f.kids[f.slot := left]))
  {
    hide Stored;
    var kids := KidsWith(f.kids, f.slot, left, right);
    forall i | 0 <= i < |kids| ensures Stored(pages, kids[i], h) {
      if i < f.slot { assert kids[i] == f.kids[..f.slot][i]; }
      else if i > f.slot + 1 { assert kids[i] == f.kids[f.slot + 1..][i - f.slot - 2]; }
    }
    assert pages[f.id].seps == SepsOf(f.seps, f.kids[f.slot := left]);
  }

  /** Everything about the halves in place except the node's own page image. */
  ghost predicate Parts(d: Disk, path: Path, id: nat, kids: seq<Tree>, h: nat) {
    && PathOk(path) && PathStored(d.pages, path, id, h + 1) && StoredAll(d.pages, kids, h)
    && Linked(d.pages, LeftLeaves(path, h + 1) + LeavesAll(kids, h) + RightLeaves(path, h + 1))
    && Whole(d, PathIds(path, h + 1) + IdsAll(kids, h) + multiset{id})
  }

  lemma PendingParts(d: Disk, path: Path, f: Frame, left: Tree, right: Tree, sep: Bytes, h: nat)
    requires FrameOk(f) && PathOk(path) && Pending(d, path + [f], left, right, sep, h)
    ensures Parts(d, path, f.id, KidsWith(f.kids, f.slot, left, right), h)
    ensures f.id in d.pages
    ensures d.pages[f.id] == NodePage(f.kids[f.slot := left][0].id, SepsOf(f.seps, f.kids[f.slot := left]))
  {
    hide Good, Linked, Whole, PathStored, Stored, Leaves, LeavesAll, Ids, IdsAll, LeftLeaves, RightLeaves, PathIds, HoleLo, HoleHi, StoredAll;
    PathSnoc(path, f, h);
    AbsorbParts(f, left, right, h);
    PathStoredSnoc(d.pages, path, f, left.id, h);
    AbsorbStored(d.pages, f, left, right, h);
    var kids := KidsWith(f.kids, f.slot, left, right);
    var all := PathIds(path + [f], h) + (Ids(left, h) + Ids(right, h));
    hide FrameIds, FrameStored;
    assert all == PathIds(path, h + 1) + (FrameIds(f, h) + (Ids(left, h) + Ids(right, h)));
    assert all == PathIds(path, h + 1) + (multiset{f.id} + IdsAll(kids, h));
    assert all == PathIds(path, h + 1) + IdsAll(kids, h) + multiset{f.id};
    assert LeftLeaves(path + [f], h) + (Leaves(left, h) + Leaves(right, h)) + RightLeaves(path + [f], h) ==
           LeftLeaves(path, h + 1) + LeavesAll(kids, h) + RightLeaves(path, h + 1);
  }

  /** Rewriting the node's own page settles the parts. */
  lemma PartsSettled(d: Disk, path: Path, node: Tree, h: nat, page: Page)
    requires node.Node? && Parts(d, path, node.id, node.kids, h) && |node.kids| == |node.seps| + 1
    requires page == NodePage(node.kids[0].id, SepsOf(node.seps, node.kids)) && node.id in d.pages && d.pages[node.id].NodePage?
    requires Good(node, HoleLo(path), HoleHi(path), h + 1)
    ensures Settled(Written(d, node.id, page), path, node, h + 1)
  {
    hide Good, Linked, Whole, PathStored, Stored, Leaves, LeavesAll, Ids, IdsAll, LeftLeaves, RightLeaves, PathIds, HoleLo, HoleHi, StoredAll;
    var d' := Written(d, node.id, page);
    var rest := PathIds(path, h + 1) + IdsAll(node.kids, h);
    WriteKeeps(d, rest + multiset{node.id}, rest, node.id, page);
    KidsAndPathKept(d.pages, d'.pages, path, node.kids, node.id, h);
    StoredNode(d'.pages, node, h + 1);
    NodeLeaves(node, h + 1);
    assert rest + multiset{node.id} == PathIds(path, h + 1) + Ids(node, h + 1);
    LinkedKept(d.pages, d'.pages, LeftLeaves(path, h + 1) + Leaves(node, h + 1) + RightLeaves(path, h + 1), node.id);
  }

  /** The node has room: it takes the new separator. */
  lemma Absorbed(d: Disk, path: Path, f: Frame, was: Tree, left: Tree, right: Tree, sep: Bytes, h: nat)
    requires FrameOk(f) && PathOk(path) && Pending(d, path + [f], left, right, sep, h)
    requires Good(Fill(f, was), HoleLo(path), HoleHi(path), h + 1) && NodeBytes(f.seps) + SepSize(sep) <= USABLE_SPACE
    ensures f.id in d.pages && d.pages[f.id].NodePage? && |d.pages[f.id].seps| == |f.seps|
    ensures var d' := Written(d, f.id, NodePage(d.pages[f.id].first, InsertSep(d.pages[f.id].seps, f.slot, Sep(sep, right.id))));
            Settled(d', path, Node(f.id, SepsWith(f.seps, f.slot, sep), KidsWith(f.kids, f.slot, left, right)), h + 1)
  {
    hide Good, Pending, Parts, NodeBytes, HoleLo, HoleHi, Settled;
    var seps, kids := SepsWith(f.seps, f.slot, sep), KidsWith(f.kids, f.slot, left, right);
    PendingParts(d, path, f, left, right, sep, h);
    ImageAbsorb(f.seps, f.kids, f.slot, sep, left, right);
    AbsorbedGoodFrom(d, path, f, was, left, right, sep, h);
    GoodNode(Node(f.id, seps, kids), HoleLo(path), HoleHi(path), h + 1);
    PartsSettled(d, path, Node(f.id, seps, kids), h,
                 NodePage(d.pages[f.id].first, InsertSep(d.pages[f.id].seps, f.slot, Sep(sep, right.id))));
  }

  lemma NodeLeaves(node: Tree, h: nat)
    requires node.Node? && h > 0
    ensures Leaves(node, h) == LeavesAll(node.kids, h - 1) && Ids(node, h) == multiset{node.id} + IdsAll(node.kids, h - 1)
  {
  }

  lemma AbsorbedGood(f: Frame, was: Tree, left: Tree, right: Tree, sep: Bytes, lo: Option<Bytes>, hi: Option<Bytes>, h: nat)
    requires FrameOk(f) && Good(Fill(f, was), lo, hi, h + 1)
    requires KeyOk(sep) && Inside(sep, KidLo(f.seps, f.slot, lo), KidHi(f.seps, f.slot, hi))
    requires Good(left, KidLo(f.seps, f.slot, lo), Some(sep), h) && Good(right, Some(sep), KidHi(f.seps, f.slot, hi), h)
    ensures GoodParts(SepsWith(f.seps, f.slot, sep), KidsWith(f.kids, f.slot, left, right), lo, hi, h + 1)
    ensures NodeBytes(SepsWith(f.seps, f.slot, sep)) == NodeBytes(f.seps) + SepSize(sep)
    ensures NodeBytes(f.seps) <= USABLE_SPACE
    ensures NodeBytes(f.seps) + SepSize(sep) <= USABLE_SPACE ==>
              Good(Node(f.id, SepsWith(f.seps, f.slot, sep), KidsWith(f.kids, f.slot, left, right)), lo, hi, h + 1)
  {
    FillParts(f, was, lo, hi, h);
    hide NodeBytes, KeyOk, Inside, GoodParts, Good;
    AbsorbGood(f.seps, f.kids[f.slot := was], f.slot, sep, left, right, lo, hi, h + 1);
    assert KidsWith(f.kids[f.slot := was], f.slot, left, right) == KidsWith(f.kids, f.slot, left, right);
    WithBytes(f.seps, f.slot, sep);
    if NodeBytes(f.seps) + SepSize(sep) <= USABLE_SPACE {
      GoodNode(Node(f.id, SepsWith(f.seps, f.slot, sep), KidsWith(f.kids, f.slot, left, right)), lo, hi, h + 1);
    }
  }

  lemma FillParts(f: Frame, was: Tree, lo: Option<Bytes>, hi: Option<Bytes>, h: nat)
    requires FrameOk(f) && Good(Fill(f, was), lo, hi, h + 1)
    ensures GoodParts(f.seps, f.kids[f.slot := was], lo, hi, h + 1) && NodeBytes(f.seps) <= USABLE_SPACE
  {
    hide GoodParts, NodeBytes;
  }

  lemma WithBytes(seps: seq<Bytes>, i: nat, k: Bytes)
    requires i <= |seps|
    ensures NodeBytes(SepsWith(seps, i, k)) == NodeBytes(seps) + SepSize(k)
  {
    hide NodeBytes;
    var a, b := seps[..i], seps[i..];
    NodeBytesConcat(a + [k], b);
    NodeBytesConcat(a, [k]);
    NodeBytesOne(k);
    NodeBytesConcat(a, b);
    assert a + b == seps;
  }

  lemma KidsAndPathKept(pages: Pages, pages': Pages, path: Path, kids: seq<Tree>, id: nat, h: nat)
    requires PathOk(path) && SameOn(pages, pages', PathIds(path, h + 1) + IdsAll(kids, h))
    requires PathStored(pages, path, id, h + 1) && StoredAll(pages, kids, h)
    ensures PathStored(pages', path, id, h + 1) && StoredAll(pages', kids, h)
  {
    hide PathStored, StoredAll, PathIds, IdsAll;
    PathFrame(pages, pages', path, id, h + 1);
    StoredAllFrame(pages, pages', kids, h);
  }

  /** Rewriting an internal page leaves the leaf chain alone. */
  lemma LinkedKept(pages: Pages, pages': Pages, leaves: seq<Tree>, id: nat)
    requires Linked(pages, leaves) && id in pages && pages[id].NodePage?
    requires forall p | p in pages && p != id :: p in pages' && pages'[p] == pages[p]
    ensures Linked(pages', leaves)
  {
    forall i | 0 <= i < |leaves| ensures LinkOk(pages', leaves, i) { assert LinkOk(pages, leaves, i); }
  }

  /** The node splits around separator `m`, the right part on a new page. */
  lemma SplitUp(d: Disk, path: Path, f: Frame, was: Tree, left: Tree, right: Tree, sep: Bytes, m: nat, h: nat)
    requires FrameOk(f) && PathOk(path) && Pending(d, path + [f], left, right, sep, h)
    requires Good(Fill(f, was), HoleLo(path), HoleHi(path), h + 1)
    requires m <= |f.seps|
    requires var seps := SepsWith(f.seps, f.slot, sep);
             NodeBytes(seps[..m]) <= USABLE_SPACE && NodeBytes(seps[m + 1..]) <= USABLE_SPACE
    ensures f.id in d.pages && d.pages[f.id].NodePage? && |d.pages[f.id].seps| == |f.seps|
    ensures var image := InsertSep(d.pages[f.id].seps, f.slot, Sep(sep, right.id));
            var d' := Written(Allocated(d, NodePage(image[m].child, image[m + 1..])), f.id, NodePage(d.pages[f.id].first, image[..m]));
            var seps, kids := SepsWith(f.seps, f.slot, sep), KidsWith(f.kids, f.slot, left, right);
            Pending(d', path, Node(f.id, seps[..m], kids[..m + 1]), Node(NextId(d), seps[m + 1..], kids[m + 1..]), seps[m], h + 1)
  {
    var seps, kids, r := SepsWith(f.seps, f.slot, sep), KidsWith(f.kids, f.slot, left, right), NextId(d);
    var nl, nr := Node(f.id, seps[..m], kids[..m + 1]), Node(r, seps[m + 1..], kids[m + 1..]);
    AbsorbedGoodFrom(d, path, f, was, left, right, sep, h);
    hide Pending, Parts, Good, GoodParts, Linked, Whole, PathStored, Stored, Leaves, Ids, LeftLeaves, RightLeaves, PathIds, NodeBytes, HoleLo, HoleHi;
    PendingParts(d, path, f, left, right, sep, h);
    ImageAbsorb(f.seps, f.kids, f.slot, sep, left, right);
    var image := InsertSep(d.pages[f.id].seps, f.slot, Sep(sep, right.id));
    ImageCut(seps, kids, m);
    var d' := Written(Allocated(d, NodePage(image[m].child, image[m + 1..])), f.id, NodePage(d.pages[f.id].first, image[..m]));
    PartsSplit(d, path, nl, nr, kids, m, h, NodePage(d.pages[f.id].first, image[..m]), NodePage(image[m].child, image[m + 1..]));
    NodeCutGood(seps, kids, m, HoleLo(path), HoleHi(path), h + 1);
    GoodNode(nl, HoleLo(path), Some(seps[m]), h + 1);
    GoodNode(nr, Some(seps[m]), HoleHi(path), h + 1);
    IntroPending(d', path, nl, nr, seps[m], h + 1);
  }

  /** Writing the two halves of a node's kids on two pages. */
  lemma PartsSplit(d: Disk, path: Path, nl: Tree, nr: Tree, kids: seq<Tree>, m: nat, h: nat, lp: Page, rp: Page)
    requires nl.Node? && nr.Node? && Parts(d, path, nl.id, kids, h) && nr.id == NextId(d) && m + 1 < |kids|
    requires nl.kids == kids[..m + 1] && nr.kids == kids[m + 1..] && |nl.kids| == |nl.seps| + 1 && |nr.kids| == |nr.seps| + 1
    requires lp == NodePage(nl.kids[0].id, SepsOf(nl.seps, nl.kids)) && rp == NodePage(nr.kids[0].id, SepsOf(nr.seps, nr.kids))
    requires nl.id in d.pages && d.pages[nl.id].NodePage?
    ensures var d' := Written(Allocated(d, rp), nl.id, lp);
            && PathStored(d'.pages, path, nl.id, h + 1) && Stored(d'.pages, nl, h + 1) && Stored(d'.pages, nr, h + 1)
            && Linked(d'.pages, LeftLeaves(path, h + 1) + (Leaves(nl, h + 1) + Leaves(nr, h + 1)) + RightLeaves(path, h + 1))
            && Whole(d', PathIds(path, h + 1) + (Ids(nl, h + 1) + Ids(nr, h + 1)))
  {
    hide Linked, Whole, PathStored, Stored, Leaves, LeavesAll, Ids, IdsAll, LeftLeaves, RightLeaves, PathIds, StoredAll, Allocated;
    var d', r := Written(Allocated(d, rp), nl.id, lp), nr.id;
    var rest := PathIds(path, h + 1) + IdsAll(kids, h);
    AllocThenWrite(d, rest, nl.id, rp, lp);
    KidsAndPathKept(d.pages, d'.pages, path, kids, nl.id, h);
    SplitStored(d'.pages, nl, nr, kids, m, h);
    CutLeaves(nl, nr, kids, m, h);
    assert rest + multiset{nl.id} + multiset{r} == PathIds(path, h + 1) + (Ids(nl, h + 1) + Ids(nr, h + 1));
    RowUsed(path, kids, h);
    LinkedKept2(d.pages, d'.pages, LeftLeaves(path, h + 1) + LeavesAll(kids, h) + RightLeaves(path, h + 1), nl.id, r, rest);
  }

  lemma SplitStored(pages: Pages, nl: Tree, nr: Tree, kids: seq<Tree>, m: nat, h: nat)
    requires nl.Node? && nr.Node? && m + 1 < |kids| && StoredAll(pages, kids, h)
    requires nl.kids == kids[..m + 1] && nr.kids == kids[m + 1..] && |nl.kids| == |nl.seps| + 1 && |nr.kids| == |nr.seps| + 1
    requires nl.id in pages && pages[nl.id] == NodePage(nl.kids[0].id, SepsOf(nl.seps, nl.kids))
    requires nr.id in pages && pages[nr.id] == NodePage(nr.kids[0].id, SepsOf(nr.seps, nr.kids))
    ensures Stored(pages, nl, h + 1) && Stored(pages, nr, h + 1)
  {
    hide Stored;
    forall i | 0 <= i < |nl.kids| ensures Stored(pages, nl.kids[i], h) { assert nl.kids[i] == kids[i]; }
    forall i | 0 <= i < |nr.kids| ensures Stored(pages, nr.kids[i], h) { assert nr.kids[i] == kids[m + 1 + i]; }
    StoredNode(pages, nl, h + 1);
    StoredNode(pages, nr, h + 1);
  }

  ghost predicate RowIn(row: seq<Tree>, used: multiset<nat>) {
    forall x | x in row :: x.id in used
  }

  /** Every leaf of the row is on a page in use. */
  lemma RowUsed(path: Path, kids: seq<Tree>, h: nat)
    requires PathOk(path)
    ensures RowIn(LeftLeaves(path, h + 1) + LeavesAll(kids, h) + RightLeaves(path, h + 1), PathIds(path, h + 1) + IdsAll(kids, h))
  {
    hide LeavesAll, IdsAll, LeftLeaves, RightLeaves, PathIds;
    var row := LeftLeaves(path, h + 1) + LeavesAll(kids, h) + RightLeaves(path, h + 1);
    forall x | x in row ensures x.id in PathIds(path, h + 1) + IdsAll(kids, h) {
      if x in LeavesAll(kids, h) { LeafIdUsedAll(kids, h, x); } else { SideLeafUsed(path, h + 1, x); }
    }
  }

  lemma IntroPending(d: Disk, path: Path, left: Tree, right: Tree, sep: Bytes, h: nat)
    requires PathOk(path)
    requires PathStored(d.pages, path, left.id, h) && Stored(d.pages, left, h) && Stored(d.pages, right, h)
    requires Linked(d.pages, LeftLeaves(path, h) + (Leaves(left, h) + Leaves(right, h)) + RightLeaves(path, h))
    requires Whole(d, PathIds(path, h) + (Ids(left, h) + Ids(right, h)))
    requires Good(left, HoleLo(path), Some(sep), h) && Good(right, Some(sep), HoleHi(path), h)
    requires KeyOk(sep) && Inside(sep, HoleLo(path), HoleHi(path))
    ensures Pending(d, path, left, right, sep, h)
  {
  }

  lemma GoodNode(t: Tree, lo: Option<Bytes>, hi: Option<Bytes>, h: nat)
    requires t.Node? && h > 0 && NodeBytes(t.seps) <= USABLE_SPACE && GoodParts(t.seps, t.kids, lo, hi, h)
    ensures Good(t, lo, hi, h)
  {
  }

  lemma AbsorbedGoodFrom(d: Disk, path: Path, f: Frame, was: Tree, left: Tree, right: Tree, sep: Bytes, h: nat)
    requires FrameOk(f) && PathOk(path) && Pending(d, path + [f], left, right, sep, h)
    requires Good(Fill(f, was), HoleLo(path), HoleHi(path), h + 1)
    ensures GoodParts(SepsWith(f.seps, f.slot, sep), KidsWith(f.kids, f.slot, left, right), HoleLo(path), HoleHi(path), h + 1)
    ensures NodeBytes(SepsWith(f.seps, f.slot, sep)) == NodeBytes(f.seps) + SepSize(sep) && NodeBytes(f.seps) <= USABLE_SPACE
  {
    hide Good, Linked, Whole, PathStored, Stored, Leaves, Ids, LeftLeaves, RightLeaves, PathIds, NodeBytes;
    PathSnoc(path, f, h);
    AbsorbedGood(f, was, left, right, sep, HoleLo(path), HoleHi(path), h);
  }

  lemma CutLeaves(nl: Tree, nr: Tree, kids: seq<Tree>, m: nat, h: nat)
    requires nl.Node? && nr.Node? && m < |kids| && nl.kids == kids[..m + 1] && nr.kids == kids[m + 1..]
    ensures Leaves(nl, h + 1) + Leaves(nr, h + 1) == LeavesAll(kids, h)
    ensures Ids(nl, h + 1) + Ids(nr, h + 1) == multiset{nl.id} + multiset{nr.id} + IdsAll(kids, h)
  {
    hide Leaves, Ids, LeavesAll, IdsAll;
    NodeLeaves(nl, h + 1);
    NodeLeaves(nr, h + 1);
    assert kids == kids[..m + 1] + kids[m + 1..];
    LeavesConcat(kids[..m + 1], kids[m + 1..], h);
  }

  lemma LinkedKept2(pages: Pages, pages': Pages, leaves: seq<Tree>, id: nat, r: nat, used: multiset<nat>)
    requires Linked(pages, leaves) && id in pages && pages[id].NodePage?
    requires r !in used && RowIn(leaves, used)
    requires forall p | p in pages && p != id && p != r :: p in pages' && pages'[p] == pages[p]
    ensures Linked(pages', leaves)
  {
    forall i | 0 <= i < |leaves| ensures LinkOk(pages', leaves, i) { assert LinkOk(pages, leaves, i) && leaves[i] in leaves; }
  }
}
