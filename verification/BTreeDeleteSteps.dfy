/** The steps of a delete that empties a leaf. */
module BTreeDeleteSteps {
  import opened Bytes
  import opened PageLayout
  import opened Wrappers
  import opened BTree
  import opened BTreePages
  import opened BTreeZipper
  import opened BTreePager
  import opened BTreeEdit
  import opened BTreeStates
  import opened BTreeInsertSteps

  // ---- leaves exist --------------------------------------------------------

  lemma {:induction false} SomeLeaf(t: Tree, lo: Option<Bytes>, hi: Option<Bytes>, h: nat)
    requires Good(t, lo, hi, h)
    ensures Leaves(t, h) != []
    decreases h
  {
    hide Less;
    if t.Node? {
      var n := |t.kids| - 1;
      GoodKid(t, lo, hi, h, n);
      SomeLeaf(t.kids[n], KidLo(t.seps, n, lo), KidHi(t.seps, n, hi), h - 1);
    }
  }

  // ---- links may change without moving anything ----------------------------

  /** Pages differ at most in a leaf's link to its right sibling. */
  ghost predicate SameButNext(pages: Pages, pages': Pages, ids: multiset<nat>) {
    forall p | p in ids && p in pages ::
      p in pages' && (pages'[p] == pages[p] || (pages[p].LeafPage? && pages'[p].LeafPage? && pages'[p].cells == pages[p].cells))
  }

  lemma {:induction false} ChainNext(pages: Pages, pages': Pages, chain: seq<nat>, value: Bytes)
    requires ChainAt(pages, chain, value) && SameButNext(pages, pages', multiset(chain))
    ensures ChainAt(pages', chain, value)
    decreases |chain|
  {
    if chain != [] {
      var n := if |value| < OVERFLOW_PAYLOAD then |value| else OVERFLOW_PAYLOAD;
      assert chain == [chain[0]] + chain[1..];
      assert chain[0] in multiset(chain);
      ChainNext(pages, pages', chain[1..], value[n..]);
    }
  }

  lemma {:induction false} StoredNext(pages: Pages, pages': Pages, t: Tree, h: nat)
    requires Stored(pages, t, h) && SameButNext(pages, pages', Ids(t, h))
    ensures Stored(pages', t, h)
    decreases h, 0
  {
    hide StoredAll, IdsAll, ChainIds, ChainAt;
    assert t.id in Ids(t, h);
    match t
    case Leaf(_, es) =>
      forall i | 0 <= i < |es| && es[i].spilled ensures ChainAt(pages', es[i].chain, es[i].value) {
        ChainIdsHas(es, i);
        ChainNext(pages, pages', es[i].chain, es[i].value);
      }
    case Node(_, _, kids) => StoredAllNext(pages, pages', kids, h - 1);
  }

  lemma {:induction false} StoredAllNext(pages: Pages, pages': Pages, kids: seq<Tree>, h: nat)
    requires StoredAll(pages, kids, h) && SameButNext(pages, pages', IdsAll(kids, h))
    ensures StoredAll(pages', kids, h)
    decreases h, 1
  {
    hide Stored, Ids, IdsAll;
    forall i | 0 <= i < |kids| ensures Stored(pages', kids[i], h) {
      IdsAllHas(kids, i, h);
      StoredNext(pages, pages', kids[i], h);
    }
  }

  lemma {:induction false} PathNext(pages: Pages, pages': Pages, path: Path, child: nat, h: nat)
    requires PathOk(path) && PathStored(pages, path, child, h) && SameButNext(pages, pages', PathIds(path, h))
    ensures PathStored(pages', path, child, h)
    decreases |path|
  {
    hide StoredAll, IdsAll;
    if path != [] {
      var f, up := path[|path| - 1], path[..|path| - 1];
      assert f.id in FrameIds(f, h);
      StoredAllNext(pages, pages', f.kids[..f.slot], h);
      StoredAllNext(pages, pages', f.kids[f.slot + 1..], h);
      PathNext(pages, pages', up, f.id, h + 1);
    }
  }

  // ---- the doomed leaf -----------------------------------------------------

  /** A leaf on its way out: it is still linked; its page and those of the
      ancestors that go with it are no longer part of the tree. */
  ghost predicate Doomed(d: Disk, path: Path, child: nat, leaf: Tree, h: nat, gone: seq<nat>) {
    && PathOk(path) && leaf.Leaf?
    && PathStored(d.pages, path, child, h)
    && Linked(d.pages, LeftLeaves(path, h) + [leaf] + RightLeaves(path, h))
    && Whole(d, PathIds(path, h) + multiset(gone))
  }

  /** A parent without separators goes with its only child. */
  lemma OrphanUp(d: Disk, path: Path, f: Frame, child: nat, leaf: Tree, h: nat, gone: seq<nat>)
    requires FrameOk(f) && PathOk(path) && Doomed(d, path + [f], child, leaf, h, gone) && f.seps == []
    ensures Doomed(d, path, f.id, leaf, h + 1, gone + [f.id])
  {
    hide Linked, Whole, PathStored, LeftLeaves, RightLeaves, PathIds, FrameStored;
    PathSnoc(path, f, h);
    PathStoredSnoc(d.pages, path, f, child, h);
    assert f.slot == 0 && f.kids[..0] == [] && f.kids[1..] == [];
    assert LeftLeaves(path + [f], h) == LeftLeaves(path, h + 1) + [];
    assert RightLeaves(path + [f], h) == [] + RightLeaves(path, h + 1);
    assert LeftLeaves(path + [f], h) + [leaf] + RightLeaves(path + [f], h) == LeftLeaves(path, h + 1) + [leaf] + RightLeaves(path, h + 1);
    assert FrameIds(f, h) == multiset{f.id};
    assert PathIds(path + [f], h) + multiset(gone) == PathIds(path, h + 1) + multiset(gone + [f.id]);
  }

  // ---- unlinking -----------------------------------------------------------

  /** The predecessor now skips the leaf. */
  lemma Unlink(pages: Pages, pages': Pages, a: seq<Tree>, leaf: Tree, b: seq<Tree>)
    requires Linked(pages, a + [leaf] + b)
    requires forall x | x in b || x in a[..|a| - (if a == [] then 0 else 1)] :: x.id in pages ==> x.id in pages' && pages'[x.id] == pages[x.id]
    requires leaf.id in pages && pages[leaf.id].LeafPage?
    requires a != [] ==> a[|a| - 1].id in pages' && pages'[a[|a| - 1].id].LeafPage? && pages'[a[|a| - 1].id].next == pages[leaf.id].next
    ensures Linked(pages', a + b)
  {
    var was, now, n := a + [leaf] + b, a + b, |a|;
    assert was[n] == leaf && LinkOk(pages, was, n);
    forall i | 0 <= i < |now| ensures LinkOk(pages', now, i) {
      if i < n - 1 {
        assert now[i] == a[i] == was[i] && now[i + 1] == a[i + 1] == was[i + 1] && LinkOk(pages, was, i);
        assert a[..n - 1][i] == a[i];
      } else if i == n - 1 {
        assert now[i] == a[n - 1];
        if b != [] { assert now[i + 1] == b[0] && was[n + 1] == b[0]; }
      } else {
        assert now[i] == b[i - n] == was[i + 1] && LinkOk(pages, was, i + 1) && b[i - n] in b;
        if i + 1 < |now| { assert now[i + 1] == b[i + 1 - n] == was[i + 2]; }
      }
    }
  }

  // ---- settling what is left -----------------------------------------------

  /** A complete tree, with pages still to be freed. */
  ghost predicate SettledBut(d: Disk, path: Path, sub: Tree, h: nat, gone: seq<nat>) {
    && PathOk(path)
    && PathStored(d.pages, path, sub.id, h) && Stored(d.pages, sub, h)
    && Linked(d.pages, LeftLeaves(path, h) + Leaves(sub, h) + RightLeaves(path, h))
    && Whole(d, PathIds(path, h) + Ids(sub, h) + multiset(gone))
    && Good(sub, HoleLo(path), HoleHi(path), h)
  }

  lemma SettledButNothing(d: Disk, path: Path, sub: Tree, h: nat)
    requires SettledBut(d, path, sub, h, [])
    ensures Settled(d, path, sub, h)
  {
    hide Linked, Whole, PathStored, Stored, Good, Leaves, Ids, LeftLeaves, RightLeaves, PathIds, HoleLo, HoleHi;
    assert PathIds(path, h) + Ids(sub, h) + multiset([]) == PathIds(path, h) + Ids(sub, h);
  }

  /** Freeing one of them. */
  lemma FreeOne(d: Disk, path: Path, sub: Tree, h: nat, gone: seq<nat>)
    requires SettledBut(d, path, sub, h, gone) && gone != []
    ensures SettledBut(Released(d, gone[0]), path, sub, h, gone[1..])
    ensures gone[0] !in d.free && 1 <= gone[0] < d.count
  {
    hide Linked, Whole, PathStored, Stored, Good, Leaves, Ids, LeftLeaves, RightLeaves, PathIds, HoleLo, HoleHi;
    var id, rest := gone[0], gone[1..];
    var tree := PathIds(path, h) + Ids(sub, h);
    assert gone == [id] + rest;
    assert tree + multiset(gone) == tree + multiset(rest) + multiset{id};
    ReleaseKeeps(d, tree + multiset(rest), id);
    NotFree(d, tree + multiset(gone), id);
    var d' := Released(d, id);
    PathFrame(d.pages, d'.pages, path, sub.id, h);
    StoredFrame(d.pages, d'.pages, sub, h);
    WholeRowUsed(path, sub, h);
    RowSame(d.pages, d'.pages, LeftLeaves(path, h) + Leaves(sub, h) + RightLeaves(path, h), tree);
  }

  lemma RowSame(pages: Pages, pages': Pages, row: seq<Tree>, used: multiset<nat>)
    requires Linked(pages, row) && RowIn(row, used) && SameOn(pages, pages', used)
    ensures Linked(pages', row)
  {
    forall i | 0 <= i < |row| ensures LinkOk(pages', row, i) { assert LinkOk(pages, row, i) && row[i] in row; }
  }

  lemma WholeRowUsed(path: Path, sub: Tree, h: nat)
    requires PathOk(path)
    ensures RowIn(LeftLeaves(path, h) + Leaves(sub, h) + RightLeaves(path, h), PathIds(path, h) + Ids(sub, h))
  {
    hide Leaves, Ids, LeftLeaves, RightLeaves, PathIds;
    var row := LeftLeaves(path, h) + Leaves(sub, h) + RightLeaves(path, h);
    forall x | x in row ensures x.id in PathIds(path, h) + Ids(sub, h) {
      if x in Leaves(sub, h) { LeafIdUsed(sub, h, x); } else { SideLeafUsed(path, h, x); }
    }
  }

  // ---- the anchor loses a child --------------------------------------------

  function AnchorWithout(f: Frame): Tree
    requires FrameOk(f) && f.seps != []
  {
    Node(f.id, SepsWithout(f.seps, f.slot), KidsWithout(f.kids, f.slot))
  }

  /** The page of the anchor without the child: the leftmost child is replaced
      by the first separator's, or a separator goes with its child. */
  function PageWithout(page: Page, slot: nat): Page
    requires page.NodePage? && page.seps != [] && slot <= |page.seps|
  {
    if slot == 0 then NodePage(page.seps[0].child, page.seps[1..])
    else NodePage(page.first, page.seps[..slot - 1] + page.seps[slot..])
  }

  lemma PageWithoutIs(f: Frame, child: nat, page: Page)
    requires FrameOk(f) && f.seps != []
    requires page == NodePage(if f.slot == 0 then child else f.kids[0].id,
                              seq(|f.seps|, i requires 0 <= i < |f.seps| => Sep(f.seps[i], if i + 1 == f.slot then child else f.kids[i + 1].id)))
    ensures var n := AnchorWithout(f);
            |n.kids| == |n.seps| + 1 && PageWithout(page, f.slot) == NodePage(n.kids[0].id, SepsOf(n.seps, n.kids))
  {
    var n := AnchorWithout(f);
    var image := SepsOf(n.seps, n.kids);
    var got := PageWithout(page, f.slot).seps;
    assert |got| == |image|;
    forall i | 0 <= i < |image| ensures got[i] == image[i] {
      if f.slot == 0 {
        assert got[i] == page.seps[i + 1] && n.seps[i] == f.seps[i + 1] && n.kids[i + 1] == f.kids[i + 2];
      } else if i < f.slot - 1 {
        assert got[i] == page.seps[i] && n.seps[i] == f.seps[i] && n.kids[i + 1] == f.kids[i + 1];
      } else {
        assert got[i] == page.seps[i + 1] && n.seps[i] == f.seps[i + 1] && n.kids[i + 1] == f.kids[i + 2];
      }
    }
  }

  lemma WithoutParts(f: Frame, h: nat)
    requires FrameOk(f)
    ensures var kids := KidsWithout(f.kids, f.slot);
            && LeavesAll(kids, h) == LeavesAll(f.kids[..f.slot], h) + LeavesAll(f.kids[f.slot + 1..], h)
            && multiset{f.id} + IdsAll(kids, h) == FrameIds(f, h)
  {
    hide LeavesAll, IdsAll;
    LeavesConcat(f.kids[..f.slot], f.kids[f.slot + 1..], h);
  }

  lemma StoredAllWithout(pages: Pages, f: Frame, child: nat, h: nat)
    requires FrameOk(f) && FrameStored(pages, f, child, h)
    ensures StoredAll(pages, KidsWithout(f.kids, f.slot), h)
  {
    hide Stored;
    var kids := KidsWithout(f.kids, f.slot);
    forall i | 0 <= i < |kids| ensures Stored(pages, kids[i], h) {
      if i < f.slot { assert kids[i] == f.kids[..f.slot][i]; } else { assert kids[i] == f.kids[f.slot + 1..][i - f.slot]; }
    }
  }

  /** After the predecessor's link is changed, everything the anchor needs. */
  ghost predicate Detached(d: Disk, path: Path, f: Frame, h: nat, gone: seq<nat>) {
    && PathOk(path) && FrameOk(f)
    && PathStored(d.pages, path, f.id, h + 1) && StoredAll(d.pages, KidsWithout(f.kids, f.slot), h)
    && Linked(d.pages, LeftLeaves(path, h + 1) + LeavesAll(KidsWithout(f.kids, f.slot), h) + RightLeaves(path, h + 1))
    && Whole(d, PathIds(path, h + 1) + IdsAll(KidsWithout(f.kids, f.slot), h) + multiset{f.id} + multiset(gone))
  }

  /** Rewriting the anchor completes the tree. */
  lemma AnchorSettled(d: Disk, path: Path, f: Frame, was: Tree, h: nat, gone: seq<nat>, page: Page)
    requires Detached(d, path, f, h, gone) && f.seps != [] && Good(Fill(f, was), HoleLo(path), HoleHi(path), h + 1)
    requires f.id in d.pages && d.pages[f.id].NodePage?
    requires |AnchorWithout(f).kids| == |AnchorWithout(f).seps| + 1
    requires page == NodePage(AnchorWithout(f).kids[0].id, SepsOf(AnchorWithout(f).seps, AnchorWithout(f).kids))
    ensures SettledBut(Written(d, f.id, page), path, AnchorWithout(f), h + 1, gone)
    ensures f.id !in d.free
  {
    hide Linked, Whole, PathStored, Stored, Good, Leaves, LeavesAll, Ids, IdsAll, LeftLeaves, RightLeaves, PathIds, HoleLo, HoleHi, StoredAll, Fill;
    var node, d' := AnchorWithout(f), Written(d, f.id, page);
    var tree := PathIds(path, h + 1) + IdsAll(node.kids, h);
    var used, rest := tree + multiset{f.id} + multiset(gone), tree + multiset(gone);
    assert used == rest + multiset{f.id};
    WriteKeeps(d, used, rest, f.id, page);
    NotFree(d, used, f.id);
    KidsAndPathKept(d.pages, d'.pages, path, node.kids, f.id, h);
    StoredNode(d'.pages, node, h + 1);
    NodeLeaves(node, h + 1);
    assert used == PathIds(path, h + 1) + Ids(node, h + 1) + multiset(gone);
    AnchorGood(f, was, HoleLo(path), HoleHi(path), h);
    LinkedKept(d.pages, d'.pages, LeftLeaves(path, h + 1) + Leaves(node, h + 1) + RightLeaves(path, h + 1), f.id);
  }

  lemma AnchorGood(f: Frame, was: Tree, lo: Option<Bytes>, hi: Option<Bytes>, h: nat)
    requires FrameOk(f) && f.seps != [] && Good(Fill(f, was), lo, hi, h + 1)
    ensures Good(AnchorWithout(f), lo, hi, h + 1)
  {
    assert GoodParts(f.seps, f.kids[f.slot := was], lo, hi, h + 1) && NodeBytes(f.seps) <= USABLE_SPACE;
    hide GoodParts, NodeBytes;
    LoseKidGood(f.seps, f.kids[f.slot := was], f.slot, lo, hi, h + 1);
    assert KidsWithout(f.kids[f.slot := was], f.slot) == KidsWithout(f.kids, f.slot);
    LoseSepBytes(f.seps, f.slot);
    GoodNode(AnchorWithout(f), lo, hi, h + 1);
  }

  // ---- leaf pages are distinct ---------------------------------------------

  function RowIds(row: seq<Tree>): multiset<nat> {
    if row == [] then multiset{} else RowIds(row[..|row| - 1]) + multiset{row[|row| - 1].id}
  }

  lemma {:induction false} RowIdsConcat(a: seq<Tree>, b: seq<Tree>)
    ensures RowIds(a + b) == RowIds(a) + RowIds(b)
  {
    if b == [] {
      assert a + b == a;
    } else {
      assert (a + b)[..|a + b| - 1] == a + b[..|b| - 1];
      RowIdsConcat(a, b[..|b| - 1]);
    }
  }

  lemma {:induction false} RowIdsHas(row: seq<Tree>, i: nat)
    requires i < |row|
    ensures row[i].id in RowIds(row)
  {
    if i < |row| - 1 { RowIdsHas(row[..|row| - 1], i); }
  }

  lemma RowDistinct(row: seq<Tree>, i: nat, j: nat)
    requires i < j < |row| && row[i].id == row[j].id
    ensures RowIds(row)[row[i].id] >= 2
  {
    hide RowIds;
    assert row == row[..j] + row[j..];
    RowIdsConcat(row[..j], row[j..]);
    RowIdsHas(row[..j], i);
    RowIdsHas(row[j..], 0);
  }

  lemma {:induction false} LeafIdsWithin(t: Tree, h: nat)
    ensures RowIds(Leaves(t, h)) <= Ids(t, h)
    decreases h, 0
  {
    match t
    case Leaf(_, _) => assert [t][..0] == [];
    case Node(_, _, kids) => if h > 0 { LeafIdsWithinAll(kids, h - 1); }
  }

  lemma {:induction false} LeafIdsWithinAll(kids: seq<Tree>, h: nat)
    ensures RowIds(LeavesAll(kids, h)) <= IdsAll(kids, h)
    decreases h, 1, |kids|
  {
    hide Leaves, Ids;
    if kids != [] {
      var n := |kids| - 1;
      LeafIdsWithinAll(kids[..n], h);
      LeafIdsWithin(kids[n], h);
      RowIdsConcat(LeavesAll(kids[..n], h), Leaves(kids[n], h));
    }
  }

  lemma {:induction false} SideIdsWithin(path: Path, h: nat)
    requires PathOk(path)
    ensures RowIds(LeftLeaves(path, h)) + RowIds(RightLeaves(path, h)) <= PathIds(path, h)
    decreases |path|
  {
    hide LeavesAll, IdsAll, RowIds;
    if path == [] {
      NoRow();
    } else {
      var f, up := path[|path| - 1], path[..|path| - 1];
      SideIdsWithin(up, h + 1);
      LeafIdsWithinAll(f.kids[..f.slot], h);
      LeafIdsWithinAll(f.kids[f.slot + 1..], h);
      RowIdsConcat(LeftLeaves(up, h + 1), LeavesAll(f.kids[..f.slot], h));
      RowIdsConcat(LeavesAll(f.kids[f.slot + 1..], h), RightLeaves(up, h + 1));
    }
  }

  lemma NoRow()
    ensures RowIds([]) == multiset{}
  {
  }

  /** Leaves beside the path lie on different pages. */
  lemma SidesDistinct(d: Disk, path: Path, h: nat, gone: seq<nat>, i: nat, j: nat)
    requires PathOk(path) && Whole(d, PathIds(path, h) + multiset(gone))
    requires i < j < |LeftLeaves(path, h) + RightLeaves(path, h)|
    ensures (LeftLeaves(path, h) + RightLeaves(path, h))[i].id != (LeftLeaves(path, h) + RightLeaves(path, h))[j].id
  {
    hide Whole, LeftLeaves, RightLeaves, PathIds, RowIds;
    var row := LeftLeaves(path, h) + RightLeaves(path, h);
    RowIdsConcat(LeftLeaves(path, h), RightLeaves(path, h));
    SideIdsWithin(path, h);
    UsedOnce(d, PathIds(path, h) + multiset(gone), row[i].id);
    if row[i].id == row[j].id { RowDistinct(row, i, j); }
  }

  // ---- detaching -----------------------------------------------------------

  function Relinked(d: Disk, prev: Option<nat>, next: Option<nat>): Disk {
    if prev.Some? && prev.value in d.pages && d.pages[prev.value].LeafPage?
    then Written(d, prev.value, LeafPage(d.pages[prev.value].cells, next)) else d
  }

  function LastId(row: seq<Tree>): Option<nat> {
    if row == [] then None else Some(row[|row| - 1].id)
  }

  lemma DoomedLink(d: Disk, path: Path, child: nat, leaf: Tree, h: nat, gone: seq<nat>)
    requires Doomed(d, path, child, leaf, h, gone)
    ensures leaf.id in d.pages && d.pages[leaf.id].LeafPage?
    ensures var a := LeftLeaves(path, h);
            a != [] ==> a[|a| - 1].id in d.pages && d.pages[a[|a| - 1].id].LeafPage? && a[|a| - 1].id in PathIds(path, h)
  {
    hide Whole, PathStored, LeftLeaves, RightLeaves, PathIds;
    var a := LeftLeaves(path, h);
    var row := a + [leaf] + RightLeaves(path, h);
    assert row[|a|] == leaf && LinkOk(d.pages, row, |a|);
    if a != [] {
      assert row[|a| - 1] == a[|a| - 1] && LinkOk(d.pages, row, |a| - 1);
      assert a[|a| - 1] in a;
      SideLeafUsed(path, h, a[|a| - 1]);
    }
  }

  /** Only the predecessor's link changes; the row closes over the gap. */
  lemma RelinkRow(d: Disk, path: Path, child: nat, leaf: Tree, h: nat, gone: seq<nat>)
    requires Doomed(d, path, child, leaf, h, gone) && leaf.id in d.pages && d.pages[leaf.id].LeafPage?
    ensures var d' := Relinked(d, LastId(LeftLeaves(path, h)), d.pages[leaf.id].next);
            Linked(d'.pages, LeftLeaves(path, h) + RightLeaves(path, h))
  {
    DoomedLink(d, path, child, leaf, h, gone);
    hide Whole, PathStored, LeftLeaves, RightLeaves, PathIds, Linked;
    var a, b := LeftLeaves(path, h), RightLeaves(path, h);
    var d' := Relinked(d, LastId(a), d.pages[leaf.id].next);
    if a != [] { LastAlone(d, path, h, gone); }
    Unlink(d.pages, d'.pages, a, leaf, b);
  }

  /** No other leaf beside the path shares the predecessor's page. */
  lemma LastAlone(d: Disk, path: Path, h: nat, gone: seq<nat>)
    requires PathOk(path) && Whole(d, PathIds(path, h) + multiset(gone)) && LeftLeaves(path, h) != []
    ensures var a, b := LeftLeaves(path, h), RightLeaves(path, h);
            forall x | x in b || x in a[..|a| - 1] :: x.id != a[|a| - 1].id
  {
    hide Whole, LeftLeaves, RightLeaves, PathIds;
    var a, b := LeftLeaves(path, h), RightLeaves(path, h);
    var n := |a|;
    forall x | x in b || x in a[..n - 1] ensures x.id != a[n - 1].id {
      if x in b {
        var j :| 0 <= j < |b| && b[j] == x;
        assert (a + b)[n - 1] == a[n - 1] && (a + b)[n + j] == x;
        SidesDistinct(d, path, h, gone, n - 1, n + j);
      } else {
        var j :| 0 <= j < n - 1 && a[..n - 1][j] == x;
        assert (a + b)[n - 1] == a[n - 1] && (a + b)[j] == x;
        SidesDistinct(d, path, h, gone, j, n - 1);
      }
    }
  }

  lemma RelinkKeeps(d: Disk, path: Path, child: nat, leaf: Tree, h: nat, gone: seq<nat>)
    requires Doomed(d, path, child, leaf, h, gone) && leaf.id in d.pages && d.pages[leaf.id].LeafPage?
    ensures var d' := Relinked(d, LastId(LeftLeaves(path, h)), d.pages[leaf.id].next);
            && PathStored(d'.pages, path, child, h) && Whole(d', PathIds(path, h) + multiset(gone))
            && d'.free == d.free && d'.count == d.count
            && (LastId(LeftLeaves(path, h)).Some? ==> LastId(LeftLeaves(path, h)).value !in d.free)
            && forall p | p in d.pages && !d.pages[p].LeafPage? :: p in d'.pages && d'.pages[p] == d.pages[p]
  {
    DoomedLink(d, path, child, leaf, h, gone);
    hide Whole, PathStored, LeftLeaves, RightLeaves, PathIds, Linked;
    var prev := LastId(LeftLeaves(path, h));
    var d' := Relinked(d, prev, d.pages[leaf.id].next);
    var used := PathIds(path, h) + multiset(gone);
    if prev.Some? {
      assert prev.value in used;
      NotFree(d, used, prev.value);
      assert used == used - multiset{prev.value} + multiset{prev.value};
      WriteKeeps(d, used, used - multiset{prev.value}, prev.value, d'.pages[prev.value]);
      hide SameOn;
      assert SameButNext(d.pages, d'.pages, PathIds(path, h));
      hide SameButNext;
      PathNext(d.pages, d'.pages, path, child, h);
    }
  }

  /** The leaf is out of the chain; the anchor may drop it. */
  lemma Detach(d: Disk, path: Path, f: Frame, child: nat, leaf: Tree, h: nat, gone: seq<nat>)
    requires FrameOk(f) && PathOk(path) && Doomed(d, path + [f], child, leaf, h, gone)
    ensures leaf.id in d.pages && d.pages[leaf.id].LeafPage?
    ensures var d' := Relinked(d, LastId(LeftLeaves(path + [f], h)), d.pages[leaf.id].next);
            && Detached(d', path, f, h, gone) && FrameStored(d'.pages, f, child, h)
            && f.id in d.pages && d'.pages[f.id] == d.pages[f.id]
  {
    DoomedLink(d, path + [f], child, leaf, h, gone);
    RelinkRow(d, path + [f], child, leaf, h, gone);
    RelinkKeeps(d, path + [f], child, leaf, h, gone);
    hide Doomed, Whole, PathStored, LeftLeaves, RightLeaves, PathIds, Linked, LeavesAll, IdsAll, StoredAll, Relinked, FrameStored, FrameIds;
    var d' := Relinked(d, LastId(LeftLeaves(path + [f], h)), d.pages[leaf.id].next);
    PathOkSnoc(path, f);
    PathStoredSnoc(d'.pages, path, f, child, h);
    StoredAllWithout(d'.pages, f, child, h);
    DetachRow(path, f, h);
    DetachIds(path, f, h, multiset(gone));
    AnchorPage(d, path, f, child, leaf, h, gone);
  }

  lemma PathOkSnoc(path: Path, f: Frame)
    requires PathOk(path) && FrameOk(f)
    ensures PathOk(path + [f])
  {
  }

  lemma DetachRow(path: Path, f: Frame, h: nat)
    requires PathOk(path) && FrameOk(f)
    ensures PathOk(path + [f])
    ensures LeftLeaves(path + [f], h) + RightLeaves(path + [f], h) ==
            LeftLeaves(path, h + 1) + LeavesAll(KidsWithout(f.kids, f.slot), h) + RightLeaves(path, h + 1)
  {
    hide LeftLeaves, RightLeaves, PathIds, LeavesAll, IdsAll, FrameIds;
    PathSnoc(path, f, h);
    WithoutParts(f, h);
  }

  lemma DetachIds(path: Path, f: Frame, h: nat, gone: multiset<nat>)
    requires PathOk(path) && FrameOk(f)
    ensures PathOk(path + [f])
    ensures PathIds(path + [f], h) + gone == PathIds(path, h + 1) + IdsAll(KidsWithout(f.kids, f.slot), h) + multiset{f.id} + gone
  {
    hide LeftLeaves, RightLeaves, PathIds, LeavesAll, IdsAll, FrameIds;
    PathSnoc(path, f, h);
    WithoutParts(f, h);
    Shuffle(PathIds(path, h + 1), multiset{f.id}, IdsAll(KidsWithout(f.kids, f.slot), h), gone);
  }

  lemma Shuffle(p: multiset<nat>, a: multiset<nat>, b: multiset<nat>, c: multiset<nat>)
    ensures p + (a + b) + c == p + b + a + c
  {
  }

  lemma AnchorPage(d: Disk, path: Path, f: Frame, child: nat, leaf: Tree, h: nat, gone: seq<nat>)
    requires FrameOk(f) && PathOk(path) && Doomed(d, path + [f], child, leaf, h, gone)
    ensures f.id in d.pages && d.pages[f.id].NodePage? && FrameStored(d.pages, f, child, h)
  {
    hide Whole, PathStored, LeftLeaves, RightLeaves, PathIds, Linked;
    PathStoredSnoc(d.pages, path, f, child, h);
  }
}
