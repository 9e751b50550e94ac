/** Delete: unlinking empty leaves, freeing orphaned ancestors, collapsing the root. */
module BTreeDelete {
  import opened Bytes
  import opened Wrappers
  import opened BTree
  import opened BTreePages
  import opened BTreeZipper
  import opened BTreePager
  import opened BTreeEdit
  import opened BTreeStates
  import opened BTreeInsertSteps
  import opened BTreeInsert
  import opened BTreeOps
  import opened BTreeMap
  import opened BTreeRoot
  import opened BTreeDeleteSteps

  /** One level of the descent: an internal page and the child slot taken. */
  datatype Step = Step(id: nat, slot: nat)

  ghost predicate Traces(path: Path, steps: seq<Step>) {
    |path| == |steps| && forall i | 0 <= i < |steps| :: steps[i] == Step(path[i].id, path[i].slot)
  }

  /** A settled subtree is a whole tree, seen from the root. */
  lemma SettledPlug(d: Disk, path: Path, was: Tree, sub: Tree, h: nat)
    requires PathOk(path) && Settled(d, path, sub, h) && Good(Plug(path, was), None, None, h + |path|)
    ensures TreeIn(d, Plug(path, sub), h + |path|)
    ensures Leaves(Plug(path, sub), h + |path|) == LeftLeaves(path, h) + Leaves(sub, h) + RightLeaves(path, h)
  {
    hide Linked, Whole, PathStored, Stored, Good, Leaves, Ids, LeftLeaves, RightLeaves, PathIds, HoleLo, HoleHi, Plug;
    PlugStored(d.pages, path, sub, h);
    PlugLeaves(path, sub, h);
    PlugGoodOut(path, was, sub, h);
  }

  // ---- descending ----------------------------------------------------------

  /** From the root to the leaf responsible for the key. */
  method FindPath(p: Pager, key: Bytes, ghost t: Tree, ghost h: nat)
    returns (leaf: nat, steps: seq<Step>, ghost path: Path, ghost es: seq<Entry>)
    requires p.Valid() && TreeIn(p.View(), t, h) && p.root == t.id && h <= MAX_DEPTH
    ensures Settled(p.View(), path, Leaf(leaf, es), 0) && Traces(path, steps) && |path| == h
    ensures PathOk(path) && Plug(path, Leaf(leaf, es)) == t && InBounds(key, HoleLo(path), HoleHi(path))
  {
    hide Settled, TreeIn, Good, FreeAt, KeysSorted, KeyPosition, SepsOk, IsSlot, Plug, Fill, PathOk;
    WholeTree(p.View(), t, h);
    leaf, steps, path := p.root, [], [];
    ghost var sub := t;
    PathStart(t);
    NodeOnDisk(p.View(), path, sub, h);
    var page := p.pages[leaf];
    while !page.LeafPage?
      invariant |path| <= h && Settled(p.View(), path, sub, h - |path|) && sub.id == leaf && Traces(path, steps)
      invariant PathOk(path) && Plug(path, sub) == t && InBounds(key, HoleLo(path), HoleHi(path))
      invariant leaf in p.pages && page == p.pages[leaf] && |steps| <= MAX_DEPTH
      invariant page.LeafPage? <==> sub.Leaf?
      decreases h - |path|
    {
      NodeOnDisk(p.View(), path, sub, h - |path|);
      SepKeysOf(sub.seps, sub.kids);
      var found, i := Search(SepKeys(page.seps), key);
      var slot := if found then i + 1 else i;
      Descend(p.View(), path, sub, key, found, i, h - |path|);
      StepDown(path, sub, slot);
      ghost var f := Frame(sub.id, sub.seps, sub.kids, slot);
      ghost var deeper := path + [f];
      TracesSnoc(path, steps, f);
      steps := steps + [Step(leaf, slot)];
      leaf := ChildAt(page, slot);
      path, sub := deeper, sub.kids[slot];
      NodeOnDisk(p.View(), path, sub, h - |path|);
      page := p.pages[leaf];
    }
    NodeOnDisk(p.View(), path, sub, h - |path|);
    es := sub.entries;
  }

  lemma PathStart(t: Tree)
    ensures PathOk([]) && Plug([], t) == t && HoleLo([]) == None && HoleHi([]) == None && Traces([], [])
  {
  }

  lemma TracesSnoc(path: Path, steps: seq<Step>, f: Frame)
    requires Traces(path, steps)
    ensures Traces(path + [f], steps + [Step(f.id, f.slot)])
  {
  }

  /** A key within the leaf's bounds is in the tree only if it is in the leaf. */
  lemma OnlyHere(d: Disk, path: Path, leaf: Tree, key: Bytes)
    requires PathOk(path) && Settled(d, path, leaf, 0) && leaf.Leaf? && InBounds(key, HoleLo(path), HoleHi(path))
    requires Good(Plug(path, leaf), None, None, |path|)
    ensures key in Contents(Plug(path, leaf), |path|) <==> exists e :: e in leaf.entries && e.key == key
  {
    hide Settled, Good, LeftLeaves, RightLeaves, HoleLo, HoleHi, Plug, Leaves, Flat, Less, ToMap, Ids;
    var a, b := LeftLeaves(path, 0), RightLeaves(path, 0);
    PlugLeaves(path, leaf, 0);
    assert Leaves(leaf, 0) == [leaf] by { LeafRow(leaf); }
    FlatConcat(a + [leaf], b);
    FlatConcat(a, [leaf]);
    FlatOne(leaf);
    var all := Flat(a) + leaf.entries + Flat(b);
    MapHas(all, key);
    if e :| e in all && e.key == key {
      if e in Flat(a) {
        LeftBound(path, leaf, 0, e);
        NotBoth(key, HoleLo(path).value);
      } else if e in Flat(b) {
        RightBound(path, leaf, 0, e);
        NotBoth(key, HoleHi(path).value);
      }
    }
  }

  lemma LeafRow(leaf: Tree)
    requires leaf.Leaf?
    ensures Leaves(leaf, 0) == [leaf]
  {
  }

  lemma NotBoth(a: Bytes, b: Bytes)
    ensures !(Less(a, b) && AtMost(b, a))
  {
    if Less(a, b) { LessAsymmetric(a, b); }
  }

  // ---- freeing pages -------------------------------------------------------

  method FreeAll(p: Pager, gone: seq<nat>, ghost path: Path, ghost sub: Tree, ghost h: nat)
    requires p.Valid() && SettledBut(p.View(), path, sub, h, gone)
    modifies p`pages, p`freeHead, p`free
    ensures p.Valid() && Settled(p.View(), path, sub, h)
  {
    hide SettledBut, Settled, FreeAt;
    assert gone[0..] == gone;
    for i := 0 to |gone|
      invariant p.Valid() && SettledBut(p.View(), path, sub, h, gone[i..])
    {
      FreeOne(p.View(), path, sub, h, gone[i..]);
      assert gone[i..][1..] == gone[i + 1..];
      var freed := p.ReleasePage(gone[i]);
    }
    assert gone[|gone|..] == [];
    SettledButNothing(p.View(), path, sub, h);
  }

  // ---- the predecessor -----------------------------------------------------

  lemma LastOfKids(kids: seq<Tree>, h: nat)
    requires kids != [] && Leaves(kids[|kids| - 1], h) != []
    ensures LastId(LeavesAll(kids, h)) == LastId(Leaves(kids[|kids| - 1], h)) && LeavesAll(kids, h) != []
  {
    hide Leaves;
  }

  lemma LastOfRow(a: seq<Tree>, b: seq<Tree>)
    ensures b != [] ==> LastId(a + b) == LastId(b)
    ensures b == [] ==> LastId(a + b) == LastId(a)
  {
    if b == [] { assert a + b == a; }
  }

  /** The rightmost leaf below a page. */
  method RightmostLeaf(p: Pager, start: nat, ghost t: Tree, ghost lo: Option<Bytes>, ghost hi: Option<Bytes>, ghost h: nat) returns (leaf: nat)
    requires Stored(p.pages, t, h) && Good(t, lo, hi, h) && start == t.id
    ensures Some(leaf) == LastId(Leaves(t, h))
  {
    hide Stored, Good, Leaves, LeavesAll;
    leaf := start;
    ghost var sub, l, u, k := t, lo, hi, h;
    RightStep(p.pages, sub, l, u, k);
    while p.pages[leaf].NodePage?
      invariant Stored(p.pages, sub, k) && Good(sub, l, u, k) && leaf == sub.id && LastId(Leaves(sub, k)) == LastId(Leaves(t, h))
      invariant leaf in p.pages && (p.pages[leaf].NodePage? <==> sub.Node?) && (sub.Node? ==> k > 0)
      decreases k
    {
      RightStep(p.pages, sub, l, u, k);
      var page := p.pages[leaf];
      leaf := ChildAt(page, |page.seps|);
      ghost var n := |sub.kids| - 1;
      l, u := KidLo(sub.seps, n, l), KidHi(sub.seps, n, u);
      sub, k := sub.kids[n], k - 1;
      RightStep(p.pages, sub, l, u, k);
    }
    RightStep(p.pages, sub, l, u, k);
  }

  /** One step to the right and down. */
  lemma RightStep(pages: Pages, t: Tree, lo: Option<Bytes>, hi: Option<Bytes>, h: nat)
    requires Stored(pages, t, h) && Good(t, lo, hi, h)
    ensures t.id in pages && (pages[t.id].NodePage? <==> t.Node?)
    ensures t.Leaf? ==> LastId(Leaves(t, h)) == Some(t.id)
    ensures t.Node? ==> h > 0 && |t.kids| == |t.seps| + 1 && pages[t.id].NodePage? && |pages[t.id].seps| == |t.seps|
    ensures t.Node? ==> ChildAt(pages[t.id], |t.seps|) == t.kids[|t.seps|].id
    ensures t.Node? ==> Stored(pages, t.kids[|t.seps|], h - 1)
    ensures t.Node? ==> Good(t.kids[|t.seps|], KidLo(t.seps, |t.seps|, lo), KidHi(t.seps, |t.seps|, hi), h - 1)
    ensures t.Node? ==> LastId(Leaves(t, h)) == LastId(Leaves(t.kids[|t.seps|], h - 1))
  {
    if t.Node? {
      assert |t.kids| == |t.seps| + 1 && StoredAll(pages, t.kids, h - 1);
      var n := |t.seps|;
      GoodKid(t, lo, hi, h, n);
      hide Good;
      SomeLeaf(t.kids[n], KidLo(t.seps, n, lo), KidHi(t.seps, n, hi), h - 1);
      LastOfKids(t.kids, h - 1);
    }
  }

  /** The leaf just left of the subtree at the end of the path. */
  method PreviousLeaf(p: Pager, steps: seq<Step>, ghost path: Path, ghost child: nat, ghost was: Tree, ghost h: nat) returns (prev: Option<nat>)
    requires PathOk(path) && Traces(path, steps) && PathStored(p.pages, path, child, h)
    requires Good(Plug(path, was), None, None, h + |path|)
    ensures prev == LastId(LeftLeaves(path, h))
  {
    hide PathStored, LeftLeaves, Good, Stored, Plug, Leaves, LeavesAll, HoleLo, HoleHi;
    var j := |steps|;
    ghost var c, sub := child, was;
    assert path[..j] == path;
    while j > 0 && steps[j - 1].slot == 0
      invariant 0 <= j <= |steps| && PathOk(path[..j]) && PathStored(p.pages, path[..j], c, h + |path| - j)
      invariant Good(Plug(path[..j], sub), None, None, h + |path|)
      invariant LastId(LeftLeaves(path, h)) == LastId(LeftLeaves(path[..j], h + |path| - j))
    {
      LeftStep(p.pages, path[..j], c, sub, h + |path| - j);
      assert path[..j][..j - 1] == path[..j - 1];
      c, sub := path[j - 1].id, Fill(path[j - 1], sub);
      j := j - 1;
    }
    if j == 0 {
      assert path[..0] == [];
      EmptyLeft(h + |path|);
      return None;
    }
    ghost var k := h + |path| - j;
    LeftStep(p.pages, path[..j], c, sub, k);
    ghost var f := path[j - 1];
    assert path[..j][j - 1] == f;
    var page := p.pages[steps[j - 1].id];
    var left := ChildAt(page, steps[j - 1].slot - 1);
    ghost var up := path[..j][..j - 1];
    ghost var x := f.kids[f.slot - 1];
    var last := RightmostLeaf(p, left, x, KidLo(f.seps, f.slot - 1, HoleLo(up)), KidHi(f.seps, f.slot - 1, HoleHi(up)), k);
    prev := Some(last);
  }

  lemma EmptyLeft(h: nat)
    ensures LeftLeaves([], h) == []
  {
  }

  /** What the last frame of a path says about the leaves to its left. */
  lemma LeftStep(pages: Pages, path: Path, child: nat, sub: Tree, h: nat)
    requires PathOk(path) && path != [] && PathStored(pages, path, child, h) && Good(Plug(path, sub), None, None, h + |path|)
    ensures var f, up := path[|path| - 1], path[..|path| - 1];
            && PathOk(up) && FrameOk(f) && PathStored(pages, up, f.id, h + 1) && Good(Plug(up, Fill(f, sub)), None, None, h + |path|)
            && (f.slot == 0 ==> LeftLeaves(path, h) == LeftLeaves(up, h + 1))
            && (f.slot > 0 ==>
                  && f.id in pages && pages[f.id].NodePage? && f.slot <= |pages[f.id].seps| && f.slot - 1 <= |f.seps|
                  && ChildAt(pages[f.id], f.slot - 1) == f.kids[f.slot - 1].id && Stored(pages, f.kids[f.slot - 1], h)
                  && Good(f.kids[f.slot - 1], KidLo(f.seps, f.slot - 1, HoleLo(up)), KidHi(f.seps, f.slot - 1, HoleHi(up)), h)
                  && LastId(LeftLeaves(path, h)) == LastId(Leaves(f.kids[f.slot - 1], h)))
  {
    hide Good, Stored, Plug, Leaves, LeavesAll, HoleLo, HoleHi, Fill;
    var f, up := path[|path| - 1], path[..|path| - 1];
    PlugStep(path, sub);
    assert LeftLeaves(path, h) == LeftLeaves(up, h + 1) + LeavesAll(f.kids[..f.slot], h);
    hide LeftLeaves;
    if f.slot == 0 {
      assert f.kids[..0] == [];
      NoLeaves(h);
    } else {
      PlugGoodIn(up, Fill(f, sub), h + 1);
      LeftSibling(f, sub, HoleLo(up), HoleHi(up), h);
      assert Stored(pages, f.kids[..f.slot][f.slot - 1], h);
      var kids := f.kids[..f.slot];
      SomeLeaf(kids[f.slot - 1], KidLo(f.seps, f.slot - 1, HoleLo(up)), KidHi(f.seps, f.slot - 1, HoleHi(up)), h);
      LastOfKids(kids, h);
      LastOfRow(LeftLeaves(up, h + 1), LeavesAll(kids, h));
    }
  }

  lemma LeftSibling(f: Frame, sub: Tree, lo: Option<Bytes>, hi: Option<Bytes>, h: nat)
    requires FrameOk(f) && f.slot > 0 && Good(Fill(f, sub), lo, hi, h + 1)
    ensures Good(f.kids[f.slot - 1], KidLo(f.seps, f.slot - 1, lo), KidHi(f.seps, f.slot - 1, hi), h)
  {
    hide Good;
    GoodKid(Fill(f, sub), lo, hi, h + 1, f.slot - 1);
  }
}
