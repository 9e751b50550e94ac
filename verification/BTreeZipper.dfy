/** A tree seen from one of its subtrees: the path of frames above it. */
module BTreeZipper {
  import opened Bytes
  import opened Wrappers
  import opened BTree
  import opened BTreePages

  /** An internal node and the child slot the path takes. */
  datatype Frame = Frame(id: nat, seps: seq<Bytes>, kids: seq<Tree>, slot: nat)

  type Path = seq<Frame>

  predicate FrameOk(f: Frame) {
    f.slot < |f.kids| && |f.kids| == |f.seps| + 1
  }

  predicate PathOk(path: Path) {
    forall i | 0 <= i < |path| :: FrameOk(path[i])
  }

  function Fill(f: Frame, sub: Tree): Tree
    requires FrameOk(f)
  {
    Node(f.id, f.seps, f.kids[f.slot := sub])
  }

  /** The whole tree with `sub` at the end of the path. */
  function Plug(path: Path, sub: Tree): Tree
    requires PathOk(path)
  {
    if path == [] then sub else Plug(path[..|path| - 1], Fill(path[|path| - 1], sub))
  }

  function HoleLo(path: Path): Option<Bytes>
    requires PathOk(path)
  {
    if path == [] then None
    else
      var f := path[|path| - 1];
      KidLo(f.seps, f.slot, HoleLo(path[..|path| - 1]))
  }

  function HoleHi(path: Path): Option<Bytes>
    requires PathOk(path)
  {
    if path == [] then None
    else
      var f := path[|path| - 1];
      KidHi(f.seps, f.slot, HoleHi(path[..|path| - 1]))
  }

  function LeftLeaves(path: Path, h: nat): seq<Tree>
    requires PathOk(path)
    decreases |path|
  {
    if path == [] then []
    else
      var f := path[|path| - 1];
      LeftLeaves(path[..|path| - 1], h + 1) + LeavesAll(f.kids[..f.slot], h)
  }

  function RightLeaves(path: Path, h: nat): seq<Tree>
    requires PathOk(path)
    decreases |path|
  {
    if path == [] then []
    else
      var f := path[|path| - 1];
      LeavesAll(f.kids[f.slot + 1..], h) + RightLeaves(path[..|path| - 1], h + 1)
  }

  function FrameIds(f: Frame, h: nat): multiset<nat>
    requires FrameOk(f)
  {
    multiset{f.id} + IdsAll(f.kids[..f.slot], h) + IdsAll(f.kids[f.slot + 1..], h)
  }

  /** The pages of everything outside the subtree. */
  function PathIds(path: Path, h: nat): multiset<nat>
    requires PathOk(path)
    decreases |path|
  {
    if path == [] then multiset{} else PathIds(path[..|path| - 1], h + 1) + FrameIds(path[|path| - 1], h)
  }

  ghost predicate FrameStored(pages: Pages, f: Frame, child: nat, h: nat)
    requires FrameOk(f)
  {
    && f.id in pages
    && pages[f.id] == NodePage(if f.slot == 0 then child else f.kids[0].id,
                               seq(|f.seps|, i requires 0 <= i < |f.seps| =>
                                 Sep(f.seps[i], if i + 1 == f.slot then child else f.kids[i + 1].id)))
    && StoredAll(pages, f.kids[..f.slot], h) && StoredAll(pages, f.kids[f.slot + 1..], h)
  }

  ghost predicate PathStored(pages: Pages, path: Path, child: nat, h: nat)
    requires PathOk(path)
    decreases |path|
  {
    path == [] || (FrameStored(pages, path[|path| - 1], child, h)
                   && PathStored(pages, path[..|path| - 1], path[|path| - 1].id, h + 1))
  }

  // ---- leaves and pages ----------------------------------------------------

  lemma FillLeaves(f: Frame, sub: Tree, h: nat)
    requires FrameOk(f)
    ensures Leaves(Fill(f, sub), h + 1) == LeavesAll(f.kids[..f.slot], h) + Leaves(sub, h) + LeavesAll(f.kids[f.slot + 1..], h)
    ensures Ids(Fill(f, sub), h + 1) == FrameIds(f, h) + Ids(sub, h)
  {
    hide LeavesAll, IdsAll;
    var kids := f.kids[f.slot := sub];
    LeavesAround(kids, f.slot, h);
    assert kids[..f.slot] == f.kids[..f.slot] && kids[f.slot + 1..] == f.kids[f.slot + 1..];
  }

  lemma {:induction false} PlugLeaves(path: Path, sub: Tree, h: nat)
    requires PathOk(path)
    ensures Leaves(Plug(path, sub), h + |path|) == LeftLeaves(path, h) + Leaves(sub, h) + RightLeaves(path, h)
    ensures Ids(Plug(path, sub), h + |path|) == PathIds(path, h) + Ids(sub, h)
    decreases |path|
  {
    hide Leaves, Ids, FrameIds, Fill;
    if path != [] {
      var f := path[|path| - 1];
      PlugLeaves(path[..|path| - 1], Fill(f, sub), h + 1);
      FillLeaves(f, sub, h);
    }
  }

  // ---- order ---------------------------------------------------------------

  lemma {:induction false} PlugGoodIn(path: Path, sub: Tree, h: nat)
    requires PathOk(path) && Good(Plug(path, sub), None, None, h + |path|)
    ensures Good(sub, HoleLo(path), HoleHi(path), h)
    decreases |path|
  {
    hide Good;
    if path != [] {
      var f := path[|path| - 1];
      var node := Fill(f, sub);
      PlugGoodIn(path[..|path| - 1], node, h + 1);
      GoodKid(node, HoleLo(path[..|path| - 1]), HoleHi(path[..|path| - 1]), h + 1, f.slot);
    }
  }

  lemma FillGood(f: Frame, sub: Tree, sub': Tree, lo: Option<Bytes>, hi: Option<Bytes>, h: nat)
    requires FrameOk(f) && Good(Fill(f, sub), lo, hi, h + 1)
    requires Good(sub', KidLo(f.seps, f.slot, lo), KidHi(f.seps, f.slot, hi), h)
    ensures Good(Fill(f, sub'), lo, hi, h + 1)
  {
    hide SepsOk;
    var kids, kids' := f.kids[f.slot := sub], f.kids[f.slot := sub'];
    forall i | 0 <= i < |kids'| ensures Good(kids'[i], KidLo(f.seps, i, lo), KidHi(f.seps, i, hi), h) {
      assert i != f.slot ==> kids'[i] == kids[i];
    }
  }

  lemma {:induction false} PlugGoodOut(path: Path, sub: Tree, sub': Tree, h: nat)
    requires PathOk(path) && Good(Plug(path, sub), None, None, h + |path|)
    requires Good(sub', HoleLo(path), HoleHi(path), h)
    ensures Good(Plug(path, sub'), None, None, h + |path|)
    decreases |path|
  {
    hide Good, Fill;
    if path != [] {
      var f, up := path[|path| - 1], path[..|path| - 1];
      PlugGoodIn(up, Fill(f, sub), h + 1);
      FillGood(f, sub, sub', HoleLo(up), HoleHi(up), h);
      PlugGoodOut(up, Fill(f, sub), Fill(f, sub'), h + 1);
    }
  }

  lemma PlugStep(path: Path, sub: Tree)
    requires PathOk(path) && path != []
    ensures Plug(path, sub) == Plug(path[..|path| - 1], Fill(path[|path| - 1], sub))
  {
  }

  /** Everything to the left of the hole is below its lower bound. */
  lemma {:induction false} LeftBound(path: Path, sub: Tree, h: nat, e: Entry)
    requires PathOk(path) && Good(Plug(path, sub), None, None, h + |path|) && e in Flat(LeftLeaves(path, h))
    ensures HoleLo(path).Some? && Less(e.key, HoleLo(path).value)
    decreases |path|
  {
    hide Less, AtMost, LeavesAll, Good, Flat, Plug;
    if path == [] {
      NoLeaves(h);
    } else {
      var f, up := path[|path| - 1], path[..|path| - 1];
      var node := Fill(f, sub);
      PlugStep(path, sub);
      PlugGoodIn(up, node, h + 1);
      var a, b := LeftLeaves(up, h + 1), LeavesAll(f.kids[..f.slot], h);
      FlatConcat(a, b);
      hide LeftLeaves;
      assert node.kids[..f.slot] == f.kids[..f.slot];
      if e in Flat(a) {
        LeftBound(up, node, h + 1, e);
        if f.slot > 0 { SepAbove(node, HoleLo(up), HoleHi(up), h + 1, f.slot - 1, e.key); }
      } else {
        if f.slot == 0 { assert f.kids[..0] == []; NoLeaves(h); }
        else { LeftKids(node, HoleLo(up), HoleHi(up), h + 1, f.slot, e); }
      }
    }
  }

  lemma SepAbove(node: Tree, lo: Option<Bytes>, hi: Option<Bytes>, h: nat, i: nat, k: Bytes)
    requires Good(node, lo, hi, h) && node.Node? && i < |node.seps| && lo.Some? && Less(k, lo.value)
    ensures Less(k, node.seps[i])
  {
    LessAtMost(k, lo.value, node.seps[i]);
  }

  lemma LeftKids(node: Tree, lo: Option<Bytes>, hi: Option<Bytes>, h: nat, n: nat, e: Entry)
    requires Good(node, lo, hi, h) && node.Node? && 0 < n < |node.kids| && h > 0
    requires e in Flat(LeavesAll(node.kids[..n], h - 1))
    ensures n <= |node.seps| && Less(e.key, node.seps[n - 1])
  {
    FlatGoodKids(node.seps, node.kids, lo, hi, h, n);
    var es := Flat(LeavesAll(node.kids[..n], h - 1));
    var i :| 0 <= i < |es| && es[i] == e;
  }

  /** Everything to the right of the hole is at or above its upper bound. */
  lemma {:induction false} RightBound(path: Path, sub: Tree, h: nat, e: Entry)
    requires PathOk(path) && Good(Plug(path, sub), None, None, h + |path|) && e in Flat(RightLeaves(path, h))
    ensures HoleHi(path).Some? && AtMost(HoleHi(path).value, e.key)
    decreases |path|
  {
    hide Less, AtMost, LeavesAll, Good, Flat, Plug;
    if path == [] {
      NoLeaves(h);
    } else {
      var f, up := path[|path| - 1], path[..|path| - 1];
      var node := Fill(f, sub);
      PlugStep(path, sub);
      PlugGoodIn(up, node, h + 1);
      var a, b := LeavesAll(f.kids[f.slot + 1..], h), RightLeaves(up, h + 1);
      FlatConcat(a, b);
      hide RightLeaves;
      if e in Flat(b) {
        RightBound(up, node, h + 1, e);
        if f.slot < |f.seps| { SepBelow(node, HoleLo(up), HoleHi(up), h + 1, f.slot, e.key); }
      } else {
        if f.slot == |f.seps| { assert f.kids[f.slot + 1..] == []; NoLeaves(h); }
        else {
          assert node.kids[f.slot + 1..] == f.kids[f.slot + 1..];
          RightKids(node, HoleLo(up), HoleHi(up), h + 1, f.slot, e);
        }
      }
    }
  }

  lemma SepBelow(node: Tree, lo: Option<Bytes>, hi: Option<Bytes>, h: nat, i: nat, k: Bytes)
    requires Good(node, lo, hi, h) && node.Node? && i < |node.seps| && hi.Some? && AtMost(hi.value, k)
    ensures AtMost(node.seps[i], k)
  {
    LessAtMost(node.seps[i], hi.value, k);
  }

  lemma {:induction false} RightKids(node: Tree, lo: Option<Bytes>, hi: Option<Bytes>, h: nat, n: nat, e: Entry)
    requires Good(node, lo, hi, h) && node.Node? && n < |node.seps| && h > 0 && n + 1 < |node.kids|
    requires e in Flat(LeavesAll(node.kids[n + 1..], h - 1))
    ensures AtMost(node.seps[n], e.key)
    decreases |node.kids| - n
  {
    hide Less, AtMost, LeavesAll, Good, Flat, Leaves;
    var kids, i := node.kids, n + 1;
    assert kids[i..] == [kids[i]] + kids[i + 1..];
    LeavesConcat([kids[i]], kids[i + 1..], h - 1);
    LeavesOne(kids[i], h - 1);
    FlatConcat(Leaves(kids[i], h - 1), LeavesAll(kids[i + 1..], h - 1));
    GoodKid(node, lo, hi, h, i);
    if e in Flat(Leaves(kids[i], h - 1)) {
      KidEntryAbove(kids[i], node.seps[n], KidHi(node.seps, i, hi), h - 1, e);
    } else if i < |node.seps| {
      RightKids(node, lo, hi, h, i, e);
      SepOrder(node, lo, hi, h, n, e.key);
    } else {
      assert kids[i + 1..] == [];
      NoLeaves(h - 1);
    }
  }

  lemma KidEntryAbove(t: Tree, lo: Bytes, hi: Option<Bytes>, h: nat, e: Entry)
    requires Good(t, Some(lo), hi, h) && e in Flat(Leaves(t, h))
    ensures AtMost(lo, e.key)
  {
    hide Good, Leaves, Flat, Less, AtMost;
    FlatGood(t, Some(lo), hi, h);
    var es := Flat(Leaves(t, h));
    var j :| 0 <= j < |es| && es[j] == e;
    assert InBounds(es[j].key, Some(lo), hi);
  }

  lemma SepOrder(node: Tree, lo: Option<Bytes>, hi: Option<Bytes>, h: nat, n: nat, k: Bytes)
    requires Good(node, lo, hi, h) && node.Node? && n + 1 < |node.seps| && AtMost(node.seps[n + 1], k)
    ensures AtMost(node.seps[n], k)
  {
    LessAtMost(node.seps[n], node.seps[n + 1], k);
  }

  // ---- storage -------------------------------------------------------------

  lemma FillStored(pages: Pages, f: Frame, sub: Tree, h: nat)
    requires FrameOk(f)
    ensures Stored(pages, Fill(f, sub), h + 1) <==> FrameStored(pages, f, sub.id, h) && Stored(pages, sub, h)
  {
    hide Stored;
    var node := Fill(f, sub);
    var kids := node.kids;
    StoredNode(pages, node, h + 1);
    var image := seq(|f.seps|, i requires 0 <= i < |f.seps| => Sep(f.seps[i], if i + 1 == f.slot then sub.id else f.kids[i + 1].id));
    assert SepsOf(f.seps, kids) == image;
    if StoredAll(pages, kids, h) {
      assert Stored(pages, kids[f.slot], h);
      forall i | 0 <= i < f.slot ensures Stored(pages, f.kids[..f.slot][i], h) { assert kids[i] == f.kids[i]; }
      var after := f.kids[f.slot + 1..];
      forall i | 0 <= i < |after| ensures Stored(pages, after[i], h) { assert kids[f.slot + 1 + i] == after[i]; }
    }
    if FrameStored(pages, f, sub.id, h) && Stored(pages, sub, h) {
      forall i | 0 <= i < |kids| ensures Stored(pages, kids[i], h) {
        if i < f.slot { assert kids[i] == f.kids[..f.slot][i]; }
        else if i > f.slot { assert kids[i] == f.kids[f.slot + 1..][i - f.slot - 1]; }
      }
    }
  }

  lemma StoredNode(pages: Pages, t: Tree, h: nat)
    requires t.Node? && h > 0 && |t.kids| == |t.seps| + 1
    ensures Stored(pages, t, h) <==>
              t.id in pages && pages[t.id] == NodePage(t.kids[0].id, SepsOf(t.seps, t.kids)) && StoredAll(pages, t.kids, h - 1)
  {
    hide StoredAll;
  }

  lemma {:induction false} PlugStored(pages: Pages, path: Path, sub: Tree, h: nat)
    requires PathOk(path)
    ensures Stored(pages, Plug(path, sub), h + |path|) <==> PathStored(pages, path, sub.id, h) && Stored(pages, sub, h)
    decreases |path|
  {
    hide Stored, FrameStored, Fill;
    if path != [] {
      var f, up := path[|path| - 1], path[..|path| - 1];
      FillStored(pages, f, sub, h);
      PlugStored(pages, up, Fill(f, sub), h + 1);
      assert Fill(f, sub).id == f.id by { FillId(f, sub); }
    }
  }

  lemma FillId(f: Frame, sub: Tree)
    requires FrameOk(f)
    ensures Fill(f, sub).id == f.id
  {
  }

  lemma {:induction false} PathFrame(pages: Pages, pages': Pages, path: Path, child: nat, h: nat)
    requires PathOk(path) && PathStored(pages, path, child, h) && SameOn(pages, pages', PathIds(path, h))
    ensures PathStored(pages', path, child, h)
    decreases |path|
  {
    hide StoredAll, IdsAll;
    if path != [] {
      var f, up := path[|path| - 1], path[..|path| - 1];
      assert f.id in FrameIds(f, h);
      StoredAllFrame(pages, pages', f.kids[..f.slot], h);
      StoredAllFrame(pages, pages', f.kids[f.slot + 1..], h);
      PathFrame(pages, pages', up, f.id, h + 1);
    }
  }

  // ---- descending ----------------------------------------------------------

  /** How many separators are at or below the key. */
  ghost predicate IsSlot(seps: seq<Bytes>, k: Bytes, slot: nat) {
    && slot <= |seps|
    && (forall i | 0 <= i < slot :: AtMost(seps[i], k))
    && (forall i | slot <= i < |seps| :: Less(k, seps[i]))
  }

  lemma SlotBounds(seps: seq<Bytes>, k: Bytes, slot: nat, lo: Option<Bytes>, hi: Option<Bytes>)
    requires IsSlot(seps, k, slot) && InBounds(k, lo, hi)
    ensures InBounds(k, KidLo(seps, slot, lo), KidHi(seps, slot, hi))
  {
  }

  /** Stepping into a child extends the path. */
  lemma StepDown(path: Path, t: Tree, slot: nat)
    requires PathOk(path) && t.Node? && |t.kids| == |t.seps| + 1 && slot < |t.kids|
    ensures var path' := path + [Frame(t.id, t.seps, t.kids, slot)];
            && PathOk(path') && Plug(path', t.kids[slot]) == Plug(path, t)
            && HoleLo(path') == KidLo(t.seps, slot, HoleLo(path)) && HoleHi(path') == KidHi(t.seps, slot, HoleHi(path))
            && path'[..|path|] == path
  {
    var f := Frame(t.id, t.seps, t.kids, slot);
    var path' := path + [f];
    assert path'[..|path|] == path && path'[|path|] == f;
    assert Fill(f, t.kids[slot]) == t by { assert t.kids[slot := t.kids[slot]] == t.kids; }
  }
}
