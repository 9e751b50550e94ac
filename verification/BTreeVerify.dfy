/** The whole check: tree, leaf chain and free list; and its report. */
module BTreeVerify {
  import opened Bytes
  import opened Wrappers
  import opened BTree
  import opened BTreePages
  import opened BTreeLinks
  import opened BTreePager
  import opened BTreeStates
  import opened BTreeInsert
  import opened BTreeCheck

  /** A page file the check accepts: a well-formed tree, leaves linked in order,
      and a free list of pages the tree does not use. */
  ghost predicate WellFormedFile(pages: Pages, root: nat, freeHead: Option<nat>, count: nat, t: Tree, h: nat, free: seq<nat>) {
    && Accepts(pages, root, None, None, 1, {}, None, count, t, h)
    && Linked(pages, Leaves(t, h))
    && Follows(pages, true, freeHead, free) && NewPages(free, SetOf(PagesOf(t, h)), count)
  }

  datatype Report = Report(depth: nat, keys: nat, freePages: nat, unreachable: nat)

  // ---- the free list -------------------------------------------------------

  ghost predicate GoodFree(pages: Pages, head: Option<nat>, seen: set<nat>, count: nat, free: seq<nat>) {
    Follows(pages, true, head, free) && NewPages(free, seen, count)
  }

  /** Walks the free list; succeeds exactly when it is a good one. */
  method CheckFree(pages: Pages, head: Option<nat>, seen: set<nat>, count: nat) returns (ok: bool, seen': set<nat>, n: nat, ghost free: seq<nat>)
    ensures ok ==> GoodFree(pages, head, seen, count, free) && seen' == seen + SetOf(free) && n == |free|
    ensures !ok ==> forall c :: !GoodFree(pages, head, seen, count, c)
  {
    hide NewPages, Leads, Follows, Payloads;
    var cursor := head;
    seen', n, free := seen, 0, [];
    NothingWalked(pages, head, seen, count);
    while cursor.Some?
      invariant Leads(pages, true, head, free, cursor) && NewPages(free, seen, count) && n == |free|
      invariant seen' == seen + SetOf(free)
      decreases |Unseen(seen', count)|
    {
      var id := cursor.value;
      NewPagesSnoc(free, id, seen, count);
      forall c | GoodFree(pages, head, seen, count, c) ensures NewPages(free + [id], seen, count) && id in pages && pages[id].FreePage? {
        NextFree(pages, head, free, id, seen, count, c);
      }
      if id == 0 || id >= count || id in seen' { return false, seen', n, free; }
      if id !in pages || !pages[id].FreePage? { return false, seen', n, free; }
      LeadsSnoc(pages, true, head, free, id);
      UnseenShrinks(seen', id, count);
      seen', n, free := seen' + {id}, n + 1, free + [id];
      cursor := pages[id].next;
    }
    LeadsEnd(pages, true, head, free);
    ok := true;
  }

  lemma NextFree(pages: Pages, head: Option<nat>, walked: seq<nat>, id: nat, seen: set<nat>, count: nat, c: seq<nat>)
    requires Leads(pages, true, head, walked, Some(id)) && GoodFree(pages, head, seen, count, c)
    ensures NewPages(walked + [id], seen, count) && id in pages && pages[id].FreePage?
  {
    hide NewPages, Leads;
    LeadsPrefix(pages, true, head, walked, Some(id), c);
    var rest := c[|walked|..];
    assert rest != [] && rest[0] == id;
    assert c[..|walked| + 1] == walked + [id];
    NewPagesPrefix(c, |walked| + 1, seen, count);
  }

  // ---- the leaf chain ------------------------------------------------------

  lemma {:induction false} SaneLeaves(pages: Pages, t: Tree, lo: Option<Bytes>, hi: Option<Bytes>, h: nat)
    requires Sane(pages, t, lo, hi, h)
    ensures Leaves(t, h) != [] && forall x | x in Leaves(t, h) :: x.id in pages && pages[x.id].LeafPage?
    decreases h, 0
  {
    hide KeysInOrder, EntryStored;
    match t
    case Leaf(_, _) =>
    case Node(_, seps, kids) =>
      assert SaneKids(pages, seps, kids, lo, hi, h - 1);
      SaneLeavesAll(pages, seps, kids, lo, hi, h - 1, |kids|);
      assert kids[..|kids|] == kids;
  }

  lemma {:induction false} SaneLeavesAll(pages: Pages, seps: seq<Bytes>, kids: seq<Tree>, lo: Option<Bytes>, hi: Option<Bytes>, h: nat, n: nat)
    requires |kids| == |seps| + 1 && SaneKids(pages, seps, kids, lo, hi, h) && n <= |kids|
    ensures (n > 0 ==> LeavesAll(kids[..n], h) != []) && forall x | x in LeavesAll(kids[..n], h) :: x.id in pages && pages[x.id].LeafPage?
    decreases h, 1, n
  {
    hide Sane, Leaves;
    if n > 0 {
      SaneLeavesAll(pages, seps, kids, lo, hi, h, n - 1);
      assert Sane(pages, kids[n - 1], KidLo(seps, n - 1, lo), KidHi(seps, n - 1, hi), h);
      SaneLeaves(pages, kids[n - 1], KidLo(seps, n - 1, lo), KidHi(seps, n - 1, hi), h);
      assert kids[..n][..n - 1] == kids[..n - 1] && kids[..n][n - 1] == kids[n - 1];
    }
  }

  /** The leftmost leaf. */
  method FirstLeafOf(pages: Pages, root: nat, ghost t: Tree, ghost h: nat) returns (leaf: nat)
    requires Sane(pages, t, None, None, h) && t.id == root
    ensures Leaves(t, h) != [] && leaf == Leaves(t, h)[0].id
  {
    hide Sane, Leaves;
    leaf := root;
    ghost var sub, lo, hi, k := t, None, None, h;
    FirstStep(pages, sub, lo, hi, k);
    while pages[leaf].NodePage?
      invariant Sane(pages, sub, lo, hi, k) && leaf == sub.id && leaf in pages && (pages[leaf].NodePage? <==> sub.Node?)
      invariant Leaves(sub, k) != [] && Leaves(t, h) != [] && Leaves(sub, k)[0] == Leaves(t, h)[0]
      decreases k
    {
      FirstStep(pages, sub, lo, hi, k);
      leaf := pages[leaf].first;
      lo, hi := KidLo(sub.seps, 0, lo), KidHi(sub.seps, 0, hi);
      sub, k := sub.kids[0], k - 1;
      FirstStep(pages, sub, lo, hi, k);
    }
    FirstStep(pages, sub, lo, hi, k);
  }

  lemma FirstStep(pages: Pages, t: Tree, lo: Option<Bytes>, hi: Option<Bytes>, h: nat)
    requires Sane(pages, t, lo, hi, h)
    ensures t.id in pages && (pages[t.id].NodePage? <==> t.Node?) && Leaves(t, h) != []
    ensures t.Leaf? ==> Leaves(t, h)[0].id == t.id
    ensures t.Node? ==> h > 0 && |t.kids| == |t.seps| + 1 && pages[t.id].first == t.kids[0].id
    ensures t.Node? ==> Sane(pages, t.kids[0], KidLo(t.seps, 0, lo), KidHi(t.seps, 0, hi), h - 1)
    ensures t.Node? ==> Leaves(t.kids[0], h - 1) != [] && Leaves(t, h)[0] == Leaves(t.kids[0], h - 1)[0]
  {
    hide KeysInOrder, EntryStored;
    SaneLeaves(pages, t, lo, hi, h);
    if t.Node? {
      assert SaneKids(pages, t.seps, t.kids, lo, hi, h - 1);
      assert Sane(pages, t.kids[0], KidLo(t.seps, 0, lo), KidHi(t.seps, 0, hi), h - 1);
      hide Sane, LeavesAll;
      SaneLeaves(pages, t.kids[0], KidLo(t.seps, 0, lo), KidHi(t.seps, 0, hi), h - 1);
      assert t.kids == [t.kids[0]] + t.kids[1..];
      LeavesConcat([t.kids[0]], t.kids[1..], h - 1);
      LeavesOne(t.kids[0], h - 1);
    }
  }

  /** Follows the sibling links; succeeds exactly when they visit the leaves in
      order and then end. */
  method CheckLinks(pages: Pages, first: nat, leaves: seq<nat>, count: nat, ghost row: seq<Tree>) returns (ok: bool)
    requires row != [] && leaves == LeafIds(row) && first == row[0].id && |row| < count
    requires forall x | x in row :: x.id in pages && pages[x.id].LeafPage?
    ensures ok <==> Linked(pages, row)
  {
    hide LinkOk;
    var cursor, position, remaining := Some(first), 0, count;
    while cursor.Some?
      invariant 0 <= position <= |row| && remaining + position == count
      invariant position == 0 ==> cursor == Some(row[0].id)
      invariant position > 0 ==> cursor == pages[row[position - 1].id].next
      invariant forall i | 0 <= i < position - 1 :: LinkOk(pages, row, i)
      decreases remaining
    {
      if remaining == 0 { return false; }
      remaining := remaining - 1;
      assert position < |row| ==> leaves[position] == row[position].id && row[position] in row;
      if position > 0 { LinkIs(pages, row, position - 1); }
      if position >= |leaves| || leaves[position] != cursor.value { return false; }
      cursor, position := pages[cursor.value].next, position + 1;
    }
    LinkIs(pages, row, position - 1);
    ok := position == |leaves|;
  }

  lemma LinkIs(pages: Pages, row: seq<Tree>, i: nat)
    requires i < |row| && forall x | x in row :: x.id in pages && pages[x.id].LeafPage?
    ensures LinkOk(pages, row, i) <==> pages[row[i].id].next == (if i + 1 < |row| then Some(row[i + 1].id) else None)
  {
    assert row[i] in row;
  }

  // ---- counting ------------------------------------------------------------

  lemma {:induction false} LeavesFewer(t: Tree, h: nat)
    ensures |Leaves(t, h)| <= |PagesOf(t, h)|
    decreases h, 0
  {
    if t.Node? && h > 0 { LeavesFewerAll(t.kids, h - 1); }
  }

  lemma {:induction false} LeavesFewerAll(kids: seq<Tree>, h: nat)
    ensures |LeavesAll(kids, h)| <= |PagesAll(kids, h)|
    decreases h, 1, |kids|
  {
    hide Leaves, PagesOf;
    if kids != [] {
      LeavesFewerAll(kids[..|kids| - 1], h);
      LeavesFewer(kids[|kids| - 1], h);
    }
  }

  // ---- the check -----------------------------------------------------------

  /** The structural check of tree and free list: it reports exactly when the
      file is well formed, and counts the pages nothing accounts for. */
  method Check(pages: Pages, root: nat, freeHead: Option<nat>, count: nat)
    returns (r: Option<Report>, ghost t: Tree, ghost h: nat, ghost free: seq<nat>)
    ensures r.Some? ==> WellFormedFile(pages, root, freeHead, count, t, h, free)
    ensures r.Some? ==> r.value.keys == |Flat(Leaves(t, h))| && r.value.depth == h + 1 && r.value.freePages == |free|
    ensures r.Some? ==> |PagesOf(t, h)| + |free| + r.value.unreachable + 1 == count
    ensures r.None? ==> forall x, k: nat, f :: !WellFormedFile(pages, root, freeHead, count, x, k, f)
  {
    hide Accepts, NewPages, Linked, Follows, Leaves, PagesOf, Flat;
    free := [];
    var ok, seen, leaves, keys, bottom;
    ok, seen, leaves, keys, bottom, t, h := CheckNode(pages, root, None, None, 1, {}, None, count);
    if !ok { return None, t, h, free; }
    assert seen == SetOf(PagesOf(t, h));
    AcceptedSane(pages, root, count, t, h);
    var first := FirstLeafOf(pages, root, t, h);
    ok := CheckLinks(pages, first, leaves, count, Leaves(t, h));
    forall x, k: nat, f | WellFormedFile(pages, root, freeHead, count, x, k, f) ensures x == t && k == h {
      AcceptedOnce(pages, root, count, t, h, x, k);
    }
    if !ok { return None, t, h, free; }
    var n, all;
    ok, all, n, free := CheckFree(pages, freeHead, seen, count);
    forall x, k: nat, f | WellFormedFile(pages, root, freeHead, count, x, k, f) ensures GoodFree(pages, freeHead, seen, count, f) {}
    if !ok { return None, t, h, free; }
    Accounted(pages, root, count, t, h, free, all);
    r := Some(Report(bottom, keys, n, if count >= |all| + 1 then count - (|all| + 1) else 0));
  }

  /** In an accepted file with no unreachable page, every page but the meta page is either in
      the tree or on the free list, and not in both. */
  lemma AcceptedCovers(pages: Pages, root: nat, freeHead: Option<nat>, count: nat, t: Tree, h: nat, free: seq<nat>, p: nat)
    requires WellFormedFile(pages, root, freeHead, count, t, h, free) && |PagesOf(t, h)| + |free| + 1 == count && 1 <= p < count
    ensures p in PagesOf(t, h) <==> p !in free
  {
    hide PagesOf, Sane, Linked, Follows, Leaves, Distinct;
    var tree := PagesOf(t, h);
    DistinctSize(tree);
    DistinctSize(free);
    RangeSize(count);
    var a, b, all := SetOf(tree), SetOf(free), Unseen({}, count);
    assert a !! b && a + b <= all;
    assert |a + b| == |all|;
    SameSize(a + b, all);
    assert p in all;
  }

  lemma SameSize(a: set<nat>, b: set<nat>)
    requires a <= b && |a| == |b|
    ensures a == b
  {
    assert b == a + (b - a);
  }

  lemma AcceptedSane(pages: Pages, root: nat, count: nat, t: Tree, h: nat)
    requires Accepts(pages, root, None, None, 1, {}, None, count, t, h)
    ensures Sane(pages, t, None, None, h) && t.id == root && Leaves(t, h) != [] && |Leaves(t, h)| < count
    ensures forall x | x in Leaves(t, h) :: x.id in pages && pages[x.id].LeafPage?
  {
    hide Sane, NewPages;
    SaneLeaves(pages, t, None, None, h);
    LeavesFewer(t, h);
    SomeCount(pages, root, count, t, h);
    FewerThanFile(PagesOf(t, h), {}, count);
  }

  lemma SomeCount(pages: Pages, root: nat, count: nat, t: Tree, h: nat)
    requires Accepts(pages, root, None, None, 1, {}, None, count, t, h)
    ensures count > 0
  {
    hide Accepts;
    AcceptedPage(pages, root, None, None, 1, {}, None, count, t, h);
  }

  lemma AcceptedOnce(pages: Pages, root: nat, count: nat, a: Tree, h: nat, b: Tree, k: nat)
    requires Accepts(pages, root, None, None, 1, {}, None, count, a, h) && Accepts(pages, root, None, None, 1, {}, None, count, b, k)
    ensures a == b && h == k
  {
    hide Sane, NewPages;
    SaneOnce(pages, a, b, None, None, h, k);
  }

  lemma Accounted(pages: Pages, root: nat, count: nat, t: Tree, h: nat, free: seq<nat>, all: set<nat>)
    requires Accepts(pages, root, None, None, 1, {}, None, count, t, h) && NewPages(free, SetOf(PagesOf(t, h)), count)
    requires all == SetOf(PagesOf(t, h)) + SetOf(free)
    ensures |all| == |PagesOf(t, h)| + |free| < count
  {
    hide Sane, PagesOf;
    var tree := PagesOf(t, h);
    assert NewPages(tree, {}, count);
    SomeCount(pages, root, count, t, h);
    assert {} + SetOf(tree) == SetOf(tree);
    NewPagesConcat(tree, free, {}, count);
    FewerThanFile(tree + free, {}, count);
    DistinctSize(tree + free);
    SetConcat(tree, free);
  }

  // ---- every tree the engine builds is accepted ----------------------------

  lemma {:induction false} StoredIsSane(pages: Pages, t: Tree, lo: Option<Bytes>, hi: Option<Bytes>, h: nat)
    requires Stored(pages, t, h) && Good(t, lo, hi, h)
    ensures Sane(pages, t, lo, hi, h)
    decreases h
  {
    match t
    case Leaf(_, es) =>
      LeafInOrder(es, lo, hi);
      hide Less;
      forall i | 0 <= i < |es| ensures EntryStored(pages, es[i]) {
        assert EntryOk(es[i]);
        if es[i].spilled { ChainIsChained(pages, es[i].chain, es[i].value); }
      }
    case Node(_, seps, kids) =>
      SepsInOrder(seps, lo, hi);
      assert StoredAll(pages, kids, h - 1);
      forall i | 0 <= i < |kids| ensures Sane(pages, kids[i], KidLo(seps, i, lo), KidHi(seps, i, hi), h - 1) {
        GoodKid(t, lo, hi, h, i);
        StoredIsSane(pages, kids[i], KidLo(seps, i, lo), KidHi(seps, i, hi), h - 1);
      }
  }

  lemma LeafInOrder(es: seq<Entry>, lo: Option<Bytes>, hi: Option<Bytes>)
    requires EntriesOk(es, lo, hi)
    ensures KeysInOrder(CellKeys(CellsOf(es)), lo, hi)
  {
    hide Less, EntryOk, InBounds;
  }

  lemma SepsInOrder(seps: seq<Bytes>, lo: Option<Bytes>, hi: Option<Bytes>)
    requires SepsOk(seps, lo, hi)
    ensures KeysInOrder(seps, lo, hi)
  {
    hide Less, KeyOk;
  }

  lemma {:induction false} ChainPagesIds(es: seq<Entry>)
    ensures multiset(ChainPages(es)) == ChainIds(es)
  {
    if es != [] { ChainPagesIds(es[..|es| - 1]); }
  }

  lemma {:induction false} PagesOfIds(t: Tree, h: nat)
    ensures multiset(PagesOf(t, h)) == Ids(t, h)
    decreases h, 0
  {
    hide PagesAll, IdsAll, ChainPages, ChainIds;
    match t
    case Leaf(_, es) => ChainPagesIds(es);
    case Node(_, _, kids) => if h > 0 { PagesAllIds(kids, h - 1); }
  }

  lemma {:induction false} PagesAllIds(kids: seq<Tree>, h: nat)
    ensures multiset(PagesAll(kids, h)) == IdsAll(kids, h)
    decreases h, 1, |kids|
  {
    hide PagesOf, Ids;
    if kids != [] {
      PagesAllIds(kids[..|kids| - 1], h);
      PagesOfIds(kids[|kids| - 1], h);
    }
  }

  lemma FreeFollows(pages: Pages, free: seq<nat>)
    requires FreeAt(pages, free)
    ensures Follows(pages, true, Head(free), free)
    decreases |free|
  {
    if free != [] { FreeFollows(pages, free[1..]); }
  }

  lemma WholeIsNew(d: Disk, tree: seq<nat>)
    requires Whole(d, multiset(tree))
    ensures NewPages(tree, {}, d.count) && NewPages(d.free, SetOf(tree), d.count) && |tree| + |d.free| + 1 == d.count
  {
    var all: seq<nat> := tree + d.free;
    var m: multiset<nat> := multiset(all);
    assert m == AllPages(d.count) && |all| == |m|;
    AllPagesSize(d.count);
    forall p: nat | p in all ensures m[p] == 1 && 1 <= p < d.count {
      assert p in m;
      AllPagesHas(d.count, p);
    }
    OnceIsDistinct(all);
    assert NewPages(all, {}, d.count);
    NewPagesConcat(tree, d.free, {}, d.count);
    assert {} + SetOf(tree) == SetOf(tree);
  }

  /** The check accepts every tree the engine builds, and nothing is leaked. */
  lemma EngineTreePasses(d: Disk, t: Tree, h: nat)
    requires TreeIn(d, t, h) && h < MAX_DEPTH
    ensures WellFormedFile(d.pages, t.id, Head(d.free), d.count, t, h, d.free)
    ensures |PagesOf(t, h)| + |d.free| + 1 == d.count
  {
    hide Stored, Good, Linked, PagesOf, Sane, NewPages, Ids, Leaves;
    PagesOfIds(t, h);
    WholeIsNew(d, PagesOf(t, h));
    StoredIsSane(d.pages, t, None, None, h);
    FreeFollows(d.pages, d.free);
  }
}
