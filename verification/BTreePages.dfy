/** How a B+Tree lies in pages, and its contents as a map. */
module BTreePages {
  import opened Bytes
  import opened PageLayout
  import opened Wrappers
  import opened BTree

  datatype Payload = Inline(value: Bytes) | Spilled(total: nat, head: Option<nat>)
  datatype Cell = Cell(key: Bytes, payload: Payload)
  datatype Sep = Sep(key: Bytes, child: nat)

  datatype Page =
    | FreePage(next: Option<nat>)
    | LeafPage(cells: seq<Cell>, next: Option<nat>)
    | NodePage(first: nat, seps: seq<Sep>)
    | OverflowPage(payload: Bytes, next: Option<nat>)

  type Pages = map<nat, Page>

  function Head(ids: seq<nat>): Option<nat> {
    if ids == [] then None else Some(ids[0])
  }

  // ---- cells ---------------------------------------------------------------

  function CellOf(e: Entry): Cell {
    Cell(e.key, if e.spilled then Spilled(|e.value|, Head(e.chain)) else Inline(e.value))
  }

  function CellsOf(es: seq<Entry>): seq<Cell> {
    seq(|es|, i requires 0 <= i < |es| => CellOf(es[i]))
  }

  function SepsOf(seps: seq<Bytes>, kids: seq<Tree>): seq<Sep>
    requires |kids| == |seps| + 1
  {
    seq(|seps|, i requires 0 <= i < |seps| => Sep(seps[i], kids[i + 1].id))
  }

  /** The child pointer in a slot of an internal page. */
  function ChildAt(page: Page, slot: nat): nat
    requires page.NodePage? && slot <= |page.seps|
  {
    if slot == 0 then page.first else page.seps[slot - 1].child
  }

  /** A value spread over a chain of overflow pages. */
  ghost predicate ChainAt(pages: Pages, chain: seq<nat>, value: Bytes)
    decreases |chain|
  {
    if chain == [] then value == []
    else
      var n := if |value| < OVERFLOW_PAYLOAD then |value| else OVERFLOW_PAYLOAD;
      && value != [] && chain[0] in pages && pages[chain[0]] == OverflowPage(value[..n], Head(chain[1..]))
      && ChainAt(pages, chain[1..], value[n..])
  }

  ghost predicate ChainsAt(pages: Pages, es: seq<Entry>) {
    forall i | 0 <= i < |es| && es[i].spilled :: ChainAt(pages, es[i].chain, es[i].value)
  }

  // ---- trees ---------------------------------------------------------------

  /** The tree's pages are there; sibling links are a separate matter. */
  ghost predicate Stored(pages: Pages, t: Tree, h: nat)
    decreases h, 0
  {
    t.id in pages &&
    match t
    case Leaf(id, es) => pages[id].LeafPage? && pages[id].cells == CellsOf(es) && ChainsAt(pages, es)
    case Node(id, seps, kids) => h > 0 && |kids| == |seps| + 1 && pages[id] == NodePage(kids[0].id, SepsOf(seps, kids))
                                 && StoredAll(pages, kids, h - 1)
  }

  ghost predicate StoredAll(pages: Pages, kids: seq<Tree>, h: nat)
    decreases h, 1
  {
    forall i | 0 <= i < |kids| :: Stored(pages, kids[i], h)
  }

  function NextOf(leaves: seq<Tree>, i: nat): Option<nat> {
    if i + 1 < |leaves| then Some(leaves[i + 1].id) else None
  }

  ghost predicate LinkOk(pages: Pages, leaves: seq<Tree>, i: nat)
    requires i < |leaves|
  {
    leaves[i].id in pages && pages[leaves[i].id].LeafPage? && pages[leaves[i].id].next == NextOf(leaves, i)
  }

  /** Leaves linked left to right. */
  ghost predicate Linked(pages: Pages, leaves: seq<Tree>) {
    forall i | 0 <= i < |leaves| :: LinkOk(pages, leaves, i)
  }

  /** The free list. */
  ghost predicate FreeAt(pages: Pages, free: seq<nat>) {
    free == [] || (free[0] in pages && pages[free[0]] == FreePage(Head(free[1..])) && FreeAt(pages, free[1..]))
  }

  /** Pages `1..count`, once each. */
  function AllPages(count: nat): multiset<nat> {
    if count <= 1 then multiset{} else AllPages(count - 1) + multiset{count - 1}
  }

  lemma {:induction false} AllPagesHas(count: nat, p: nat)
    ensures AllPages(count)[p] == if 1 <= p < count then 1 else 0
  {
    if count > 1 { AllPagesHas(count - 1, p); }
  }

  ghost predicate SameOn(pages: Pages, pages': Pages, ids: multiset<nat>) {
    forall p | p in ids && p in pages :: p in pages' && pages'[p] == pages[p]
  }

  // ---- frames --------------------------------------------------------------

  lemma {:induction false} ChainFrame(pages: Pages, pages': Pages, chain: seq<nat>, value: Bytes)
    requires ChainAt(pages, chain, value) && SameOn(pages, pages', multiset(chain))
    ensures ChainAt(pages', chain, value)
    decreases |chain|
  {
    if chain != [] {
      var n := if |value| < OVERFLOW_PAYLOAD then |value| else OVERFLOW_PAYLOAD;
      assert chain == [chain[0]] + chain[1..];
      assert chain[0] in multiset(chain);
      ChainFrame(pages, pages', chain[1..], value[n..]);
    }
  }

  lemma {:induction false} FreeFrame(pages: Pages, pages': Pages, free: seq<nat>)
    requires FreeAt(pages, free) && forall p | p in free && p in pages :: p in pages' && pages'[p] == pages[p]
    ensures FreeAt(pages', free)
  {
    if free != [] { FreeFrame(pages, pages', free[1..]); }
  }

  lemma {:induction false} ChainIdsHas(es: seq<Entry>, i: nat)
    requires i < |es|
    ensures multiset(es[i].chain) <= ChainIds(es)
  {
    var n := |es| - 1;
    if i < n { ChainIdsHas(es[..n], i); }
  }

  lemma ChainsFrame(pages: Pages, pages': Pages, es: seq<Entry>)
    requires ChainsAt(pages, es) && SameOn(pages, pages', ChainIds(es))
    ensures ChainsAt(pages', es)
  {
    hide ChainAt;
    forall i | 0 <= i < |es| && es[i].spilled ensures ChainAt(pages', es[i].chain, es[i].value) {
      ChainIdsHas(es, i);
      ChainFrame(pages, pages', es[i].chain, es[i].value);
    }
  }

  lemma {:induction false} IdsAllHas(kids: seq<Tree>, i: nat, h: nat)
    requires i < |kids|
    ensures Ids(kids[i], h) <= IdsAll(kids, h)
    decreases |kids|
  {
    hide Ids;
    var n := |kids| - 1;
    if i < n { IdsAllHas(kids[..n], i, h); }
  }

  /** A tree stays stored when none of its pages change. */
  lemma {:induction false} StoredFrame(pages: Pages, pages': Pages, t: Tree, h: nat)
    requires Stored(pages, t, h) && SameOn(pages, pages', Ids(t, h))
    ensures Stored(pages', t, h)
    decreases h, 0
  {
    hide ChainsAt, StoredAll, IdsAll, ChainIds;
    assert t.id in Ids(t, h);
    match t
    case Leaf(_, es) => ChainsFrame(pages, pages', es);
    case Node(_, _, kids) => StoredAllFrame(pages, pages', kids, h - 1);
  }

  lemma {:induction false} StoredAllFrame(pages: Pages, pages': Pages, kids: seq<Tree>, h: nat)
    requires StoredAll(pages, kids, h) && SameOn(pages, pages', IdsAll(kids, h))
    ensures StoredAll(pages', kids, h)
    decreases h, 1
  {
    hide Stored, Ids, IdsAll;
    forall i | 0 <= i < |kids| ensures Stored(pages', kids[i], h) {
      IdsAllHas(kids, i, h);
      StoredFrame(pages, pages', kids[i], h);
    }
  }

  /** Every page a stored tree uses is there. */
  lemma {:induction false} ChainPresent(pages: Pages, chain: seq<nat>, value: Bytes, p: nat)
    requires ChainAt(pages, chain, value) && p in chain
    ensures p in pages && pages[p].OverflowPage?
    decreases |chain|
  {
    var n := if |value| < OVERFLOW_PAYLOAD then |value| else OVERFLOW_PAYLOAD;
    if p != chain[0] { ChainPresent(pages, chain[1..], value[n..], p); }
  }

  lemma {:induction false} ChainIdsFind(es: seq<Entry>, p: nat) returns (i: nat)
    requires p in ChainIds(es)
    ensures i < |es| && p in es[i].chain
  {
    var n := |es| - 1;
    if p in es[n].chain { i := n; } else { i := ChainIdsFind(es[..n], p); }
  }

  // ---- contents ------------------------------------------------------------

  function ToMap(es: seq<Entry>): map<Bytes, Bytes> {
    if es == [] then map[] else ToMap(es[..|es| - 1])[es[|es| - 1].key := es[|es| - 1].value]
  }

  ghost predicate Ascending(es: seq<Entry>) {
    forall i, j | 0 <= i < j < |es| :: Less(es[i].key, es[j].key)
  }

  lemma {:induction false} MapHas(es: seq<Entry>, k: Bytes)
    ensures k in ToMap(es) <==> exists e :: e in es && e.key == k
  {
    if es != [] {
      var n := |es| - 1;
      MapHas(es[..n], k);
      assert forall e :: e in es <==> e in es[..n] || e == es[n];
    }
  }

  lemma {:induction false} MapValue(es: seq<Entry>, e: Entry)
    requires Ascending(es) && e in es
    ensures e.key in ToMap(es) && ToMap(es)[e.key] == e.value
  {
    var n := |es| - 1;
    if e in es[..n] {
      var i :| 0 <= i < n && es[..n][i] == e;
      MapValue(es[..n], e);
      LessIrreflexive(e.key);
      assert Less(es[i].key, es[n].key);
    }
  }

  lemma {:induction false} MapSize(es: seq<Entry>)
    requires Ascending(es)
    ensures |ToMap(es)| == |es|
  {
    if es != [] {
      var n := |es| - 1;
      MapSize(es[..n]);
      MapHas(es[..n], es[n].key);
      if e :| e in es[..n] && e.key == es[n].key {
        var i :| 0 <= i < n && es[..n][i] == e;
        assert Less(es[i].key, es[n].key);
        LessIrreflexive(e.key);
      }
    }
  }

  /** Replacing or inserting one entry is a map update. */
  lemma MapPut(p: seq<Entry>, old_: seq<Entry>, e: Entry, s: seq<Entry>)
    requires Ascending(p + old_ + s) && Ascending(p + [e] + s)
    requires forall x | x in old_ :: x.key == e.key
    ensures ToMap(p + [e] + s) == ToMap(p + old_ + s)[e.key := e.value]
  {
    hide ToMap, Ascending;
    var was, now := p + old_ + s, p + [e] + s;
    assert e in now;
    MapValue(now, e);
    forall k ensures k in ToMap(now) <==> k in ToMap(was)[e.key := e.value] {
      MapHas(was, k);
      MapHas(now, k);
      if x :| x in was && x.key == k { if x in old_ { assert e in now; } else { assert x in now; } }
      if x :| x in now && x.key == k { if x != e { assert x in was; } }
    }
    forall k | k in ToMap(now) ensures ToMap(now)[k] == ToMap(was)[e.key := e.value][k] {
      MapHas(now, k);
      var x :| x in now && x.key == k;
      MapValue(now, x);
      if k != e.key {
        assert x in was;
        MapValue(was, x);
      }
    }
  }

  /** Removing one entry is removing its key. */
  lemma MapDrop(p: seq<Entry>, e: Entry, s: seq<Entry>)
    requires Ascending(p + [e] + s)
    ensures ToMap(p + s) == ToMap(p + [e] + s) - {e.key}
    ensures Ascending(p + s)
  {
    hide ToMap, Less;
    var was, now := p + [e] + s, p + s;
    DropAscending(p, e, s);
    hide Ascending;
    forall k ensures k in ToMap(now) <==> k in ToMap(was) && k != e.key {
      MapHas(was, k);
      MapHas(now, k);
      if x :| x in now && x.key == k { assert x in was; KeyElsewhere(p, e, s, x); }
      if k != e.key { if x :| x in was && x.key == k { assert x in now; } }
    }
    forall k | k in ToMap(now) ensures ToMap(now)[k] == ToMap(was)[k] {
      MapHas(now, k);
      var x :| x in now && x.key == k;
      MapValue(now, x);
      MapValue(was, x);
    }
  }

  lemma DropAscending(p: seq<Entry>, e: Entry, s: seq<Entry>)
    requires Ascending(p + [e] + s)
    ensures Ascending(p + s)
  {
    var was, now, n := p + [e] + s, p + s, |p|;
    forall i, j | 0 <= i < j < |now| ensures Less(now[i].key, now[j].key) {
      assert now[i] == was[if i < n then i else i + 1] && now[j] == was[if j < n then j else j + 1];
    }
  }

  lemma KeyElsewhere(p: seq<Entry>, e: Entry, s: seq<Entry>, x: Entry)
    requires Ascending(p + [e] + s) && x in p + s
    ensures x.key != e.key
  {
    var was, n := p + [e] + s, |p|;
    assert was[n] == e;
    LessIrreflexive(e.key);
    if x in p {
      var i :| 0 <= i < n && p[i] == x;
      assert was[i] == x;
    } else {
      var i :| 0 <= i < |s| && s[i] == x;
      assert was[n + 1 + i] == x;
    }
  }

  // ---- in-order entries are sorted -----------------------------------------

  lemma JoinEntries(a: seq<Entry>, b: seq<Entry>, lo: Option<Bytes>, m: Bytes, hi: Option<Bytes>)
    requires EntriesOk(a, lo, Some(m)) && EntriesOk(b, Some(m), hi) && InBounds(m, lo, hi)
    ensures EntriesOk(a + b, lo, hi)
  {
    hide Less, EntryOk;
    var c := a + b;
    forall i | 0 <= i < |c| ensures EntryOk(c[i]) && InBounds(c[i].key, lo, hi) {
      if i < |a| {
        assert c[i] == a[i];
        if hi.Some? { LessTransitive(c[i].key, m, hi.value); }
      } else {
        assert c[i] == b[i - |a|];
        if lo.Some? { AtMostTrans(lo.value, m, c[i].key); }
      }
    }
    forall i, j | 0 <= i < j < |c| ensures Less(c[i].key, c[j].key) {
      if i < |a| <= j {
        assert c[i] == a[i] && c[j] == b[j - |a|];
        LessAtMost(c[i].key, m, c[j].key);
      } else if j < |a| {
        assert c[i] == a[i] && c[j] == a[j];
      } else {
        assert c[i] == b[i - |a|] && c[j] == b[j - |a|];
      }
    }
  }

  /** The entries of a good tree, in order, are sorted and in bounds. */
  lemma {:induction false} FlatGood(t: Tree, lo: Option<Bytes>, hi: Option<Bytes>, h: nat)
    requires Good(t, lo, hi, h)
    ensures EntriesOk(Flat(Leaves(t, h)), lo, hi)
    decreases h, 0
  {
    hide EntriesOk;
    if t.Leaf? {
      FlatOne(t);
    } else {
      FlatGoodKids(t.seps, t.kids, lo, hi, h, |t.kids|);
      assert t.kids[..|t.kids|] == t.kids;
    }
  }

  lemma {:induction false} FlatGoodKids(seps: seq<Bytes>, kids: seq<Tree>, lo: Option<Bytes>, hi: Option<Bytes>, h: nat, n: nat)
    requires h > 0 && GoodParts(seps, kids, lo, hi, h) && 0 < n <= |kids|
    ensures EntriesOk(Flat(LeavesAll(kids[..n], h - 1)), lo, KidHi(seps, n - 1, hi))
    decreases h - 1, 1, n
  {
    hide EntriesOk, Leaves, Good, Less, AtMost;
    var last := kids[n - 1];
    assert Good(last, KidLo(seps, n - 1, lo), KidHi(seps, n - 1, hi), h - 1);
    FlatGood(last, KidLo(seps, n - 1, lo), KidHi(seps, n - 1, hi), h - 1);
    assert kids[..n][..n - 1] == kids[..n - 1] && kids[..n][n - 1] == last;
    var a, b := LeavesAll(kids[..n - 1], h - 1), Leaves(last, h - 1);
    FlatConcat(a, b);
    if n == 1 {
      assert kids[..0] == [];
      NoLeaves(h - 1);
      assert Flat(a) + Flat(b) == Flat(b);
    } else {
      FlatGoodKids(seps, kids, lo, hi, h, n - 1);
      SepBetween(seps, lo, hi, n - 2);
      JoinEntries(Flat(a), Flat(b), lo, seps[n - 2], KidHi(seps, n - 1, hi));
    }
  }

  lemma NoLeaves(h: nat)
    ensures LeavesAll([], h) == [] && Flat([]) == []
  {
  }

  lemma SepBetween(seps: seq<Bytes>, lo: Option<Bytes>, hi: Option<Bytes>, i: nat)
    requires SepsOk(seps, lo, hi) && i < |seps|
    ensures InBounds(seps[i], lo, KidHi(seps, i + 1, hi))
  {
  }
}
