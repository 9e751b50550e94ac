/** The structural check: what it accepts is exactly a well-formed tree. */
module BTreeCheck {
  import opened Bytes
  import opened Wrappers
  import opened BTree
  import opened BTreePages
  import opened BTreeLinks
  import opened BTreePager
  import opened BTreeInsert

  // ---- overflow chains -----------------------------------------------------

  /** What the check asks of an overflow chain. */
  ghost predicate GoodChain(pages: Pages, head: Option<nat>, total: nat, seen: set<nat>, count: nat, chain: seq<nat>) {
    Follows(pages, false, head, chain) && NewPages(chain, seen, count) && |Payloads(pages, chain)| == total
  }

  /** Walks an overflow chain; succeeds exactly when it is a good one. */
  method CheckOverflow(pages: Pages, head: Option<nat>, total: nat, seen: set<nat>, count: nat)
    returns (ok: bool, seen': set<nat>, ghost chain: seq<nat>)
    ensures ok ==> GoodChain(pages, head, total, seen, count, chain) && seen' == seen + SetOf(chain)
    ensures !ok ==> forall c :: !GoodChain(pages, head, total, seen, count, c)
  {
    hide NewPages, Leads, Follows, Payloads;
    var cursor, bytes := head, 0;
    seen', chain := seen, [];
    NothingWalked(pages, head, seen, count);
    while cursor.Some?
      invariant Leads(pages, false, head, chain, cursor) && NewPages(chain, seen, count) && bytes == |Payloads(pages, chain)|
      invariant seen' == seen + SetOf(chain)
      decreases |Unseen(seen', count)|
    {
      var id := cursor.value;
      NewPagesSnoc(chain, id, seen, count);
      forall c | GoodChain(pages, head, total, seen, count, c)
        ensures NewPages(chain + [id], seen, count) && id in pages && pages[id].OverflowPage?
      {
        NextOfGood(pages, head, chain, id, total, seen, count, c);
      }
      if id == 0 || id >= count || id in seen' { return false, seen', chain; }
      if id !in pages || !pages[id].OverflowPage? { return false, seen', chain; }
      LeadsSnoc(pages, false, head, chain, id);
      PayloadsSnoc(pages, chain, id);
      bytes := bytes + |pages[id].payload|;
      UnseenShrinks(seen', id, count);
      seen', chain := seen' + {id}, chain + [id];
      cursor := pages[id].next;
    }
    LeadsEnd(pages, false, head, chain);
    forall c | GoodChain(pages, head, total, seen, count, c) ensures c == chain { FollowsOnce(pages, false, head, c, chain); }
    ok := bytes == total;
  }

  lemma NothingWalked(pages: Pages, head: Option<nat>, seen: set<nat>, count: nat)
    ensures Leads(pages, false, head, [], head) && Leads(pages, true, head, [], head) && NewPages([], seen, count) && Payloads(pages, []) == []
  {
  }

  lemma NextOfGood(pages: Pages, head: Option<nat>, walked: seq<nat>, id: nat, total: nat, seen: set<nat>, count: nat, c: seq<nat>)
    requires Leads(pages, false, head, walked, Some(id)) && GoodChain(pages, head, total, seen, count, c)
    ensures NewPages(walked + [id], seen, count) && id in pages && pages[id].OverflowPage?
  {
    hide NewPages, Leads, Payloads;
    LeadsPrefix(pages, false, head, walked, Some(id), c);
    var rest := c[|walked|..];
    assert rest != [] && rest[0] == id;
    assert c[..|walked| + 1] == walked + [id];
    NewPagesPrefix(c, |walked| + 1, seen, count);
  }

  lemma UnseenShrinks(seen: set<nat>, id: nat, count: nat)
    requires 1 <= id < count && id !in seen
    ensures |Unseen(seen + {id}, count)| < |Unseen(seen, count)|
  {
    assert Unseen(seen, count) == Unseen(seen + {id}, count) + {id};
    assert id !in Unseen(seen + {id}, count);
  }

  // ---- keys ----------------------------------------------------------------

  ghost predicate KeysInOrder(keys: seq<Bytes>, lo: Option<Bytes>, hi: Option<Bytes>) {
    KeysSorted(keys) && forall i | 0 <= i < |keys| :: InBounds(keys[i], lo, hi)
  }

  method CheckKeys(keys: seq<Bytes>, lo: Option<Bytes>, hi: Option<Bytes>) returns (ok: bool)
    ensures ok <==> KeysInOrder(keys, lo, hi)
  {
    hide Less, InBounds;
    for i := 0 to |keys|
      invariant forall j, k | 0 <= j < k < i :: Less(keys[j], keys[k])
      invariant forall j | 0 <= j < i :: InBounds(keys[j], lo, hi)
    {
      if i > 0 && !Less(keys[i - 1], keys[i]) { return false; }
      if !InBounds(keys[i], lo, hi) { return false; }
      forall j | 0 <= j < i ensures Less(keys[j], keys[i]) {
        if j < i - 1 { LessTransitive(keys[j], keys[i - 1], keys[i]); }
      }
    }
    ok := true;
  }

  // ---- trees ---------------------------------------------------------------

  ghost predicate EntryStored(pages: Pages, e: Entry) {
    if e.spilled then Chained(pages, e.chain, e.value) else e.chain == []
  }

  /** A tree as the check understands it: keys in order and in the parent's
      bounds, all leaves at one depth, every page of the right kind. */
  ghost predicate Sane(pages: Pages, t: Tree, lo: Option<Bytes>, hi: Option<Bytes>, h: nat)
    decreases h, 0
  {
    t.id in pages &&
    match t
    case Leaf(id, es) =>
      && h == 0 && pages[id].LeafPage? && pages[id].cells == CellsOf(es) && KeysInOrder(CellKeys(CellsOf(es)), lo, hi)
      && forall i | 0 <= i < |es| :: EntryStored(pages, es[i])
    case Node(id, seps, kids) =>
      && h > 0 && |kids| == |seps| + 1 && pages[id] == NodePage(kids[0].id, SepsOf(seps, kids)) && KeysInOrder(seps, lo, hi)
      && SaneKids(pages, seps, kids, lo, hi, h - 1)
  }

  ghost predicate SaneKids(pages: Pages, seps: seq<Bytes>, kids: seq<Tree>, lo: Option<Bytes>, hi: Option<Bytes>, h: nat)
    requires |kids| == |seps| + 1
    decreases h, 1
  {
    forall i | 0 <= i < |kids| :: Sane(pages, kids[i], KidLo(seps, i, lo), KidHi(seps, i, hi), h)
  }

  lemma {:induction false} EntryOnce(pages: Pages, a: Entry, b: Entry)
    requires EntryStored(pages, a) && EntryStored(pages, b) && CellOf(a) == CellOf(b)
    ensures a == b
  {
    if a.spilled {
      ChainedFollows(pages, a.chain, a.value);
      ChainedFollows(pages, b.chain, b.value);
      FollowsOnce(pages, false, Head(a.chain), a.chain, b.chain);
    }
  }

  /** Pages determine the tree. */
  lemma {:induction false} SaneOnce(pages: Pages, a: Tree, b: Tree, lo: Option<Bytes>, hi: Option<Bytes>, h: nat, k: nat)
    requires Sane(pages, a, lo, hi, h) && Sane(pages, b, lo, hi, k) && a.id == b.id
    ensures a == b && h == k
    decreases h
  {
    hide EntryStored, KeysInOrder, SaneKids;
    match a
    case Leaf(_, es) =>
      assert CellsOf(es) == CellsOf(b.entries);
      forall i | 0 <= i < |es| ensures es[i] == b.entries[i] {
        assert CellsOf(es)[i] == CellOf(es[i]) && CellsOf(b.entries)[i] == CellOf(b.entries[i]);
        EntryOnce(pages, es[i], b.entries[i]);
      }
    case Node(_, seps, kids) => SaneKidsOnce(pages, a, b, lo, hi, h, k);
  }

  lemma {:induction false} SaneKidsOnce(pages: Pages, a: Tree, b: Tree, lo: Option<Bytes>, hi: Option<Bytes>, h: nat, k: nat)
    requires Sane(pages, a, lo, hi, h) && Sane(pages, b, lo, hi, k) && a.id == b.id && a.Node?
    ensures a == b && h == k
    decreases h, 0
  {
    hide KeysInOrder;
    assert b.Node? && SepsOf(a.seps, a.kids) == SepsOf(b.seps, b.kids);
    SameSeps(a, b);
    forall i | 0 <= i < |a.kids| ensures a.kids[i] == b.kids[i] && h == k {
      assert Sane(pages, a.kids[i], KidLo(a.seps, i, lo), KidHi(a.seps, i, hi), h - 1);
      assert Sane(pages, b.kids[i], KidLo(b.seps, i, lo), KidHi(b.seps, i, hi), k - 1);
      SaneOnce(pages, a.kids[i], b.kids[i], KidLo(a.seps, i, lo), KidHi(a.seps, i, hi), h - 1, k - 1);
    }
  }

  lemma SameSeps(a: Tree, b: Tree)
    requires a.Node? && b.Node? && |a.kids| == |a.seps| + 1 && |b.kids| == |b.seps| + 1
    requires a.kids[0].id == b.kids[0].id && SepsOf(a.seps, a.kids) == SepsOf(b.seps, b.kids)
    ensures a.seps == b.seps && |a.kids| == |b.kids| && forall i | 0 <= i < |a.kids| :: a.kids[i].id == b.kids[i].id
  {
    var x, y := SepsOf(a.seps, a.kids), SepsOf(b.seps, b.kids);
    assert |x| == |a.seps| && |y| == |b.seps|;
    forall i | 0 <= i < |a.seps| ensures a.seps[i] == b.seps[i] && a.kids[i + 1].id == b.kids[i + 1].id {
      assert x[i] == Sep(a.seps[i], a.kids[i + 1].id) && y[i] == Sep(b.seps[i], b.kids[i + 1].id);
    }
    forall i | 0 <= i < |a.kids| ensures a.kids[i].id == b.kids[i].id {
      if i > 0 {
        var j := i - 1;
        assert x[j] == Sep(a.seps[j], a.kids[j + 1].id) && y[j] == Sep(b.seps[j], b.kids[j + 1].id);
      }
    }
  }

  // ---- pages in visiting order ---------------------------------------------

  function ChainPages(es: seq<Entry>): seq<nat> {
    if es == [] then [] else ChainPages(es[..|es| - 1]) + es[|es| - 1].chain
  }

  function PagesOf(t: Tree, h: nat): seq<nat>
    decreases h, 0
  {
    match t
    case Leaf(id, es) => [id] + ChainPages(es)
    case Node(id, _, kids) => [id] + (if h == 0 then [] else PagesAll(kids, h - 1))
  }

  function PagesAll(kids: seq<Tree>, h: nat): seq<nat>
    decreases h, |kids|
  {
    if kids == [] then [] else PagesAll(kids[..|kids| - 1], h) + PagesOf(kids[|kids| - 1], h)
  }

  lemma NewPagesConcat(a: seq<nat>, b: seq<nat>, seen: set<nat>, count: nat)
    ensures NewPages(a + b, seen, count) <==> NewPages(a, seen, count) && NewPages(b, seen + SetOf(a), count)
  {
    var c := a + b;
    if NewPages(c, seen, count) {
      forall i, j | 0 <= i < j < |a| ensures a[i] != a[j] { assert c[i] == a[i] && c[j] == a[j]; }
      forall i, j | 0 <= i < j < |b| ensures b[i] != b[j] { assert c[|a| + i] == b[i] && c[|a| + j] == b[j]; }
      forall x | x in b ensures x !in a {
        var j :| 0 <= j < |b| && b[j] == x;
        assert c[|a| + j] == x;
        forall i | 0 <= i < |a| ensures a[i] != x { assert c[i] == a[i]; }
      }
      assert forall x | x in a || x in b :: x in c;
    }
    if NewPages(a, seen, count) && NewPages(b, seen + SetOf(a), count) {
      forall i, j | 0 <= i < j < |c| ensures c[i] != c[j] {
        if i < |a| <= j { assert c[i] == a[i] && a[i] in a && c[j] == b[j - |a|] && b[j - |a|] in b; }
        else if i >= |a| { assert c[i] == b[i - |a|] && c[j] == b[j - |a|]; }
      }
    }
  }

  lemma SetConcat(a: seq<nat>, b: seq<nat>)
    ensures SetOf(a + b) == SetOf(a) + SetOf(b)
  {
  }

  // ---- leaves --------------------------------------------------------------

  ghost predicate EntriesStored(pages: Pages, es: seq<Entry>) {
    forall i | 0 <= i < |es| :: EntryStored(pages, es[i])
  }

  /** Entries behind a leaf's cells whose chains use only new pages. */
  ghost predicate GoodCells(pages: Pages, cells: seq<Cell>, seen: set<nat>, count: nat, es: seq<Entry>) {
    CellsOf(es) == cells && EntriesStored(pages, es) && NewPages(ChainPages(es), seen, count)
  }

  lemma EntriesOnce(pages: Pages, a: seq<Entry>, b: seq<Entry>)
    requires EntriesStored(pages, a) && EntriesStored(pages, b) && CellsOf(a) == CellsOf(b)
    ensures a == b
  {
    hide EntryStored;
    assert |a| == |CellsOf(a)| && |b| == |CellsOf(b)|;
    forall i | 0 <= i < |a| ensures a[i] == b[i] {
      assert CellsOf(a)[i] == CellOf(a[i]) && CellsOf(b)[i] == CellOf(b[i]);
      EntryOnce(pages, a[i], b[i]);
    }
  }

  lemma GoodCellsSnoc(pages: Pages, cells: seq<Cell>, seen: set<nat>, count: nat, es: seq<Entry>, e: Entry)
    requires CellsOf(es) == cells
    ensures GoodCells(pages, cells + [CellOf(e)], seen, count, es + [e]) <==>
              GoodCells(pages, cells, seen, count, es) && EntryStored(pages, e) && NewPages(e.chain, seen + SetOf(ChainPages(es)), count)
  {
    hide EntryStored, NewPages;
    var all := es + [e];
    assert all[..|es|] == es;
    assert CellsOf(all) == CellsOf(es) + [CellOf(e)];
    NewPagesConcat(ChainPages(es), e.chain, seen, count);
    if EntriesStored(pages, all) {
      assert all[|es|] == e;
      forall i | 0 <= i < |es| ensures EntryStored(pages, es[i]) { assert all[i] == es[i]; }
    }
  }

  /** Walks the overflow chains of a leaf's cells. */
  method CheckCells(pages: Pages, cells: seq<Cell>, seen: set<nat>, count: nat) returns (ok: bool, seen': set<nat>, ghost es: seq<Entry>)
    ensures ok ==> GoodCells(pages, cells, seen, count, es) && seen' == seen + SetOf(ChainPages(es))
    ensures !ok ==> forall xs :: !GoodCells(pages, cells, seen, count, xs)
  {
    hide GoodCells, GoodChain, EntryStored;
    seen', es := seen, [];
    NoCells(pages, seen, count);
    assert cells[..0] == [];
    for i := 0 to |cells|
      invariant CellsOf(es) == cells[..i] && GoodCells(pages, cells[..i], seen, count, es) && seen' == seen + SetOf(ChainPages(es))
    {
      var c := cells[i];
      assert cells[..i + 1] == cells[..i] + [c];
      ghost var e := Entry(c.key, [], false, []);
      if c.payload.Spilled? {
        var good, next;
        ghost var chain;
        good, next, chain := CheckOverflow(pages, c.payload.head, c.payload.total, seen', count);
        forall xs | !good && GoodCells(pages, cells, seen, count, xs) ensures false {
          NextCell(pages, cells, seen, count, es, xs, i);
        }
        if !good { return false, seen', es; }
        e := Entry(c.key, Payloads(pages, chain), true, chain);
        SpilledEntry(pages, c, e, seen', count);
        SetConcat(ChainPages(es), chain);
        seen' := next;
      } else {
        e := Entry(c.key, c.payload.value, false, []);
        InlineEntry(pages, e, seen', count);
      }
      GoodCellsSnoc(pages, cells[..i], seen, count, es, e);
      ChainPagesSnoc(es, e);
      CellsSnoc(es, e);
      es := es + [e];
    }
    assert cells[..|cells|] == cells;
    ok := true;
  }

  lemma NoCells(pages: Pages, seen: set<nat>, count: nat)
    ensures GoodCells(pages, [], seen, count, []) && CellsOf([]) == [] && ChainPages([]) == []
  {
  }

  lemma ChainPagesSnoc(es: seq<Entry>, e: Entry)
    ensures ChainPages(es + [e]) == ChainPages(es) + e.chain
  {
    assert (es + [e])[..|es|] == es;
  }

  lemma CellsSnoc(es: seq<Entry>, e: Entry)
    ensures CellsOf(es + [e]) == CellsOf(es) + [CellOf(e)]
  {
  }

  lemma SpilledEntry(pages: Pages, c: Cell, e: Entry, seen: set<nat>, count: nat)
    requires c.payload.Spilled? && e.key == c.key && e.spilled && e.value == Payloads(pages, e.chain)
    requires GoodChain(pages, c.payload.head, c.payload.total, seen, count, e.chain)
    ensures CellOf(e) == c && EntryStored(pages, e) && NewPages(e.chain, seen, count)
  {
    hide NewPages;
    assert c.payload.head == Head(e.chain);
    ChainedFollows(pages, e.chain, e.value);
  }

  lemma InlineEntry(pages: Pages, e: Entry, seen: set<nat>, count: nat)
    requires !e.spilled && e.chain == []
    ensures CellOf(e).payload == Inline(e.value) && EntryStored(pages, e) && NewPages(e.chain, seen, count)
  {
  }

  /** Had the cells been good, the chain at `i` would have been too. */
  lemma NextCell(pages: Pages, cells: seq<Cell>, seen: set<nat>, count: nat, es: seq<Entry>, xs: seq<Entry>, i: nat)
    requires i < |cells| && GoodCells(pages, cells[..i], seen, count, es) && GoodCells(pages, cells, seen, count, xs) && cells[i].payload.Spilled?
    ensures i < |xs| && GoodChain(pages, cells[i].payload.head, cells[i].payload.total, seen + SetOf(ChainPages(es)), count, xs[i].chain)
  {
    hide NewPages, Chained, Follows, Payloads, ChainPages;
    assert |xs| == |CellsOf(xs)| == |cells|;
    var e, before := xs[i], xs[..i];
    assert CellOf(e) == CellsOf(xs)[i] == cells[i];
    assert CellsOf(before) == cells[..i];
    forall j | 0 <= j < i ensures EntryStored(pages, before[j]) { assert before[j] == xs[j]; }
    EntriesOnce(pages, before, es);
    assert xs[..i + 1] == es + [e];
    ChainPagesSplit(xs, i + 1);
    NewPagesConcat(ChainPages(xs[..i + 1]), ChainPages(xs[i + 1..]), seen, count);
    ChainPagesSnoc(es, e);
    NewPagesConcat(ChainPages(es), e.chain, seen, count);
    ChainedFollows(pages, e.chain, e.value);
  }

  lemma {:induction false} ChainPagesSplit(es: seq<Entry>, n: nat)
    requires n <= |es|
    ensures ChainPages(es) == ChainPages(es[..n]) + ChainPages(es[n..])
    decreases |es| - n
  {
    if n == |es| {
      assert es[..n] == es && es[n..] == [];
    } else {
      ChainPagesSplit(es[..|es| - 1], n);
      assert es[..|es| - 1][..n] == es[..n] && es[..|es| - 1][n..] == es[n..][..|es| - n - 1];
      assert es[n..][|es| - n - 1] == es[|es| - 1];
    }
  }

  // ---- nodes ---------------------------------------------------------------

  /** Everything the check has established when it accepts a subtree. */
  ghost predicate Accepts(pages: Pages, id: nat, lo: Option<Bytes>, hi: Option<Bytes>, depth: nat, seen: set<nat>,
                          leafDepth: Option<nat>, count: nat, t: Tree, h: nat) {
    && t.id == id && Sane(pages, t, lo, hi, h) && NewPages(PagesOf(t, h), seen, count)
    && depth + h <= MAX_DEPTH && (leafDepth.Some? ==> leafDepth.value == depth + h)
  }

  function LeafIds(row: seq<Tree>): seq<nat> {
    seq(|row|, i requires 0 <= i < |row| => row[i].id)
  }

  ghost predicate KidSane(pages: Pages, page: Page, lo: Option<Bytes>, hi: Option<Bytes>, h: nat, i: nat, t: Tree)
    requires page.NodePage? && i <= |page.seps|
  {
    t.id == ChildAt(page, i) && Sane(pages, t, KidLo(SepKeys(page.seps), i, lo), KidHi(SepKeys(page.seps), i, hi), h)
  }

  /** The children checked so far. */
  ghost predicate KidsAccepted(pages: Pages, page: Page, lo: Option<Bytes>, hi: Option<Bytes>, depth: nat, seen: set<nat>,
                               leafDepth: Option<nat>, count: nat, ts: seq<Tree>, h: nat) {
    && page.NodePage? && |ts| <= |page.seps| + 1
    && (forall i | 0 <= i < |ts| :: KidSane(pages, page, lo, hi, h, i, ts[i]))
    && NewPages(PagesAll(ts, h), seen, count)
    && (ts != [] ==> depth + 1 + h <= MAX_DEPTH && (leafDepth.Some? ==> leafDepth.value == depth + 1 + h))
  }

  /** One more child. */
  lemma KidsSnoc(pages: Pages, page: Page, lo: Option<Bytes>, hi: Option<Bytes>, depth: nat, seen: set<nat>,
                 leafDepth: Option<nat>, count: nat, ts: seq<Tree>, h: nat, t: Tree)
    requires KidsAccepted(pages, page, lo, hi, depth, seen, leafDepth, count, ts, h) && |ts| <= |page.seps|
    requires var i, keys := |ts|, SepKeys(page.seps);
             Accepts(pages, ChildAt(page, i), KidLo(keys, i, lo), KidHi(keys, i, hi), depth + 1, seen + SetOf(PagesAll(ts, h)),
                     if ts == [] then leafDepth else Some(depth + 1 + h), count, t, h)
    ensures KidsAccepted(pages, page, lo, hi, depth, seen, leafDepth, count, ts + [t], h)
    ensures PagesAll(ts + [t], h) == PagesAll(ts, h) + PagesOf(t, h)
  {
    assert KidSane(pages, page, lo, hi, h, |ts|, t) by { hide Sane, NewPages; }
    hide Sane, NewPages, KidSane, PagesAll, PagesOf, SepKeys;
    PagesAllConcat(ts, [t], h);
    PagesAllOne(t, h);
    NewPagesConcat(PagesAll(ts, h), PagesOf(t, h), seen, count);
    var all := ts + [t];
    forall i | 0 <= i < |all| ensures KidSane(pages, page, lo, hi, h, i, all[i]) {
      if i < |ts| { assert all[i] == ts[i]; } else { assert all[i] == t; }
    }
  }

  /** Had the node been acceptable, its next child would have been too. */
  lemma NextKid(pages: Pages, id: nat, lo: Option<Bytes>, hi: Option<Bytes>, depth: nat, seen: set<nat>, leafDepth: Option<nat>,
                count: nat, ts: seq<Tree>, h: nat, t: Tree, k: nat)
    requires id in pages && pages[id].NodePage? && |ts| <= |pages[id].seps| && Accepts(pages, id, lo, hi, depth, seen, leafDepth, count, t, k)
    requires KidsAccepted(pages, pages[id], lo, hi, depth, seen + {id}, leafDepth, count, ts, h)
    ensures t.Node? && |t.kids| == |pages[id].seps| + 1 && k > 0 && (ts != [] ==> k == h + 1)
    ensures var i, keys := |ts|, SepKeys(pages[id].seps);
            Accepts(pages, ChildAt(pages[id], i), KidLo(keys, i, lo), KidHi(keys, i, hi), depth + 1, seen + {id} + SetOf(PagesAll(ts, k - 1)),
                    if ts == [] then leafDepth else Some(depth + 1 + h), count, t.kids[i], k - 1)
  {
    hide NewPages, KeysInOrder, EntryStored, KidsAccepted, PagesAll, PagesOf;
    var page, n := pages[id], |ts|;
    KidsMatch(pages, id, lo, hi, depth, seen, leafDepth, count, ts, h, t, k);
    SepKeysOf(t.seps, t.kids);
    ChildrenAt(t);
    assert Sane(pages, t.kids[n], KidLo(t.seps, n, lo), KidHi(t.seps, n, hi), k - 1);
    hide Sane;
    KidPages(t, k, n, seen, count);
  }

  /** The children checked so far are the tree's first children. */
  lemma KidsMatch(pages: Pages, id: nat, lo: Option<Bytes>, hi: Option<Bytes>, depth: nat, seen: set<nat>, leafDepth: Option<nat>,
                  count: nat, ts: seq<Tree>, h: nat, t: Tree, k: nat)
    requires id in pages && pages[id].NodePage? && Accepts(pages, id, lo, hi, depth, seen, leafDepth, count, t, k)
    requires KidsAccepted(pages, pages[id], lo, hi, depth, seen + {id}, leafDepth, count, ts, h)
    ensures t.Node? && k > 0 && |t.kids| == |t.seps| + 1 == |pages[id].seps| + 1 && ts == t.kids[..|ts|] && (ts != [] ==> k == h + 1)
    ensures pages[id] == NodePage(t.kids[0].id, SepsOf(t.seps, t.kids)) && SaneKids(pages, t.seps, t.kids, lo, hi, k - 1)
  {
    hide NewPages, KeysInOrder, EntryStored, PagesAll, PagesOf;
    assert t.Node? && |t.kids| == |t.seps| + 1 && SaneKids(pages, t.seps, t.kids, lo, hi, k - 1);
    SepKeysOf(t.seps, t.kids);
    ChildrenAt(t);
    var n := |ts|;
    forall i | 0 <= i < n ensures ts[i] == t.kids[i] && k == h + 1 {
      assert KidSane(pages, pages[id], lo, hi, h, i, ts[i]);
      assert Sane(pages, t.kids[i], KidLo(t.seps, i, lo), KidHi(t.seps, i, hi), k - 1);
      SaneOnce(pages, ts[i], t.kids[i], KidLo(t.seps, i, lo), KidHi(t.seps, i, hi), h, k - 1);
    }
  }

  lemma ChildrenAt(t: Tree)
    requires t.Node? && |t.kids| == |t.seps| + 1
    ensures forall i | 0 <= i < |t.kids| :: ChildAt(NodePage(t.kids[0].id, SepsOf(t.seps, t.kids)), i) == t.kids[i].id
  {
  }

  lemma KidPages(t: Tree, k: nat, n: nat, seen: set<nat>, count: nat)
    requires t.Node? && k > 0 && n < |t.kids| && NewPages(PagesOf(t, k), seen, count)
    ensures NewPages(PagesOf(t.kids[n], k - 1), seen + {t.id} + SetOf(PagesAll(t.kids[..n], k - 1)), count)
  {
    hide NewPages;
    var before, it, after := t.kids[..n], t.kids[n], t.kids[n + 1..];
    NewPagesConcat([t.id], PagesAll(t.kids, k - 1), seen, count);
    assert SetOf([t.id]) == {t.id};
    assert t.kids == before + [it] + after;
    PagesAllConcat(before + [it], after, k - 1);
    PagesAllConcat(before, [it], k - 1);
    PagesAllOne(it, k - 1);
    NewPagesConcat(PagesAll(before, k - 1) + PagesOf(it, k - 1), PagesAll(after, k - 1), seen + {t.id}, count);
    NewPagesConcat(PagesAll(before, k - 1), PagesOf(it, k - 1), seen + {t.id}, count);
  }

  lemma {:induction false} PagesAllConcat(a: seq<Tree>, b: seq<Tree>, h: nat)
    ensures PagesAll(a + b, h) == PagesAll(a, h) + PagesAll(b, h)
    decreases |b|
  {
    hide PagesOf;
    if b == [] {
      assert a + b == a;
    } else {
      assert (a + b)[..|a| + |b| - 1] == a + b[..|b| - 1];
      PagesAllConcat(a, b[..|b| - 1], h);
    }
  }

  lemma PagesAllOne(t: Tree, h: nat)
    ensures PagesAll([t], h) == PagesOf(t, h)
  {
    assert [t][..0] == [];
  }

  lemma LeafAccepted(pages: Pages, id: nat, lo: Option<Bytes>, hi: Option<Bytes>, depth: nat, seen: set<nat>, leafDepth: Option<nat>, count: nat, es: seq<Entry>)
    requires id in pages && pages[id].LeafPage? && KeysInOrder(CellKeys(pages[id].cells), lo, hi) && 1 <= id < count && id !in seen
    requires depth <= MAX_DEPTH && (leafDepth.Some? ==> leafDepth.value == depth)
    ensures GoodCells(pages, pages[id].cells, seen + {id}, count, es) <==>
              Accepts(pages, id, lo, hi, depth, seen, leafDepth, count, Leaf(id, es), 0)
  {
    hide KeysInOrder, NewPages, EntryStored;
    NewPagesConcat([id], ChainPages(es), seen, count);
    assert SetOf([id]) == {id};
    assert NewPages([id], seen, count) by { OnePage(id, seen, count); }
  }

  lemma OnePage(id: nat, seen: set<nat>, count: nat)
    ensures NewPages([id], seen, count) <==> 1 <= id < count && id !in seen
  {
    if NewPages([id], seen, count) { assert id in [id]; }
  }

  lemma NodeAccepted(pages: Pages, id: nat, lo: Option<Bytes>, hi: Option<Bytes>, depth: nat, seen: set<nat>, leafDepth: Option<nat>, count: nat,
                     ts: seq<Tree>, h: nat)
    requires id in pages && pages[id].NodePage? && KeysInOrder(SepKeys(pages[id].seps), lo, hi) && 1 <= id < count && id !in seen
    requires KidsAccepted(pages, pages[id], lo, hi, depth, seen + {id}, leafDepth, count, ts, h) && |ts| == |pages[id].seps| + 1
    ensures Accepts(pages, id, lo, hi, depth, seen, leafDepth, count, Node(id, SepKeys(pages[id].seps), ts), h + 1)
  {
    hide KeysInOrder, NewPages, EntryStored, Sane, PagesAll, SepKeys, KidSane;
    var seps := SepKeys(pages[id].seps);
    NodeImage(pages, pages[id], lo, hi, ts, h);
    SaneNode(pages, Node(id, seps, ts), lo, hi, h + 1);
    NewPagesConcat([id], PagesAll(ts, h), seen, count);
    assert SetOf([id]) == {id};
    OnePage(id, seen, count);
  }

  /** The checked children give back the page and its bounds. */
  lemma NodeImage(pages: Pages, page: Page, lo: Option<Bytes>, hi: Option<Bytes>, ts: seq<Tree>, h: nat)
    requires page.NodePage? && |ts| == |page.seps| + 1 && forall i | 0 <= i < |ts| :: KidSane(pages, page, lo, hi, h, i, ts[i])
    ensures |SepKeys(page.seps)| == |page.seps| && page == NodePage(ts[0].id, SepsOf(SepKeys(page.seps), ts))
    ensures SaneKids(pages, SepKeys(page.seps), ts, lo, hi, h)
  {
    hide Sane;
    var seps := SepKeys(page.seps);
    var image := SepsOf(seps, ts);
    forall i | 0 <= i < |image| ensures image[i] == page.seps[i] { assert KidSane(pages, page, lo, hi, h, i + 1, ts[i + 1]); }
    assert image == page.seps && KidSane(pages, page, lo, hi, h, 0, ts[0]);
    forall i | 0 <= i < |ts| ensures Sane(pages, ts[i], KidLo(seps, i, lo), KidHi(seps, i, hi), h) { assert KidSane(pages, page, lo, hi, h, i, ts[i]); }
  }

  lemma SaneNode(pages: Pages, t: Tree, lo: Option<Bytes>, hi: Option<Bytes>, h: nat)
    requires t.Node? && t.id in pages && h > 0 && |t.kids| == |t.seps| + 1
    requires pages[t.id] == NodePage(t.kids[0].id, SepsOf(t.seps, t.kids)) && KeysInOrder(t.seps, lo, hi) && SaneKids(pages, t.seps, t.kids, lo, hi, h - 1)
    ensures Sane(pages, t, lo, hi, h)
  {
    hide KeysInOrder, SaneKids;
  }

  // ---- the recursive check -------------------------------------------------

  /** Checks the subtree at `id`; accepts exactly when there is a well-formed
      tree there whose pages are all new. */
  method CheckNode(pages: Pages, id: nat, lo: Option<Bytes>, hi: Option<Bytes>, depth: nat, seen: set<nat>, leafDepth: Option<nat>, count: nat)
    returns (ok: bool, seen': set<nat>, leaves: seq<nat>, keys: nat, bottom: nat, ghost t: Tree, ghost h: nat)
    ensures ok ==> Accepts(pages, id, lo, hi, depth, seen, leafDepth, count, t, h) && seen' == seen + SetOf(PagesOf(t, h))
    ensures ok ==> leaves == LeafIds(Leaves(t, h)) && keys == |Flat(Leaves(t, h))| && bottom == depth + h
    ensures !ok ==> forall x, k: nat :: !Accepts(pages, id, lo, hi, depth, seen, leafDepth, count, x, k)
    decreases MAX_DEPTH + 1 - depth, 1
  {
    hide Accepts, KeysInOrder, GoodCells;
    seen', leaves, keys, bottom, t, h := seen, [], 0, depth, Leaf(id, []), 0;
    AcceptsBasics(pages, id, lo, hi, depth, seen, leafDepth, count);
    if depth > MAX_DEPTH || id == 0 || id >= count || id in seen || id !in pages { return false, seen', leaves, keys, bottom, t, h; }
    seen' := seen + {id};
    var page := pages[id];
    if page.LeafPage? {
      var inOrder := CheckKeys(CellKeys(page.cells), lo, hi);
      if !inOrder || (leafDepth.Some? && leafDepth.value != depth) { return false, seen', leaves, keys, bottom, t, h; }
      ghost var es;
      ok, seen', es := CheckCells(pages, page.cells, seen', count);
      forall x, k: nat | !ok && Accepts(pages, id, lo, hi, depth, seen, leafDepth, count, x, k) ensures false {
        LeafOfAccepted(pages, id, lo, hi, depth, seen, leafDepth, count, x, k);
      }
      if !ok { return; }
      LeafAccepted(pages, id, lo, hi, depth, seen, leafDepth, count, es);
      t, h := Leaf(id, es), 0;
      LeafResult(id, es, page.cells, pages, seen, count);
      leaves, keys := [id], |page.cells|;
    } else if page.NodePage? {
      var inOrder := CheckKeys(SepKeys(page.seps), lo, hi);
      if !inOrder { return false, seen', leaves, keys, bottom, t, h; }
      ok, seen', leaves, keys, bottom, t, h := CheckKids(pages, id, lo, hi, depth, seen, leafDepth, count);
    } else {
      ok := false;
    }
  }

  /** What acceptance says about the page itself. */
  lemma AcceptsBasics(pages: Pages, id: nat, lo: Option<Bytes>, hi: Option<Bytes>, depth: nat, seen: set<nat>, leafDepth: Option<nat>, count: nat)
    ensures forall t, h: nat | Accepts(pages, id, lo, hi, depth, seen, leafDepth, count, t, h) ::
              && depth <= MAX_DEPTH && 1 <= id < count && id !in seen && id in pages && (pages[id].LeafPage? || pages[id].NodePage?)
              && (pages[id].LeafPage? ==> KeysInOrder(CellKeys(pages[id].cells), lo, hi) && (leafDepth.Some? ==> leafDepth.value == depth))
              && (pages[id].NodePage? ==> KeysInOrder(SepKeys(pages[id].seps), lo, hi) && depth < MAX_DEPTH)
  {
    hide KeysInOrder, NewPages;
    forall t, h: nat | Accepts(pages, id, lo, hi, depth, seen, leafDepth, count, t, h)
      ensures depth <= MAX_DEPTH && 1 <= id < count && id !in seen && id in pages && (pages[id].LeafPage? || pages[id].NodePage?)
      ensures pages[id].LeafPage? ==> KeysInOrder(CellKeys(pages[id].cells), lo, hi) && (leafDepth.Some? ==> leafDepth.value == depth)
      ensures pages[id].NodePage? ==> KeysInOrder(SepKeys(pages[id].seps), lo, hi) && depth < MAX_DEPTH
    {
      AcceptedPage(pages, id, lo, hi, depth, seen, leafDepth, count, t, h);
    }
  }

  lemma AcceptedPage(pages: Pages, id: nat, lo: Option<Bytes>, hi: Option<Bytes>, depth: nat, seen: set<nat>, leafDepth: Option<nat>, count: nat, t: Tree, h: nat)
    requires Accepts(pages, id, lo, hi, depth, seen, leafDepth, count, t, h)
    ensures depth <= MAX_DEPTH && 1 <= id < count && id !in seen && id in pages && (pages[id].LeafPage? || pages[id].NodePage?)
    ensures pages[id].LeafPage? ==> KeysInOrder(CellKeys(pages[id].cells), lo, hi) && (leafDepth.Some? ==> leafDepth.value == depth)
    ensures pages[id].NodePage? ==> KeysInOrder(SepKeys(pages[id].seps), lo, hi) && depth < MAX_DEPTH
  {
    hide KeysInOrder, SaneKids, EntryStored;
    assert id in PagesOf(t, h) by { FirstPage(t, h); }
    if t.Node? { SepKeysOf(t.seps, t.kids); }
  }

  lemma FirstPage(t: Tree, h: nat)
    ensures t.id in PagesOf(t, h)
  {
    hide PagesAll, ChainPages;
  }

  lemma LeafOfAccepted(pages: Pages, id: nat, lo: Option<Bytes>, hi: Option<Bytes>, depth: nat, seen: set<nat>, leafDepth: Option<nat>, count: nat, t: Tree, h: nat)
    requires Accepts(pages, id, lo, hi, depth, seen, leafDepth, count, t, h) && id in pages && pages[id].LeafPage?
    ensures t.Leaf? && GoodCells(pages, pages[id].cells, seen + {id}, count, t.entries)
  {
    hide KeysInOrder, NewPages, EntryStored;
    assert t.Leaf?;
    NewPagesConcat([id], ChainPages(t.entries), seen, count);
    assert SetOf([id]) == {id};
  }

  lemma LeafResult(id: nat, es: seq<Entry>, cells: seq<Cell>, pages: Pages, seen: set<nat>, count: nat)
    requires GoodCells(pages, cells, seen + {id}, count, es)
    ensures var t := Leaf(id, es);
            && LeafIds(Leaves(t, 0)) == [id] && |Flat(Leaves(t, 0))| == |cells|
            && seen + {id} + SetOf(ChainPages(es)) == seen + SetOf(PagesOf(t, 0))
  {
    hide NewPages, EntriesStored;
    FlatOne(Leaf(id, es));
    assert |CellsOf(es)| == |es|;
    SetConcat([id], ChainPages(es));
  }

  /** Checks the children from left to right. */
  method CheckKids(pages: Pages, id: nat, lo: Option<Bytes>, hi: Option<Bytes>, depth: nat, seen: set<nat>, leafDepth: Option<nat>, count: nat)
    returns (ok: bool, seen': set<nat>, leaves: seq<nat>, keys: nat, bottom: nat, ghost t: Tree, ghost h: nat)
    requires id in pages && pages[id].NodePage? && KeysInOrder(SepKeys(pages[id].seps), lo, hi) && 1 <= id < count && id !in seen && depth <= MAX_DEPTH
    ensures ok ==> Accepts(pages, id, lo, hi, depth, seen, leafDepth, count, t, h) && seen' == seen + SetOf(PagesOf(t, h))
    ensures ok ==> leaves == LeafIds(Leaves(t, h)) && keys == |Flat(Leaves(t, h))| && bottom == depth + h
    ensures !ok ==> forall x, k: nat :: !Accepts(pages, id, lo, hi, depth, seen, leafDepth, count, x, k)
    decreases MAX_DEPTH + 1 - depth, 0
  {
    hide Accepts, KeysInOrder, KidsAccepted, Leaves, LeavesAll, PagesAll, PagesOf, Flat;
    var page := pages[id];
    var seps := SepKeys(page.seps);
    seen', leaves, keys, bottom, t, h := seen + {id}, [], 0, depth, Leaf(id, []), 0;
    var at := leafDepth;
    ghost var ts: seq<Tree>, hk: nat := [], 0;
    NoKidsYet(pages, page, lo, hi, depth, seen + {id}, leafDepth, count);
    for slot := 0 to |page.seps| + 1
      invariant |ts| == slot && KidsAccepted(pages, page, lo, hi, depth, seen + {id}, leafDepth, count, ts, hk)
      invariant seen' == seen + {id} + SetOf(PagesAll(ts, hk)) && at == (if slot == 0 then leafDepth else Some(depth + 1 + hk))
      invariant slot > 0 ==> bottom == depth + 1 + hk
      invariant leaves == LeafIds(LeavesAll(ts, hk)) && keys == |Flat(LeavesAll(ts, hk))|
    {
      var good, next, more, n, deep;
      ghost var kid, k;
      good, next, more, n, deep, kid, k := CheckNode(pages, ChildAt(page, slot), KidLo(seps, slot, lo), KidHi(seps, slot, hi), depth + 1, seen', at, count);
      forall x, j: nat | !good && Accepts(pages, id, lo, hi, depth, seen, leafDepth, count, x, j) ensures false {
        NextKid(pages, id, lo, hi, depth, seen, leafDepth, count, ts, hk, x, j);
        if ts == [] { NoPages(hk); NoPages(j - 1); }
      }
      if !good { return false, seen', leaves, keys, bottom, t, h; }
      if slot > 0 { SameHeight(pages, ChildAt(page, slot), KidLo(seps, slot, lo), KidHi(seps, slot, hi), depth + 1, seen', at.value, count, kid, k); }
      KidsLevel(pages, page, lo, hi, depth, seen + {id}, leafDepth, count, ts, hk, k);
      hk := k;
      KidsSnoc(pages, page, lo, hi, depth, seen + {id}, leafDepth, count, ts, hk, kid);
      KidsRow(ts, kid, hk);
      SetConcat(PagesAll(ts, hk), PagesOf(kid, hk));
      ts := ts + [kid];
      seen', at, leaves, keys, bottom := next, Some(deep), leaves + more, keys + n, deep;
    }
    NodeAccepted(pages, id, lo, hi, depth, seen, leafDepth, count, ts, hk);
    t, h := Node(id, seps, ts), hk + 1;
    NodeResult(t, h, seen);
    ok := true;
  }

  lemma NoPages(h: nat)
    ensures PagesAll([], h) == [] && LeavesAll([], h) == [] && Flat([]) == []
  {
  }

  lemma NoKidsYet(pages: Pages, page: Page, lo: Option<Bytes>, hi: Option<Bytes>, depth: nat, seen: set<nat>, leafDepth: Option<nat>, count: nat)
    requires page.NodePage?
    ensures KidsAccepted(pages, page, lo, hi, depth, seen, leafDepth, count, [], 0)
    ensures PagesAll([], 0) == [] && LeafIds(LeavesAll([], 0)) == [] && Flat(LeavesAll([], 0)) == []
  {
  }

  lemma SameHeight(pages: Pages, id: nat, lo: Option<Bytes>, hi: Option<Bytes>, depth: nat, seen: set<nat>, at: nat, count: nat, t: Tree, h: nat)
    requires Accepts(pages, id, lo, hi, depth, seen, Some(at), count, t, h)
    ensures at == depth + h
  {
  }

  /** Before the first child the height is not yet known. */
  lemma KidsLevel(pages: Pages, page: Page, lo: Option<Bytes>, hi: Option<Bytes>, depth: nat, seen: set<nat>, leafDepth: Option<nat>, count: nat,
                  ts: seq<Tree>, h: nat, k: nat)
    requires KidsAccepted(pages, page, lo, hi, depth, seen, leafDepth, count, ts, h) && (ts != [] ==> h == k)
    ensures KidsAccepted(pages, page, lo, hi, depth, seen, leafDepth, count, ts, k)
    ensures PagesAll(ts, k) == PagesAll(ts, h) && LeavesAll(ts, k) == LeavesAll(ts, h)
  {
    hide NewPages, KidSane;
    if ts == [] { NoPages(h); NoPages(k); }
  }

  lemma KidsRow(ts: seq<Tree>, t: Tree, h: nat)
    ensures LeafIds(LeavesAll(ts + [t], h)) == LeafIds(LeavesAll(ts, h)) + LeafIds(Leaves(t, h))
    ensures |Flat(LeavesAll(ts + [t], h))| == |Flat(LeavesAll(ts, h))| + |Flat(Leaves(t, h))|
  {
    hide Leaves, LeavesAll, Flat, Ids, IdsAll;
    LeavesConcat(ts, [t], h);
    LeavesOne(t, h);
    FlatConcat(LeavesAll(ts, h), Leaves(t, h));
  }

  lemma NodeResult(t: Tree, h: nat, seen: set<nat>)
    requires t.Node? && h > 0
    ensures Leaves(t, h) == LeavesAll(t.kids, h - 1) && seen + {t.id} + SetOf(PagesAll(t.kids, h - 1)) == seen + SetOf(PagesOf(t, h))
  {
    SetConcat([t.id], PagesAll(t.kids, h - 1));
  }
}
