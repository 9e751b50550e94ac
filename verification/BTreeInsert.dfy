/** Insert: recursion to the leaf, byte-balanced splits, absorption on the way up. */
module BTreeInsert {
  import opened Bytes
  import opened PageLayout
  import opened Wrappers
  import opened BTree
  import opened BTreePages
  import opened BTreeZipper
  import opened BTreePager
  import opened BTreeSplit
  import opened BTreeEdit
  import opened BTreeStates
  import opened BTreeInsertSteps

  const MAX_DEPTH: nat := 64

  /** A separator on its way to the parent. */
  datatype Split = Split(key: Bytes, right: nat)

  // ---- searching a page ----------------------------------------------------

  ghost predicate KeysSorted(keys: seq<Bytes>) {
    forall i, j | 0 <= i < j < |keys| :: Less(keys[i], keys[j])
  }

  ghost predicate KeyPosition(keys: seq<Bytes>, k: Bytes, found: bool, i: nat) {
    && i <= |keys| && (found ==> i < |keys| && keys[i] == k)
    && (forall j | 0 <= j < i :: Less(keys[j], k))
    && (forall j | (if found then i + 1 else i) <= j < |keys| :: Less(k, keys[j]))
  }

  /** Binary search: a match, or the insertion point. */
  method Search(keys: seq<Bytes>, k: Bytes) returns (found: bool, i: nat)
    requires KeysSorted(keys)
    ensures KeyPosition(keys, k, found, i)
  {
    hide Less;
    var lo, hi := 0, |keys|;
    while lo < hi
      invariant 0 <= lo <= hi <= |keys|
      invariant forall j | 0 <= j < lo :: Less(keys[j], k)
      invariant forall j | hi <= j < |keys| :: Less(k, keys[j])
    {
      var mid := (lo + hi) / 2;
      LessTotal(keys[mid], k);
      if Less(keys[mid], k) {
        forall j | 0 <= j < mid + 1 ensures Less(keys[j], k) { if j < mid { LessTransitive(keys[j], keys[mid], k); } }
        lo := mid + 1;
      } else if Less(k, keys[mid]) {
        forall j | mid <= j < |keys| ensures Less(k, keys[j]) { if j > mid { LessTransitive(k, keys[mid], keys[j]); } }
        hi := mid;
      } else {
        return true, mid;
      }
    }
    found, i := false, lo;
  }

  function CellKeys(cells: seq<Cell>): seq<Bytes> {
    seq(|cells|, i requires 0 <= i < |cells| => cells[i].key)
  }

  function SepKeys(seps: seq<Sep>): seq<Bytes> {
    seq(|seps|, i requires 0 <= i < |seps| => seps[i].key)
  }

  lemma LeafSorted(es: seq<Entry>, lo: Option<Bytes>, hi: Option<Bytes>)
    requires EntriesOk(es, lo, hi)
    ensures KeysSorted(CellKeys(CellsOf(es)))
  {
    hide Less, EntryOk, InBounds;
  }

  lemma LeafPosition(es: seq<Entry>, k: Bytes, found: bool, i: nat)
    requires KeyPosition(CellKeys(CellsOf(es)), k, found, i)
    ensures IsPosition(es, k, found, i)
  {
    hide Less;
    var keys := CellKeys(CellsOf(es));
    assert |keys| == |es| && forall j | 0 <= j < |es| :: keys[j] == es[j].key;
  }

  lemma SepKeysOf(seps: seq<Bytes>, kids: seq<Tree>)
    requires |kids| == |seps| + 1
    ensures SepKeys(SepsOf(seps, kids)) == seps
  {
  }

  // ---- cell sizes ----------------------------------------------------------

  function CellSize(c: Cell): nat {
    8 + |c.key| + (if c.payload.Spilled? then 4 else |c.payload.value|) + SLOT_SIZE
  }

  function CellSizes(cells: seq<Cell>): seq<nat> {
    seq(|cells|, i requires 0 <= i < |cells| => CellSize(cells[i]))
  }

  lemma CellSizesOf(es: seq<Entry>)
    ensures CellSizes(CellsOf(es)) == EntrySizes(es)
  {
  }

  function ChildSizes(seps: seq<Sep>): seq<nat> {
    seq(|seps|, i requires 0 <= i < |seps| => SepSize(seps[i].key))
  }

  // ---- what an insert does to the entries ----------------------------------

  predicate PutBy(was: seq<Entry>, now: seq<Entry>, k: Bytes, v: Bytes, a: seq<Entry>, o: seq<Entry>, e: Entry, b: seq<Entry>) {
    && was == a + o + b && now == a + [e] + b && e.key == k && e.value == v
    && (o == [] || (|o| == 1 && o[0].key == k))
  }

  /** One entry put in place of at most one with the same key. */
  ghost predicate PutInto(was: seq<Entry>, now: seq<Entry>, k: Bytes, v: Bytes) {
    exists a, o, e, b :: PutBy(was, now, k, v, a, o, e, b)
  }

  lemma PutAtPuts(es: seq<Entry>, found: bool, i: nat, e: Entry)
    requires IsPosition(es, e.key, found, i)
    ensures PutInto(es, PutAt(es, found, i, e), e.key, e.value)
  {
    hide Less;
    var a, b := es[..i], es[(if found then i + 1 else i)..];
    var o := if found then [es[i]] else [];
    assert es == a + o + b;
    assert PutBy(es, PutAt(es, found, i, e), e.key, e.value, a, o, e, b);
  }

  /** The same put, seen inside a longer row. */
  lemma PutIntoAround(p: seq<Entry>, was: seq<Entry>, now: seq<Entry>, s: seq<Entry>, k: Bytes, v: Bytes)
    requires PutInto(was, now, k, v)
    ensures PutInto(p + was + s, p + now + s, k, v)
  {
    var a, o, e, b :| PutBy(was, now, k, v, a, o, e, b);
    assert p + was + s == (p + a) + o + (b + s);
    assert p + now + s == (p + a) + [e] + (b + s);
    assert PutBy(p + was + s, p + now + s, k, v, p + a, o, e, b + s);
  }

  // ---- a leaf with its new cell prepared -----------------------------------

  /** The old value's pages are freed, the new value's pages written; only the
      leaf page itself is still to be rewritten. */
  ghost predicate Prepared(d: Disk, d1: Disk, path: Path, id: nat, es: seq<Entry>, now: seq<Entry>) {
    && PathOk(path) && Settled(d, path, Leaf(id, es), 0) && EntriesOk(now, HoleLo(path), HoleHi(path))
    && SameOn(d.pages, d1.pages, PathIds(path, 0) + multiset{id})
    && Whole(d1, PathIds(path, 0) + (multiset{id} + ChainIds(now)))
    && ChainsAt(d1.pages, now)
  }

  lemma PreparedPage(d: Disk, d1: Disk, path: Path, id: nat, es: seq<Entry>, now: seq<Entry>)
    requires Prepared(d, d1, path, id, es, now)
    ensures id in d.pages && id in d1.pages && d1.pages[id] == d.pages[id]
    ensures d.pages[id].LeafPage? && d.pages[id].cells == CellsOf(es)
  {
    hide Whole, PathStored, ChainsAt, Linked, EntriesOk, LeafBytes, LeftLeaves, RightLeaves, PathIds, ChainIds, HoleLo, HoleHi;
    assert Stored(d.pages, Leaf(id, es), 0);
  }

  lemma Regroup(p: multiset<nat>, id: nat, c: multiset<nat>)
    ensures p + (multiset{id} + c) == p + c + multiset{id}
  {
  }

  lemma PreparedWrite(d: Disk, d1: Disk, path: Path, id: nat, es: seq<Entry>, now: seq<Entry>)
    requires Prepared(d, d1, path, id, es, now) && LeafBytes(now) <= USABLE_SPACE
    ensures id in d.pages && d.pages[id].LeafPage?
    ensures Settled(Written(d1, id, LeafPage(CellsOf(now), d.pages[id].next)), path, Leaf(id, now), 0)
  {
    PreparedPage(d, d1, path, id, es, now);
    hide Settled, Whole, ChainsAt, EntriesOk, LeafBytes, PathIds, ChainIds, HoleLo, HoleHi;
    var page := LeafPage(CellsOf(now), d.pages[id].next);
    var d2, ids, chains := Written(d1, id, page), PathIds(path, 0), ChainIds(now);
    Regroup(ids, id, chains);
    WriteKeeps(d1, ids + chains + multiset{id}, ids + chains, id, page);
    SamePart(d1.pages, d2.pages, ids, chains);
    ChainsFrame(d1.pages, d2.pages, now);
    SamePart(d.pages, d1.pages, ids, multiset{id});
    SameTrans(d.pages, d1.pages, d2.pages, ids);
    LeafRewritten(d, d2, path, id, es, now);
  }

  lemma SamePart(a: Pages, b: Pages, x: multiset<nat>, y: multiset<nat>)
    requires SameOn(a, b, x + y)
    ensures SameOn(a, b, x) && SameOn(a, b, y)
  {
  }

  lemma RegroupSplit(p: multiset<nat>, id: nat, r: nat, a: multiset<nat>, b: multiset<nat>)
    ensures p + (a + b) + multiset{id} + multiset{r} == p + (multiset{id} + a + (multiset{r} + b))
  {
  }

  lemma PreparedSplit(d: Disk, d1: Disk, path: Path, id: nat, es: seq<Entry>, now: seq<Entry>, c: nat)
    requires Prepared(d, d1, path, id, es, now) && 0 < c < |now|
    requires LeafBytes(now[..c]) <= USABLE_SPACE && LeafBytes(now[c..]) <= USABLE_SPACE
    ensures id in d.pages && d.pages[id].LeafPage?
    ensures var r := NextId(d1);
            var d2 := Written(Allocated(d1, LeafPage(CellsOf(now[c..]), d.pages[id].next)), id, LeafPage(CellsOf(now[..c]), Some(r)));
            Pending(d2, path, Leaf(id, now[..c]), Leaf(r, now[c..]), now[c].key, 0)
  {
    PreparedPage(d, d1, path, id, es, now);
    CutGood(now, c, HoleLo(path), HoleHi(path));
    hide Settled, Whole, ChainsAt, EntriesOk, LeafBytes, PathIds, ChainIds, HoleLo, HoleHi, Allocated, Pending, KeyOk, Inside, SameOn;
    var r, ids, chains := NextId(d1), PathIds(path, 0), ChainIds(now);
    var rp, lp := LeafPage(CellsOf(now[c..]), d.pages[id].next), LeafPage(CellsOf(now[..c]), Some(r));
    Regroup(ids, id, chains);
    AllocThenWrite(d1, ids + chains, id, rp, lp);
    var d2 := Written(Allocated(d1, rp), id, lp);
    RegroupSplit(ids, id, r, ChainIds(now[..c]), ChainIds(now[c..]));
    SamePart(d1.pages, d2.pages, ids, chains);
    SplitChains(d1.pages, d2.pages, now, c);
    SamePart(d.pages, d1.pages, ids, multiset{id});
    SameTrans(d.pages, d1.pages, d2.pages, ids);
    LeafSplit(d, d2, path, id, es, r, now[..c], now[c..], now[c].key);
  }

  lemma SplitChains(a: Pages, b: Pages, now: seq<Entry>, c: nat)
    requires ChainsAt(a, now) && c <= |now| && SameOn(a, b, ChainIds(now))
    ensures ChainsAt(b, now[..c]) && ChainsAt(b, now[c..])
  {
    hide ChainsAt, ChainIds;
    ChainsFrame(a, b, now);
    ChainsPart(b, now, 0, c);
    ChainsPart(b, now, c, |now|);
    assert now[0..c] == now[..c] && now[c..|now|] == now[c..];
  }

  lemma ChainsPart(pages: Pages, es: seq<Entry>, lo: nat, hi: nat)
    requires ChainsAt(pages, es) && lo <= hi <= |es|
    ensures ChainsAt(pages, es[lo..hi])
  {
    hide ChainAt;
    var part := es[lo..hi];
    forall i | 0 <= i < |part| && part[i].spilled ensures ChainAt(pages, part[i].chain, part[i].value) { assert part[i] == es[lo + i]; }
  }
}
