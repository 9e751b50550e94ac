/** Allocating, freeing and chaining pages; no page is ever lost or shared. */
module BTreePager {
  import opened Bytes
  import opened PageLayout
  import opened Wrappers
  import opened BTree
  import opened BTreePages
  import opened BTreeLinks

  /** The page file: page images, the free list, and the number of pages. */
  datatype Disk = Disk(pages: Pages, free: seq<nat>, count: nat)

  /** Pages `1..count` are exactly those in use and those on the free list. */
  ghost predicate Whole(d: Disk, used: multiset<nat>) {
    && FreeAt(d.pages, d.free) && d.count >= 1
    && used + multiset(d.free) == AllPages(d.count)
  }

  function NextId(d: Disk): nat {
    if d.free == [] then d.count else d.free[0]
  }

  function Allocated(d: Disk, page: Page): Disk {
    if d.free == [] then Disk(d.pages[d.count := page], [], d.count + 1)
    else Disk(d.pages[d.free[0] := page], d.free[1..], d.count)
  }

  function Written(d: Disk, id: nat, page: Page): Disk {
    d.(pages := d.pages[id := page])
  }

  function Released(d: Disk, id: nat): Disk {
    Disk(d.pages[id := FreePage(Head(d.free))], [id] + d.free, d.count)
  }

  // ---- conservation --------------------------------------------------------

  lemma UsedOnce(d: Disk, used: multiset<nat>, p: nat)
    requires Whole(d, used)
    ensures used[p] + multiset(d.free)[p] == if 1 <= p < d.count then 1 else 0
  {
    hide FreeAt;
    AllPagesHas(d.count, p);
    assert (used + multiset(d.free))[p] == used[p] + multiset(d.free)[p];
  }

  lemma AllocKeeps(d: Disk, used: multiset<nat>, page: Page)
    requires Whole(d, used)
    ensures var id, d' := NextId(d), Allocated(d, page);
            && id !in used && id >= 1 && d'.pages == d.pages[id := page]
            && Whole(d', used + multiset{id}) && SameOn(d.pages, d'.pages, used)
  {
    hide AllPages, FreeAt;
    if d.free == [] { AllocGrow(d, used, page); } else { AllocReuse(d, used, page); }
    var id := NextId(d);
    UsedOnce(d, used, id);
  }

  lemma AllocGrow(d: Disk, used: multiset<nat>, page: Page)
    requires Whole(d, used) && d.free == []
    ensures Whole(Allocated(d, page), used + multiset{d.count})
  {
    hide AllPages, FreeAt;
    OneMorePage(d.count);
    EmptyFree(d.pages[d.count := page]);
  }

  lemma AllocReuse(d: Disk, used: multiset<nat>, page: Page)
    requires Whole(d, used) && d.free != []
    ensures Whole(Allocated(d, page), used + multiset{d.free[0]}) && d.free[0] in multiset(d.free)
  {
    hide AllPages, FreeAt;
    var id, tail := d.free[0], d.free[1..];
    FreeDistinct(d, used);
    FreeTail(d.pages, d.free, page);
    assert d.free == [id] + tail;
    assert used + multiset{id} + multiset(tail) == used + multiset(d.free);
  }

  lemma EmptyFree(pages: Pages)
    ensures FreeAt(pages, [])
  {
  }

  lemma FreeTail(pages: Pages, free: seq<nat>, page: Page)
    requires FreeAt(pages, free) && free != [] && free[0] !in free[1..]
    ensures FreeAt(pages[free[0] := page], free[1..])
  {
    FreeFrame(pages, pages[free[0] := page], free[1..]);
  }

  lemma OneMorePage(count: nat)
    requires count >= 1
    ensures AllPages(count + 1) == AllPages(count) + multiset{count}
  {
  }

  lemma WriteKeeps(d: Disk, used: multiset<nat>, rest: multiset<nat>, id: nat, page: Page)
    requires Whole(d, used) && used == rest + multiset{id}
    ensures Whole(Written(d, id, page), used) && SameOn(d.pages, Written(d, id, page).pages, rest)
  {
    hide AllPages;
    UsedOnce(d, used, id);
    assert used[id] == rest[id] + 1;
    FreeFrame(d.pages, d.pages[id := page], d.free);
  }

  lemma ReleaseKeeps(d: Disk, used: multiset<nat>, id: nat)
    requires Whole(d, used + multiset{id})
    ensures Whole(Released(d, id), used) && SameOn(d.pages, Released(d, id).pages, used)
    ensures 1 <= id < d.count
  {
    hide AllPages;
    UsedOnce(d, used + multiset{id}, id);
    assert (used + multiset{id})[id] == used[id] + 1;
    var page := FreePage(Head(d.free));
    FreeFrame(d.pages, d.pages[id := page], d.free);
    var free' := [id] + d.free;
    assert free'[1..] == d.free;
    assert multiset(free') == multiset{id} + multiset(d.free);
    assert used + multiset(free') == used + multiset{id} + multiset(d.free);
  }

  /** A new page allocated and a page in use rewritten. */
  lemma AllocThenWrite(d: Disk, rest: multiset<nat>, id: nat, rp: Page, lp: Page)
    requires Whole(d, rest + multiset{id})
    ensures var r, d' := NextId(d), Written(Allocated(d, rp), id, lp);
            && r !in rest && r != id && r in d'.pages && d'.pages[r] == rp && d'.pages[id] == lp
            && Whole(d', rest + multiset{id} + multiset{r}) && SameOn(d.pages, d'.pages, rest)
            && forall p | p in d.pages && p != id && p != r :: p in d'.pages && d'.pages[p] == d.pages[p]
  {
    hide Whole, Allocated;
    var r, d1, all := NextId(d), Allocated(d, rp), rest + multiset{id};
    AllocKeeps(d, all, rp);
    assert id in all;
    assert all + multiset{r} == rest + multiset{r} + multiset{id};
    WriteKeeps(d1, all + multiset{r}, rest + multiset{r}, id, lp);
  }

  lemma {:induction false} AllPagesSize(count: nat)
    ensures |AllPages(count)| == if count == 0 then 0 else count - 1
  {
    if count > 1 { AllPagesSize(count - 1); }
  }

  /** There are more pages than any part of those in use. */
  lemma RoomFor(d: Disk, used: multiset<nat>, part: multiset<nat>)
    requires Whole(d, used) && part <= used
    ensures |part| + 1 <= d.count
  {
    hide FreeAt;
    AllPagesSize(d.count);
    var rest := used - part;
    assert used == part + rest;
    assert |AllPages(d.count)| == |part| + |rest| + |multiset(d.free)|;
  }

  // ---- chains --------------------------------------------------------------

  lemma {:induction false} ChainLength(pages: Pages, chain: seq<nat>, value: Bytes)
    requires ChainAt(pages, chain, value)
    ensures |value| <= |chain| * OVERFLOW_PAYLOAD && |chain| * OVERFLOW_PAYLOAD < |value| + OVERFLOW_PAYLOAD
    decreases |chain|
  {
    if chain != [] {
      var n := if |value| < OVERFLOW_PAYLOAD then |value| else OVERFLOW_PAYLOAD;
      ChainLength(pages, chain[1..], value[n..]);
    }
  }

  /** From a page of the list to a later one, in steps. */
  lemma {:induction false} WalkFree(pages: Pages, free: seq<nat>, id: nat, page: Page, i: nat, k: nat, list: seq<nat>)
    requires FreeAt(pages, free) && i <= k < |free| && (forall j | i <= j < k :: free[j] != id)
    requires FreeAt(pages[id := page], list) && Head(list) == Some(free[i])
    ensures k - i < |list| && list[k - i] == free[k] && FreeAt(pages[id := page], list[k - i..])
    decreases k - i
  {
    if i == k {
      assert list[0..] == list;
    } else {
      FreeLink(pages, free, i);
      WalkFree(pages, free, id, page, i + 1, k, list[1..]);
      assert list[1..][k - i - 1..] == list[k - i..];
    }
  }

  lemma {:induction false} FreeLink(pages: Pages, free: seq<nat>, i: nat)
    requires FreeAt(pages, free) && i < |free|
    ensures free[i] in pages && pages[free[i]] == FreePage(Head(free[i + 1..]))
  {
    if i > 0 {
      FreeLink(pages, free[1..], i - 1);
      assert free[1..][i..] == free[i + 1..];
    }
  }

  /** A page freed while it is free leads back to itself. */
  lemma {:induction false} FreedTwice(pages: Pages, free: seq<nat>, id: nat, list: seq<nat>)
    requires FreeAt(pages, free) && id in free
    requires Head(list) == Some(id) && FreeAt(pages[id := FreePage(Head(free))], list)
    ensures false
    decreases |list|
  {
    var page := FreePage(Head(free));
    var k := FirstOf(free, id);
    WalkFree(pages, free, id, page, 0, k, list[1..]);
    FreedTwice(pages, free, id, list[1..][k..]);
  }

  lemma {:induction false} FirstOf(free: seq<nat>, id: nat) returns (k: nat)
    requires id in free
    ensures k < |free| && free[k] == id && forall j | 0 <= j < k :: free[j] != id
  {
    if free[0] == id { k := 0; } else {
      k := FirstOf(free[1..], id);
      k := k + 1;
    }
  }

  class Pager {
    var pages: Pages
    var freeHead: Option<nat>
    var count: nat
    var root: nat
    ghost var free: seq<nat>

    ghost predicate Valid()
      reads this
    {
      freeHead == Head(free) && FreeAt(pages, free)
    }

    ghost function View(): Disk
      reads this
    {
      Disk(pages, free, count)
    }

    /** A pager over decoded pages, at the counters of the meta page. */
    constructor (pages: Pages, freeHead: Option<nat>, count: nat, root: nat, ghost free: seq<nat>)
      requires freeHead == Head(free) && FreeAt(pages, free)
      ensures Valid() && View() == Disk(pages, free, count) && this.root == root
    {
      this.pages, this.freeHead, this.count, this.root, this.free := pages, freeHead, count, root, free;
    }

    /** Takes a page from the free list, or grows the file. */
    method AllocatePage(page: Page) returns (id: nat)
      requires Valid() && (free != [] ==> free[0] !in free[1..])
      modifies this`pages, this`freeHead, this`count, this`free
      ensures Valid() && id == NextId(old(View())) && View() == Allocated(old(View()), page)
      ensures pages == old(pages)[id := page]
      ensures if old(free) == [] then id == old(count) && count == old(count) + 1 && free == []
              else id == old(free)[0] && count == old(count) && free == old(free)[1..]
    {
      if freeHead.Some? {
        id := freeHead.value;
        var recycled := pages[id];
        freeHead := recycled.next;
        FreeFrame(pages, pages[id := page], free[1..]);
        free := free[1..];
        pages := pages[id := page];
      } else {
        id := count;
        count := count + 1;
        pages := pages[id := page];
      }
    }

    method WritePage(id: nat, page: Page)
      requires Valid() && id !in free
      modifies this`pages
      ensures Valid() && View() == Written(old(View()), id, page)
    {
      FreeFrame(pages, pages[id := page], free);
      pages := pages[id := page];
    }

    /** Puts a page at the head of the free list; the meta page and pages past the end
        are refused. Freeing a page that is already free is not refused: the list then
        runs in a circle, and no free list fits the file any more. */
    method ReleasePage(id: nat) returns (ok: bool)
      requires Valid()
      modifies this`pages, this`freeHead, this`free
      ensures ok <==> 1 <= id < count
      ensures View() == if ok then Released(old(View()), id) else old(View())
      ensures ok ==> pages == old(pages)[id := FreePage(old(freeHead))] && free == [id] + old(free) && count == old(count)
      ensures freeHead == if ok then Some(id) else old(freeHead)
      ensures Valid() <==> !ok || id !in old(free)
      ensures (exists list :: freeHead == Head(list) && FreeAt(pages, list)) <==> !ok || id !in old(free)
    {
      ghost var was, before := free, pages;
      if id == 0 || id >= count { return false; }
      pages := pages[id := FreePage(freeHead)];
      freeHead, free := Some(id), [id] + free;
      assert free[1..] == was;
      if id in was {
        forall list | freeHead == Head(list) && FreeAt(pages, list) ensures false { FreedTwice(before, was, id, list); }
      } else {
        FreeFrame(before, pages, was);
      }
      ok := true;
    }

    /** Spreads a value over new overflow pages, last chunk first. */
    method WriteOverflowChain(value: Bytes, ghost used: multiset<nat>) returns (head: Option<nat>, ghost chain: seq<nat>)
      requires Valid() && Whole(View(), used)
      modifies this`pages, this`freeHead, this`count, this`free
      ensures Valid() && head == Head(chain) && ChainAt(pages, chain, value)
      ensures Whole(View(), used + multiset(chain)) && SameOn(old(pages), pages, used)
    {
      hide Whole, SameOn, FreeAt, AllPages, ChainAt, ChunkStart;
      ChunkEnds(|value|);
      NoChain(pages);
      var chunks := (|value| + OVERFLOW_PAYLOAD - 1) / OVERFLOW_PAYLOAD;
      head, chain := None, [];
      assert used + multiset(chain) == used;
      SameSelf(pages, used);
      assert value[|value|..] == [];
      ghost var start := pages;
      for i := chunks downto 0
        invariant Valid() && head == Head(chain) && Whole(View(), used + multiset(chain)) && SameOn(start, pages, used)
        invariant 0 <= ChunkStart(i, |value|) <= |value| && ChainAt(pages, chain, value[ChunkStart(i, |value|)..])
        invariant i < chunks ==> chain != []
      {
        var lo, hi := ChunkStart(i, |value|), ChunkStart(i + 1, |value|);
        ChunkSizes(i, |value|);
        var page := OverflowPage(value[lo..hi], head);
        ghost var before := View();
        WriteStep(before, used, chain, page, value, lo, hi);
        SameTrans(start, before.pages, Allocated(before, page).pages, used);
        var id := AllocatePage(page);
        head, chain := Some(id), [id] + chain;
      }
      assert value[0..] == value;
    }

    /** Frees every page of a chain. Succeeds exactly on a chain of overflow pages inside
        the file, each met once; a cycle, a foreign page or a page past the end is
        reported, with the pages before it freed. */
    method FreeOverflowChain(head: Option<nat>) returns (ok: bool)
      requires Valid()
      modifies this`pages, this`freeHead, this`free
      ensures Valid() && count == old(count)
      ensures ok <==> exists chain :: Freeable(old(pages), count, head, chain)
      ensures forall chain | Freeable(old(pages), count, head, chain) :: View() == ReleaseAll(old(View()), chain)
    {
      hide FreeAt, NewPages, Leads, Follows, Freeable;
      ghost var start := View();
      ghost var walked: seq<nat> := [];
      var cursor, guard := head, 0;
      NothingFreed(start, head);
      while cursor.Some?
        invariant Valid() && count == start.count && guard == |walked|
        invariant Freeing(start, View(), head, walked, cursor)
        decreases count + 1 - guard
      {
        var id := cursor.value;
        forall chain | Freeable(start.pages, count, head, chain)
          ensures guard < count && 1 <= id < count && id in pages && pages[id].OverflowPage?
        {
          NextFreed(start, View(), head, walked, id, chain);
        }
        guard := guard + 1;
        if guard > count || id !in pages || !pages[id].OverflowPage? { return false; }
        var next := pages[id].next;
        ghost var before := View();
        OverflowNotFree(before, id);
        ok := ReleasePage(id);
        if !ok { return false; }
        FreedOne(start, before, View(), head, walked, id);
        walked, cursor := walked + [id], next;
      }
      AllFreed(start, View(), head, walked);
      ok := true;
    }

    /** Reads a value back from any chain: exactly when it is made of overflow pages whose
        payloads add up to the declared length, has no more links than a full one of
        that length could have, and the file has room for as many. */
    method ReadOverflowChain(head: Option<nat>, total: nat) returns (r: Option<Bytes>)
      ensures r.Some? ==> exists chain :: ReadableChain(pages, count, head, total, chain) && r.value == Payloads(pages, chain)
      ensures forall chain | ReadableChain(pages, count, head, total, chain) :: r == Some(Payloads(pages, chain))
    {
      hide Leads, Follows, Payloads, ReadableChain;
      var maxLinks := total / OVERFLOW_PAYLOAD + 2;
      if maxLinks > count {
        forall chain ensures !ReadableChain(pages, count, head, total, chain) { TooFewPages(pages, count, head, total, chain); }
        return None;
      }
      var out: Bytes := [];
      var cursor, guard := head, 0;
      ghost var walked: seq<nat> := [];
      NothingRead(pages, head);
      while cursor.Some?
        invariant guard == |walked| <= maxLinks && |out| <= total
        invariant Leads(pages, false, head, walked, cursor) && out == Payloads(pages, walked)
        decreases maxLinks - guard
      {
        var id := cursor.value;
        forall chain | ReadableChain(pages, count, head, total, chain)
          ensures guard < maxLinks && id in pages && pages[id].OverflowPage? && |out| + |pages[id].payload| <= total
        {
          NextRead(pages, count, head, total, walked, id, chain);
        }
        guard := guard + 1;
        if guard > maxLinks || id !in pages || !pages[id].OverflowPage? { return None; }
        var page := pages[id];
        LeadsSnoc(pages, false, head, walked, id);
        PayloadsConcat(pages, walked, [id]);
        PayloadsOne(pages, id);
        walked, out := walked + [id], out + page.payload;
        if |out| > total { return None; }
        cursor := page.next;
      }
      LeadsEnd(pages, false, head, walked);
      forall chain | ReadableChain(pages, count, head, total, chain) ensures chain == walked && |out| == total {
        ReadAll(pages, count, head, total, walked, chain);
      }
      if |out| != total { return None; }
      IsReadable(pages, count, head, total, walked);
      r := Some(out);
    }
  }

  // ---- reading a chain -----------------------------------------------------

  ghost predicate ReadableChain(pages: Pages, count: nat, head: Option<nat>, total: nat, chain: seq<nat>) {
    Follows(pages, false, head, chain) && |Payloads(pages, chain)| == total && |chain| <= total / OVERFLOW_PAYLOAD + 2 <= count
  }

  lemma TooFewPages(pages: Pages, count: nat, head: Option<nat>, total: nat, chain: seq<nat>)
    requires total / OVERFLOW_PAYLOAD + 2 > count
    ensures !ReadableChain(pages, count, head, total, chain)
  {
  }

  lemma NothingRead(pages: Pages, head: Option<nat>)
    ensures Leads(pages, false, head, [], head) && Payloads(pages, []) == []
  {
  }

  lemma NextRead(pages: Pages, count: nat, head: Option<nat>, total: nat, walked: seq<nat>, id: nat, chain: seq<nat>)
    requires ReadableChain(pages, count, head, total, chain) && Leads(pages, false, head, walked, Some(id))
    ensures |walked| < total / OVERFLOW_PAYLOAD + 2 && id in pages && pages[id].OverflowPage?
    ensures |Payloads(pages, walked)| + |pages[id].payload| <= total
  {
    hide Leads, Payloads;
    LeadsPrefix(pages, false, head, walked, Some(id), chain);
    var rest := chain[|walked|..];
    assert rest != [] && rest[0] == id;
    assert chain == walked + [id] + rest[1..];
    PayloadsConcat(pages, walked + [id], rest[1..]);
    PayloadsConcat(pages, walked, [id]);
    PayloadsOne(pages, id);
  }

  lemma ReadAll(pages: Pages, count: nat, head: Option<nat>, total: nat, walked: seq<nat>, chain: seq<nat>)
    requires ReadableChain(pages, count, head, total, chain) && Follows(pages, false, head, walked)
    ensures chain == walked && |Payloads(pages, walked)| == total
  {
    hide Follows, Payloads;
    FollowsOnce(pages, false, head, walked, chain);
  }

  lemma IsReadable(pages: Pages, count: nat, head: Option<nat>, total: nat, chain: seq<nat>)
    requires Follows(pages, false, head, chain) && |Payloads(pages, chain)| == total && |chain| <= total / OVERFLOW_PAYLOAD + 2 <= count
    ensures ReadableChain(pages, count, head, total, chain)
  {
  }

  /** A stored value is what its chain reads as. */
  lemma ChainedReads(pages: Pages, count: nat, chain: seq<nat>, value: Bytes)
    requires Chained(pages, chain, value)
    ensures Payloads(pages, chain) == value
    ensures ReadableChain(pages, count, Head(chain), |value|, chain) <==> |chain| <= |value| / OVERFLOW_PAYLOAD + 2 <= count
    ensures forall other | ReadableChain(pages, count, Head(chain), |value|, other) :: other == chain
  {
    hide Follows, Payloads, Chained;
    ChainedFollows(pages, chain, value);
    forall other | ReadableChain(pages, count, Head(chain), |value|, other) ensures other == chain {
      FollowsOnce(pages, false, Head(chain), chain, other);
    }
  }

  // ---- freeing a chain -----------------------------------------------------

  ghost predicate Freeable(pages: Pages, count: nat, head: Option<nat>, chain: seq<nat>) {
    Follows(pages, false, head, chain) && NewPages(chain, {}, count)
  }

  function ReleaseAll(d: Disk, chain: seq<nat>): Disk {
    if chain == [] then d else Released(ReleaseAll(d, chain[..|chain| - 1]), chain[|chain| - 1])
  }

  /** Part of a chain has been freed; the rest of the file is as it was. */
  ghost predicate Freeing(start: Disk, now: Disk, head: Option<nat>, walked: seq<nat>, cursor: Option<nat>) {
    && Leads(start.pages, false, head, walked, cursor) && NewPages(walked, {}, start.count)
    && now == ReleaseAll(start, walked)
    && (forall p | p in walked :: p in now.pages && now.pages[p].FreePage?)
    && (forall p | p !in walked :: (p in now.pages <==> p in start.pages) && (p in now.pages ==> now.pages[p] == start.pages[p]))
  }

  lemma NothingFreed(start: Disk, head: Option<nat>)
    ensures Freeing(start, start, head, [], head)
  {
  }

  lemma NextFreed(start: Disk, now: Disk, head: Option<nat>, walked: seq<nat>, id: nat, chain: seq<nat>)
    requires Freeing(start, now, head, walked, Some(id)) && Freeable(start.pages, start.count, head, chain)
    ensures |walked| < start.count && 1 <= id < start.count && id in now.pages && now.pages[id].OverflowPage?
  {
    hide Leads, NewPages;
    LeadsPrefix(start.pages, false, head, walked, Some(id), chain);
    var rest := chain[|walked|..];
    assert rest != [] && rest[0] == id;
    assert chain[..|walked| + 1] == walked + [id];
    NewPagesPrefix(chain, |walked| + 1, {}, start.count);
    NewPagesSnoc(walked, id, {}, start.count);
    FewerThanFile(walked + [id], {}, start.count);
  }

  lemma OverflowNotFree(d: Disk, id: nat)
    requires FreeAt(d.pages, d.free) && id in d.pages && d.pages[id].OverflowPage?
    ensures id !in d.free
  {
    if id in d.free { FreeKind(d.pages, d.free, id); }
  }

  lemma {:induction false} FreeKind(pages: Pages, free: seq<nat>, id: nat)
    requires FreeAt(pages, free) && id in free
    ensures id in pages && pages[id].FreePage?
    decreases |free|
  {
    if free[0] != id { FreeKind(pages, free[1..], id); }
  }

  lemma FreedOne(start: Disk, before: Disk, now: Disk, head: Option<nat>, walked: seq<nat>, id: nat)
    requires Freeing(start, before, head, walked, Some(id)) && now == Released(before, id) && 1 <= id < start.count
    requires id in before.pages && before.pages[id].OverflowPage?
    ensures Freeing(start, now, head, walked + [id], before.pages[id].next)
  {
    hide Leads, NewPages;
    assert id !in walked;
    LeadsSnoc(start.pages, false, head, walked, id);
    NewPagesSnoc(walked, id, {}, start.count);
    assert (walked + [id])[..|walked|] == walked;
  }

  lemma AllFreed(start: Disk, now: Disk, head: Option<nat>, walked: seq<nat>)
    requires Freeing(start, now, head, walked, None)
    ensures Freeable(start.pages, start.count, head, walked)
    ensures forall chain | Freeable(start.pages, start.count, head, chain) :: now == ReleaseAll(start, chain)
  {
    hide Leads, NewPages, Follows;
    LeadsEnd(start.pages, false, head, walked);
    forall chain | Freeable(start.pages, start.count, head, chain) ensures now == ReleaseAll(start, chain) {
      FollowsOnce(start.pages, false, head, walked, chain);
    }
  }

  /** A stored chain in use can be freed, and freeing it conserves every page. */
  lemma {:induction false} ReleaseAllKeeps(d: Disk, used: multiset<nat>, chain: seq<nat>)
    requires Whole(d, used + multiset(chain))
    ensures Whole(ReleaseAll(d, chain), used) && SameOn(d.pages, ReleaseAll(d, chain).pages, used) && ReleaseAll(d, chain).count == d.count
    decreases |chain|
  {
    hide Whole, SameOn;
    if chain == [] {
      assert used + multiset(chain) == used;
      SameSelf(d.pages, used);
    } else {
      var n := |chain| - 1;
      var id, most := chain[n], ReleaseAll(d, chain[..n]);
      assert chain == chain[..n] + [id];
      assert used + multiset(chain) == used + multiset{id} + multiset(chain[..n]);
      ReleaseAllKeeps(d, used + multiset{id}, chain[..n]);
      ReleaseKeeps(most, used, id);
      SameLess(d.pages, most.pages, used, id);
      SameTrans(d.pages, most.pages, Released(most, id).pages, used);
    }
  }

  lemma SameLess(pages: Pages, pages': Pages, used: multiset<nat>, id: nat)
    requires SameOn(pages, pages', used + multiset{id})
    ensures SameOn(pages, pages', used)
  {
    assert forall p | p in used :: p in used + multiset{id};
  }

  lemma ChainFreeable(d: Disk, used: multiset<nat>, chain: seq<nat>, value: Bytes)
    requires ChainAt(d.pages, chain, value) && Whole(d, used + multiset(chain))
    ensures Freeable(d.pages, d.count, Head(chain), chain)
  {
    ChainIsChained(d.pages, chain, value);
    ChainedFollows(d.pages, chain, value);
    hide Whole, ChainAt, Chained, Follows;
    forall p: nat | p in chain ensures multiset(chain)[p] == 1 && 1 <= p < d.count {
      UsedOnce(d, used + multiset(chain), p);
      assert p in multiset(chain);
      assert (used + multiset(chain))[p] == used[p] + multiset(chain)[p];
    }
    OnceIsDistinct(chain);
  }

  /** The length checks of a read allow for a stored chain. */
  lemma ReadFits(d: Disk, used: multiset<nat>, chain: seq<nat>, value: Bytes)
    requires ChainAt(d.pages, chain, value) && Whole(d, used) && |multiset(chain)| + 1 <= |used|
    ensures |chain| < |value| / OVERFLOW_PAYLOAD + 2 <= d.count
  {
    hide Whole;
    RoomFor(d, used, used);
    ChainLength(d.pages, chain, value);
    LinkLimit(|value|, |chain|, d.count);
  }

  lemma LinkLimit(total: nat, links: nat, count: nat)
    requires total <= links * OVERFLOW_PAYLOAD && links * OVERFLOW_PAYLOAD < total + OVERFLOW_PAYLOAD && links + 2 <= count
    ensures links < total / OVERFLOW_PAYLOAD + 2 <= count
  {
  }

  // ---- chunks --------------------------------------------------------------

  function ChunkStart(i: nat, len: nat): nat {
    if i * OVERFLOW_PAYLOAD < len then i * OVERFLOW_PAYLOAD else len
  }

  lemma ChunkEnds(len: nat)
    ensures ChunkStart(0, len) == 0 && ChunkStart((len + OVERFLOW_PAYLOAD - 1) / OVERFLOW_PAYLOAD, len) == len
  {
  }

  lemma NoChain(pages: Pages)
    ensures ChainAt(pages, [], [])
  {
  }

  lemma ChunkSizes(i: nat, len: nat)
    requires i < (len + OVERFLOW_PAYLOAD - 1) / OVERFLOW_PAYLOAD
    ensures var lo, hi := ChunkStart(i, len), ChunkStart(i + 1, len);
            lo < hi <= len && hi - lo <= OVERFLOW_PAYLOAD && (hi < len ==> hi - lo == OVERFLOW_PAYLOAD)
  {
  }

  lemma ExtendChain(pages: Pages, pages': Pages, chain: seq<nat>, rest: Bytes, id: nat, value: Bytes)
    requires ChainAt(pages, chain, rest) && SameOn(pages, pages', multiset(chain))
    requires |rest| < |value| <= |rest| + OVERFLOW_PAYLOAD && value[|value| - |rest|..] == rest
    requires rest != [] ==> |value| == |rest| + OVERFLOW_PAYLOAD
    requires id in pages' && pages'[id] == OverflowPage(value[..|value| - |rest|], Head(chain))
    ensures ChainAt(pages', [id] + chain, value)
  {
    ChainFrame(pages, pages', chain, rest);
    NoMoreChain(pages, chain, rest);
    hide SameOn;
    assert ([id] + chain)[1..] == chain && ([id] + chain)[0] == id;
    var n := if |value| < OVERFLOW_PAYLOAD then |value| else OVERFLOW_PAYLOAD;
    assert n == |value| - |rest| && value[n..] == rest;
  }

  lemma NoMoreChain(pages: Pages, chain: seq<nat>, value: Bytes)
    requires ChainAt(pages, chain, value)
    ensures value == [] <==> chain == []
  {
  }

  /** One more link in front of a chain. */
  lemma WriteStep(d: Disk, used: multiset<nat>, chain: seq<nat>, page: Page, value: Bytes, lo: nat, hi: nat)
    requires Whole(d, used + multiset(chain)) && lo < hi <= |value| && ChainAt(d.pages, chain, value[hi..])
    requires page == OverflowPage(value[lo..hi], Head(chain)) && hi - lo <= OVERFLOW_PAYLOAD && (hi < |value| ==> hi - lo == OVERFLOW_PAYLOAD)
    ensures var d', id := Allocated(d, page), NextId(d);
            && Whole(d', used + multiset([id] + chain)) && SameOn(d.pages, d'.pages, used)
            && ChainAt(d'.pages, [id] + chain, value[lo..])
    ensures d.free != [] ==> d.free[0] !in d.free[1..]
  {
    hide Whole, SameOn, ChainAt, Allocated;
    var all, id, d' := used + multiset(chain), NextId(d), Allocated(d, page);
    AllocKeeps(d, all, page);
    FreeDistinct(d, all);
    SameParts(d.pages, d'.pages, used, chain);
    assert value[lo..][hi - lo..] == value[hi..] && value[lo..][..hi - lo] == value[lo..hi];
    ExtendChain(d.pages, d'.pages, chain, value[hi..], id, value[lo..]);
    assert all + multiset{id} == used + multiset([id] + chain);
  }

  lemma FreeDistinct(d: Disk, used: multiset<nat>)
    requires Whole(d, used)
    ensures d.free != [] ==> d.free[0] !in d.free[1..]
  {
    hide FreeAt, AllPages;
    if d.free != [] {
      var p, tail := d.free[0], d.free[1..];
      UsedOnce(d, used, p);
      assert d.free == [p] + tail;
      assert multiset(d.free) == multiset{p} + multiset(tail);
      assert p !in multiset(tail);
    }
  }

  lemma NotFree(d: Disk, used: multiset<nat>, id: nat)
    requires Whole(d, used) && id in used
    ensures id !in d.free && 1 <= id < d.count
  {
    hide FreeAt, AllPages;
    UsedOnce(d, used, id);
    assert id !in multiset(d.free);
  }

  lemma SameSelf(pages: Pages, ids: multiset<nat>)
    ensures SameOn(pages, pages, ids)
  {
  }

  lemma SameTrans(a: Pages, b: Pages, c: Pages, ids: multiset<nat>)
    requires SameOn(a, b, ids) && SameOn(b, c, ids)
    ensures SameOn(a, c, ids)
  {
  }

  lemma SameParts(a: Pages, b: Pages, used: multiset<nat>, chain: seq<nat>)
    requires SameOn(a, b, used + multiset(chain))
    ensures SameOn(a, b, used) && SameOn(a, b, multiset(chain))
  {
  }
}
