/** Chains of pages: what following their links reaches. */
module BTreeLinks {
  import opened Bytes
  import opened PageLayout
  import opened Wrappers
  import opened BTree
  import opened BTreePages

  /** A chain of overflow pages that together hold `value`, whatever their sizes. */
  ghost predicate Chained(pages: Pages, chain: seq<nat>, value: Bytes)
    decreases |chain|
  {
    if chain == [] then value == []
    else
      && chain[0] in pages && pages[chain[0]].OverflowPage? && pages[chain[0]].next == Head(chain[1..])
      && pages[chain[0]].payload <= value
      && Chained(pages, chain[1..], value[|pages[chain[0]].payload|..])
  }

  lemma {:induction false} ChainIsChained(pages: Pages, chain: seq<nat>, value: Bytes)
    requires ChainAt(pages, chain, value)
    ensures Chained(pages, chain, value)
    decreases |chain|
  {
    if chain != [] {
      var n := if |value| < OVERFLOW_PAYLOAD then |value| else OVERFLOW_PAYLOAD;
      ChainIsChained(pages, chain[1..], value[n..]);
    }
  }

  /** A link of an overflow chain, or of the free list. */
  predicate Kind(page: Page, free: bool) {
    if free then page.FreePage? else page.OverflowPage?
  }

  /** The pages of one kind reached from `head`, link by link. */
  ghost predicate Follows(pages: Pages, free: bool, head: Option<nat>, chain: seq<nat>)
    decreases |chain|
  {
    if chain == [] then head.None?
    else head == Some(chain[0]) && chain[0] in pages && Kind(pages[chain[0]], free) && Follows(pages, free, pages[chain[0]].next, chain[1..])
  }

  function Payloads(pages: Pages, chain: seq<nat>): Bytes {
    if chain == [] then []
    else (if chain[0] in pages && pages[chain[0]].OverflowPage? then pages[chain[0]].payload else []) + Payloads(pages, chain[1..])
  }

  lemma {:induction false} FollowsOnce(pages: Pages, free: bool, head: Option<nat>, a: seq<nat>, b: seq<nat>)
    requires Follows(pages, free, head, a) && Follows(pages, free, head, b)
    ensures a == b
    decreases |a|
  {
    if a != [] && b != [] {
      FollowsOnce(pages, free, pages[a[0]].next, a[1..], b[1..]);
      assert a == [a[0]] + a[1..] && b == [b[0]] + b[1..];
    }
  }

  /** Following links and holding a value are the same thing. */
  lemma {:induction false} ChainedFollows(pages: Pages, chain: seq<nat>, value: Bytes)
    ensures Chained(pages, chain, value) <==> Follows(pages, false, Head(chain), chain) && value == Payloads(pages, chain)
    decreases |chain|
  {
    if chain != [] && chain[0] in pages && pages[chain[0]].OverflowPage? {
      var payload, rest := pages[chain[0]].payload, Payloads(pages, chain[1..]);
      if Chained(pages, chain, value) {
        ChainedFollows(pages, chain[1..], value[|payload|..]);
        assert value == payload + value[|payload|..];
      }
      if Follows(pages, false, Head(chain), chain) && value == payload + rest {
        assert value[|payload|..] == rest && value[..|payload|] == payload;
        assert Follows(pages, false, pages[chain[0]].next, chain[1..]);
        assert pages[chain[0]].next == Head(chain[1..]);
        ChainedFollows(pages, chain[1..], rest);
      }
    }
  }

  ghost predicate Distinct(ids: seq<nat>) {
    forall i, j | 0 <= i < j < |ids| :: ids[i] != ids[j]
  }

  function SetOf(ids: seq<nat>): set<nat> {
    set p | p in ids
  }

  /** Pages inside the file, each once, none seen before. */
  ghost predicate NewPages(ids: seq<nat>, seen: set<nat>, count: nat) {
    Distinct(ids) && forall p | p in ids :: 1 <= p < count && p !in seen
  }

  lemma NewPagesSnoc(a: seq<nat>, p: nat, seen: set<nat>, count: nat)
    ensures NewPages(a + [p], seen, count) <==> NewPages(a, seen, count) && 1 <= p < count && p !in seen + SetOf(a)
  {
    var b := a + [p];
    if NewPages(b, seen, count) {
      assert p in b;
      forall i, j | 0 <= i < j < |a| ensures a[i] != a[j] { assert b[i] == a[i] && b[j] == a[j]; }
      forall x | x in a ensures x != p { var i :| 0 <= i < |a| && a[i] == x; assert b[i] == x && b[|a|] == p; }
      assert forall x | x in a :: x in b;
    }
    if NewPages(a, seen, count) && 1 <= p < count && p !in seen + SetOf(a) {
      forall i, j | 0 <= i < j < |b| ensures b[i] != b[j] { if j == |a| { assert b[i] == a[i] && a[i] in a; } }
    }
  }

  lemma NewPagesPrefix(a: seq<nat>, n: nat, seen: set<nat>, count: nat)
    requires NewPages(a, seen, count) && n <= |a|
    ensures NewPages(a[..n], seen, count)
  {
    assert forall p | p in a[..n] :: p in a;
  }

  function Unseen(seen: set<nat>, count: nat): set<nat> {
    set p: nat | 1 <= p < count && p !in seen
  }

  /** `walked` leads from `head` to `cursor`. */
  ghost predicate Leads(pages: Pages, free: bool, head: Option<nat>, walked: seq<nat>, cursor: Option<nat>)
    decreases |walked|
  {
    if walked == [] then cursor == head
    else head == Some(walked[0]) && walked[0] in pages && Kind(pages[walked[0]], free) && Leads(pages, free, pages[walked[0]].next, walked[1..], cursor)
  }

  lemma {:induction false} LeadsPrefix(pages: Pages, free: bool, head: Option<nat>, walked: seq<nat>, cursor: Option<nat>, chain: seq<nat>)
    requires Leads(pages, free, head, walked, cursor) && Follows(pages, free, head, chain)
    ensures walked <= chain && Follows(pages, free, cursor, chain[|walked|..])
    decreases |walked|
  {
    if walked != [] {
      LeadsPrefix(pages, free, pages[walked[0]].next, walked[1..], cursor, chain[1..]);
      assert chain[1..][|walked| - 1..] == chain[|walked|..];
      assert walked == [walked[0]] + walked[1..] && chain == [chain[0]] + chain[1..];
    } else {
      assert chain[0..] == chain;
    }
  }

  lemma {:induction false} LeadsSnoc(pages: Pages, free: bool, head: Option<nat>, walked: seq<nat>, id: nat)
    requires Leads(pages, free, head, walked, Some(id)) && id in pages && Kind(pages[id], free)
    ensures Leads(pages, free, head, walked + [id], pages[id].next)
    decreases |walked|
  {
    var w := walked + [id];
    if walked == [] {
      assert w[1..] == [];
    } else {
      assert w[1..] == walked[1..] + [id] && w[0] == walked[0];
      LeadsSnoc(pages, free, pages[walked[0]].next, walked[1..], id);
    }
  }

  lemma {:induction false} PayloadsSnoc(pages: Pages, walked: seq<nat>, id: nat)
    requires id in pages && pages[id].OverflowPage?
    ensures |Payloads(pages, walked + [id])| == |Payloads(pages, walked)| + |pages[id].payload|
  {
    var w := walked + [id];
    if walked == [] {
      assert w[1..] == [];
    } else {
      assert w[1..] == walked[1..] + [id] && w[0] == walked[0];
      PayloadsSnoc(pages, walked[1..], id);
    }
  }

  lemma {:induction false} LeadsEnd(pages: Pages, free: bool, head: Option<nat>, walked: seq<nat>)
    requires Leads(pages, free, head, walked, None)
    ensures Follows(pages, free, head, walked)
    decreases |walked|
  {
    if walked != [] { LeadsEnd(pages, free, pages[walked[0]].next, walked[1..]); }
  }

  lemma {:induction false} PayloadsConcat(pages: Pages, a: seq<nat>, b: seq<nat>)
    ensures Payloads(pages, a + b) == Payloads(pages, a) + Payloads(pages, b)
  {
    if a == [] {
      assert a + b == b;
    } else {
      assert (a + b)[1..] == a[1..] + b && (a + b)[0] == a[0];
      PayloadsConcat(pages, a[1..], b);
    }
  }

  lemma PayloadsOne(pages: Pages, id: nat)
    requires id in pages && pages[id].OverflowPage?
    ensures Payloads(pages, [id]) == pages[id].payload
  {
    assert [id][1..] == [];
    assert pages[id].payload + [] == pages[id].payload;
  }

  // ---- counting ------------------------------------------------------------

  lemma {:induction false} DistinctSize(ids: seq<nat>)
    requires Distinct(ids)
    ensures |SetOf(ids)| == |ids|
  {
    if ids != [] {
      var n := |ids| - 1;
      DistinctSize(ids[..n]);
      assert SetOf(ids) == SetOf(ids[..n]) + {ids[n]};
      assert ids[n] !in ids[..n];
    }
  }

  lemma {:induction false} RangeSize(count: nat)
    ensures |Unseen({}, count)| == if count == 0 then 0 else count - 1
  {
    if count > 1 {
      RangeSize(count - 1);
      assert Unseen({}, count) == Unseen({}, count - 1) + {count - 1};
    } else {
      assert Unseen({}, count) == {};
    }
  }

  /** New pages are fewer than the file has. */
  lemma FewerThanFile(ids: seq<nat>, seen: set<nat>, count: nat)
    requires NewPages(ids, seen, count) && count > 0
    ensures |ids| < count
  {
    DistinctSize(ids);
    RangeSize(count);
    SubsetSize(SetOf(ids), Unseen({}, count));
  }

  lemma SubsetSize(a: set<nat>, b: set<nat>)
    requires a <= b
    ensures |a| <= |b|
  {
    assert b == a + (b - a);
  }

  lemma OnceIsDistinct(ids: seq<nat>)
    requires forall p: nat | p in ids :: multiset(ids)[p] == 1
    ensures Distinct(ids)
  {
    forall i, j | 0 <= i < j < |ids| ensures ids[i] != ids[j] {
      var p := ids[i];
      assert ids[..j][i] == p && p in multiset(ids[..j]);
      assert ids == ids[..j] + [ids[j]] + ids[j + 1..];
      assert multiset(ids) == multiset(ids[..j]) + multiset{ids[j]} + multiset(ids[j + 1..]);
      assert p in ids;
    }
  }
}
