/** B+Trees as values: order, balance, page use and contents. */
module BTree {
  import opened Bytes
  import opened PageLayout
  import opened Wrappers

  const MAX_INLINE_CELL: nat := USABLE_SPACE / 4 - SLOT_SIZE

  /** A key with its value; a spilled value lives in a chain of overflow pages. */
  datatype Entry = Entry(key: Bytes, value: Bytes, spilled: bool, chain: seq<nat>)

  datatype Tree =
    | Leaf(id: nat, entries: seq<Entry>)
    | Node(id: nat, seps: seq<Bytes>, kids: seq<Tree>)

  // ---- sizes ---------------------------------------------------------------

  function EntrySize(e: Entry): nat {
    8 + |e.key| + (if e.spilled then 4 else |e.value|) + SLOT_SIZE
  }

  function SepSize(k: Bytes): nat {
    6 + |k| + SLOT_SIZE
  }

  function LeafBytes(es: seq<Entry>): nat {
    if es == [] then 0 else LeafBytes(es[..|es| - 1]) + EntrySize(es[|es| - 1])
  }

  function NodeBytes(seps: seq<Bytes>): nat {
    if seps == [] then 0 else NodeBytes(seps[..|seps| - 1]) + SepSize(seps[|seps| - 1])
  }

  predicate KeyOk(k: Bytes) {
    1 <= |k| <= MAX_KEY_SIZE
  }

  /** Small values stay inline; the rest spill. */
  predicate StaysInline(k: Bytes, v: Bytes) {
    |v| <= MAX_INLINE_VALUE && 8 + |k| + |v| <= MAX_INLINE_CELL
  }

  predicate EntryOk(e: Entry) {
    KeyOk(e.key) && (e.spilled <==> !StaysInline(e.key, e.value)) && (!e.spilled ==> e.chain == [])
  }

  // ---- order ---------------------------------------------------------------

  predicate InBounds(k: Bytes, lo: Option<Bytes>, hi: Option<Bytes>) {
    (lo.Some? ==> AtMost(lo.value, k)) && (hi.Some? ==> Less(k, hi.value))
  }

  ghost predicate EntriesOk(es: seq<Entry>, lo: Option<Bytes>, hi: Option<Bytes>) {
    && (forall i | 0 <= i < |es| :: EntryOk(es[i]) && InBounds(es[i].key, lo, hi))
    && (forall i, j | 0 <= i < j < |es| :: Less(es[i].key, es[j].key))
  }

  /** Separators lie strictly inside their node's bounds. */
  predicate Inside(k: Bytes, lo: Option<Bytes>, hi: Option<Bytes>) {
    (lo.Some? ==> Less(lo.value, k)) && (hi.Some? ==> Less(k, hi.value))
  }

  ghost predicate SepsOk(seps: seq<Bytes>, lo: Option<Bytes>, hi: Option<Bytes>) {
    && (forall i | 0 <= i < |seps| :: KeyOk(seps[i]) && Inside(seps[i], lo, hi))
    && (forall i, j | 0 <= i < j < |seps| :: Less(seps[i], seps[j]))
  }

  function KidLo(seps: seq<Bytes>, i: nat, lo: Option<Bytes>): Option<Bytes>
    requires i <= |seps|
  {
    if i == 0 then lo else Some(seps[i - 1])
  }

  function KidHi(seps: seq<Bytes>, i: nat, hi: Option<Bytes>): Option<Bytes>
    requires i <= |seps|
  {
    if i < |seps| then Some(seps[i]) else hi
  }

  /** Keys sorted and inside the parent's bounds, leaves all at depth `h`, every
      page within its capacity. */
  ghost predicate Good(t: Tree, lo: Option<Bytes>, hi: Option<Bytes>, h: nat)
    decreases h
  {
    match t
    case Leaf(_, es) => h == 0 && EntriesOk(es, lo, hi) && LeafBytes(es) <= USABLE_SPACE
    case Node(_, seps, kids) => h > 0 && NodeBytes(seps) <= USABLE_SPACE && GoodParts(seps, kids, lo, hi, h)
  }

  /** A node's parts, whatever their size. */
  ghost predicate GoodParts(seps: seq<Bytes>, kids: seq<Tree>, lo: Option<Bytes>, hi: Option<Bytes>, h: nat)
    requires h > 0
    decreases h, 0
  {
    && |kids| == |seps| + 1 && SepsOk(seps, lo, hi)
    && forall i | 0 <= i < |kids| :: Good(kids[i], KidLo(seps, i, lo), KidHi(seps, i, hi), h - 1)
  }

  // ---- traversal -----------------------------------------------------------

  /** The leaves from left to right, for a tree of height `h`. */
  function Leaves(t: Tree, h: nat): seq<Tree>
    decreases h, 0
  {
    match t
    case Leaf(_, _) => [t]
    case Node(_, _, kids) => if h == 0 then [] else LeavesAll(kids, h - 1)
  }

  function LeavesAll(kids: seq<Tree>, h: nat): seq<Tree>
    decreases h, |kids|
  {
    if kids == [] then [] else LeavesAll(kids[..|kids| - 1], h) + Leaves(kids[|kids| - 1], h)
  }

  function ChainIds(es: seq<Entry>): multiset<nat> {
    if es == [] then multiset{} else ChainIds(es[..|es| - 1]) + multiset(es[|es| - 1].chain)
  }

  /** Every page a tree uses. */
  function Ids(t: Tree, h: nat): multiset<nat>
    decreases h, 0
  {
    match t
    case Leaf(id, es) => multiset{id} + ChainIds(es)
    case Node(id, _, kids) => multiset{id} + (if h == 0 then multiset{} else IdsAll(kids, h - 1))
  }

  function IdsAll(kids: seq<Tree>, h: nat): multiset<nat>
    decreases h, |kids|
  {
    if kids == [] then multiset{} else IdsAll(kids[..|kids| - 1], h) + Ids(kids[|kids| - 1], h)
  }

  /** The entries of a row of leaves, in order. */
  function Flat(leaves: seq<Tree>): seq<Entry> {
    if leaves == [] then []
    else Flat(leaves[..|leaves| - 1]) + (if leaves[|leaves| - 1].Leaf? then leaves[|leaves| - 1].entries else [])
  }

  // ---- concatenation -------------------------------------------------------

  lemma {:induction false} LeavesConcat(a: seq<Tree>, b: seq<Tree>, h: nat)
    ensures LeavesAll(a + b, h) == LeavesAll(a, h) + LeavesAll(b, h)
    ensures IdsAll(a + b, h) == IdsAll(a, h) + IdsAll(b, h)
    decreases |b|
  {
    hide Leaves, Ids;
    if b == [] {
      assert a + b == a;
    } else {
      var n := |b| - 1;
      assert (a + b)[..|a| + n] == a + b[..n];
      LeavesConcat(a, b[..n], h);
    }
  }

  lemma LeavesOne(t: Tree, h: nat)
    ensures LeavesAll([t], h) == Leaves(t, h) && IdsAll([t], h) == Ids(t, h)
  {
    hide Leaves, Ids;
    assert [t][..0] == [];
  }

  /** A row of kids around one of them. */
  lemma LeavesAround(kids: seq<Tree>, i: nat, h: nat)
    requires i < |kids|
    ensures LeavesAll(kids, h) == LeavesAll(kids[..i], h) + Leaves(kids[i], h) + LeavesAll(kids[i + 1..], h)
    ensures IdsAll(kids, h) == IdsAll(kids[..i], h) + Ids(kids[i], h) + IdsAll(kids[i + 1..], h)
  {
    hide Leaves, Ids, LeavesAll, IdsAll;
    assert kids == kids[..i] + [kids[i]] + kids[i + 1..];
    LeavesConcat(kids[..i] + [kids[i]], kids[i + 1..], h);
    LeavesConcat(kids[..i], [kids[i]], h);
    LeavesOne(kids[i], h);
  }

  lemma {:induction false} FlatConcat(a: seq<Tree>, b: seq<Tree>)
    ensures Flat(a + b) == Flat(a) + Flat(b)
  {
    if b == [] {
      assert a + b == a;
    } else {
      assert (a + b)[..|a + b| - 1] == a + b[..|b| - 1];
      FlatConcat(a, b[..|b| - 1]);
    }
  }

  lemma FlatOne(t: Tree)
    requires t.Leaf?
    ensures Flat([t]) == t.entries
  {
    assert [t][..0] == [];
  }

  lemma {:induction false} LeafBytesConcat(a: seq<Entry>, b: seq<Entry>)
    ensures LeafBytes(a + b) == LeafBytes(a) + LeafBytes(b)
    ensures ChainIds(a + b) == ChainIds(a) + ChainIds(b)
  {
    if b == [] {
      assert a + b == a;
    } else {
      assert (a + b)[..|a + b| - 1] == a + b[..|b| - 1];
      LeafBytesConcat(a, b[..|b| - 1]);
    }
  }

  lemma LeafBytesOne(e: Entry)
    ensures LeafBytes([e]) == EntrySize(e) && ChainIds([e]) == multiset(e.chain)
  {
    assert [e][..0] == [];
  }

  lemma {:induction false} NodeBytesConcat(a: seq<Bytes>, b: seq<Bytes>)
    ensures NodeBytes(a + b) == NodeBytes(a) + NodeBytes(b)
  {
    if b == [] {
      assert a + b == a;
    } else {
      assert (a + b)[..|a + b| - 1] == a + b[..|b| - 1];
      NodeBytesConcat(a, b[..|b| - 1]);
    }
  }

  lemma NodeBytesOne(k: Bytes)
    ensures NodeBytes([k]) == SepSize(k)
  {
    assert [k][..0] == [];
  }

  // ---- bounds --------------------------------------------------------------

  /** `[lo', hi')` lies inside `[lo, hi)`. */
  predicate Narrower(lo': Option<Bytes>, hi': Option<Bytes>, lo: Option<Bytes>, hi: Option<Bytes>) {
    && (lo.Some? ==> lo'.Some? && AtMost(lo.value, lo'.value))
    && (hi.Some? ==> hi'.Some? && AtMost(hi'.value, hi.value))
  }

  lemma InsideNarrower(k: Bytes, lo': Option<Bytes>, hi': Option<Bytes>, lo: Option<Bytes>, hi: Option<Bytes>)
    requires Inside(k, lo', hi') && Narrower(lo', hi', lo, hi)
    ensures Inside(k, lo, hi)
  {
    if lo.Some? { LessAtMost(lo.value, lo'.value, k); }
    if hi.Some? { LessAtMost(k, hi'.value, hi.value); }
  }

  lemma InNarrower(k: Bytes, lo': Option<Bytes>, hi': Option<Bytes>, lo: Option<Bytes>, hi: Option<Bytes>)
    requires InBounds(k, lo', hi') && Narrower(lo', hi', lo, hi)
    ensures InBounds(k, lo, hi)
  {
    if lo.Some? { AtMostTrans(lo.value, lo'.value, k); }
    if hi.Some? { LessAtMost(k, hi'.value, hi.value); }
  }

  /** Bounds may always be widened. */
  lemma {:induction false} Widen(t: Tree, lo': Option<Bytes>, hi': Option<Bytes>, lo: Option<Bytes>, hi: Option<Bytes>, h: nat)
    requires Good(t, lo', hi', h) && Narrower(lo', hi', lo, hi)
    ensures Good(t, lo, hi, h)
    decreases h
  {
    hide Less, InBounds, Inside, EntryOk, KeyOk;
    match t
    case Leaf(_, es) =>
      forall i | 0 <= i < |es| ensures InBounds(es[i].key, lo, hi) { InNarrower(es[i].key, lo', hi', lo, hi); }
    case Node(_, seps, kids) =>
      forall i | 0 <= i < |seps| ensures Inside(seps[i], lo, hi) { InsideNarrower(seps[i], lo', hi', lo, hi); }
      forall i | 0 <= i < |kids| ensures Good(kids[i], KidLo(seps, i, lo), KidHi(seps, i, hi), h - 1) {
        Widen(kids[i], KidLo(seps, i, lo'), KidHi(seps, i, hi'), KidLo(seps, i, lo), KidHi(seps, i, hi), h - 1);
      }
  }

  lemma GoodKid(t: Tree, lo: Option<Bytes>, hi: Option<Bytes>, h: nat, i: nat)
    requires Good(t, lo, hi, h) && t.Node? && i < |t.kids|
    ensures h > 0 && |t.kids| == |t.seps| + 1
    ensures Good(t.kids[i], KidLo(t.seps, i, lo), KidHi(t.seps, i, hi), h - 1)
  {
    hide SepsOk;
  }
}
