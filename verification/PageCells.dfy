/** Cell and overflow encodings, binary search over a page's keys, and the page
    capacity that the tree's node sizes stand for. */
module PageCells {
  import opened Bytes
  import opened PageLayout
  import opened Wrappers
  import opened PageImage
  import opened SlottedPage
  import BTree
  import BTreePages

  const LEAF_HEADER: nat := 8
  const NODE_HEADER: nat := 6

  // ---- encodings ---------------------------------------------------------------

  function EncodeLeafCell(key: Bytes, value: Bytes, total: nat, overflow: Option<nat>): Bytes {
    LE(|key|, 2) + [if overflow.Some? then 1 else 0, 0] + LE(total, 4) + key
    + (if overflow.Some? then LE(overflow.value, 4) else value)
  }

  function DecodeLeafCell(c: Bytes): Option<BTreePages.Cell> {
    if |c| < LEAF_HEADER then None
    else
      var keyLen, total := FromLE(c[..2]), FromLE(c[4..8]);
      if LEAF_HEADER + keyLen > |c| then None
      else
        var key, payload := c[LEAF_HEADER..LEAF_HEADER + keyLen], c[LEAF_HEADER + keyLen..];
        if c[2] % 2 == 1 then
          if |payload| < 4 then None
          else Some(BTreePages.Cell(key, BTreePages.Spilled(total, Pointer(FromLE(payload[..4])))))
        else if |payload| != total then None
        else Some(BTreePages.Cell(key, BTreePages.Inline(payload)))
  }

  function Pointer(id: nat): Option<nat> {
    if id == SENTINEL then None else Some(id)
  }

  function Raw(p: Option<nat>): nat {
    if p.Some? then p.value else SENTINEL
  }

  function EncodeCell(c: BTreePages.Cell): Bytes {
    match c.payload
    case Inline(v) => EncodeLeafCell(c.key, v, |v|, None)
    case Spilled(total, head) => EncodeLeafCell(c.key, [], total, Some(Raw(head)))
  }

  predicate Encodable(c: BTreePages.Cell) {
    |c.key| < 0x1_0000 &&
    match c.payload
    case Inline(v) => |v| < U32_LIMIT
    case Spilled(total, head) => total < U32_LIMIT && (head.Some? ==> head.value < SENTINEL)
  }

  /** The fields of an encoded leaf cell, by position. */
  lemma LeafCellParts(key: Bytes, value: Bytes, total: nat, overflow: Option<nat>)
    ensures var c := EncodeLeafCell(key, value, total, overflow);
            && |c| >= LEAF_HEADER + |key| && c[..2] == LE(|key|, 2) && c[2] == (if overflow.Some? then 1 else 0)
            && c[4..8] == LE(total, 4) && c[LEAF_HEADER..LEAF_HEADER + |key|] == key
            && c[LEAF_HEADER + |key|..] == if overflow.Some? then LE(overflow.value, 4) else value
  {
    var a, f, t := LE(|key|, 2), [if overflow.Some? then 1 else 0, 0], LE(total, 4);
    var p := if overflow.Some? then LE(overflow.value, 4) else value;
    assert EncodeLeafCell(key, value, total, overflow) == a + f + t + key + p;
  }

  /** Decoding a leaf cell gives back what was encoded. */
  lemma LeafCellBack(c: BTreePages.Cell)
    requires Encodable(c)
    ensures DecodeLeafCell(EncodeCell(c)) == Some(c)
  {
    hide EncodeLeafCell, LE, FromLE, Pow256;
    WordLimits();
    LERoundTrip(|c.key|, 2);
    match c.payload
    case Inline(v) =>
      LeafCellParts(c.key, v, |v|, None);
      LERoundTrip(|v|, 4);
    case Spilled(total, head) =>
      LeafCellParts(c.key, [], total, Some(Raw(head)));
      LERoundTrip(total, 4);
      LERoundTrip(Raw(head), 4);
      assert LE(Raw(head), 4)[..4] == LE(Raw(head), 4);
  }

  function EncodeSep(s: BTreePages.Sep): Bytes {
    LE(|s.key|, 2) + LE(s.child, 4) + s.key
  }

  function DecodeSep(c: Bytes): Option<BTreePages.Sep> {
    if |c| < NODE_HEADER || NODE_HEADER + FromLE(c[..2]) > |c| then None
    else Some(BTreePages.Sep(c[NODE_HEADER..NODE_HEADER + FromLE(c[..2])], FromLE(c[2..6])))
  }

  /** Decoding a separator cell gives back what was encoded. */
  lemma SepBack(s: BTreePages.Sep)
    requires |s.key| < 0x1_0000 && s.child < U32_LIMIT
    ensures DecodeSep(EncodeSep(s)) == Some(s)
  {
    hide LE, FromLE, Pow256;
    WordLimits();
    LERoundTrip(|s.key|, 2);
    LERoundTrip(s.child, 4);
    var c, a, p := EncodeSep(s), LE(|s.key|, 2), LE(s.child, 4);
    assert c[..2] == a && c[2..6] == p && c[NODE_HEADER..NODE_HEADER + |s.key|] == s.key;
  }

  // ---- capacity ------------------------------------------------------------------

  function EncodeCells(cs: seq<BTreePages.Cell>): seq<Bytes> {
    seq(|cs|, i requires 0 <= i < |cs| => EncodeCell(cs[i]))
  }

  function EncodeSeps(ss: seq<BTreePages.Sep>): seq<Bytes> {
    seq(|ss|, i requires 0 <= i < |ss| => EncodeSep(ss[i]))
  }

  /** A leaf's size in the tree is what its cells take on the page. */
  lemma {:induction false} LeafBytesOnPage(es: seq<BTree.Entry>)
    ensures UsedBytes(EncodeCells(BTreePages.CellsOf(es))) == BTree.LeafBytes(es)
  {
    if es != [] {
      var n := |es| - 1;
      var now := EncodeCells(BTreePages.CellsOf(es));
      LeafBytesOnPage(es[..n]);
      assert now[..n] == EncodeCells(BTreePages.CellsOf(es[..n]));
      assert now[n] == EncodeCell(BTreePages.CellOf(es[n]));
    }
  }

  lemma {:induction false} NodeBytesOnPage(ss: seq<BTreePages.Sep>)
    ensures UsedBytes(EncodeSeps(ss)) == BTree.NodeBytes(seq(|ss|, i requires 0 <= i < |ss| => ss[i].key))
  {
    if ss != [] {
      var n := |ss| - 1;
      NodeBytesOnPage(ss[..n]);
      var keys := seq(|ss|, i requires 0 <= i < |ss| => ss[i].key);
      assert EncodeSeps(ss)[..n] == EncodeSeps(ss[..n]);
      assert keys[..n] == seq(n, i requires 0 <= i < n => ss[..n][i].key);
    }
  }

  /** A page holding a leaf's cells admits another entry exactly when the tree says
      the leaf still fits. */
  method InsertEntry(p: Page, ghost es: seq<BTree.Entry>, i: nat, e: BTree.Entry) returns (o: Outcome)
    requires p.Valid() && Sound(p.View()) && Cells(p.View()) == EncodeCells(BTreePages.CellsOf(es)) && i <= |es|
    modifies p.buf
    ensures Sound(p.View())
    ensures o == if BTree.LeafBytes(es[..i] + [e] + es[i..]) <= USABLE_SPACE then Done else Full
    ensures o == Done ==> Cells(p.View()) == EncodeCells(BTreePages.CellsOf(es[..i] + [e] + es[i..]))
    ensures o == Full ==> Cells(p.View()) == EncodeCells(BTreePages.CellsOf(es))
  {
    hide Sound, SameHeader, EncodeCell, UsedBytes, Inserted;
    EntryFits(es, i, e);
    EntryOnPage(es, i, e);
    SoundIsFormed(p.View());
    FullKeeps(p.View());
    o := p.InsertCellAt(i, EncodeCell(BTreePages.CellOf(e)));
  }

  lemma EntryOnPage(es: seq<BTree.Entry>, i: nat, e: BTree.Entry)
    requires i <= |es|
    ensures Inserted(EncodeCells(BTreePages.CellsOf(es)), i, EncodeCell(BTreePages.CellOf(e)))
         == EncodeCells(BTreePages.CellsOf(es[..i] + [e] + es[i..]))
  {
    hide EncodeCell;
  }

  lemma EntryFits(es: seq<BTree.Entry>, i: nat, e: BTree.Entry)
    requires i <= |es|
    ensures BTree.LeafBytes(es[..i] + [e] + es[i..])
         == UsedBytes(EncodeCells(BTreePages.CellsOf(es))) + |EncodeCell(BTreePages.CellOf(e))| + SLOT_SIZE
  {
    hide EncodeCell;
    var was, c := EncodeCells(BTreePages.CellsOf(es)), EncodeCell(BTreePages.CellOf(e));
    EntryOnPage(es, i, e);
    LeafBytesOnPage(es[..i] + [e] + es[i..]);
    HeapInserted(was, i, c);
    UsedIsHeap(was);
    UsedIsHeap(Inserted(was, i, c));
  }

  // ---- search --------------------------------------------------------------------

  /** The key of a cell, or nothing when the cell is malformed. */
  function CellKey(c: Bytes, leaf: bool): Option<Bytes> {
    var header := if leaf then LEAF_HEADER else NODE_HEADER;
    if |c| < header || header + Length(c) > |c| then None else Some(c[header..header + Length(c)])
  }

  function Length(c: Bytes): nat {
    if |c| < 2 then 0 else Join(c[0], c[1])
  }

  function IsLeaf(b: Image): bool { b[OFF_IS_LEAF] == 1 }

  datatype Position = Found(at: nat) | Missing(at: nat) | Corrupt

  ghost predicate Ordered(cs: seq<Bytes>, leaf: bool) {
    && (forall c | c in cs :: CellKey(c, leaf).Some?)
    && forall i, j | 0 <= i < j < |cs| :: Less(CellKey(cs[i], leaf).value, CellKey(cs[j], leaf).value)
  }

  ghost predicate KeyBelow(c: Bytes, leaf: bool, key: Bytes) {
    CellKey(c, leaf).Some? && Less(CellKey(c, leaf).value, key)
  }

  ghost predicate KeyAbove(c: Bytes, leaf: bool, key: Bytes) {
    CellKey(c, leaf).Some? && Less(key, CellKey(c, leaf).value)
  }

  /** Every key before `at` is smaller and every key from `at` on is larger. */
  ghost predicate Gap(cs: seq<Bytes>, leaf: bool, key: Bytes, at: nat) {
    && at <= |cs|
    && (forall i | 0 <= i < at :: KeyBelow(cs[i], leaf, key))
    && (forall i | at <= i < |cs| :: KeyAbove(cs[i], leaf, key))
  }

  /** On ordered cells a hit is the key's only cell and a miss is the one place it
      could go; malformed cells are reported, never guessed at. */
  method Search(p: Page, key: Bytes) returns (r: Position)
    requires p.Valid() && Formed(p.View())
    ensures r.Found? ==> r.at < |Cells(p.View())| && CellKey(Cells(p.View())[r.at], IsLeaf(p.View())) == Some(key)
    ensures r.Corrupt? ==> exists c :: c in Cells(p.View()) && CellKey(c, IsLeaf(p.View())).None?
    ensures r.Missing? && Ordered(Cells(p.View()), IsLeaf(p.View())) ==> Gap(Cells(p.View()), IsLeaf(p.View()), key, r.at)
  {
    hide Formed, CellAt, CellKey;
    ghost var cs, leaf := Cells(p.View()), IsLeaf(p.View());
    var isLeaf := p.buf[OFF_IS_LEAF] == 1;
    var n := p.ReadWord(OFF_NUM_KEYS);
    var lo, hi := 0, n;
    while lo < hi
      invariant lo <= hi <= n == |cs|
      invariant Ordered(cs, leaf) ==> forall i | 0 <= i < lo :: KeyBelow(cs[i], leaf, key)
      invariant Ordered(cs, leaf) ==> forall i | hi <= i < n :: KeyAbove(cs[i], leaf, key)
    {
      var mid := (lo + hi) / 2;
      var c := p.ReadCell(mid);
      assert c == cs[mid] && c in cs;
      var k := CellKey(c, isLeaf);
      if k.None? { return Corrupt; }
      if Less(k.value, key) {
        if Ordered(cs, leaf) { BelowUpTo(cs, leaf, key, mid); }
        lo := mid + 1;
      } else if k.value != key {
        LessTotal(k.value, key);
        if Ordered(cs, leaf) { AboveFrom(cs, leaf, key, mid); }
        hi := mid;
      } else {
        return Found(mid);
      }
    }
    return Missing(lo);
  }

  lemma BelowUpTo(cs: seq<Bytes>, leaf: bool, key: Bytes, mid: nat)
    requires Ordered(cs, leaf) && mid < |cs| && KeyBelow(cs[mid], leaf, key)
    ensures forall i | 0 <= i <= mid :: KeyBelow(cs[i], leaf, key)
  {
    hide CellKey;
    forall i | 0 <= i <= mid ensures KeyBelow(cs[i], leaf, key) {
      if i < mid { LessTransitive(CellKey(cs[i], leaf).value, CellKey(cs[mid], leaf).value, key); }
    }
  }

  lemma AboveFrom(cs: seq<Bytes>, leaf: bool, key: Bytes, mid: nat)
    requires Ordered(cs, leaf) && mid < |cs| && KeyAbove(cs[mid], leaf, key)
    ensures forall i | mid <= i < |cs| :: KeyAbove(cs[i], leaf, key)
  {
    hide CellKey;
    forall i | mid <= i < |cs| ensures KeyAbove(cs[i], leaf, key) {
      if mid < i { LessTransitive(key, CellKey(cs[mid], leaf).value, CellKey(cs[i], leaf).value); }
    }
  }

  /** A key's place among ordered cells is unique, and it rules the key out. */
  lemma GapUnique(cs: seq<Bytes>, leaf: bool, key: Bytes, i: nat, j: nat)
    requires Gap(cs, leaf, key, i)
    ensures Gap(cs, leaf, key, j) ==> i == j
    ensures j < |cs| ==> CellKey(cs[j], leaf) != Some(key)
  {
    hide CellKey;
    LessIrreflexive(key);
    if Gap(cs, leaf, key, j) && i < j { GapClash(cs, leaf, key, i); }
    if Gap(cs, leaf, key, j) && j < i { GapClash(cs, leaf, key, j); }
    if j < |cs| { assert if j < i then KeyBelow(cs[j], leaf, key) else KeyAbove(cs[j], leaf, key); }
  }

  lemma GapClash(cs: seq<Bytes>, leaf: bool, key: Bytes, i: nat)
    requires i < |cs|
    ensures !(KeyBelow(cs[i], leaf, key) && KeyAbove(cs[i], leaf, key))
  {
    if KeyBelow(cs[i], leaf, key) { LessAsymmetric(CellKey(cs[i], leaf).value, key); }
  }

  // ---- overflow pages --------------------------------------------------------------

  const OFF_EXTRA: nat := 12

  function OverflowLength(b: Image): nat { FromLE(b[32..36]) }

  /** What an overflow page holds: a link and a payload. */
  ghost predicate HoldsOverflow(b: Image, payload: Bytes, next: nat) {
    && b[OFF_PAGE_TYPE] == 3 && FromLE(b[OFF_EXTRA..OFF_EXTRA + 4]) == next
    && |payload| <= OVERFLOW_PAYLOAD && OverflowLength(b) == |payload| && b[40..40 + |payload|] == payload
  }

  method WriteOverflow(p: Page, payload: Bytes, next: nat) returns (o: Outcome)
    requires p.Valid() && next < U32_LIMIT
    modifies p.buf
    ensures o == if |payload| <= OVERFLOW_PAYLOAD then Done else Full
    ensures o == Done ==> HoldsOverflow(p.View(), payload, next)
    ensures o == Full ==> p.View() == old(p.View())
    ensures p.View()[4..8] == old(p.View()[4..8])
  {
    hide Wrote, LE, FromLE, HoldsOverflow;
    if |payload| > OVERFLOW_PAYLOAD { return Full; }
    p.Write(OFF_PAGE_TYPE, [3, 0]);
    ghost var b0 := p.View();
    p.Write(OFF_EXTRA, LE(next, 4));
    ghost var b1 := p.View();
    p.Write(32, LE(|payload|, 4) + [0, 0, 0, 0]);
    ghost var b2 := p.View();
    p.Write(40, payload);
    OverflowWritten(old(p.View()), b0, b1, b2, p.View(), payload, next);
    return Done;
  }

  lemma OverflowWritten(b: Image, b0: Image, b1: Image, b2: Image, b3: Image, payload: Bytes, next: nat)
    requires next < U32_LIMIT && |payload| <= OVERFLOW_PAYLOAD
    requires Wrote(b, b0, OFF_PAGE_TYPE, [3, 0]) && Wrote(b0, b1, OFF_EXTRA, LE(next, 4))
    requires Wrote(b1, b2, 32, LE(|payload|, 4) + [0, 0, 0, 0]) && Wrote(b2, b3, 40, payload)
    ensures HoldsOverflow(b3, payload, next) && b3[4..8] == b[4..8]
  {
    hide LE, FromLE;
    WordLimits();
    hide Pow256;
    LERoundTrip(next, 4);
    LERoundTrip(|payload|, 4);
    var data := LE(|payload|, 4) + [0, 0, 0, 0];
    assert b3[40..40 + |payload|] == payload;
    assert b0[OFF_PAGE_TYPE] == 3 by { assert b0[OFF_PAGE_TYPE..OFF_PAGE_TYPE + 2][0] == 3; }
    WroteSlice(b1, b2, 32, data, OFF_EXTRA, OFF_EXTRA + 4);
    WroteSlice(b2, b3, 40, payload, OFF_EXTRA, OFF_EXTRA + 4);
    WroteSlice(b2, b3, 40, payload, 32, 40);
    WroteSlice(b, b0, OFF_PAGE_TYPE, [3, 0], 4, 8);
    WroteSlice(b0, b1, OFF_EXTRA, LE(next, 4), 4, 8);
    WroteSlice(b1, b2, 32, data, 4, 8);
    WroteSlice(b2, b3, 40, payload, 4, 8);
    assert b3[32..36] == b3[32..40][..4] && data[..4] == LE(|payload|, 4);
  }

  /** Reading an overflow page returns the payload last written to it. */
  method ReadOverflow(p: Page) returns (r: Option<Bytes>)
    requires p.Valid()
    ensures r.Some? <==> p.View()[OFF_PAGE_TYPE] == 3 && OverflowLength(p.View()) <= OVERFLOW_PAYLOAD
    ensures forall payload, next | HoldsOverflow(p.View(), payload, next) :: r == Some(payload)
  {
    hide FromLE;
    assert p.View()[32..36] == p.buf[32..36];
    var len := FromLE(p.buf[32..36]);
    if p.buf[OFF_PAGE_TYPE] != 3 || len > OVERFLOW_PAYLOAD { return None; }
    assert p.View()[40..40 + len] == p.buf[40..40 + len];
    return Some(p.buf[40..40 + len]);
  }
}
