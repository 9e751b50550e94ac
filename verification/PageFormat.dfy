/** A page of the database file as bytes: checksum, header, and what its kind holds. */
module PageFormat {
  import opened Bytes
  import opened PageLayout
  import opened Wrappers
  import opened PageImage
  import opened SlottedPage
  import opened PageCells
  import BTreePages

  const META_MAGIC: nat := 0x5048_4F45_4E49_5844
  const META_VERSION: nat := 1

  /** What one page of the file says. */
  datatype FilePage =
    | TreePage(page: BTreePages.Page)
    | MetaPage(root: nat, freeHead: Option<nat>, count: nat, treeTs: nat, nextTxnId: nat)

  // ---- reading ------------------------------------------------------------------

  function DecodeCells(cs: seq<Bytes>): Option<seq<BTreePages.Cell>> {
    if cs == [] then Some([])
    else
      var most, last := DecodeCells(cs[..|cs| - 1]), DecodeLeafCell(cs[|cs| - 1]);
      if most.None? || last.None? then None else Some(most.value + [last.value])
  }

  function DecodeSeps(cs: seq<Bytes>): Option<seq<BTreePages.Sep>> {
    if cs == [] then Some([])
    else
      var most, last := DecodeSeps(cs[..|cs| - 1]), DecodeSep(cs[|cs| - 1]);
      if most.None? || last.None? then None else Some(most.value + [last.value])
  }

  function Extra(b: Image): nat {
    FromLE(b[OFF_EXTRA..OFF_EXTRA + 4])
  }

  function ReadMeta(block: Bytes): Option<FilePage>
    requires |block| == 44
  {
    if FromLE(block[..8]) != META_MAGIC || FromLE(block[12..16]) != PAGE_SIZE then None
    else Some(MetaPage(FromLE(block[16..20]), Pointer(FromLE(block[20..24])), FromLE(block[24..28]),
                       FromLE(block[28..36]), FromLE(block[36..44])))
  }

  /** What a page says, its checksum and its own number aside. */
  function Says(b: Image): Option<FilePage> {
    var kind := b[OFF_PAGE_TYPE];
    if kind == 0 then Some(TreePage(BTreePages.FreePage(Pointer(Extra(b)))))
    else if kind == 1 then
      if !Formed(b) then None
      else
        var seps := DecodeSeps(Cells(b));
        if seps.None? then None else Some(TreePage(BTreePages.NodePage(Extra(b), seps.value)))
    else if kind == 2 then
      if !Formed(b) then None
      else
        var cells := DecodeCells(Cells(b));
        if cells.None? then None else Some(TreePage(BTreePages.LeafPage(cells.value, Pointer(Extra(b)))))
    else if kind == 3 then
      if OverflowLength(b) > OVERFLOW_PAYLOAD then None
      else Some(TreePage(BTreePages.OverflowPage(b[40..40 + OverflowLength(b)], Pointer(Extra(b)))))
    else if kind == 4 then ReadMeta(b[PAGE_HEADER_SIZE..PAGE_HEADER_SIZE + 44])
    else None
  }

  /** Page `id` as it is read from the file: whole, checksummed and in its own place. */
  function ReadPage(b: Bytes, id: nat, crc: Checksum): Option<FilePage> {
    if |b| != PAGE_SIZE || FromLE(b[..4]) != crc(b[4..]) || FromLE(b[4..8]) != id then None else Says(b)
  }

  // ---- what a page can hold -------------------------------------------------------

  predicate PointerFits(p: Option<nat>) {
    p.Some? ==> p.value < SENTINEL
  }

  predicate SepFits(s: BTreePages.Sep) {
    |s.key| < 0x1_0000 && s.child < U32_LIMIT
  }

  predicate PageFits(x: FilePage) {
    match x
    case TreePage(FreePage(next)) => PointerFits(next)
    case TreePage(NodePage(first, seps)) =>
      first < U32_LIMIT && UsedBytes(EncodeSeps(seps)) <= USABLE_SPACE && forall s | s in seps :: SepFits(s)
    case TreePage(LeafPage(cells, next)) =>
      PointerFits(next) && UsedBytes(EncodeCells(cells)) <= USABLE_SPACE && forall c | c in cells :: Encodable(c)
    case TreePage(OverflowPage(payload, next)) => PointerFits(next) && |payload| <= OVERFLOW_PAYLOAD
    case MetaPage(root, freeHead, count, treeTs, nextTxnId) =>
      root < U32_LIMIT && PointerFits(freeHead) && count < U32_LIMIT && treeTs < U64_LIMIT && nextTxnId < U64_LIMIT
  }

  // ---- reading back ----------------------------------------------------------------

  lemma {:induction false} CellsBack(cells: seq<BTreePages.Cell>)
    requires forall c | c in cells :: Encodable(c)
    ensures DecodeCells(EncodeCells(cells)) == Some(cells)
  {
    hide Encodable, EncodeCell, DecodeLeafCell;
    if cells != [] {
      var n := |cells| - 1;
      assert EncodeCells(cells)[..n] == EncodeCells(cells[..n]);
      CellsBack(cells[..n]);
      LeafCellBack(cells[n]);
      assert cells[..n] + [cells[n]] == cells;
    }
  }

  lemma {:induction false} SepsBack(seps: seq<BTreePages.Sep>)
    requires forall s | s in seps :: SepFits(s)
    ensures DecodeSeps(EncodeSeps(seps)) == Some(seps)
  {
    hide EncodeSep, DecodeSep;
    if seps != [] {
      var n := |seps| - 1;
      assert EncodeSeps(seps)[..n] == EncodeSeps(seps[..n]);
      SepsBack(seps[..n]);
      assert seps[n] in seps;
      SepBack(seps[n]);
      assert seps[..n] + [seps[n]] == seps;
    }
  }

  lemma PointerBack(p: Option<nat>)
    requires PointerFits(p)
    ensures Raw(p) < U32_LIMIT && Pointer(Raw(p)) == p
  {
  }

  function MetaHead(): (b: Bytes)
    ensures |b| == 16
  {
    LE(META_MAGIC, 8) + LE(META_VERSION, 4) + LE(PAGE_SIZE, 4)
  }

  function MetaIds(m: FilePage): (b: Bytes)
    requires m.MetaPage?
    ensures |b| == 12
  {
    LE(m.root, 4) + LE(Raw(m.freeHead), 4) + LE(m.count, 4)
  }

  function MetaStamps(m: FilePage): (b: Bytes)
    requires m.MetaPage?
    ensures |b| == 16
  {
    LE(m.treeTs, 8) + LE(m.nextTxnId, 8)
  }

  lemma MetaBack(m: FilePage)
    requires m.MetaPage? && PageFits(m)
    ensures ReadMeta(MetaHead() + MetaIds(m) + MetaStamps(m)) == Some(m)
  {
    hide FromLE, LE, MetaHead, MetaIds, MetaStamps, PageFits, Pointer;
    MetaSlices(MetaHead(), MetaIds(m), MetaStamps(m));
    HeadFields();
    IdFields(m);
    StampFields(m);
  }

  lemma MetaSlices(x: Bytes, y: Bytes, z: Bytes)
    requires |x| == 16 && |y| == 12 && |z| == 16
    ensures var b := x + y + z;
            && b[..8] == x[..8] && b[12..16] == x[12..16]
            && b[16..20] == y[..4] && b[20..24] == y[4..8] && b[24..28] == y[8..]
            && b[28..36] == z[..8] && b[36..44] == z[8..]
  {
  }

  lemma HeadFields()
    ensures FromLE(MetaHead()[..8]) == META_MAGIC && FromLE(MetaHead()[12..16]) == PAGE_SIZE
  {
    hide LE, FromLE, Pow256;
    WordLimits();
    LERoundTrip(META_MAGIC, 8);
    LERoundTrip(PAGE_SIZE, 4);
    var a, b, c := LE(META_MAGIC, 8), LE(META_VERSION, 4), LE(PAGE_SIZE, 4);
    assert MetaHead()[..8] == a && MetaHead()[12..16] == c;
  }

  lemma IdFields(m: FilePage)
    requires m.MetaPage? && PageFits(m)
    ensures var y := MetaIds(m);
            FromLE(y[..4]) == m.root && Pointer(FromLE(y[4..8])) == m.freeHead && FromLE(y[8..]) == m.count
  {
    hide LE, FromLE, Pow256;
    WordLimits();
    PointerBack(m.freeHead);
    LERoundTrip(m.root, 4);
    LERoundTrip(Raw(m.freeHead), 4);
    LERoundTrip(m.count, 4);
    var y := MetaIds(m);
    assert y[..4] == LE(m.root, 4) && y[4..8] == LE(Raw(m.freeHead), 4) && y[8..] == LE(m.count, 4);
  }

  lemma StampFields(m: FilePage)
    requires m.MetaPage? && PageFits(m)
    ensures var z := MetaStamps(m);
            FromLE(z[..8]) == m.treeTs && FromLE(z[8..]) == m.nextTxnId
  {
    hide LE, FromLE, Pow256;
    WordLimits();
    LERoundTrip(m.treeTs, 8);
    LERoundTrip(m.nextTxnId, 8);
    var z := MetaStamps(m);
    assert z[..8] == LE(m.treeTs, 8) && z[8..] == LE(m.nextTxnId, 8);
  }

  // ---- which bytes matter ------------------------------------------------------------

  lemma SameWord(b: Image, b': Image, off: nat)
    requires b[OFF_NUM_KEYS..] == b'[OFF_NUM_KEYS..] && OFF_NUM_KEYS <= off && off + 2 <= PAGE_SIZE
    ensures U16(b, off) == U16(b', off)
  {
    var t, t' := b[OFF_NUM_KEYS..], b'[OFF_NUM_KEYS..];
    assert b[off] == t[off - OFF_NUM_KEYS] && b'[off] == t'[off - OFF_NUM_KEYS];
    assert b[off + 1] == t[off + 1 - OFF_NUM_KEYS] && b'[off + 1] == t'[off + 1 - OFF_NUM_KEYS];
  }

  lemma SameDirectory(b: Image, b': Image)
    requires b[OFF_NUM_KEYS..] == b'[OFF_NUM_KEYS..]
    ensures NumKeys(b) == NumKeys(b') && CellStart(b) == CellStart(b')
    ensures forall i: nat | SlotAt(i + 1) <= PAGE_SIZE :: SlotOff(b, i) == SlotOff(b', i) && SlotLen(b, i) == SlotLen(b', i)
  {
    hide U16;
    SameWord(b, b', OFF_NUM_KEYS);
    SameWord(b, b', OFF_CELL_START);
    forall i: nat | SlotAt(i + 1) <= PAGE_SIZE ensures SlotOff(b, i) == SlotOff(b', i) && SlotLen(b, i) == SlotLen(b', i) {
      SameWord(b, b', SlotAt(i));
      SameWord(b, b', SlotAt(i) + 2);
    }
  }

  /** Slots and cells lie behind the first half of the header. */
  lemma SameCells(b: Image, b': Image)
    requires b[OFF_NUM_KEYS..] == b'[OFF_NUM_KEYS..]
    ensures Formed(b) <==> Formed(b')
    ensures Formed(b) ==> Cells(b) == Cells(b')
    ensures Sound(b) ==> Sound(b')
  {
    hide SlotOff, SlotLen, NumKeys, CellStart, HeapBytes;
    SameDirectory(b, b');
    if Formed(b) { SameFormed(b, b'); }
    if Formed(b') { SameFormed(b', b); }
    if Formed(b) {
      forall i | 0 <= i < NumKeys(b) ensures CellAt(b, i) == CellAt(b', i) {
        assert InHeap(b, i) && InHeap(b', i);
        SameSlice(b, b', OFF_NUM_KEYS, SlotOff(b, i), SlotOff(b, i) + SlotLen(b, i));
      }
      assert Cells(b) == Cells(b');
      if Sound(b) {
        forall i, j | 0 <= i < j < NumKeys(b') ensures Apart(b', i, j) { assert Apart(b, i, j); }
      }
    }
  }

  lemma SameFormed(b: Image, b': Image)
    requires b[OFF_NUM_KEYS..] == b'[OFF_NUM_KEYS..] && Formed(b)
    ensures Formed(b')
  {
    hide SlotOff, SlotLen, NumKeys, CellStart;
    SameDirectory(b, b');
    forall i | 0 <= i < NumKeys(b') ensures InHeap(b', i) { assert InHeap(b, i); }
  }

  lemma SameSlice(b: Image, b': Image, from: nat, lo: nat, hi: nat)
    requires from <= lo <= hi <= PAGE_SIZE && b[from..] == b'[from..]
    ensures b[lo..hi] == b'[lo..hi]
  {
    forall k | lo <= k < hi ensures b[k] == b'[k] {
      assert b[k] == b[from..][k - from] && b'[k] == b'[from..][k - from];
    }
  }

  /** The checksum is no part of what a page says. */
  lemma SameSays(b: Image, b': Image)
    requires b[4..] == b'[4..]
    ensures Says(b) == Says(b') && b[4..8] == b'[4..8]
  {
    hide Formed, Cells, DecodeCells, DecodeSeps, ReadMeta, FromLE;
    SameSlice(b, b', 4, 4, 8);
    SameSlice(b, b', 4, OFF_EXTRA, OFF_EXTRA + 4);
    SameSlice(b, b', 4, OFF_PAGE_TYPE, OFF_PAGE_TYPE + 1);
    assert b[OFF_PAGE_TYPE..OFF_PAGE_TYPE + 1] == [b[OFF_PAGE_TYPE]] && b'[OFF_PAGE_TYPE..OFF_PAGE_TYPE + 1] == [b'[OFF_PAGE_TYPE]];
    SameSlice(b, b', 4, OFF_NUM_KEYS, PAGE_SIZE);
    assert b[OFF_NUM_KEYS..PAGE_SIZE] == b[OFF_NUM_KEYS..] && b'[OFF_NUM_KEYS..PAGE_SIZE] == b'[OFF_NUM_KEYS..];
    SameCells(b, b');
    SameSlice(b, b', 4, PAGE_HEADER_SIZE, PAGE_HEADER_SIZE + 44);
    SameSlice(b, b', 4, 32, 36);
    if OverflowLength(b) <= OVERFLOW_PAYLOAD { SameSlice(b, b', 4, 40, 40 + OverflowLength(b)); }
  }

  // ---- writing -----------------------------------------------------------------------

  function Kind(x: FilePage): nat {
    match x
    case TreePage(FreePage(_)) => 0
    case TreePage(NodePage(_, _)) => 1
    case TreePage(LeafPage(_, _)) => 2
    case TreePage(OverflowPage(_, _)) => 3
    case MetaPage(_, _, _, _, _) => 4
  }

  /** A page that says `x` under number `id`, its checksum aside. */
  ghost predicate Drafted(b: Image, id: nat, x: FilePage) {
    Says(b) == Some(x) && FromLE(b[4..8]) == id
  }

  /** Writes a page the way a flush stages it: filled in, then checksummed. It reads back
      as itself. */
  method RenderPage(x: FilePage, id: nat, crc: Checksum) returns (b: Bytes)
    requires PageFits(x) && id < U32_LIMIT
    ensures |b| == PAGE_SIZE && ReadPage(b, id, crc) == Some(x)
  {
    hide PageFits, Says, Sound, LE, FromLE;
    var p := new Page(id, Kind(x));
    Draft(p, x, id);
    ghost var was := p.View();
    p.Write(0, LE(crc(p.buf[4..]), 4));
    Finalized(was, p.View(), crc);
    b := p.buf[..];
  }

  lemma Finalized(b: Image, b': Image, crc: Checksum)
    requires Wrote(b, b', 0, LE(crc(b[4..]), 4))
    ensures Says(b) == Says(b') && b'[4..8] == b[4..8] && FromLE(b'[..4]) == crc(b'[4..])
  {
    hide Says, LE, FromLE, Pow256;
    WordLimits();
    LERoundTrip(crc(b[4..]), 4);
    WroteSlice(b, b', 0, LE(crc(b[4..]), 4), 4, PAGE_SIZE);
    assert b[4..PAGE_SIZE] == b[4..] && b'[4..PAGE_SIZE] == b'[4..];
    assert b'[0..4] == b'[..4];
    SameSays(b, b');
  }

  /** Fills in a new page of the right kind. */
  method Draft(p: Page, x: FilePage, id: nat)
    requires p.Valid() && PageFits(x) && Sound(p.View()) && p.View()[OFF_PAGE_TYPE] == Kind(x)
    requires Formed(p.View()) && Cells(p.View()) == [] && FromLE(p.View()[4..8]) == id
    modifies p.buf
    ensures Drafted(p.View(), id, x)
  {
    hide Sound, Formed, Cells, Drafted, UsedBytes, Encodable, SepFits;
    match x
    case TreePage(FreePage(next)) => DraftFree(p, next, id);
    case TreePage(NodePage(first, seps)) => DraftNode(p, first, seps, id);
    case TreePage(LeafPage(cells, next)) => DraftLeaf(p, cells, next, id);
    case TreePage(OverflowPage(payload, next)) => DraftOverflow(p, payload, next, id);
    case MetaPage(_, _, _, _, _) => DraftMeta(p, x, id);
  }

  /** Writes the link field of a page and nothing else. */
  method SetExtra(p: Page, extra: nat)
    requires p.Valid() && extra < U32_LIMIT && Formed(p.View())
    modifies p.buf
    ensures Formed(p.View()) && Extra(p.View()) == extra && Cells(p.View()) == old(Cells(p.View()))
    ensures old(Sound(p.View())) ==> Sound(p.View())
    ensures p.View()[4..8] == old(p.View()[4..8]) && p.View()[OFF_PAGE_TYPE] == old(p.View()[OFF_PAGE_TYPE])
  {
    hide Sound, Formed, Cells, LE, FromLE;
    ghost var was := p.View();
    p.Write(OFF_EXTRA, LE(extra, 4));
    ExtraWritten(was, p.View(), extra);
  }

  lemma ExtraWritten(b: Image, b': Image, extra: nat)
    requires extra < U32_LIMIT && Wrote(b, b', OFF_EXTRA, LE(extra, 4))
    ensures Extra(b') == extra && b'[4..8] == b[4..8] && b'[OFF_PAGE_TYPE] == b[OFF_PAGE_TYPE]
    ensures Formed(b') <==> Formed(b)
    ensures Formed(b) ==> Cells(b') == Cells(b)
    ensures Sound(b) ==> Sound(b')
  {
    hide Sound, Formed, Cells, LE, FromLE, Pow256;
    WordLimits();
    LERoundTrip(extra, 4);
    WroteSlice(b, b', OFF_EXTRA, LE(extra, 4), 4, 8);
    WroteSlice(b, b', OFF_EXTRA, LE(extra, 4), OFF_NUM_KEYS, PAGE_SIZE);
    assert b[OFF_NUM_KEYS..PAGE_SIZE] == b[OFF_NUM_KEYS..] && b'[OFF_NUM_KEYS..PAGE_SIZE] == b'[OFF_NUM_KEYS..];
    SameCells(b, b');
  }

  method DraftFree(p: Page, next: Option<nat>, id: nat)
    requires p.Valid() && PointerFits(next) && p.View()[OFF_PAGE_TYPE] == 0 && Formed(p.View()) && FromLE(p.View()[4..8]) == id
    modifies p.buf
    ensures Drafted(p.View(), id, TreePage(BTreePages.FreePage(next)))
  {
    hide Sound, Formed, Cells, FromLE, Extra;
    PointerBack(next);
    SetExtra(p, Raw(next));
  }

  /** Adds cells to an empty page, one after the other. */
  method AddCells(p: Page, cs: seq<Bytes>)
    requires p.Valid() && Sound(p.View()) && Formed(p.View()) && Cells(p.View()) == [] && UsedBytes(cs) <= USABLE_SPACE
    modifies p.buf
    ensures Formed(p.View()) && Cells(p.View()) == cs && SameHeader(old(p.View()), p.View())
  {
    hide Sound, Formed, Cells, UsedBytes, SameHeader, CompactAborts, CompactDamages, Takes;
    SameHeaderSelf(p.View());
    for i := 0 to |cs|
      invariant Sound(p.View()) && Formed(p.View()) && Cells(p.View()) == cs[..i] && SameHeader(old(p.View()), p.View())
    {
      UsedNext(cs, i);
      ghost var was := p.View();
      var o := p.InsertCellAt(i, cs[i]);
      SameHeaderThrough(old(p.View()), was, p.View());
      assert Inserted(cs[..i], i, cs[i]) == cs[..i + 1];
    }
    assert cs[..|cs|] == cs;
  }

  lemma UsedNext(cs: seq<Bytes>, i: nat)
    requires i < |cs|
    ensures UsedBytes(cs[..i]) + |cs[i]| + SLOT_SIZE <= UsedBytes(cs)
  {
    UsedIsHeap(cs);
    UsedIsHeap(cs[..i]);
    HeapNext(cs, i);
    HeapPrefix(cs, i + 1);
  }

  /** What a header keeps when cells are added. */
  lemma HeaderKept(b: Image, b': Image)
    requires SameHeader(b, b')
    ensures Extra(b') == Extra(b) && b'[4..8] == b[4..8] && b'[OFF_PAGE_TYPE] == b[OFF_PAGE_TYPE]
  {
    hide FromLE;
    var x, x' := b[..OFF_NUM_KEYS], b'[..OFF_NUM_KEYS];
    assert b[OFF_EXTRA..OFF_EXTRA + 4] == x[OFF_EXTRA..OFF_EXTRA + 4] && b'[OFF_EXTRA..OFF_EXTRA + 4] == x'[OFF_EXTRA..OFF_EXTRA + 4];
    assert b[4..8] == x[4..8] && b'[4..8] == x'[4..8];
    assert b[OFF_PAGE_TYPE] == b[OFF_PAGE_TYPE..PAGE_HEADER_SIZE][0] && b'[OFF_PAGE_TYPE] == b'[OFF_PAGE_TYPE..PAGE_HEADER_SIZE][0];
  }

  method DraftLeaf(p: Page, cells: seq<BTreePages.Cell>, next: Option<nat>, id: nat)
    requires p.Valid() && PageFits(TreePage(BTreePages.LeafPage(cells, next))) && p.View()[OFF_PAGE_TYPE] == 2
    requires Sound(p.View()) && Formed(p.View()) && Cells(p.View()) == [] && FromLE(p.View()[4..8]) == id
    modifies p.buf
    ensures Drafted(p.View(), id, TreePage(BTreePages.LeafPage(cells, next)))
  {
    hide Sound, Formed, Cells, FromLE, Extra, UsedBytes, EncodeCells, DecodeCells, Encodable, SameHeader;
    PointerBack(next);
    CellsBack(cells);
    SetExtra(p, Raw(next));
    ghost var was := p.View();
    AddCells(p, EncodeCells(cells));
    HeaderKept(was, p.View());
  }

  method DraftNode(p: Page, first: nat, seps: seq<BTreePages.Sep>, id: nat)
    requires p.Valid() && PageFits(TreePage(BTreePages.NodePage(first, seps))) && p.View()[OFF_PAGE_TYPE] == 1
    requires Sound(p.View()) && Formed(p.View()) && Cells(p.View()) == [] && FromLE(p.View()[4..8]) == id
    modifies p.buf
    ensures Drafted(p.View(), id, TreePage(BTreePages.NodePage(first, seps)))
  {
    hide Sound, Formed, Cells, FromLE, Extra, UsedBytes, EncodeSeps, DecodeSeps, SepFits, SameHeader;
    SepsBack(seps);
    SetExtra(p, first);
    ghost var was := p.View();
    AddCells(p, EncodeSeps(seps));
    HeaderKept(was, p.View());
  }

  method DraftOverflow(p: Page, payload: Bytes, next: Option<nat>, id: nat)
    requires p.Valid() && PointerFits(next) && |payload| <= OVERFLOW_PAYLOAD && FromLE(p.View()[4..8]) == id
    modifies p.buf
    ensures Drafted(p.View(), id, TreePage(BTreePages.OverflowPage(payload, next)))
  {
    hide FromLE, LE;
    PointerBack(next);
    var o := WriteOverflow(p, payload, Raw(next));
  }

  method DraftMeta(p: Page, m: FilePage, id: nat)
    requires p.Valid() && m.MetaPage? && PageFits(m) && p.View()[OFF_PAGE_TYPE] == 4 && FromLE(p.View()[4..8]) == id
    modifies p.buf
    ensures Drafted(p.View(), id, m)
  {
    hide FromLE, LE, MetaHead, MetaIds, MetaStamps, ReadMeta, PageFits;
    var block := MetaHead() + MetaIds(m) + MetaStamps(m);
    ghost var was := p.View();
    p.Write(PAGE_HEADER_SIZE, block);
    WroteSlice(was, p.View(), PAGE_HEADER_SIZE, block, 4, 8);
    MetaBack(m);
  }
}
