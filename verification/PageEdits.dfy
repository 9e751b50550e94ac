/** The byte writes of one page operation, composed. */
module PageEdits {
  import opened Bytes
  import opened PageLayout
  import opened PageImage

  /** `b1` to `b5` are the page after each write of an insertion into `b`. */
  datatype Trace = Trace(b1: Image, b2: Image, b3: Image, b4: Image, b5: Image)

  function SlotBytes(off: nat, len: nat): (w: Bytes)
    requires off < 0x1_0000 && len < 0x1_0000
    ensures |w| == SLOT_SIZE
  {
    Word(off) + Word(len)
  }

  /** Cell bytes, heap start, slots moved up, new slot, count. */
  ghost predicate Insertion(b: Image, t: Trace, index: nat, cell: Bytes) {
    && Formed(b) && index <= NumKeys(b) && |cell| + SLOT_SIZE <= FreeSpace(b)
    && var low := CellStart(b) - |cell|;
    && Wrote(b, t.b1, low, cell)
    && Wrote(t.b1, t.b2, OFF_CELL_START, Word(low))
    && Wrote(t.b2, t.b3, SlotAt(index + 1), t.b2[SlotAt(index)..SlotAt(NumKeys(b))])
    && Wrote(t.b3, t.b4, SlotAt(index), SlotBytes(low, |cell|))
    && Wrote(t.b4, t.b5, OFF_NUM_KEYS, Word(NumKeys(b) + 1))
  }

  lemma InsertionRoom(b: Image, index: nat, cell: Bytes)
    requires Formed(b) && index <= NumKeys(b) && |cell| + SLOT_SIZE <= FreeSpace(b)
    ensures SlotAt(index) <= SlotAt(NumKeys(b)) < SlotAt(NumKeys(b) + 1) <= CellStart(b) - |cell|
    ensures CellStart(b) <= PAGE_SIZE
  {
  }

  lemma InsertionHeader(b: Image, t: Trace, index: nat, cell: Bytes)
    requires Insertion(b, t, index, cell)
    ensures NumKeys(t.b5) == NumKeys(b) + 1 && CellStart(t.b5) == CellStart(b) - |cell|
    ensures SameHeader(b, t.b5)
  {
    InsertionRoom(b, index, cell);
    hide Formed;
    var low := CellStart(b) - |cell|;
    WroteWord(t.b4, t.b5, OFF_NUM_KEYS, Word(NumKeys(b) + 1), 0);
    WroteWord(t.b1, t.b2, OFF_CELL_START, Word(low), 0);
    WroteElsewhere(t.b2, t.b3, SlotAt(index + 1), t.b2[SlotAt(index)..SlotAt(NumKeys(b))], OFF_CELL_START);
    WroteElsewhere(t.b3, t.b4, SlotAt(index), SlotBytes(low, |cell|), OFF_CELL_START);
    WroteElsewhere(t.b4, t.b5, OFF_NUM_KEYS, Word(NumKeys(b) + 1), OFF_CELL_START);
  }

  lemma InsertionHeap(b: Image, t: Trace, index: nat, cell: Bytes)
    requires Insertion(b, t, index, cell)
    ensures t.b5[CellStart(b) - |cell|..CellStart(b)] == cell && t.b5[CellStart(b)..] == b[CellStart(b)..]
  {
    InsertionRoom(b, index, cell);
    hide Formed;
    var low, s := CellStart(b) - |cell|, CellStart(b);
    assert t.b1[low..low + |cell|] == cell;
    AboveKept(t.b1, t.b2, OFF_CELL_START, Word(low), low);
    AboveKept(t.b2, t.b3, SlotAt(index + 1), t.b2[SlotAt(index)..SlotAt(NumKeys(b))], low);
    AboveKept(t.b3, t.b4, SlotAt(index), SlotBytes(low, |cell|), low);
    AboveKept(t.b4, t.b5, OFF_NUM_KEYS, Word(NumKeys(b) + 1), low);
    hide Insertion;
    assert t.b5[low..] == t.b1[low..];
    assert t.b5[low..s] == t.b5[low..][..|cell|] && t.b1[low..s] == t.b1[low..][..|cell|];
    assert t.b5[s..] == t.b5[low..][|cell|..] && t.b1[s..] == t.b1[low..][|cell|..];
    assert Insertion(b, t, index, cell) ==> t.b1[s..] == b[s..] by { FirstWriteBelow(b, t, index, cell); }
  }

  lemma FirstWriteBelow(b: Image, t: Trace, index: nat, cell: Bytes)
    ensures Insertion(b, t, index, cell) ==> t.b1[CellStart(b)..] == b[CellStart(b)..]
  {
    if Insertion(b, t, index, cell) {
      WroteSlice(b, t.b1, CellStart(b) - |cell|, cell, CellStart(b), PAGE_SIZE);
    }
  }

  lemma AboveKept(b: Image, b': Image, at: nat, data: Bytes, low: nat)
    requires Wrote(b, b', at, data) && at + |data| <= low <= PAGE_SIZE
    ensures b'[low..] == b[low..]
  {
    WroteSlice(b, b', at, data, low, PAGE_SIZE);
  }

  /** Slot words below the opened slot stay; those at or above it move up by one. */
  lemma InsertionWord(b: Image, t: Trace, index: nat, cell: Bytes, j: nat, d: nat)
    requires Insertion(b, t, index, cell) && j <= NumKeys(b) && j != index && d <= 2
    ensures SlotAt(Before(index, j) + 1) <= PAGE_SIZE && SlotAt(j + 1) <= PAGE_SIZE
    ensures U16(t.b5, SlotAt(j) + d) == U16(b, SlotAt(Before(index, j)) + d)
  {
    InsertionRoom(b, index, cell);
    hide Formed, Wrote, U16;
    var low, i := CellStart(b) - |cell|, Before(index, j);
    var moved := t.b2[SlotAt(index)..SlotAt(NumKeys(b))];
    WroteElsewhere(b, t.b1, low, cell, SlotAt(i) + d);
    WroteElsewhere(t.b1, t.b2, OFF_CELL_START, Word(low), SlotAt(i) + d);
    if j < index {
      WroteElsewhere(t.b2, t.b3, SlotAt(index + 1), moved, SlotAt(j) + d);
    } else {
      MovedWord(t.b2, t.b3, SlotAt(index + 1), SlotAt(index), SlotAt(NumKeys(b)), SlotAt(i) + d - SlotAt(index));
    }
    WroteElsewhere(t.b3, t.b4, SlotAt(index), SlotBytes(low, |cell|), SlotAt(j) + d);
    WroteElsewhere(t.b4, t.b5, OFF_NUM_KEYS, Word(NumKeys(b) + 1), SlotAt(j) + d);
  }

  lemma MovedWord(b: Image, b': Image, at: nat, lo: nat, hi: nat, k: nat)
    requires lo <= hi <= PAGE_SIZE && Wrote(b, b', at, b[lo..hi]) && lo + k + 2 <= hi
    ensures at + k + 2 <= PAGE_SIZE && U16(b', at + k) == U16(b, lo + k)
  {
    WroteWord(b, b', at, b[lo..hi], k);
  }

  lemma InsertionSlot(b: Image, t: Trace, index: nat, cell: Bytes)
    requires Insertion(b, t, index, cell)
    ensures SlotAt(index + 1) <= PAGE_SIZE
    ensures SlotOff(t.b5, index) == CellStart(b) - |cell| && SlotLen(t.b5, index) == |cell|
  {
    InsertionRoom(b, index, cell);
    hide Formed;
    var low := CellStart(b) - |cell|;
    WroteWord(t.b3, t.b4, SlotAt(index), SlotBytes(low, |cell|), 0);
    WroteWord(t.b3, t.b4, SlotAt(index), SlotBytes(low, |cell|), 2);
    WroteElsewhere(t.b4, t.b5, OFF_NUM_KEYS, Word(NumKeys(b) + 1), SlotAt(index));
    WroteElsewhere(t.b4, t.b5, OFF_NUM_KEYS, Word(NumKeys(b) + 1), SlotAt(index) + 2);
  }

  /** The five writes together open one slot. */
  lemma InsertionGrows(b: Image, t: Trace, index: nat, cell: Bytes)
    requires Insertion(b, t, index, cell)
    ensures Grown(b, t.b5, index, cell) && SameHeader(b, t.b5)
  {
    InsertionHeader(b, t, index, cell);
    InsertionHeap(b, t, index, cell);
    InsertionSlot(b, t, index, cell);
    forall j | 0 <= j <= NumKeys(b) && j != index ensures SameSlot(b, Before(index, j), t.b5, j) {
      InsertionWord(b, t, index, cell, j, 0);
      InsertionWord(b, t, index, cell, j, 2);
    }
  }

  /** Slots moved down, then the count: together they close one slot. */
  lemma RemovalShrinks(b: Image, b1: Image, b2: Image, index: nat)
    requires Formed(b) && index < NumKeys(b)
    requires Wrote(b, b1, SlotAt(index), b[SlotAt(index + 1)..SlotAt(NumKeys(b))])
    requires Wrote(b1, b2, OFF_NUM_KEYS, Word(NumKeys(b) - 1))
    ensures Shrunk(b, b2, index) && SameHeader(b, b2)
  {
    var moved := b[SlotAt(index + 1)..SlotAt(NumKeys(b))];
    WroteWord(b1, b2, OFF_NUM_KEYS, Word(NumKeys(b) - 1), 0);
    AboveKept(b, b1, SlotAt(index), moved, CellStart(b));
    AboveKept(b1, b2, OFF_NUM_KEYS, Word(NumKeys(b) - 1), CellStart(b));
    forall j | 0 <= j < NumKeys(b) - 1 ensures SameSlot(b, After(index, j), b2, j) {
      RemovalWord(b, b1, b2, index, j, 0);
      RemovalWord(b, b1, b2, index, j, 2);
    }
  }

  lemma RemovalWord(b: Image, b1: Image, b2: Image, index: nat, j: nat, d: nat)
    requires Formed(b) && index < NumKeys(b) && j < NumKeys(b) - 1 && d <= 2
    requires Wrote(b, b1, SlotAt(index), b[SlotAt(index + 1)..SlotAt(NumKeys(b))])
    requires Wrote(b1, b2, OFF_NUM_KEYS, Word(NumKeys(b) - 1))
    ensures U16(b2, SlotAt(j) + d) == U16(b, SlotAt(After(index, j)) + d)
  {
    hide Wrote, U16;
    if j < index {
      WroteElsewhere(b, b1, SlotAt(index), b[SlotAt(index + 1)..SlotAt(NumKeys(b))], SlotAt(j) + d);
    } else {
      MovedWord(b, b1, SlotAt(index), SlotAt(index + 1), SlotAt(NumKeys(b)), SlotAt(j) + d - SlotAt(index));
    }
    WroteElsewhere(b1, b2, OFF_NUM_KEYS, Word(NumKeys(b) - 1), SlotAt(j) + d);
  }

  /** Bytes below the heap and outside the directory survive a packing round. */
  lemma PackedHeader(b: Image, b1: Image, b2: Image, at: nat, cell: Bytes, i: nat, slot: Bytes)
    requires Wrote(b, b1, at, cell) && PAGE_HEADER_SIZE <= at && Wrote(b1, b2, SlotAt(i), slot)
    ensures b2[..PAGE_HEADER_SIZE] == b[..PAGE_HEADER_SIZE]
  {
    WroteSlice(b, b1, at, cell, 0, PAGE_HEADER_SIZE);
    WroteSlice(b1, b2, SlotAt(i), slot, 0, PAGE_HEADER_SIZE);
    assert b2[0..PAGE_HEADER_SIZE] == b2[..PAGE_HEADER_SIZE] && b[0..PAGE_HEADER_SIZE] == b[..PAGE_HEADER_SIZE];
  }

  lemma HeaderWords(b: Image, b': Image)
    requires b'[..PAGE_HEADER_SIZE] == b[..PAGE_HEADER_SIZE]
    ensures NumKeys(b') == NumKeys(b) && CellStart(b') == CellStart(b) && SameHeader(b, b')
  {
    var h, h' := b[..PAGE_HEADER_SIZE], b'[..PAGE_HEADER_SIZE];
    assert forall k | 0 <= k < PAGE_HEADER_SIZE :: b[k] == h[k] && b'[k] == h'[k];
  }

  /** Writing the heap start finishes a compaction. */
  lemma PackedEnd(b: Image, b': Image, cs: seq<Bytes>)
    requires UsedBytes(cs) <= USABLE_SPACE && NumKeys(b) == |cs| && PackedTo(b, cs, |cs|)
    requires 0 <= PackedAt(cs, |cs|) < 0x1_0000 && Wrote(b, b', OFF_CELL_START, Word(PackedAt(cs, |cs|)))
    ensures NumKeys(b') == |cs| && CellStart(b') == PackedAt(cs, |cs|) && PackedTo(b', cs, |cs|) && SameHeader(b, b')
  {
    var w := Word(PackedAt(cs, |cs|));
    WroteWord(b, b', OFF_CELL_START, w, 0);
    WroteElsewhere(b, b', OFF_CELL_START, w, OFF_NUM_KEYS);
    forall j | 0 <= j < |cs| ensures PackedCell(b', cs, j) {
      assert PackedCell(b, cs, j);
      PackedRoom(cs, j);
      WroteElsewhere(b, b', OFF_CELL_START, w, SlotAt(j));
      WroteElsewhere(b, b', OFF_CELL_START, w, SlotAt(j) + 2);
      WroteSlice(b, b', OFF_CELL_START, w, SlotOff(b, j), SlotOff(b, j) + SlotLen(b, j));
    }
  }
}
