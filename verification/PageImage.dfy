/** The 4096-byte slotted page as bytes: header words, slot directory, cell heap,
    and what each edit of the bytes means for the sequence of cells. */
module PageImage {
  import opened Bytes
  import opened PageLayout

  const OFF_NUM_KEYS: nat := 16
  const OFF_CELL_START: nat := 18
  const OFF_PAGE_TYPE: nat := 20
  const OFF_IS_LEAF: nat := 21

  type Image = b: Bytes | |b| == PAGE_SIZE witness seq(PAGE_SIZE, _ => 0)

  function Join(low: int, high: int): int { low + 256 * high }

  function U16(b: Image, off: nat): (v: nat)
    requires off + 2 <= PAGE_SIZE
    ensures v < 0x1_0000
  {
    Join(b[off], b[off + 1])
  }

  function Word(v: nat): (w: Bytes)
    requires v < 0x1_0000
    ensures |w| == 2 && Join(w[0], w[1]) == v
  {
    [v % 256, v / 256]
  }

  function NumKeys(b: Image): nat { U16(b, OFF_NUM_KEYS) }
  function CellStart(b: Image): nat { U16(b, OFF_CELL_START) }

  function SlotAt(i: nat): nat { PAGE_HEADER_SIZE + i * SLOT_SIZE }

  function SlotOff(b: Image, i: nat): nat
    requires SlotAt(i + 1) <= PAGE_SIZE
  {
    U16(b, SlotAt(i))
  }

  function SlotLen(b: Image, i: nat): nat
    requires SlotAt(i + 1) <= PAGE_SIZE
  {
    U16(b, SlotAt(i) + 2)
  }

  // ---- what the bytes must satisfy ------------------------------------------

  predicate InHeap(b: Image, i: nat)
    requires SlotAt(i + 1) <= PAGE_SIZE
  {
    CellStart(b) <= SlotOff(b, i) && SlotOff(b, i) + SlotLen(b, i) <= PAGE_SIZE
  }

  /** The directory ends before the heap and every slot points into the heap. */
  predicate Formed(b: Image) {
    && PAGE_HEADER_SIZE + NumKeys(b) * SLOT_SIZE <= CellStart(b) <= PAGE_SIZE
    && forall i | 0 <= i < NumKeys(b) :: InHeap(b, i)
  }

  function CellAt(b: Image, i: nat): (c: Bytes)
    requires Formed(b) && i < NumKeys(b)
    ensures |c| == SlotLen(b, i)
  {
    assert InHeap(b, i);
    b[SlotOff(b, i)..SlotOff(b, i) + SlotLen(b, i)]
  }

  /** The page's abstract value. */
  function Cells(b: Image): (cs: seq<Bytes>)
    requires Formed(b)
  {
    seq(NumKeys(b), i requires 0 <= i < NumKeys(b) => CellAt(b, i))
  }

  function HeapBytes(cs: seq<Bytes>): nat {
    if cs == [] then 0 else HeapBytes(cs[..|cs| - 1]) + |cs[|cs| - 1]|
  }

  /** Bytes the cells take together with their slots. */
  function UsedBytes(cs: seq<Bytes>): nat {
    if cs == [] then 0 else UsedBytes(cs[..|cs| - 1]) + |cs[|cs| - 1]| + SLOT_SIZE
  }

  function FreeSpace(b: Image): nat {
    var end := PAGE_HEADER_SIZE + NumKeys(b) * SLOT_SIZE;
    if end <= CellStart(b) then CellStart(b) - end else 0
  }

  predicate Apart(b: Image, i: nat, j: nat)
    requires SlotAt(i + 1) <= PAGE_SIZE && SlotAt(j + 1) <= PAGE_SIZE
  {
    SlotOff(b, i) + SlotLen(b, i) <= SlotOff(b, j) || SlotOff(b, j) + SlotLen(b, j) <= SlotOff(b, i)
  }

  /** No two cells share a byte. */
  predicate AllApart(b: Image)
    requires Formed(b)
  {
    forall i, j | 0 <= i < j < NumKeys(b) :: Apart(b, i, j)
  }

  /** What every page built by the page operations satisfies. */
  predicate Sound(b: Image) {
    Formed(b) && AllApart(b) && CellStart(b) + HeapBytes(Cells(b)) <= PAGE_SIZE
  }

  /** Header bytes other than the cell count and the heap start. */
  predicate SameHeader(b: Image, b': Image) {
    b[..OFF_NUM_KEYS] == b'[..OFF_NUM_KEYS] && b[OFF_PAGE_TYPE..PAGE_HEADER_SIZE] == b'[OFF_PAGE_TYPE..PAGE_HEADER_SIZE]
  }

  // ---- sums -----------------------------------------------------------------

  function Inserted(cs: seq<Bytes>, i: nat, c: Bytes): seq<Bytes>
    requires i <= |cs|
  {
    cs[..i] + [c] + cs[i..]
  }

  function Removed(cs: seq<Bytes>, i: nat): seq<Bytes>
    requires i < |cs|
  {
    cs[..i] + cs[i + 1..]
  }

  lemma {:induction false} UsedIsHeap(cs: seq<Bytes>)
    ensures UsedBytes(cs) == HeapBytes(cs) + SLOT_SIZE * |cs|
  {
    if cs != [] { UsedIsHeap(cs[..|cs| - 1]); }
  }

  lemma {:induction false} HeapInserted(cs: seq<Bytes>, i: nat, c: Bytes)
    requires i <= |cs|
    ensures HeapBytes(Inserted(cs, i, c)) == HeapBytes(cs) + |c|
  {
    var n := |cs|;
    var r := Inserted(cs, i, c);
    if i == n {
      assert r[..n] == cs;
    } else {
      HeapInserted(cs[..n - 1], i, c);
      assert r[..n] == Inserted(cs[..n - 1], i, c);
    }
  }

  lemma HeapRemoved(cs: seq<Bytes>, i: nat)
    requires i < |cs|
    ensures HeapBytes(Removed(cs, i)) + |cs[i]| == HeapBytes(cs)
  {
    HeapInserted(Removed(cs, i), i, cs[i]);
    assert Inserted(Removed(cs, i), i, cs[i]) == cs;
  }

  lemma {:induction false} HeapPrefix(cs: seq<Bytes>, i: nat)
    requires i <= |cs|
    ensures HeapBytes(cs[..i]) <= HeapBytes(cs)
    decreases |cs|
  {
    if i < |cs| {
      HeapPrefix(cs[..|cs| - 1], i);
      assert cs[..|cs| - 1][..i] == cs[..i];
    } else {
      assert cs[..i] == cs;
    }
  }

  lemma HeapNext(cs: seq<Bytes>, i: nat)
    requires i < |cs|
    ensures HeapBytes(cs[..i + 1]) == HeapBytes(cs[..i]) + |cs[i]|
  {
    assert cs[..i + 1][..i] == cs[..i];
  }

  // ---- one write ------------------------------------------------------------

  /** `b'` is `b` with `data` written at `at`. */
  ghost predicate Wrote(b: Image, b': Image, at: nat, data: Bytes) {
    && at + |data| <= PAGE_SIZE
    && (forall k | 0 <= k < at || at + |data| <= k < PAGE_SIZE :: b'[k] == b[k])
    && b'[at..at + |data|] == data
  }

  lemma WroteElsewhere(b: Image, b': Image, at: nat, data: Bytes, off: nat)
    requires Wrote(b, b', at, data) && off + 2 <= PAGE_SIZE && (off + 2 <= at || at + |data| <= off)
    ensures U16(b', off) == U16(b, off)
  {
  }

  lemma WroteWord(b: Image, b': Image, at: nat, data: Bytes, i: nat)
    requires Wrote(b, b', at, data) && i + 2 <= |data|
    ensures U16(b', at + i) == Join(data[i], data[i + 1])
  {
    var w := b'[at..at + |data|];
    assert w[i] == b'[at + i] && w[i + 1] == b'[at + i + 1];
  }

  lemma WroteSlice(b: Image, b': Image, at: nat, data: Bytes, lo: nat, hi: nat)
    requires Wrote(b, b', at, data) && lo <= hi <= PAGE_SIZE && (hi <= at || at + |data| <= lo)
    ensures b'[lo..hi] == b[lo..hi]
  {
  }

  // ---- insertion ------------------------------------------------------------

  ghost predicate SameSlot(b: Image, i: nat, b': Image, j: nat) {
    && SlotAt(i + 1) <= PAGE_SIZE && SlotAt(j + 1) <= PAGE_SIZE
    && SlotOff(b', j) == SlotOff(b, i) && SlotLen(b', j) == SlotLen(b, i)
  }

  /** The slot of `b` that slot `j` of the grown page came from. */
  function Before(index: nat, j: nat): nat
    requires j != index
  {
    if j < index then j else j - 1
  }

  /** A cell placed just below the heap and a slot opened at `index`. */
  ghost predicate Grown(b: Image, b': Image, index: nat, cell: Bytes) {
    && Formed(b) && index <= NumKeys(b) && |cell| + SLOT_SIZE <= FreeSpace(b)
    && NumKeys(b') == NumKeys(b) + 1 && CellStart(b') == CellStart(b) - |cell|
    && (forall j | 0 <= j <= NumKeys(b) && j != index :: SameSlot(b, Before(index, j), b', j))
    && SlotOff(b', index) == CellStart(b') && SlotLen(b', index) == |cell|
    && b'[CellStart(b')..CellStart(b)] == cell && b'[CellStart(b)..] == b[CellStart(b)..]
  }

  lemma GrownFormed(b: Image, b': Image, index: nat, cell: Bytes)
    requires Grown(b, b', index, cell)
    ensures Formed(b')
  {
    forall j | 0 <= j < NumKeys(b') ensures InHeap(b', j) {
      if j != index { assert SameSlot(b, Before(index, j), b', j) && InHeap(b, Before(index, j)); }
    }
  }

  lemma KeptCell(b: Image, i: nat, b': Image, j: nat)
    requires Formed(b) && i < NumKeys(b) && Formed(b') && j < NumKeys(b') && SameSlot(b, i, b', j)
    requires b'[CellStart(b)..] == b[CellStart(b)..]
    ensures CellAt(b', j) == CellAt(b, i)
  {
    assert InHeap(b, i);
    var s, lo, hi := CellStart(b), SlotOff(b, i), SlotOff(b, i) + SlotLen(b, i);
    assert b[lo..hi] == b[s..][lo - s..hi - s];
    assert b'[lo..hi] == b'[s..][lo - s..hi - s];
  }

  lemma GrownApart(b: Image, b': Image, index: nat, cell: Bytes)
    requires Grown(b, b', index, cell) && Formed(b') && AllApart(b)
    ensures AllApart(b')
  {
    forall i, j | 0 <= i < j < NumKeys(b') ensures Apart(b', i, j) {
      if i == index {
        assert SameSlot(b, Before(index, j), b', j) && InHeap(b, Before(index, j));
      } else if j == index {
        assert SameSlot(b, Before(index, i), b', i) && InHeap(b, Before(index, i));
      } else {
        assert SameSlot(b, Before(index, i), b', i) && SameSlot(b, Before(index, j), b', j);
        assert Apart(b, Before(index, i), Before(index, j));
      }
    }
  }

  lemma GrownCells(b: Image, b': Image, index: nat, cell: Bytes)
    requires Grown(b, b', index, cell) && Formed(b')
    ensures Cells(b') == Inserted(Cells(b), index, cell)
  {
    var cs, cs' := Cells(b), Inserted(Cells(b), index, cell);
    forall j | 0 <= j < NumKeys(b') ensures CellAt(b', j) == cs'[j] {
      if j != index {
        assert SameSlot(b, Before(index, j), b', j);
        KeptCell(b, Before(index, j), b', j);
        assert cs'[j] == cs[Before(index, j)];
      }
    }
  }

  /** Opening a slot inserts into the sequence of cells. */
  lemma GrownSound(b: Image, b': Image, index: nat, cell: Bytes)
    requires Grown(b, b', index, cell) && Sound(b)
    ensures Sound(b') && Cells(b') == Inserted(Cells(b), index, cell)
  {
    GrownFormed(b, b', index, cell);
    GrownApart(b, b', index, cell);
    GrownCells(b, b', index, cell);
    HeapInserted(Cells(b), index, cell);
  }

  // ---- removal --------------------------------------------------------------

  function After(index: nat, j: nat): nat {
    if j < index then j else j + 1
  }

  /** A slot closed at `index`; the heap is left alone. */
  ghost predicate Shrunk(b: Image, b': Image, index: nat) {
    && Formed(b) && index < NumKeys(b)
    && NumKeys(b') == NumKeys(b) - 1 && CellStart(b') == CellStart(b)
    && (forall j | 0 <= j < NumKeys(b') :: SameSlot(b, After(index, j), b', j))
    && b'[CellStart(b)..] == b[CellStart(b)..]
  }

  /** Closing a slot deletes from the sequence of cells. */
  lemma ShrunkSound(b: Image, b': Image, index: nat)
    requires Shrunk(b, b', index) && Sound(b)
    ensures Sound(b') && Cells(b') == Removed(Cells(b), index)
  {
    ShrunkFormed(b, b', index);
    ShrunkCells(b, b', index);
    HeapRemoved(Cells(b), index);
    forall i, j | 0 <= i < j < NumKeys(b') ensures Apart(b', i, j) {
      assert SameSlot(b, After(index, i), b', i) && SameSlot(b, After(index, j), b', j);
      assert Apart(b, After(index, i), After(index, j));
    }
  }

  lemma ShrunkFormed(b: Image, b': Image, index: nat)
    requires Shrunk(b, b', index)
    ensures Formed(b')
  {
    forall j | 0 <= j < NumKeys(b') ensures InHeap(b', j) {
      assert SameSlot(b, After(index, j), b', j) && InHeap(b, After(index, j));
    }
  }

  lemma ShrunkCells(b: Image, b': Image, index: nat)
    requires Shrunk(b, b', index) && Formed(b')
    ensures Cells(b') == Removed(Cells(b), index)
  {
    hide Formed, CellAt, SameSlot;
    var cs := Removed(Cells(b), index);
    forall j | 0 <= j < NumKeys(b') ensures CellAt(b', j) == cs[j] {
      assert SameSlot(b, After(index, j), b', j);
      KeptCell(b, After(index, j), b', j);
      assert cs[j] == Cells(b)[After(index, j)];
    }
  }

  // ---- replacement in place ---------------------------------------------------

  lemma RewrittenWords(b: Image, b': Image, index: nat, cell: Bytes)
    requires Formed(b) && index < NumKeys(b) && |cell| == SlotLen(b, index)
    requires Wrote(b, b', SlotOff(b, index), cell)
    ensures NumKeys(b') == NumKeys(b) && CellStart(b') == CellStart(b)
    ensures forall j | 0 <= j < NumKeys(b) :: SameSlot(b, j, b', j)
    ensures Formed(b')
  {
    assert InHeap(b, index);
    forall j | 0 <= j < NumKeys(b) ensures SameSlot(b, j, b', j) && InHeap(b', j) {
      assert InHeap(b, j);
    }
  }

  /** Overwriting one cell with one of its length changes no other, because cells
      share no bytes. */
  lemma RewrittenSound(b: Image, b': Image, index: nat, cell: Bytes)
    requires Sound(b) && index < NumKeys(b) && |cell| == SlotLen(b, index)
    requires Wrote(b, b', SlotOff(b, index), cell)
    ensures Sound(b') && Cells(b') == Cells(b)[index := cell]
  {
    RewrittenWords(b, b', index, cell);
    RewrittenCells(b, b', index, cell);
    RewrittenHeap(Cells(b), index, cell);
    forall i, j | 0 <= i < j < NumKeys(b') ensures Apart(b', i, j) {
      assert SameSlot(b, i, b', i) && SameSlot(b, j, b', j) && Apart(b, i, j);
    }
  }

  lemma RewrittenHeap(cs: seq<Bytes>, index: nat, cell: Bytes)
    requires index < |cs| && |cell| == |cs[index]|
    ensures HeapBytes(cs[index := cell]) == HeapBytes(cs)
  {
    HeapRemoved(cs, index);
    HeapRemoved(cs[index := cell], index);
    assert Removed(cs[index := cell], index) == Removed(cs, index);
  }

  lemma RewrittenCells(b: Image, b': Image, index: nat, cell: Bytes)
    requires Formed(b) && AllApart(b) && index < NumKeys(b) && |cell| == SlotLen(b, index)
    requires Wrote(b, b', SlotOff(b, index), cell) && Formed(b') && NumKeys(b') == NumKeys(b)
    requires forall j | 0 <= j < NumKeys(b) :: SameSlot(b, j, b', j)
    ensures Cells(b') == Cells(b)[index := cell]
  {
    forall j | 0 <= j < NumKeys(b) ensures CellAt(b', j) == Cells(b)[index := cell][j] {
      assert SameSlot(b, j, b', j) && InHeap(b, j);
      if j < index { assert Apart(b, j, index); }
      if index < j { assert Apart(b, index, j); }
      if j != index {
        WroteSlice(b, b', SlotOff(b, index), cell, SlotOff(b, j), SlotOff(b, j) + SlotLen(b, j));
      }
    }
  }

  // ---- compaction -------------------------------------------------------------

  /** Where the `j`-th cell starts in a freshly packed heap. */
  function PackedAt(cs: seq<Bytes>, j: nat): int
    requires j <= |cs|
  {
    PAGE_SIZE - HeapBytes(cs[..j])
  }

  ghost predicate PackedCell(b: Image, cs: seq<Bytes>, j: nat)
    requires j < |cs|
  {
    && SlotAt(j + 1) <= PAGE_SIZE
    && SlotOff(b, j) == PackedAt(cs, j + 1) && SlotLen(b, j) == |cs[j]|
    && SlotOff(b, j) + SlotLen(b, j) <= PAGE_SIZE
    && b[SlotOff(b, j)..SlotOff(b, j) + SlotLen(b, j)] == cs[j]
  }

  /** The first `i` cells are in place. */
  ghost predicate PackedTo(b: Image, cs: seq<Bytes>, i: nat)
    requires i <= |cs|
  {
    forall j | 0 <= j < i :: PackedCell(b, cs, j)
  }

  lemma {:induction false} PackedDown(cs: seq<Bytes>, i: nat, j: nat)
    requires i <= j <= |cs|
    ensures PackedAt(cs, j) <= PackedAt(cs, i)
  {
    HeapPrefix(cs[..j], i);
    assert cs[..j][..i] == cs[..i];
  }

  /** A packed page holds the given cells and wastes nothing. */
  lemma PackedSound(b: Image, cs: seq<Bytes>)
    requires UsedBytes(cs) <= USABLE_SPACE && NumKeys(b) == |cs| && CellStart(b) == PackedAt(cs, |cs|)
    requires PackedTo(b, cs, |cs|)
    ensures Sound(b) && Cells(b) == cs && FreeSpace(b) == USABLE_SPACE - UsedBytes(cs)
  {
    UsedIsHeap(cs);
    assert cs[..|cs|] == cs;
    PackedFormed(b, cs);
    forall j | 0 <= j < |cs| ensures CellAt(b, j) == cs[j] { assert PackedCell(b, cs, j); }
    assert Cells(b) == cs;
    PackedApart(b, cs);
  }

  lemma PackedFormed(b: Image, cs: seq<Bytes>)
    requires PAGE_HEADER_SIZE + |cs| * SLOT_SIZE <= CellStart(b) <= PAGE_SIZE
    requires NumKeys(b) == |cs| && CellStart(b) == PackedAt(cs, |cs|) && PackedTo(b, cs, |cs|)
    ensures Formed(b)
  {
    forall j | 0 <= j < |cs| ensures InHeap(b, j) {
      assert PackedCell(b, cs, j);
      PackedDown(cs, j + 1, |cs|);
    }
  }

  lemma PackedApart(b: Image, cs: seq<Bytes>)
    requires Formed(b) && NumKeys(b) == |cs| && PackedTo(b, cs, |cs|)
    ensures AllApart(b)
  {
    forall i, j | 0 <= i < j < |cs| ensures Apart(b, i, j) {
      assert PackedCell(b, cs, i) && PackedCell(b, cs, j);
      HeapNext(cs, j);
      PackedDown(cs, i + 1, j);
    }
  }

  /** One round of compaction's loop: the cell's bytes, then its slot. */
  lemma PackedStep(b: Image, b1: Image, b2: Image, cs: seq<Bytes>, i: nat)
    requires UsedBytes(cs) <= USABLE_SPACE && i < |cs| && PackedTo(b, cs, i)
    requires PackedAt(cs, i + 1) >= 0 && Wrote(b, b1, PackedAt(cs, i + 1), cs[i])
    requires PackedAt(cs, i + 1) < 0x1_0000 && |cs[i]| < 0x1_0000
    requires Wrote(b1, b2, SlotAt(i), Word(PackedAt(cs, i + 1)) + Word(|cs[i]|))
    ensures PackedTo(b2, cs, i + 1)
  {
    hide PackedCell, Wrote;
    PackedRoom(cs, i);
    PackedNew(b1, b2, cs, i) by { PackedBytes(b, b1, PackedAt(cs, i + 1), cs[i]); }
    forall j | 0 <= j < i ensures PackedCell(b2, cs, j) { PackedKept(b, b1, b2, cs, i, j); }
  }

  lemma PackedBytes(b: Image, b1: Image, at: nat, data: Bytes)
    requires Wrote(b, b1, at, data)
    ensures at + |data| <= PAGE_SIZE && b1[at..at + |data|] == data
  {
  }

  /** The heap never reaches down to the directory. */
  lemma PackedRoom(cs: seq<Bytes>, i: nat)
    requires UsedBytes(cs) <= USABLE_SPACE && i < |cs|
    ensures SlotAt(|cs|) <= PackedAt(cs, i + 1) && SlotAt(i + 1) <= SlotAt(|cs|)
    ensures PackedAt(cs, i + 1) + |cs[i]| == PackedAt(cs, i) <= PAGE_SIZE
  {
    UsedIsHeap(cs);
    HeapPrefix(cs, i + 1);
    HeapNext(cs, i);
  }

  lemma PackedNew(b1: Image, b2: Image, cs: seq<Bytes>, i: nat)
    requires i < |cs| && SlotAt(i + 1) <= PackedAt(cs, i + 1) && PackedAt(cs, i + 1) + |cs[i]| <= PAGE_SIZE
    requires b1[PackedAt(cs, i + 1)..PackedAt(cs, i + 1) + |cs[i]|] == cs[i]
    requires Wrote(b1, b2, SlotAt(i), Word(PackedAt(cs, i + 1)) + Word(|cs[i]|))
    ensures PackedCell(b2, cs, i)
  {
    var at := PackedAt(cs, i + 1);
    var data := Word(at) + Word(|cs[i]|);
    WroteWord(b1, b2, SlotAt(i), data, 0);
    WroteWord(b1, b2, SlotAt(i), data, 2);
    WroteSlice(b1, b2, SlotAt(i), data, at, at + |cs[i]|);
  }

  lemma PackedKept(b: Image, b1: Image, b2: Image, cs: seq<Bytes>, i: nat, j: nat)
    requires UsedBytes(cs) <= USABLE_SPACE && j < i < |cs| && PackedCell(b, cs, j)
    requires SlotAt(|cs|) <= PackedAt(cs, i + 1) && PackedAt(cs, i + 1) + |cs[i]| == PackedAt(cs, i) <= PAGE_SIZE
    requires Wrote(b, b1, PackedAt(cs, i + 1), cs[i])
    requires Wrote(b1, b2, SlotAt(i), Word(PackedAt(cs, i + 1)) + Word(|cs[i]|))
    ensures PackedCell(b2, cs, j)
  {
    var at := PackedAt(cs, i + 1);
    var data := Word(at) + Word(|cs[i]|);
    PackedDown(cs, j + 1, i);
    WroteElsewhere(b, b1, at, cs[i], SlotAt(j));
    WroteElsewhere(b, b1, at, cs[i], SlotAt(j) + 2);
    WroteElsewhere(b1, b2, SlotAt(i), data, SlotAt(j));
    WroteElsewhere(b1, b2, SlotAt(i), data, SlotAt(j) + 2);
    var lo, hi := SlotOff(b, j), SlotOff(b, j) + SlotLen(b, j);
    WroteSlice(b, b1, at, cs[i], lo, hi);
    WroteSlice(b1, b2, SlotAt(i), data, lo, hi);
  }

  // ---- pages that pass validation and cannot be compacted -----------------------

  /** Rebuilding the heap runs past the start of the page. */
  predicate CompactAborts(b: Image)
    requires Formed(b)
  {
    HeapBytes(Cells(b)) > PAGE_SIZE
  }

  /** Rebuilding the heap ends inside the page, but over the slot directory. */
  predicate CompactDamages(b: Image)
    requires Formed(b)
  {
    HeapBytes(Cells(b)) <= PAGE_SIZE && UsedBytes(Cells(b)) > USABLE_SPACE
  }

  /** A heap packed over the directory does not leave a formed page with those cells,
      whatever else the buffer holds. */
  lemma PackedTooFar(b: Image, cs: seq<Bytes>)
    requires UsedBytes(cs) > USABLE_SPACE && CellStart(b) == PackedAt(cs, |cs|)
    ensures !(Formed(b) && Cells(b) == cs)
  {
    UsedIsHeap(cs);
    assert cs[..|cs|] == cs;
  }

  /** A page with two slots for the same `len` bytes. */
  function Twins(len: nat): Image
    requires len <= 4056
  {
    var slot: Bytes := [40, 0] + Word(len);
    seq(16, _ => 0) + [2, 0, 40, 0, 2, 1, 0, 0] + seq(8, _ => 0) + slot + slot + seq(4056, _ => 0)
  }

  lemma TwinsFormed(len: nat)
    requires len <= 4056
    ensures Twins(len)[OFF_PAGE_TYPE] == 2 && Formed(Twins(len))
    ensures HeapBytes(Cells(Twins(len))) == 2 * len && UsedBytes(Cells(Twins(len))) == 2 * len + 8
  {
    var b := Twins(len);
    assert NumKeys(b) == 2 && CellStart(b) == 40;
    assert SlotOff(b, 0) == 40 == SlotOff(b, 1) && SlotLen(b, 0) == len == SlotLen(b, 1) by { TwinSlots(len); }
    assert forall i | 0 <= i < 2 :: InHeap(b, i);
    hide Twins;
    var cs := Cells(b);
    HeapNext(cs, 0);
    HeapNext(cs, 1);
    assert cs[..2] == cs && cs[..0] == [];
    UsedIsHeap(cs);
  }

  lemma TwinSlots(len: nat)
    requires len <= 4056
    ensures SlotOff(Twins(len), 0) == 40 == SlotOff(Twins(len), 1) && SlotLen(Twins(len), 0) == len == SlotLen(Twins(len), 1)
  {
    var b, w := Twins(len), Word(len);
    assert b[32] == 40 && b[33] == 0 && b[34] == w[0] && b[35] == w[1];
    assert b[36] == 40 && b[37] == 0 && b[38] == w[0] && b[39] == w[1];
  }

  /** Validation accepts leaf pages whose compaction runs past the start of the page,
      and others whose compaction overwrites their own slot directory. */
  lemma OverlapPassesValidation()
    ensures exists b: Image :: b[OFF_PAGE_TYPE] == 2 && Formed(b) && CompactAborts(b)
    ensures exists b: Image :: b[OFF_PAGE_TYPE] == 2 && Formed(b) && CompactDamages(b)
  {
    hide Formed, Twins, Cells;
    TwinsFormed(4056);
    TwinsFormed(2040);
    assert CompactAborts(Twins(4056)) && CompactDamages(Twins(2040));
  }
}
