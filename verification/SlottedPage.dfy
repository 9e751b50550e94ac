/** The slotted page object: a 4096-byte buffer edited in place. */
module SlottedPage {
  import opened Bytes
  import opened PageLayout
  import opened PageImage
  import opened PageEdits

  /** `Aborted` stands for a panic: arithmetic below the start of the page. */
  datatype Outcome = Done | Full | Invalid | Aborted

  class Page {
    const buf: array<Byte>

    ghost predicate Valid() {
      buf.Length == PAGE_SIZE
    }

    ghost function View(): (b: Image)
      requires Valid()
      reads buf
    {
      buf[..]
    }

    /** An empty page of kind `kind` with page id `id`. */
    constructor (id: nat, kind: nat)
      requires id < U32_LIMIT && kind <= 4
      ensures Valid() && fresh(buf) && Sound(View()) && Cells(View()) == [] && FreeSpace(View()) == USABLE_SPACE
      ensures FromLE(View()[4..8]) == id && View()[OFF_PAGE_TYPE] == kind
    {
      buf := new Byte[PAGE_SIZE](_ => 0);
      new;
      ghost var b0 := View();
      Write(4, LE(id, 4));
      ghost var b1 := View();
      Write(8, [255, 255, 255, 255, 255, 255, 255, 255]);
      ghost var b2 := View();
      Write(OFF_CELL_START, Word(PAGE_SIZE));
      ghost var b3 := View();
      Write(OFF_PAGE_TYPE, [kind, if kind == 2 then 1 else 0]);
      Fresh(id, kind, b0, b1, b2, b3, View());
    }

    method Write(at: nat, data: Bytes)
      requires Valid() && at + |data| <= PAGE_SIZE
      modifies buf
      ensures Wrote(old(View()), View(), at, data)
    {
      var i := 0;
      while i < |data|
        invariant i <= |data|
        invariant forall k | 0 <= k < PAGE_SIZE :: buf[k] == if at <= k < at + i then data[k - at] else old(buf[k])
      {
        buf[at + i] := data[i];
        i := i + 1;
      }
    }

    method ReadWord(off: nat) returns (v: nat)
      requires Valid() && off + 2 <= PAGE_SIZE
      ensures v == U16(View(), off)
    {
      v := Join(buf[off], buf[off + 1]);
    }

    /** Accepts exactly the pages whose slots stay inside the heap. */
    method ValidateStructure() returns (ok: bool)
      requires Valid()
      ensures ok <==> View()[OFF_PAGE_TYPE] in {0, 3, 4} || (View()[OFF_PAGE_TYPE] in {1, 2} && Formed(View()))
    {
      if buf[OFF_PAGE_TYPE] > 4 { return false; }
      if buf[OFF_PAGE_TYPE] in {0, 3, 4} { return true; }
      var n := ReadWord(OFF_NUM_KEYS);
      var start := ReadWord(OFF_CELL_START);
      if start < PAGE_HEADER_SIZE || start > PAGE_SIZE || PAGE_HEADER_SIZE + n * SLOT_SIZE > start { return false; }
      var i := 0;
      while i < n
        invariant i <= n
        invariant forall j | 0 <= j < i :: InHeap(View(), j)
      {
        var off := ReadWord(SlotAt(i));
        var len := ReadWord(SlotAt(i) + 2);
        if off < start || off + len > PAGE_SIZE {
          assert !InHeap(View(), i);
          return false;
        }
        i := i + 1;
      }
      return true;
    }

    method ReadCell(i: nat) returns (c: Bytes)
      requires Valid() && Formed(View()) && i < NumKeys(View())
      ensures c == CellAt(View(), i)
    {
      assert InHeap(View(), i);
      var off := ReadWord(SlotAt(i));
      var len := ReadWord(SlotAt(i) + 2);
      c := buf[off..off + len];
      assert c == View()[off..off + len];
    }

    method ReadCells() returns (cs: seq<Bytes>)
      requires Valid() && Formed(View())
      ensures cs == Cells(View())
    {
      var n := ReadWord(OFF_NUM_KEYS);
      cs := [];
      while |cs| < n
        invariant |cs| <= n && cs == Cells(View())[..|cs|]
      {
        var c := ReadCell(|cs|);
        cs := cs + [c];
      }
    }

    method Room() returns (free: nat)
      requires Valid() && Formed(View())
      ensures free == FreeSpace(View())
    {
      var n := ReadWord(OFF_NUM_KEYS);
      var start := ReadWord(OFF_CELL_START);
      free := start - (PAGE_HEADER_SIZE + n * SLOT_SIZE);
    }

    /** Rebuilds the heap of any page that passes validation. `ok` is false when the heap
        would run past the start of the page, which aborts. The page comes out formed
        and with the same cells exactly when cells and slots fit it; it is then sound and
        every byte they do not need is free. */
    method Compact() returns (ok: bool)
      requires Valid() && Formed(View())
      modifies buf
      ensures ok <==> !CompactAborts(old(View()))
      ensures ok && Formed(View()) && Cells(View()) == old(Cells(View())) <==> UsedBytes(old(Cells(View()))) <= USABLE_SPACE
      ensures UsedBytes(old(Cells(View()))) <= USABLE_SPACE ==>
                && Sound(View()) && SameHeader(old(View()), View())
                && FreeSpace(View()) == USABLE_SPACE - UsedBytes(old(Cells(View())))
      ensures CompactDamages(old(View())) ==> FreeSpace(View()) == 0
    {
      hide HeapBytes, UsedBytes, Wrote, SameHeader, PackedTo, Sound;
      ghost var b0 := View();
      var cells := ReadCells();
      UsedIsHeap(cells);
      var cursor;
      ok, cursor := Pack(cells);
      if !ok { return; }
      ghost var b := View();
      Write(OFF_CELL_START, Word(cursor));
      Compacted(b0, b, View(), cells, cursor);
    }

    /** The loop of a compaction: packs the cells downwards from the end of the page. */
    method Pack(cells: seq<Bytes>) returns (ok: bool, cursor: nat)
      requires Valid() && SlotAt(|cells|) <= PAGE_SIZE && forall i | 0 <= i < |cells| :: |cells[i]| < 0x1_0000
      modifies buf
      ensures ok <==> HeapBytes(cells) <= PAGE_SIZE
      ensures ok ==> cursor == PackedAt(cells, |cells|) <= PAGE_SIZE
      ensures ok && UsedBytes(cells) <= USABLE_SPACE ==> View()[..PAGE_HEADER_SIZE] == old(View())[..PAGE_HEADER_SIZE] && PackedTo(View(), cells, |cells|)
      ensures ok && cursor >= PAGE_HEADER_SIZE ==> View()[..PAGE_HEADER_SIZE] == old(View())[..PAGE_HEADER_SIZE]
    {
      hide HeapBytes, UsedBytes, Wrote, PackedTo;
      ghost var b0 := View();
      ghost var fits := UsedBytes(cells) <= USABLE_SPACE;
      NothingPacked(b0, cells);
      cursor := PAGE_SIZE;
      for i := 0 to |cells|
        invariant cursor == PackedAt(cells, i) <= PAGE_SIZE
        invariant fits ==> View()[..PAGE_HEADER_SIZE] == b0[..PAGE_HEADER_SIZE] && PackedTo(View(), cells, i)
        invariant cursor >= PAGE_HEADER_SIZE ==> View()[..PAGE_HEADER_SIZE] == b0[..PAGE_HEADER_SIZE]
      {
        PackedOne(cells, i);
        if |cells[i]| > cursor { return false, 0; }
        cursor := cursor - |cells[i]|;
        ghost var b := View();
        ghost var b1 := WriteSlot(i, cursor, cells[i]);
        if fits { PackedStep(b, b1, View(), cells, i); }
        if cursor >= PAGE_HEADER_SIZE { PackedHeader(b, b1, View(), cursor, cells[i], i, SlotBytes(cursor, |cells[i]|)); }
      }
      assert cells[..|cells|] == cells;
      ok := true;
    }

    method WriteSlot(i: nat, cursor: nat, cell: Bytes) returns (ghost b1: Image)
      requires Valid() && SlotAt(i + 1) <= PAGE_SIZE && cursor + |cell| <= PAGE_SIZE
      modifies buf
      ensures Wrote(old(View()), b1, cursor, cell) && Wrote(b1, View(), SlotAt(i), SlotBytes(cursor, |cell|))
    {
      hide Wrote, SlotBytes;
      Write(cursor, cell);
      b1 := View();
      Write(SlotAt(i), SlotBytes(cursor, |cell|));
    }

    /** Inserts into the sequence of cells of any page that passes validation. On a sound
        page it refuses exactly when the cells with the new one exceed the page, however
        scattered the free bytes are, and changes no cell then. */
    method InsertCellAt(index: nat, cell: Bytes) returns (o: Outcome)
      requires Valid() && Formed(View())
      modifies buf
      ensures o == Invalid <==> index > |old(Cells(View()))|
      ensures o == Done <==> index <= |old(Cells(View()))| && Takes(old(View()), cell)
      ensures o == Aborted <==> index <= |old(Cells(View()))| && |cell| + SLOT_SIZE > FreeSpace(old(View())) && CompactAborts(old(View()))
      ensures o == Done ==> Formed(View()) && Cells(View()) == Inserted(old(Cells(View())), index, cell)
      ensures o == Invalid ==> View() == old(View())
      ensures o == Full && !CompactDamages(old(View())) ==> Formed(View()) && Cells(View()) == old(Cells(View()))
      ensures Sound(old(View())) ==>
                && Sound(View()) && SameHeader(old(View()), View()) && o != Aborted
                && (o == Full <==> index <= |old(Cells(View()))| && UsedBytes(old(Cells(View()))) + |cell| + SLOT_SIZE > USABLE_SPACE)
    {
      hide Sound, UsedBytes, HeapBytes, SameHeader;
      ghost var was := View();
      FormedFits(was);
      var n := ReadWord(OFF_NUM_KEYS);
      if index > n {
        SameHeaderSelf(was);
        return Invalid;
      }
      var free := Room();
      if |cell| + SLOT_SIZE > free {
        ghost var cs := Cells(was);
        var ok := Compact();
        if !ok { return Aborted; }
        free := FreeNow();
        if |cell| + SLOT_SIZE > free { return Full; }
        SoundIsFormed(View());
        ghost var packed := View();
        Place(index, cell);
        if Sound(was) { SameHeaderThrough(was, packed, View()); }
        return Done;
      }
      Place(index, cell);
      return Done;
    }

    /** Free space of any page, whatever its bytes. */
    method FreeNow() returns (free: nat)
      requires Valid()
      ensures free == FreeSpace(View())
    {
      var n := ReadWord(OFF_NUM_KEYS);
      var start := ReadWord(OFF_CELL_START);
      var end := PAGE_HEADER_SIZE + n * SLOT_SIZE;
      free := if end <= start then start - end else 0;
    }

    method Place(index: nat, cell: Bytes)
      requires Valid() && Formed(View()) && index <= NumKeys(View()) && |cell| + SLOT_SIZE <= FreeSpace(View())
      modifies buf
      ensures Formed(View()) && Cells(View()) == Inserted(old(Cells(View())), index, cell)
      ensures SameHeader(old(View()), View()) && (Sound(old(View())) ==> Sound(View()))
    {
      hide SameHeader, Sound, Inserted, Insertion;
      ghost var b := View();
      ghost var t := WriteInsertion(index, cell);
      Placed(b, t, index, cell);
    }

    /** The five writes of an insertion: cell bytes, heap start, slots moved up, new slot,
        count. */
    method WriteInsertion(index: nat, cell: Bytes) returns (ghost t: Trace)
      requires Valid() && Formed(View()) && index <= NumKeys(View()) && |cell| + SLOT_SIZE <= FreeSpace(View())
      modifies buf
      ensures Insertion(old(View()), t, index, cell) && View() == t.b5
    {
      hide Wrote, Insertion;
      ghost var b := View();
      InsertionRoom(b, index, cell);
      var n := ReadWord(OFF_NUM_KEYS);
      var start := ReadWord(OFF_CELL_START);
      var low := start - |cell|;
      ghost var b1 := WriteCell(low, cell);
      ghost var b2 := View();
      ghost var b3, b4 := OpenSlot(index, n, low, |cell|);
      t := Trace(b1, b2, b3, b4, View());
      IsInsertion(b, t, index, cell, low, n);
    }

    method WriteCell(low: nat, cell: Bytes) returns (ghost b1: Image)
      requires Valid() && low + |cell| <= PAGE_SIZE
      modifies buf
      ensures Wrote(old(View()), b1, low, cell) && Wrote(b1, View(), OFF_CELL_START, Word(low))
    {
      hide Wrote;
      Write(low, cell);
      b1 := View();
      Write(OFF_CELL_START, Word(low));
    }

    method OpenSlot(index: nat, n: nat, off: nat, len: nat) returns (ghost b3: Image, ghost b4: Image)
      requires Valid() && index <= n && SlotAt(n + 1) <= PAGE_SIZE && off < 0x1_0000 && len < 0x1_0000
      modifies buf
      ensures Wrote(old(View()), b3, SlotAt(index + 1), old(View())[SlotAt(index)..SlotAt(n)])
      ensures Wrote(b3, b4, SlotAt(index), SlotBytes(off, len)) && Wrote(b4, View(), OFF_NUM_KEYS, Word(n + 1))
    {
      hide Wrote, SlotBytes, Word;
      ghost var b := View();
      var moved := buf[SlotAt(index)..SlotAt(n)];
      assert moved == b[SlotAt(index)..SlotAt(n)];
      Write(SlotAt(index + 1), moved);
      b3 := View();
      Write(SlotAt(index), SlotBytes(off, len));
      b4 := View();
      Write(OFF_NUM_KEYS, Word(n + 1));
    }

    /** Deletes from the sequence of cells; the bytes come back at the next compaction. */
    method RemoveCellAt(index: nat) returns (o: Outcome)
      requires Valid() && Formed(View())
      modifies buf
      ensures o == if index < |old(Cells(View()))| then Done else Invalid
      ensures Formed(View()) && SameHeader(old(View()), View()) && (Sound(old(View())) ==> Sound(View()))
      ensures Cells(View()) == if o == Done then Removed(old(Cells(View())), index) else old(Cells(View()))
    {
      hide SameHeader, Sound;
      ghost var b := View();
      var n := ReadWord(OFF_NUM_KEYS);
      if index >= n {
        SameHeaderSelf(b);
        return Invalid;
      }
      Write(SlotAt(index), buf[SlotAt(index + 1)..SlotAt(n)]);
      ghost var b1 := View();
      Write(OFF_NUM_KEYS, Word(n - 1));
      Closed(b, b1, View(), index);
      return Done;
    }

    /** Replaces one cell. On a sound page no other cell changes; when the new cell does
        not fit, the old one is already gone and the page is left without it. */
    method ReplaceCellAt(index: nat, cell: Bytes) returns (o: Outcome)
      requires Valid() && Formed(View())
      modifies buf
      ensures o == Invalid <==> index >= |old(Cells(View()))|
      ensures o == Invalid ==> View() == old(View())
      ensures o == Done ==> Formed(View()) && |Cells(View())| == |old(Cells(View()))| && Cells(View())[index] == cell
      ensures Sound(old(View())) ==>
                && Sound(View()) && SameHeader(old(View()), View()) && o != Aborted
                && (o == Full <==> index < |old(Cells(View()))| && |cell| != |old(Cells(View()))[index]|
                                   && UsedBytes(Removed(old(Cells(View())), index)) + |cell| + SLOT_SIZE > USABLE_SPACE)
                && (o == Done ==> Cells(View()) == old(Cells(View()))[index := cell])
                && (o == Full ==> Cells(View()) == Removed(old(Cells(View())), index))
    {
      hide InHeap, CellAt, SameHeader, UsedBytes, HeapBytes, Sound, CompactAborts, CompactDamages;
      ghost var b := View();
      var n := ReadWord(OFF_NUM_KEYS);
      if index >= n {
        SameHeaderSelf(b);
        return Invalid;
      }
      var len := ReadWord(SlotAt(index) + 2);
      assert len == |Cells(b)[index]|;
      if |cell| == len {
        Rewrite(index, cell);
        return Done;
      }
      var removed := RemoveCellAt(index);
      ghost var b1 := View();
      o := InsertCellAt(index, cell);
      if Sound(b) {
        SameHeaderThrough(b, b1, View());
        FullKeeps(b1);
      }
      ReplacedIs(Cells(b), index, cell);
    }

    method Rewrite(index: nat, cell: Bytes)
      requires Valid() && Formed(View()) && index < NumKeys(View()) && |cell| == SlotLen(View(), index)
      modifies buf
      ensures Formed(View()) && |Cells(View())| == |old(Cells(View()))| && Cells(View())[index] == cell
      ensures SameHeader(old(View()), View())
      ensures Sound(old(View())) ==> Sound(View()) && Cells(View()) == old(Cells(View()))[index := cell]
    {
      hide SameHeader, Sound, Wrote;
      ghost var b := View();
      assert InHeap(b, index);
      var off := ReadWord(SlotAt(index));
      Write(off, cell);
      Overwritten(b, View(), index, cell);
      HeaderApart(b, View(), off, cell);
    }

    /** Drops every cell of any page. */
    method ClearCells()
      requires Valid()
      modifies buf
      ensures Sound(View()) && Cells(View()) == [] && FreeSpace(View()) == USABLE_SPACE
      ensures SameHeader(old(View()), View())
    {
      hide Wrote, Word, SameHeader, Formed, AllApart;
      ghost var b := View();
      Write(OFF_NUM_KEYS, Word(0));
      ghost var b1 := View();
      Write(OFF_CELL_START, Word(PAGE_SIZE));
      Cleared(b, b1, View());
    }
  }

  /** There is room for a cell, at once or after a compaction. */
  predicate Takes(b: Image, cell: Bytes)
    requires Formed(b)
  {
    |cell| + SLOT_SIZE <= FreeSpace(b) || UsedBytes(Cells(b)) + |cell| + SLOT_SIZE <= USABLE_SPACE
  }

  // ---- steps -----------------------------------------------------------------

  lemma NothingPacked(b: Image, cs: seq<Bytes>)
    ensures PackedTo(b, cs, 0) && PackedAt(cs, 0) == PAGE_SIZE
  {
    assert cs[..0] == [];
  }

  lemma IsInsertion(b: Image, t: Trace, index: nat, cell: Bytes, low: nat, n: nat)
    requires Formed(b) && n == NumKeys(b) && index <= n && |cell| + SLOT_SIZE <= FreeSpace(b) && low == CellStart(b) - |cell|
    requires SlotAt(n + 1) <= low <= PAGE_SIZE && |cell| < 0x1_0000
    requires Wrote(b, t.b1, low, cell) && Wrote(t.b1, t.b2, OFF_CELL_START, Word(low))
    requires Wrote(t.b2, t.b3, SlotAt(index + 1), t.b2[SlotAt(index)..SlotAt(n)])
    requires Wrote(t.b3, t.b4, SlotAt(index), SlotBytes(low, |cell|)) && Wrote(t.b4, t.b5, OFF_NUM_KEYS, Word(n + 1))
    ensures Insertion(b, t, index, cell)
  {
    hide Wrote, Formed, FreeSpace, Word, SlotBytes, U16;
  }

  /** One more cell below the packed ones. */
  lemma PackedOne(cs: seq<Bytes>, i: nat)
    requires i < |cs|
    ensures PackedAt(cs, i + 1) == PackedAt(cs, i) - |cs[i]| && HeapBytes(cs) >= PAGE_SIZE - PackedAt(cs, i + 1)
    ensures UsedBytes(cs) <= USABLE_SPACE ==> PackedAt(cs, i + 1) >= PAGE_HEADER_SIZE
  {
    HeapNext(cs, i);
    HeapPrefix(cs, i + 1);
    if UsedBytes(cs) <= USABLE_SPACE { PackedRoom(cs, i); }
  }

  /** The last write of a compaction settles what it was. */
  lemma Compacted(b0: Image, b: Image, b': Image, cells: seq<Bytes>, cursor: nat)
    requires Formed(b0) && cells == Cells(b0) && cursor == PackedAt(cells, |cells|) <= PAGE_SIZE
    requires Wrote(b, b', OFF_CELL_START, Word(cursor))
    requires UsedBytes(cells) <= USABLE_SPACE ==> b[..PAGE_HEADER_SIZE] == b0[..PAGE_HEADER_SIZE] && PackedTo(b, cells, |cells|)
    requires cursor >= PAGE_HEADER_SIZE ==> b[..PAGE_HEADER_SIZE] == b0[..PAGE_HEADER_SIZE]
    ensures Formed(b') && Cells(b') == cells <==> UsedBytes(cells) <= USABLE_SPACE
    ensures UsedBytes(cells) <= USABLE_SPACE ==> Sound(b') && SameHeader(b0, b') && FreeSpace(b') == USABLE_SPACE - UsedBytes(cells)
    ensures UsedBytes(cells) > USABLE_SPACE ==> FreeSpace(b') == 0
  {
    hide PackedTo, Sound, HeapBytes, UsedBytes, Wrote, SameHeader;
    WroteWord(b, b', OFF_CELL_START, Word(cursor), 0);
    UsedIsHeap(cells);
    assert cells[..|cells|] == cells;
    if UsedBytes(cells) <= USABLE_SPACE {
      HeaderWords(b0, b);
      PackedEnd(b, b', cells);
      PackedSound(b', cells);
      SoundIsFormed(b');
      SameHeaderThrough(b0, b, b');
    } else {
      PackedTooFar(b', cells);
      if cursor >= PAGE_HEADER_SIZE {
        HeaderWords(b0, b);
        WroteElsewhere(b, b', OFF_CELL_START, Word(cursor), OFF_NUM_KEYS);
      }
    }
  }

  lemma SoundIsFormed(b: Image)
    ensures Sound(b) ==> Formed(b)
  {
  }

  /** What free space says about the cells. */
  lemma FormedFits(b: Image)
    requires Formed(b)
    ensures UsedBytes(Cells(b)) <= USABLE_SPACE ==> !CompactAborts(b) && !CompactDamages(b)
    ensures UsedBytes(Cells(b)) > USABLE_SPACE ==> CompactAborts(b) || CompactDamages(b)
    ensures Sound(b) ==> UsedBytes(Cells(b)) <= USABLE_SPACE && FreeSpace(b) <= USABLE_SPACE - UsedBytes(Cells(b))
  {
    UsedIsHeap(Cells(b));
  }

  lemma FullKeeps(b: Image)
    requires Formed(b)
    ensures Sound(b) ==> !CompactDamages(b)
  {
    FormedFits(b);
  }

  lemma Placed(b: Image, t: Trace, index: nat, cell: Bytes)
    requires Insertion(b, t, index, cell)
    ensures Formed(t.b5) && Cells(t.b5) == Inserted(Cells(b), index, cell) && SameHeader(b, t.b5) && (Sound(b) ==> Sound(t.b5))
  {
    hide Sound, SameHeader;
    InsertionGrows(b, t, index, cell);
    GrownFormed(b, t.b5, index, cell);
    GrownCells(b, t.b5, index, cell);
    if Sound(b) { GrownSound(b, t.b5, index, cell); }
  }

  lemma Closed(b: Image, b1: Image, b2: Image, index: nat)
    requires Formed(b) && index < NumKeys(b)
    requires Wrote(b, b1, SlotAt(index), b[SlotAt(index + 1)..SlotAt(NumKeys(b))])
    requires Wrote(b1, b2, OFF_NUM_KEYS, Word(NumKeys(b) - 1))
    ensures Formed(b2) && Cells(b2) == Removed(Cells(b), index) && SameHeader(b, b2) && (Sound(b) ==> Sound(b2))
  {
    RemovalShrinks(b, b1, b2, index);
    hide Sound, SameHeader, Wrote;
    ShrunkFormed(b, b2, index);
    ShrunkCells(b, b2, index);
    if Sound(b) { ShrunkSound(b, b2, index); }
  }

  lemma Overwritten(b: Image, b': Image, index: nat, cell: Bytes)
    requires Formed(b) && index < NumKeys(b) && |cell| == SlotLen(b, index) && Wrote(b, b', SlotOff(b, index), cell)
    ensures Formed(b') && |Cells(b')| == |Cells(b)| && Cells(b')[index] == cell
    ensures Sound(b) ==> Sound(b') && Cells(b') == Cells(b)[index := cell]
  {
    hide Sound;
    RewrittenWords(b, b', index, cell);
    assert SameSlot(b, index, b', index);
    if Sound(b) { RewrittenSound(b, b', index, cell); }
  }

  lemma EmptySound(b: Image)
    requires NumKeys(b) == 0 && CellStart(b) == PAGE_SIZE
    ensures Sound(b) && Cells(b) == [] && FreeSpace(b) == USABLE_SPACE
  {
  }

  lemma Cleared(b: Image, b1: Image, b2: Image)
    requires Wrote(b, b1, OFF_NUM_KEYS, Word(0)) && Wrote(b1, b2, OFF_CELL_START, Word(PAGE_SIZE))
    ensures Sound(b2) && Cells(b2) == [] && FreeSpace(b2) == USABLE_SPACE && SameHeader(b, b2)
  {
    hide Wrote, SameHeader, Word;
    WroteWord(b, b1, OFF_NUM_KEYS, Word(0), 0);
    WroteElsewhere(b1, b2, OFF_CELL_START, Word(PAGE_SIZE), OFF_NUM_KEYS);
    WroteWord(b1, b2, OFF_CELL_START, Word(PAGE_SIZE), 0);
    EmptySound(b2);
    HeaderApart(b, b1, OFF_NUM_KEYS, Word(0));
    HeaderApart(b1, b2, OFF_CELL_START, Word(PAGE_SIZE));
    SameHeaderThrough(b, b1, b2);
  }

  lemma SameHeaderSelf(b: Image)
    ensures SameHeader(b, b)
  {
  }

  lemma SameHeaderThrough(b: Image, b1: Image, b2: Image)
    requires SameHeader(b, b1) && SameHeader(b1, b2)
    ensures SameHeader(b, b2)
  {
  }

  /** A write to the count, the heap start or beyond the header. */
  lemma HeaderApart(b: Image, b': Image, at: nat, data: Bytes)
    requires Wrote(b, b', at, data) && OFF_NUM_KEYS <= at && (at + |data| <= OFF_PAGE_TYPE || PAGE_HEADER_SIZE <= at)
    ensures SameHeader(b, b')
  {
    WroteSlice(b, b', at, data, 0, OFF_NUM_KEYS);
    WroteSlice(b, b', at, data, OFF_PAGE_TYPE, PAGE_HEADER_SIZE);
    assert b[0..OFF_NUM_KEYS] == b[..OFF_NUM_KEYS] && b'[0..OFF_NUM_KEYS] == b'[..OFF_NUM_KEYS];
  }

  lemma ReplacedIs(cs: seq<Bytes>, index: nat, cell: Bytes)
    requires index < |cs|
    ensures |Removed(cs, index)| == |cs| - 1 && Inserted(Removed(cs, index), index, cell) == cs[index := cell]
  {
  }

  lemma Fresh(id: nat, kind: nat, b0: Image, b1: Image, b2: Image, b3: Image, b4: Image)
    requires id < U32_LIMIT && kind <= 4 && NumKeys(b0) == 0 && Wrote(b0, b1, 4, LE(id, 4))
    requires Wrote(b1, b2, 8, [255, 255, 255, 255, 255, 255, 255, 255]) && Wrote(b2, b3, OFF_CELL_START, Word(PAGE_SIZE))
    requires Wrote(b3, b4, OFF_PAGE_TYPE, [kind, if kind == 2 then 1 else 0])
    ensures Sound(b4) && Cells(b4) == [] && FreeSpace(b4) == USABLE_SPACE
    ensures FromLE(b4[4..8]) == id && b4[OFF_PAGE_TYPE] == kind
  {
    FreshWords(id, kind, b0, b1, b2, b3, b4);
    EmptySound(b4);
    FreshId(id, kind, b0, b1, b2, b3, b4);
  }

  lemma FreshWords(id: nat, kind: nat, b0: Image, b1: Image, b2: Image, b3: Image, b4: Image)
    requires id < U32_LIMIT && kind <= 4 && NumKeys(b0) == 0 && Wrote(b0, b1, 4, LE(id, 4))
    requires Wrote(b1, b2, 8, [255, 255, 255, 255, 255, 255, 255, 255]) && Wrote(b2, b3, OFF_CELL_START, Word(PAGE_SIZE))
    requires Wrote(b3, b4, OFF_PAGE_TYPE, [kind, if kind == 2 then 1 else 0])
    ensures NumKeys(b4) == 0 && CellStart(b4) == PAGE_SIZE && b4[OFF_PAGE_TYPE] == kind
  {
    WroteElsewhere(b0, b1, 4, LE(id, 4), OFF_NUM_KEYS);
    WroteWord(b2, b3, OFF_CELL_START, Word(PAGE_SIZE), 0);
    var tail := b4[OFF_PAGE_TYPE..OFF_PAGE_TYPE + 2];
    assert tail[0] == b4[OFF_PAGE_TYPE];
  }

  lemma FreshId(id: nat, kind: nat, b0: Image, b1: Image, b2: Image, b3: Image, b4: Image)
    requires id < U32_LIMIT && kind <= 4 && Wrote(b0, b1, 4, LE(id, 4))
    requires Wrote(b1, b2, 8, [255, 255, 255, 255, 255, 255, 255, 255]) && Wrote(b2, b3, OFF_CELL_START, Word(PAGE_SIZE))
    requires Wrote(b3, b4, OFF_PAGE_TYPE, [kind, if kind == 2 then 1 else 0])
    ensures FromLE(b4[4..8]) == id
  {
    WroteSlice(b1, b2, 8, [255, 255, 255, 255, 255, 255, 255, 255], 4, 8);
    WroteSlice(b2, b3, OFF_CELL_START, Word(PAGE_SIZE), 4, 8);
    WroteSlice(b3, b4, OFF_PAGE_TYPE, [kind, if kind == 2 then 1 else 0], 4, 8);
    WordLimits();
    LERoundTrip(id, 4);
  }
}
