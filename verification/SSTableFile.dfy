/** A whole table file: data, Bloom filter, sparse index and footer; writing one,
    opening it again, and reading through what was opened. */
module SSTableFile {
  import opened Bytes
  import opened Wrappers
  import opened LsmRuns
  import opened SSTable

  const FOOTER_LEN: nat := 76
  const SSTABLE_MAGIC: nat := 0x5044_4253_5354_424C
  const MAX_BITS: nat := 0x4000_0000

  // ---- the filter section ----------------------------------------------------

  /** The bit array and the number of probes per key. */
  datatype Filter = Filter(bits: seq<bool>, hashes: nat)

  predicate ValidFilter(f: Filter) {
    0 < |f.bits| <= MAX_BITS && |f.bits| % 64 == 0 && 1 <= f.hashes <= 30
  }

  function Bit(b: bool): nat { if b then 1 else 0 }

  /** The number whose binary digits are `b`, lowest first. */
  function Value(b: seq<bool>): (v: nat)
    ensures v < Pow2(|b|)
  {
    if b == [] then 0 else Bit(b[0]) + 2 * Value(b[1..])
  }

  function Digits(x: nat, n: nat): (b: seq<bool>)
    ensures |b| == n
  {
    if n == 0 then [] else [x % 2 == 1] + Digits(x / 2, n - 1)
  }

  lemma {:induction false} DigitsBack(b: seq<bool>)
    ensures Digits(Value(b), |b|) == b
  {
    if b != [] {
      DigitsBack(b[1..]);
      assert Value(b) % 2 == Bit(b[0]) && Value(b) / 2 == Value(b[1..]);
      assert b == [b[0]] + b[1..];
    }
  }

  function PackByte(b: seq<bool>): Byte
    requires |b| == 8
  {
    assert Pow2(8) == 256 by { assert Pow2(4) == 16; }
    Value(b)
  }

  /** Little-endian 64-bit words, seen byte by byte: eight bits each, lowest first. */
  function Pack(bits: seq<bool>): Bytes {
    if |bits| < 8 then [] else [PackByte(bits[..8])] + Pack(bits[8..])
  }

  function Unpack(b: Bytes): seq<bool> {
    if b == [] then [] else Digits(b[0], 8) + Unpack(b[1..])
  }

  lemma {:induction false} UnpackBack(bits: seq<bool>)
    requires |bits| % 8 == 0
    ensures Unpack(Pack(bits)) == bits && |Pack(bits)| == |bits| / 8
  {
    if bits != [] {
      assert |bits| >= 8 && |bits[8..]| % 8 == 0;
      UnpackBack(bits[8..]);
      DigitsBack(bits[..8]);
      assert Pack(bits)[1..] == Pack(bits[8..]);
      assert bits == bits[..8] + bits[8..];
    }
  }

  function EncodeFilter(f: Filter): Bytes {
    LE(|f.bits|, 8) + LE(f.hashes, 4) + Pack(f.bits)
  }

  function DecodeFilter(b: Bytes): Option<Filter> {
    if |b| < 12 then None
    else
      var bits, hashes := FromLE(b[..8]), FromLE(b[8..12]);
      if bits == 0 || bits > MAX_BITS || bits % 64 != 0 || hashes == 0 || hashes > 30 || |b| != 12 + bits / 64 * 8 then None
      else Some(Filter(Unpack(b[12..]), hashes))
  }

  /** A filter reads back bit for bit. */
  lemma FilterBack(f: Filter)
    requires ValidFilter(f)
    ensures DecodeFilter(EncodeFilter(f)) == Some(f)
  {
    hide LE, FromLE, Pow256, Pack, Unpack;
    WordLimits();
    LERoundTrip(|f.bits|, 8);
    LERoundTrip(f.hashes, 4);
    assert |f.bits| % 8 == 0 && |f.bits| / 64 * 8 == |f.bits| / 8;
    UnpackBack(f.bits);
    var b, x, y, z := EncodeFilter(f), LE(|f.bits|, 8), LE(f.hashes, 4), Pack(f.bits);
    assert b[..8] == x && b[8..12] == y && b[12..] == z;
  }

  // ---- the index section -------------------------------------------------------

  function EncodeRestart(e: (Bytes, nat)): Bytes {
    LE(|e.0|, 4) + LE(e.1, 8) + e.0
  }

  function EncodeIndex(index: Index): Bytes {
    if index == [] then [] else EncodeRestart(index[0]) + EncodeIndex(index[1..])
  }

  ghost predicate IndexFits(index: Index) {
    forall i | 0 <= i < |index| :: |index[i].0| < U32_LIMIT && index[i].1 < U64_LIMIT
  }

  lemma RestartParts(e: (Bytes, nat), rest: Bytes)
    requires |e.0| < U32_LIMIT && e.1 < U64_LIMIT
    ensures var b := EncodeRestart(e) + rest;
            && |b| >= 12 + |e.0| && FromLE(b[..4]) == |e.0| && FromLE(b[4..12]) == e.1
            && b[12..12 + |e.0|] == e.0 && b[12 + |e.0|..] == rest
  {
    hide LE, FromLE, Pow256;
    WordLimits();
    LERoundTrip(|e.0|, 4);
    LERoundTrip(e.1, 8);
    var b, x, y := EncodeRestart(e) + rest, LE(|e.0|, 4), LE(e.1, 8);
    assert b[..4] == x && b[4..12] == y;
  }

  /** Parses an index section; what was written comes back, and nothing else does
      under a wrong count. */
  method DecodeIndex(buf: Bytes, count: nat, ghost index: Index) returns (r: Option<Index>)
    ensures r.Some? ==> |r.value| == count
    ensures buf == EncodeIndex(index) && IndexFits(index) ==> r == if count == |index| then Some(index) else None
  {
    hide EncodeRestart;
    var out: Index := [];
    var rest := buf;
    while rest != []
      invariant buf == EncodeIndex(index) && IndexFits(index) ==>
                  |out| <= |index| && out == index[..|out|] && rest == EncodeIndex(index[|out|..])
      decreases |rest|
    {
      if buf == EncodeIndex(index) && IndexFits(index) {
        RestartsLeft(index, |out|);
        NextRestart(index, |out|);
      }
      if |rest| < 12 { return None; }
      var keyLen, offset := FromLE(rest[..4]), FromLE(rest[4..12]);
      if 12 + keyLen > |rest| { return None; }
      out := out + [(rest[12..12 + keyLen], offset)];
      rest := rest[12 + keyLen..];
    }
    if buf == EncodeIndex(index) && IndexFits(index) { RestartsLeft(index, |out|); }
    assert index[..|index|] == index;
    if |out| != count { return None; }
    r := Some(out);
  }

  lemma RestartsLeft(index: Index, n: nat)
    requires n <= |index|
    ensures EncodeIndex(index[n..]) == [] <==> n == |index|
  {
    if n == |index| { assert index[n..] == []; } else { assert |EncodeRestart(index[n..][0])| >= 12; }
  }

  lemma NextRestart(index: Index, n: nat)
    requires IndexFits(index) && n < |index|
    ensures var b, e := EncodeIndex(index[n..]), index[n];
            && |b| >= 12 + |e.0| && FromLE(b[..4]) == |e.0| && FromLE(b[4..12]) == e.1
            && b[12..12 + |e.0|] == e.0 && b[12 + |e.0|..] == EncodeIndex(index[n + 1..])
    ensures index[..n] + [index[n]] == index[..n + 1]
  {
    hide EncodeRestart, FromLE;
    assert index[n..][1..] == index[n + 1..] && index[n..][0] == index[n];
    RestartParts(index[n], EncodeIndex(index[n + 1..]));
  }

  // ---- key bounds ----------------------------------------------------------------

  /** Recovers the key bounds from the data section. */
  method ScanKeyBounds(data: Bytes, ghost r: Run) returns (bounds: Option<(Bytes, Bytes)>)
    ensures data == DataOf(r) && AllStorable(r) && r != [] ==> bounds == Some((r[0].key, r[|r| - 1].key))
    ensures data == [] ==> bounds == Some(([], []))
  {
    hide DataOf, DecodeEntry, OffsetOf, AllStorable, Storable;
    if data == [] {
      EmptyRun(r);
      return Some(([], []));
    }
    ghost var known := data == DataOf(r) && AllStorable(r) && r != [];
    if known {
      OffsetEnds(r);
      DecodeAt(r, 0);
    }
    var d := DecodeEntry(data, 0);
    if d.None? { return None; }
    var min, max, pos := d.value.0.key, d.value.0.key, d.value.1;
    DecodeMoves(data, 0);
    ghost var i := 1;
    while pos < |data|
      invariant known ==> 1 <= i <= |r| && pos == OffsetOf(r, i) && min == r[0].key && max == r[i - 1].key
      decreases |data| - pos
    {
      if known && i < |r| { DecodeAt(r, i); }
      d := DecodeEntry(data, pos);
      if d.None? { return None; }
      DecodeMoves(data, pos);
      max, pos := d.value.0.key, d.value.1;
      i := i + 1;
    }
    if known && i < |r| { DecodeAt(r, i); }
    bounds := Some((min, max));
  }

  lemma DecodeMoves(b: Bytes, pos: nat)
    ensures DecodeEntry(b, pos).Some? ==> pos < DecodeEntry(b, pos).value.1 <= |b|
  {
    hide FromLE;
  }

  lemma EmptyRun(r: Run)
    ensures DataOf(r) == [] ==> r == []
  {
    if r != [] { DataNotEmpty(r); }
  }

  // ---- the footer ------------------------------------------------------------------

  /** What a finished writer leaves on disk. */
  datatype Table = Table(data: Bytes, filter: Filter, index: Index, count: nat, minSeqno: nat, maxSeqno: nat)

  function Body(t: Table): Bytes {
    t.data + EncodeFilter(t.filter) + EncodeIndex(t.index)
  }

  function Fields(t: Table): seq<nat> {
    var bloom, index := |EncodeFilter(t.filter)|, |EncodeIndex(t.index)|;
    [|t.data|, bloom, |t.data| + bloom, index, |t.index|, t.count, t.minSeqno, t.maxSeqno]
  }

  function Words(fs: seq<nat>): (b: Bytes)
    ensures |b| == 8 * |fs|
  {
    if fs == [] then [] else LE(fs[0], 8) + Words(fs[1..])
  }

  function FileOf(t: Table, crc: Checksum): Bytes {
    Body(t) + Words(Fields(t)) + LE(crc(Body(t)), 4) + LE(SSTABLE_MAGIC, 8)
  }

  ghost predicate AllWords(fs: seq<nat>) {
    forall i | 0 <= i < |fs| :: fs[i] < U64_LIMIT
  }

  /** The file is shorter than 2^64 bytes and its counters fit 64 bits. */
  ghost predicate Writable(t: Table) {
    ValidFilter(t.filter) && IndexFits(t.index) && AllWords(Fields(t)) && |Body(t)| < U64_LIMIT
  }

  function WordAt(b: Bytes, i: nat): nat
    requires 8 * i + 8 <= |b|
  {
    FromLE(b[8 * i..8 * i + 8])
  }

  lemma {:induction false} WordsBack(fs: seq<nat>, i: nat)
    requires AllWords(fs) && i < |fs|
    ensures WordAt(Words(fs), i) == fs[i]
  {
    hide LE, FromLE, Pow256;
    var b, x, y := Words(fs), LE(fs[0], 8), Words(fs[1..]);
    if i == 0 {
      assert b[0..8] == x;
      WordLimits();
      LERoundTrip(fs[0], 8);
    } else {
      WordsBack(fs[1..], i - 1);
      assert b[8 * i..8 * i + 8] == y[8 * (i - 1)..8 * (i - 1) + 8];
    }
  }

  /** Where the parts of a file lie. */
  lemma FileParts(t: Table, crc: Checksum)
    ensures var f, n := FileOf(t, crc), |Body(t)|;
            && |f| == n + FOOTER_LEN && f[..n] == Body(t) && f[n..n + 64] == Words(Fields(t))
            && f[n + 64..n + 68] == LE(crc(Body(t)), 4) && f[n + 68..] == LE(SSTABLE_MAGIC, 8)
  {
    hide LE, Body, Words, Fields;
    var b, w, c, m := Body(t), Words(Fields(t)), LE(crc(Body(t)), 4), LE(SSTABLE_MAGIC, 8);
    FieldCount(t);
    assert FileOf(t, crc) == b + w + c + m;
  }

  lemma FieldCount(t: Table)
    ensures |Fields(t)| == 8
  {
  }

  lemma BodyParts(t: Table)
    ensures var b, d, x := Body(t), |t.data|, |t.data| + |EncodeFilter(t.filter)|;
            && b[..d] == t.data && b[d..x] == EncodeFilter(t.filter) && b[x..] == EncodeIndex(t.index)
            && x <= |b| == x + |EncodeIndex(t.index)|
  {
    hide EncodeFilter, EncodeIndex;
  }

  // ---- opening -----------------------------------------------------------------------

  datatype Opened = Opened(table: Table, minKey: Bytes, maxKey: Bytes)

  /** The footer's eight words, once the magic, the checksum and the tiling of the
      sections have been found right. */
  function ParseFooter(f: Bytes, crc: Checksum): Option<seq<nat>> {
    if |f| < FOOTER_LEN then None
    else
      var n := |f| - FOOTER_LEN;
      var w := f[n..n + 64];
      var fs := [WordAt(w, 0), WordAt(w, 1), WordAt(w, 2), WordAt(w, 3), WordAt(w, 4), WordAt(w, 5), WordAt(w, 6), WordAt(w, 7)];
      if FromLE(f[n + 68..]) != SSTABLE_MAGIC then None
      else if fs[0] + fs[1] >= U64_LIMIT || fs[2] + fs[3] >= U64_LIMIT then None
      else if fs[0] + fs[1] != fs[2] || fs[2] + fs[3] != n then None
      else if crc(f[..n]) != FromLE(f[n + 64..n + 68]) then None
      else Some(fs)
  }

  lemma FooterBack(t: Table, crc: Checksum)
    requires Writable(t)
    ensures ParseFooter(FileOf(t, crc), crc) == Some(Fields(t))
  {
    hide LE, FromLE, Pow256, Body, Words, FileOf, WordAt, ValidFilter, IndexFits;
    FileParts(t, crc);
    BodyLength(t);
    WordLimits();
    LERoundTrip(crc(Body(t)), 4);
    LERoundTrip(SSTABLE_MAGIC, 8);
    FieldsBack(Fields(t));
    hide EncodeFilter, EncodeIndex;
  }

  lemma BodyLength(t: Table)
    ensures var fs := Fields(t);
            fs[0] + fs[1] == fs[2] && fs[2] + fs[3] == |Body(t)|
  {
  }

  lemma FieldsBack(fs: seq<nat>)
    requires AllWords(fs) && |fs| == 8
    ensures var w := Words(fs);
            fs == [WordAt(w, 0), WordAt(w, 1), WordAt(w, 2), WordAt(w, 3), WordAt(w, 4), WordAt(w, 5), WordAt(w, 6), WordAt(w, 7)]
  {
    hide Words, WordAt;
    forall i | 0 <= i < 8 ensures WordAt(Words(fs), i) == fs[i] { WordsBack(fs, i); }
  }

  /** Opens any file; a file a writer finished opens as the table it was given, with
      the true key bounds. */
  method Open(f: Bytes, crc: Checksum, ghost t: Table, ghost r: Run) returns (o: Option<Opened>)
    ensures f == FileOf(t, crc) && Writable(t) && t.data == DataOf(r) && AllStorable(r) ==>
              && o.Some? && o.value.table == t
              && (r != [] ==> o.value.minKey == r[0].key && o.value.maxKey == r[|r| - 1].key)
  {
    hide FileOf, Body, ParseFooter, Writable, DataOf, AllStorable, EncodeFilter, DecodeFilter, EncodeIndex, Words, WordAt;
    ghost var known := f == FileOf(t, crc) && Writable(t) && t.data == DataOf(r) && AllStorable(r);
    if known { KnownFile(t, crc, r); }
    FooterFits(f, crc);
    var fs := ParseFooter(f, crc);
    if fs.None? { return None; }
    var d, x, n := fs.value[0], fs.value[2], |f| - FOOTER_LEN;
    var body := f[..n];
    var filter := DecodeFilter(body[d..x]);
    if filter.None? { return None; }
    var index := DecodeIndex(body[x..], fs.value[4], t.index);
    if index.None? { return None; }
    var bounds := ScanKeyBounds(body[..d], r);
    if bounds.None? { return None; }
    o := Some(Opened(Table(body[..d], filter.value, index.value, fs.value[5], fs.value[6], fs.value[7]), bounds.value.0, bounds.value.1));
  }

  lemma FooterFits(f: Bytes, crc: Checksum)
    ensures var fs := ParseFooter(f, crc);
            fs.Some? ==> |fs.value| == 8 && |f| >= FOOTER_LEN && fs.value[0] <= fs.value[2] <= |f| - FOOTER_LEN
  {
    hide FromLE;
  }

  /** Everything opening finds in a finished file. */
  lemma KnownFile(t: Table, crc: Checksum, r: Run)
    requires Writable(t) && t.data == DataOf(r)
    ensures var f, n, d, x := FileOf(t, crc), |Body(t)|, |t.data|, |t.data| + |EncodeFilter(t.filter)|;
            && |f| == n + FOOTER_LEN && f[..n] == Body(t) && ParseFooter(f, crc) == Some(Fields(t))
            && d <= x <= n && Body(t)[..d] == t.data && DecodeFilter(Body(t)[d..x]) == Some(t.filter)
            && Body(t)[x..] == EncodeIndex(t.index) && IndexFits(t.index)
    ensures var fs := Fields(t);
            && |fs| == 8 && fs[0] == |t.data| && fs[2] == |t.data| + |EncodeFilter(t.filter)| && fs[4] == |t.index|
            && fs[5] == t.count && fs[6] == t.minSeqno && fs[7] == t.maxSeqno
    ensures r == [] ==> t.data == []
  {
    hide Body, FileOf, ParseFooter, EncodeFilter, DecodeFilter, EncodeIndex, Words, IndexFits, AllWords, LE;
    FileParts(t, crc);
    BodyParts(t);
    FooterBack(t, crc);
    FilterBack(t.filter);
  }

  // ---- from a run to a file and back ---------------------------------------------------

  /** The hash functions: which bits a key probes, for a given number of bits and
      probes. */
  type Hashes = (nat, nat) -> Probes

  ghost predicate HashesInRange(hashes: Hashes) {
    forall bits: nat, n: nat, key, i | bits > 0 && 0 <= i < |hashes(bits, n)(key)| :: hashes(bits, n)(key)[i] < bits
  }

  /** One 64-bit hash of the key plus multiples of another, modulo the number of bits. */
  function ProbeAt(pair: (nat, nat), bits: nat, i: nat): nat {
    if bits == 0 then 0 else (pair.0 + (i * pair.1) % U64_LIMIT) % U64_LIMIT % bits
  }

  function ProbesOf(pair: (nat, nat), bits: nat, n: nat): seq<nat> {
    seq(n, i requires 0 <= i < n => ProbeAt(pair, bits, i))
  }

  function KeyProbes(pair: Bytes -> (nat, nat), bits: nat, n: nat): Probes {
    (key: Bytes) => ProbesOf(pair(key), bits, n)
  }

  function DoubleHashing(pair: Bytes -> (nat, nat)): Hashes {
    (bits: nat, n: nat) => KeyProbes(pair, bits, n)
  }

  /** Double hashing stays within the filter, whatever the two hashes. */
  lemma DoubleHashingInRange(pair: Bytes -> (nat, nat))
    ensures HashesInRange(DoubleHashing(pair))
  {
    forall bits: nat, n: nat, key, i | bits > 0 && 0 <= i < |DoubleHashing(pair)(bits, n)(key)|
      ensures DoubleHashing(pair)(bits, n)(key)[i] < bits
    {
      ProbeWithin(pair(key), bits, i);
    }
  }

  lemma ProbeWithin(pair: (nat, nat), bits: nat, i: nat)
    requires bits > 0
    ensures ProbeAt(pair, bits, i) < bits
  {
  }

  lemma ProbesInRange(hashes: Hashes, bits: array<bool>, n: nat, key: Bytes)
    requires HashesInRange(hashes) && bits.Length > 0
    ensures InRange(bits, hashes(bits.Length, n), key)
  {
  }

  /** The index takes no more room than the data. */
  ghost predicate IndexSmall(index: Index, data: Bytes) {
    |EncodeIndex(index)| <= |data| && |index| <= |data| && forall i | 0 <= i < |index| :: |index[i].0| <= MAX_ENTRY_FIELD && index[i].1 <= |data|
  }

  lemma IndexSmallNext(index: Index, data: Bytes, e: Entry)
    requires IndexSmall(index, data) && |e.key| <= MAX_ENTRY_FIELD
    ensures IndexSmall(index, data + EncodeEntry(e)) && IndexSmall(index + [(e.key, |data|)], data + EncodeEntry(e))
  {
    IndexLength(index, (e.key, |data|));
    hide EncodeIndex;
  }

  lemma {:induction false} IndexLength(index: Index, x: (Bytes, nat))
    ensures |EncodeIndex(index + [x])| == |EncodeIndex(index)| + 12 + |x.0|
  {
    if index == [] {
      assert [x][1..] == [];
      assert index + [x] == [x];
    } else {
      assert (index + [x])[1..] == index[1..] + [x];
      IndexLength(index[1..], x);
    }
  }

  lemma SmallWritable(t: Table)
    requires ValidFilter(t.filter) && IndexSmall(t.index, t.data) && 2 * |t.data| + |t.filter.bits| + 12 < U64_LIMIT
    requires t.count < U64_LIMIT && t.minSeqno < U64_LIMIT && t.maxSeqno < U64_LIMIT
    ensures Writable(t)
  {
    hide EncodeIndex, Pack, LE;
    UnpackBack(t.filter.bits);
    assert |EncodeFilter(t.filter)| == 12 + |Pack(t.filter.bits)|;
  }

  /** Writes a sorted run: no entry is refused, and the table describes the run. */
  method WriteTable(r: Run, size: nat, n: nat, hashes: Hashes) returns (t: Table)
    requires LsmRuns.Sorted(r) && AllStorable(r) && HashesInRange(hashes) && ValidFilter(Filter(seq(size, _ => false), n))
    ensures t.data == DataOf(r) && IndexOk(r, t.index) && t.count == |r|
    ensures |t.filter.bits| == size && t.filter.hashes == n && KeysRecorded(r, t.filter.bits, hashes(size, n))
    ensures forall e | e in r :: t.minSeqno <= e.seqno <= t.maxSeqno
    ensures r != [] ==> (exists e :: e in r && e.seqno == t.minSeqno) && exists e :: e in r && e.seqno == t.maxSeqno
    ensures 2 * |t.data| + size + 12 < U64_LIMIT ==> Writable(t)
  {
    hide LsmRuns.Sorted, AllStorable, HashesInRange, InRange, DataOf, IndexOk, KeysRecorded, IndexSmall, EncodeEntry, Spaced, KeyCount;
    var w := new Writer(size, hashes(size, n));
    NothingIndexed();
    for i := 0 to |r|
      invariant w.Valid() && w.run == r[..i] && w.bits.Length == size && w.probes == hashes(size, n)
      invariant fresh(w) && fresh(w.bits) && IndexSmall(w.index, w.data) && i <= |w.data|
    {
      InputStep(r, i);
      IndexSmallNext(w.index, w.data, r[i]);
      EntryNotEmpty(r[i]);
      ProbesInRange(hashes, w.bits, n, r[i].key);
      var ok := w.Append(r[i]);
    }
    assert r[..|r|] == r;
    t := Table(w.data, Filter(w.bits[..], n), w.index, w.entryCount, w.minSeqno, w.maxSeqno);
    SeqnosFit(r, t);
    if 2 * |t.data| + size + 12 < U64_LIMIT { SmallWritable(t); }
  }

  lemma NothingIndexed()
    ensures IndexSmall([], [])
  {
  }

  lemma SeqnosFit(r: Run, t: Table)
    requires AllStorable(r)
    requires r == [] ==> t.minSeqno < U64_LIMIT && t.maxSeqno < U64_LIMIT
    requires r != [] ==> (exists e :: e in r && e.seqno == t.minSeqno) && exists e :: e in r && e.seqno == t.maxSeqno
    ensures t.minSeqno < U64_LIMIT && t.maxSeqno < U64_LIMIT
  {
  }

  lemma InputStep(r: Run, i: nat)
    requires LsmRuns.Sorted(r) && AllStorable(r) && i < |r|
    ensures r[..i + 1] == r[..i] + [r[i]] && r[i].seqno < U64_LIMIT && |r[i].key| <= MAX_ENTRY_FIELD
    ensures i > 0 ==> r[..i][i - 1] == r[i - 1] && !Less(r[i].key, r[i - 1].key)
  {
    if i > 0 {
      assert Before(r[i - 1], r[i]);
      LessIrreflexive(r[i].key);
      if Less(r[i - 1].key, r[i].key) { LessAsymmetric(r[i - 1].key, r[i].key); }
    }
  }

  /** A lookup in an opened table is the first visible version of the run that was
      written. */
  method Lookup(o: Opened, hashes: Hashes, key: Bytes, snapshot: nat, ghost r: Run) returns (ok: bool, hit: Option<Entry>)
    requires LsmRuns.Sorted(r) && AllStorable(r) && HashesInRange(hashes) && o.table.data == DataOf(r) && IndexOk(r, o.table.index)
    requires |o.table.filter.bits| > 0
    requires KeysRecorded(r, o.table.filter.bits, hashes(|o.table.filter.bits|, o.table.filter.hashes))
    requires r != [] ==> o.minKey == r[0].key && o.maxKey == r[|r| - 1].key
    ensures ok && hit == FirstVisible(r, key, snapshot)
  {
    hide LsmRuns.Sorted, AllStorable, HashesInRange, InRange, DataOf, IndexOk, KeysRecorded;
    var filter := o.table.filter;
    var bits := new bool[|filter.bits|](i requires 0 <= i < |filter.bits| => filter.bits[i]);
    assert bits[..] == filter.bits;
    ProbesInRange(hashes, bits, filter.hashes, key);
    ok, hit := Get(o.table.data, o.table.index, bits, hashes(bits.Length, filter.hashes), o.minKey, o.maxKey, key, snapshot, r);
  }

  /** Write, open, look up: the whole path answers like a scan of the run, and the
      table opens with the run's own bounds. The file stays below 2^64 bytes. */
  method ThroughFile(r: Run, size: nat, n: nat, hashes: Hashes, crc: Checksum, key: Bytes, snapshot: nat)
    returns (o: Option<Opened>, ok: bool, hit: Option<Entry>)
    requires LsmRuns.Sorted(r) && AllStorable(r) && HashesInRange(hashes) && ValidFilter(Filter(seq(size, _ => false), n))
    requires 2 * |DataOf(r)| + size + 12 < U64_LIMIT
    ensures ok && o.Some? && hit == FirstVisible(r, key, snapshot)
    ensures o.value.table.data == DataOf(r) && o.value.table.count == |r|
    ensures r != [] ==> o.value.minKey == r[0].key && o.value.maxKey == r[|r| - 1].key
    ensures forall e | e in r :: o.value.table.minSeqno <= e.seqno <= o.value.table.maxSeqno
  {
    hide LsmRuns.Sorted, AllStorable, HashesInRange, DataOf, IndexOk, KeysRecorded, Writable, FileOf, FirstVisible;
    var t := WriteTable(r, size, n, hashes);
    o := Open(FileOf(t, crc), crc, t, r);
    ok, hit := Lookup(o.value, hashes, key, snapshot, r);
  }
}
