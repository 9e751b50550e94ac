/** Sorted runs as files: entry encoding, the writer's sparse index and Bloom
    filter, and point lookups that go through all three. */
module SSTable {
  import opened Bytes
  import opened Wrappers
  import opened LsmRuns

  const HEADER_LEN: nat := 17
  const RESTART_INTERVAL: nat := 16
  const MAX_ENTRY_FIELD: nat := 64 * 1024 * 1024

  // ---- entries as bytes ----------------------------------------------------

  /** What the engine lets into a table. */
  predicate Storable(e: Entry) {
    |e.key| <= MAX_ENTRY_FIELD && (e.slot.Some? ==> |e.slot.value| <= MAX_ENTRY_FIELD) && e.seqno < U64_LIMIT
  }

  function ValueOf(e: Entry): Bytes {
    if e.slot.Some? then e.slot.value else []
  }

  function Header(e: Entry): (b: Bytes)
    ensures |b| == HEADER_LEN
  {
    LE(|e.key|, 4) + LE(|ValueOf(e)|, 4) + LE(e.seqno, 8) + [if e.slot.Some? then 0 else 1]
  }

  function EncodeEntry(e: Entry): Bytes {
    Header(e) + e.key + ValueOf(e)
  }

  /** The entry at `pos` and where the next one starts; `None` is corruption. */
  function DecodeEntry(b: Bytes, pos: nat): Option<(Entry, nat)> {
    if pos + HEADER_LEN > |b| then None
    else
      var keyLen, valLen := FromLE(b[pos..pos + 4]), FromLE(b[pos + 4..pos + 8]);
      var seqno, kind := FromLE(b[pos + 8..pos + 16]), b[pos + 16];
      var keyEnd := pos + HEADER_LEN + keyLen;
      var end := keyEnd + valLen;
      if keyLen > MAX_ENTRY_FIELD || valLen > MAX_ENTRY_FIELD || end > |b| || kind > 1 then None
      else Some((Entry(b[pos + HEADER_LEN..keyEnd], seqno, if kind == 0 then Some(b[keyEnd..end]) else None), end))
  }

  /** The fields of an encoded header, wherever it lies. */
  lemma HeaderFields(a: Bytes, e: Entry, c: Bytes)
    ensures var b, pos := a + Header(e) + c, |a|;
            && b[pos..pos + 4] == LE(|e.key|, 4) && b[pos + 4..pos + 8] == LE(|ValueOf(e)|, 4)
            && b[pos + 8..pos + 16] == LE(e.seqno, 8) && b[pos + 16] == (if e.slot.Some? then 0 else 1)
  {
    hide LE;
    var b, pos, h := a + Header(e) + c, |a|, Header(e);
    assert b[pos..pos + HEADER_LEN] == h;
    assert h[..4] == LE(|e.key|, 4) && h[4..8] == LE(|ValueOf(e)|, 4) && h[8..16] == LE(e.seqno, 8);
    assert b[pos..pos + 4] == b[pos..pos + HEADER_LEN][..4] && b[pos + 4..pos + 8] == b[pos..pos + HEADER_LEN][4..8];
    assert b[pos + 8..pos + 16] == b[pos..pos + HEADER_LEN][8..16] && b[pos + 16] == h[16];
  }

  /** An encoded entry is read back wherever it lies. */
  lemma DecodeBack(a: Bytes, e: Entry, c: Bytes)
    requires Storable(e)
    ensures DecodeEntry(a + EncodeEntry(e) + c, |a|) == Some((e, |a| + |EncodeEntry(e)|))
  {
    hide LE, FromLE, Header;
    var b, pos := a + EncodeEntry(e) + c, |a|;
    var tail := e.key + ValueOf(e) + c;
    assert b == a + Header(e) + tail;
    HeaderFields(a, e, tail);
    WordLimits();
    LERoundTrip(|e.key|, 4);
    LERoundTrip(|ValueOf(e)|, 4);
    LERoundTrip(e.seqno, 8);
    var k := pos + HEADER_LEN;
    PayloadSlices(a + Header(e), e.key, ValueOf(e), c);
    assert b == a + Header(e) + (e.key + ValueOf(e) + c);
  }

  lemma PayloadSlices(head: Bytes, k: Bytes, v: Bytes, rest: Bytes)
    ensures var b, n := head + (k + v + rest), |head|;
            b[n..n + |k|] == k && b[n + |k|..n + |k| + |v|] == v
  {
  }

  // ---- the data section ----------------------------------------------------

  function DataOf(r: Run): Bytes {
    if r == [] then [] else DataOf(r[..|r| - 1]) + EncodeEntry(r[|r| - 1])
  }

  function OffsetOf(r: Run, i: nat): nat
    requires i <= |r|
  {
    |DataOf(r[..i])|
  }

  ghost predicate AllStorable(r: Run) {
    forall i | 0 <= i < |r| :: Storable(r[i])
  }

  lemma {:induction false} DataConcat(a: Run, b: Run)
    ensures DataOf(a + b) == DataOf(a) + DataOf(b)
  {
    hide EncodeEntry;
    if b == [] {
      assert a + b == a;
    } else {
      assert (a + b)[..|a + b| - 1] == a + b[..|b| - 1];
      DataConcat(a, b[..|b| - 1]);
    }
  }

  /** Decoding at an entry's offset gives the entry and the next offset. */
  lemma DecodeAt(r: Run, i: nat)
    requires AllStorable(r) && i < |r|
    ensures DecodeEntry(DataOf(r), OffsetOf(r, i)) == Some((r[i], OffsetOf(r, i + 1)))
    ensures OffsetOf(r, i) < |DataOf(r)|
  {
    hide EncodeEntry, DecodeEntry, DataOf;
    assert r == r[..i] + [r[i]] + r[i + 1..] && r[..i + 1] == r[..i] + [r[i]];
    DataConcat(r[..i] + [r[i]], r[i + 1..]);
    DataConcat(r[..i], [r[i]]);
    DataOne(r[i]);
    DecodeBack(DataOf(r[..i]), r[i], DataOf(r[i + 1..]));
    EntryNotEmpty(r[i]);
  }

  lemma DataOne(e: Entry)
    ensures DataOf([e]) == EncodeEntry(e)
  {
    hide EncodeEntry;
    assert [e][..0] == [];
  }

  lemma EntryNotEmpty(e: Entry)
    ensures |EncodeEntry(e)| > 0
  {
  }

  lemma OffsetEnds(r: Run)
    ensures OffsetOf(r, 0) == 0 && OffsetOf(r, |r|) == |DataOf(r)|
  {
    assert r[..0] == [] && r[..|r|] == r;
  }

  /** Every entry of a table, in stored order. */
  method Entries(data: Bytes, ghost r: Run) returns (out: Option<Run>)
    requires AllStorable(r) && data == DataOf(r)
    ensures out == Some(r)
  {
    hide DataOf, DecodeEntry, OffsetOf;
    OffsetEnds(r);
    var pos, es: Run := 0, [];
    ghost var i := 0;
    while pos < |data|
      invariant 0 <= i <= |r| && pos == OffsetOf(r, i) && es == r[..i]
      decreases |r| - i
    {
      DecodeAt(r, if i < |r| then i else |r| - 1);
      var d := DecodeEntry(data, pos);
      if d.None? { return None; }
      es, pos := es + [d.value.0], d.value.1;
      i := i + 1;
    }
    if i < |r| { DecodeAt(r, i); }
    assert r[..|r|] == r;
    out := Some(es);
  }

  // ---- the Bloom filter ----------------------------------------------------

  /** `probes(key)` are the bits the hash functions pick for a key. */
  type Probes = Bytes -> seq<nat>

  ghost predicate InRange(bits: array<bool>, probes: Probes, key: Bytes)
    reads bits
  {
    forall i | 0 <= i < |probes(key)| :: probes(key)[i] < bits.Length
  }

  predicate AllSet(bits: seq<bool>, ps: seq<nat>) {
    forall i | 0 <= i < |ps| :: ps[i] < |bits| && bits[ps[i]]
  }

  /** Records a key: its bits are set, and no other bit changes. */
  method BloomInsert(bits: array<bool>, probes: Probes, key: Bytes)
    requires InRange(bits, probes, key)
    modifies bits
    ensures AllSet(bits[..], probes(key))
    ensures forall i | 0 <= i < bits.Length :: bits[i] <==> old(bits[i]) || i in probes(key)
  {
    var ps := probes(key);
    for n := 0 to |ps|
      invariant forall i | 0 <= i < bits.Length :: bits[i] <==> old(bits[i]) || i in ps[..n]
    {
      bits[ps[n]] := true;
    }
  }

  /** `false` only if some probed bit is clear. */
  method BloomContains(bits: array<bool>, probes: Probes, key: Bytes) returns (maybe: bool)
    requires InRange(bits, probes, key)
    ensures maybe <==> AllSet(bits[..], probes(key))
  {
    var ps := probes(key);
    for n := 0 to |ps|
      invariant forall i | 0 <= i < n :: bits[ps[i]]
    {
      if !bits[ps[n]] { return false; }
    }
    maybe := true;
  }

  // ---- the sparse index ----------------------------------------------------

  type Index = seq<(Bytes, nat)>

  /** An index entry names a key and where its first version starts. */
  ghost predicate Restart(r: Run, key: Bytes, offset: nat) {
    exists i :: 0 <= i < |r| && r[i].key == key && OffsetOf(r, i) == offset && (forall j | 0 <= j < i :: Less(r[j].key, key))
  }

  ghost predicate IndexOk(r: Run, index: Index) {
    && (forall n | 0 <= n < |index| :: Restart(r, index[n].0, index[n].1))
    && (forall m, n | 0 <= m < n < |index| :: Less(index[m].0, index[n].0))
  }

  lemma RestartGrows(r: Run, e: Entry, key: Bytes, offset: nat)
    requires Restart(r, key, offset)
    ensures Restart(r + [e], key, offset)
  {
    hide DataOf;
    var i :| 0 <= i < |r| && r[i].key == key && OffsetOf(r, i) == offset && (forall j | 0 <= j < i :: Less(r[j].key, key));
    var q := r + [e];
    assert q[i] == r[i] && q[..i] == r[..i];
    forall j | 0 <= j < i ensures Less(q[j].key, key) { assert q[j] == r[j]; }
  }

  /** A new key, greater than all before it, may become a restart point. */
  lemma IndexSnoc(r: Run, index: Index, e: Entry, restart: bool)
    requires IndexOk(r, index) && forall j | 0 <= j < |r| :: AtMost(r[j].key, e.key)
    requires restart ==> forall j | 0 <= j < |r| :: Less(r[j].key, e.key)
    ensures IndexOk(r + [e], if restart then index + [(e.key, |DataOf(r)|)] else index)
  {
    hide DataOf, Less, Restart;
    var q, index' := r + [e], if restart then index + [(e.key, |DataOf(r)|)] else index;
    forall n | 0 <= n < |index'| ensures Restart(q, index'[n].0, index'[n].1) {
      if n < |index| { RestartGrows(r, e, index[n].0, index[n].1); } else { NewRestart(r, e); }
    }
    forall m, n | 0 <= m < n < |index'| ensures Less(index'[m].0, index'[n].0) {
      if n == |index| { RestartKey(r, index[m].0, index[m].1, e); }
    }
  }

  lemma NewRestart(r: Run, e: Entry)
    requires forall j | 0 <= j < |r| :: Less(r[j].key, e.key)
    ensures Restart(r + [e], e.key, |DataOf(r)|)
  {
    hide DataOf, Less;
    var q := r + [e];
    assert q[..|r|] == r && q[|r|] == e;
  }

  lemma RestartKey(r: Run, key: Bytes, offset: nat, e: Entry)
    requires Restart(r, key, offset) && forall j | 0 <= j < |r| :: Less(r[j].key, e.key)
    ensures Less(key, e.key)
  {
    hide DataOf, Less;
  }

  // ---- the writer ----------------------------------------------------------

  /** Builds a table from entries supplied in order. */
  class Writer {
    var data: Bytes
    var index: Index
    const bits: array<bool>
    const probes: Probes
    var entryCount: nat
    var distinctKeys: nat
    var lastKey: Option<Bytes>
    var minKey: Option<Bytes>
    var maxKey: Bytes
    var minSeqno: nat
    var maxSeqno: nat
    ghost var run: Run

    ghost predicate Valid()
      reads this, bits
    {
      && Written(run, data, index) && KeysRecorded(run, bits[..], probes) && Bounds(run, minKey, maxKey, minSeqno, maxSeqno)
      && entryCount == |run| && lastKey == (if run == [] then None else Some(run[|run| - 1].key))
      && distinctKeys == KeyCount(run) && Spaced(|index|, distinctKeys)
    }

    constructor (size: nat, probes: Probes)
      ensures Valid() && run == [] && data == [] && index == [] && fresh(bits) && bits.Length == size && this.probes == probes
    {
      data, index, entryCount, distinctKeys := [], [], 0, 0;
      lastKey, minKey, maxKey, minSeqno, maxSeqno := None, None, [], U64_LIMIT - 1, 0;
      bits := new bool[size];
      this.probes := probes;
      run := [];
    }

    /** Appends one entry; refused when its key sorts before the last one. */
    method Append(e: Entry) returns (ok: bool)
      requires Valid() && InRange(bits, probes, e.key) && e.seqno < U64_LIMIT
      modifies this, bits
      ensures Valid()
      ensures ok <==> old(lastKey).None? || !Less(e.key, old(lastKey).value)
      ensures run == if ok then old(run) + [e] else old(run)
      ensures data == if ok then old(data) + EncodeEntry(e) else old(data)
      ensures index == old(index) || (ok && index == old(index) + [(e.key, |old(data)|)])
    {
      hide Written, KeysRecorded, Bounds, EncodeEntry, Less, InRange, AllSet, KeyCount, Spaced;
      if lastKey.Some? && Less(e.key, lastKey.value) { return false; }
      var isNew := lastKey != Some(e.key);
      var restart := isNew && distinctKeys % RESTART_INTERVAL == 0;
      WrittenSnoc(run, data, index, e, restart);
      KeyCountSnoc(run, e);
      SpacedNext(|index|, distinctKeys);
      if isNew { NoteKey(e.key, restart); }
      KeysSnoc(run, e, bits[..], probes);
      Store(e);
      ok := true;
    }

    /** Emits the entry and moves the bounds. */
    method Store(e: Entry)
      requires Written(run + [e], data + EncodeEntry(e), index) && KeysRecorded(run + [e], bits[..], probes)
      requires Bounds(run, minKey, maxKey, minSeqno, maxSeqno) && e.seqno < U64_LIMIT
      requires entryCount == |run| && lastKey == Some(e.key)
      requires distinctKeys == KeyCount(run + [e]) && Spaced(|index|, distinctKeys)
      modifies this`minKey, this`maxKey, this`minSeqno, this`maxSeqno, this`data, this`entryCount, this`run
      ensures Valid() && run == old(run) + [e] && data == old(data) + EncodeEntry(e)
    {
      hide Written, KeysRecorded, Bounds, EncodeEntry, KeyCount, Spaced;
      BoundsSnoc(run, e, minKey, maxKey, minSeqno, maxSeqno);
      minKey := if minKey.None? then Some(e.key) else minKey;
      maxKey := e.key;
      minSeqno := if e.seqno < minSeqno then e.seqno else minSeqno;
      maxSeqno := if maxSeqno < e.seqno then e.seqno else maxSeqno;
      data, entryCount := data + EncodeEntry(e), entryCount + 1;
      run := run + [e];
    }

    /** A key not seen before: a restart point every 16, and into the filter. */
    method NoteKey(key: Bytes, restart: bool)
      requires KeysRecorded(run, bits[..], probes) && InRange(bits, probes, key)
      modifies this`index, this`distinctKeys, this`lastKey, bits
      ensures index == (if restart then old(index) + [(key, |data|)] else old(index))
      ensures KeysRecorded(run, bits[..], probes) && AllSet(bits[..], probes(key))
      ensures distinctKeys == old(distinctKeys) + 1 && lastKey == Some(key)
    {
      hide KeysRecorded, AllSet;
      if restart { index := index + [(key, |data|)]; }
      ghost var before := bits[..];
      BloomInsert(bits, probes, key);
      MoreBits(run, before, bits[..], probes);
      distinctKeys := distinctKeys + 1;
      lastKey := Some(key);
    }
  }

  /** One restart point for every sixteen keys, the first key included. */
  predicate Spaced(restarts: nat, keys: nat) {
    restarts == (keys + RESTART_INTERVAL - 1) / RESTART_INTERVAL
  }

  lemma SpacedNext(restarts: nat, keys: nat)
    requires Spaced(restarts, keys)
    ensures Spaced(if keys % RESTART_INTERVAL == 0 then restarts + 1 else restarts, keys + 1)
  {
  }

  /** How many different keys a run with ascending keys holds. */
  function KeyCount(r: Run): nat {
    if r == [] then 0
    else
      var n := |r| - 1;
      KeyCount(r[..n]) + (if n == 0 || r[n - 1].key != r[n].key then 1 else 0)
  }

  lemma KeyCountSnoc(r: Run, e: Entry)
    ensures KeyCount(r + [e]) == KeyCount(r) + (if r == [] || r[|r| - 1].key != e.key then 1 else 0)
  {
    assert (r + [e])[..|r|] == r;
  }

  lemma WrittenSnoc(r: Run, data: Bytes, index: Index, e: Entry, restart: bool)
    requires Written(r, data, index) && (r != [] ==> !Less(e.key, r[|r| - 1].key))
    requires restart ==> r == [] || r[|r| - 1].key != e.key
    ensures Written(r + [e], data + EncodeEntry(e), if restart then index + [(e.key, |data|)] else index)
  {
    hide IndexOk, EncodeEntry, DataOf, Less, KeysAscend;
    AppendSorted(r, e);
    DataSnoc(r, e);
    IndexSnoc(r, index, e, restart);
  }

  /** Keys in order, data and index as written. */
  ghost predicate Written(r: Run, data: Bytes, index: Index) {
    KeysAscend(r) && data == DataOf(r) && IndexOk(r, index)
  }

  /** Keys never decrease. */
  ghost predicate KeysAscend(r: Run) {
    forall i, j | 0 <= i < j < |r| :: AtMost(r[i].key, r[j].key)
  }

  ghost predicate KeysRecorded(r: Run, bits: seq<bool>, probes: Probes) {
    forall e | e in r :: AllSet(bits, probes(e.key))
  }

  /** The bounds kept while writing are those of the run. */
  ghost predicate Bounds(r: Run, minKey: Option<Bytes>, maxKey: Bytes, minSeqno: nat, maxSeqno: nat) {
    && (r == [] ==> minKey.None? && minSeqno == U64_LIMIT - 1 && maxSeqno == 0)
    && (r != [] ==> minKey == Some(r[0].key) && maxKey == r[|r| - 1].key)
    && (forall e | e in r :: minSeqno <= e.seqno <= maxSeqno)
    && (r != [] ==> exists e :: e in r && e.seqno == minSeqno) && (r != [] ==> exists e :: e in r && e.seqno == maxSeqno)
  }

  lemma DataSnoc(r: Run, e: Entry)
    ensures DataOf(r + [e]) == DataOf(r) + EncodeEntry(e)
  {
    hide EncodeEntry;
    assert (r + [e])[..|r|] == r;
  }

  lemma AppendSorted(r: Run, e: Entry)
    requires KeysAscend(r) && (r != [] ==> !Less(e.key, r[|r| - 1].key))
    ensures KeysAscend(r + [e]) && forall j | 0 <= j < |r| :: AtMost(r[j].key, e.key)
    ensures r == [] || r[|r| - 1].key != e.key ==> forall j | 0 <= j < |r| :: Less(r[j].key, e.key)
  {
    hide Less;
    forall j | 0 <= j < |r| ensures AtMost(r[j].key, e.key) && (r[|r| - 1].key != e.key ==> Less(r[j].key, e.key)) {
      var last := r[|r| - 1].key;
      LessTotal(last, e.key);
      if j < |r| - 1 {
        assert AtMost(r[j].key, last);
        if r[j].key != last && last != e.key { LessTransitive(r[j].key, last, e.key); }
      }
    }
  }

  lemma MoreBits(r: Run, a: seq<bool>, b: seq<bool>, probes: Probes)
    requires KeysRecorded(r, a, probes) && |a| == |b| && forall i | 0 <= i < |a| :: a[i] ==> b[i]
    ensures KeysRecorded(r, b, probes)
  {
  }

  lemma KeysSnoc(r: Run, e: Entry, bits: seq<bool>, probes: Probes)
    requires KeysRecorded(r, bits, probes)
    requires AllSet(bits, probes(e.key)) || (r != [] && r[|r| - 1].key == e.key)
    ensures KeysRecorded(r + [e], bits, probes)
  {
    hide AllSet;
    if r != [] { assert r[|r| - 1] in r; }
  }

  lemma BoundsSnoc(r: Run, e: Entry, minKey: Option<Bytes>, maxKey: Bytes, minSeqno: nat, maxSeqno: nat)
    requires Bounds(r, minKey, maxKey, minSeqno, maxSeqno) && e.seqno < U64_LIMIT
    ensures Bounds(r + [e], if minKey.None? then Some(e.key) else minKey, e.key,
                   if e.seqno < minSeqno then e.seqno else minSeqno, if maxSeqno < e.seqno then e.seqno else maxSeqno)
  {
    assert e in r + [e];
    if r != [] {
      assert (r + [e])[0] == r[0];
      var lo :| lo in r && lo.seqno == minSeqno;
      var hi :| hi in r && hi.seqno == maxSeqno;
      assert lo in r + [e] && hi in r + [e];
    }
  }

  // ---- point lookup --------------------------------------------------------

  /** Where to start scanning: the last restart point at or below the key. */
  method SeekOffset(index: Index, key: Bytes, ghost r: Run) returns (pos: nat, ghost at: nat)
    requires IndexOk(r, index)
    ensures at <= |r| && pos == OffsetOf(r, at) && (forall j | 0 <= j < at :: Less(r[j].key, key))
    ensures LastRestart(index, key, pos)
  {
    hide Less, OffsetOf, Restart;
    var lo, hi := 0, |index|;
    while lo < hi
      invariant 0 <= lo <= hi <= |index|
      invariant forall n | 0 <= n < lo :: AtMost(index[n].0, key)
      invariant forall n | hi <= n < |index| :: Less(key, index[n].0)
    {
      var mid := (lo + hi) / 2;
      LessTotal(index[mid].0, key);
      if index[mid].0 == key {
        pos := index[mid].1;
        at := RestartAt(r, index[mid].0, pos, key);
        return;
      } else if Less(index[mid].0, key) {
        forall n | 0 <= n < mid + 1 ensures AtMost(index[n].0, key) { if n < mid { LessTransitive(index[n].0, index[mid].0, key); } }
        lo := mid + 1;
      } else {
        forall n | mid <= n < |index| ensures Less(key, index[n].0) { if n > mid { LessTransitive(key, index[mid].0, index[n].0); } }
        hi := mid;
      }
    }
    if lo == 0 {
      OffsetEnds(r);
      return 0, 0;
    }
    pos := index[lo - 1].1;
    at := RestartAt(r, index[lo - 1].0, pos, key);
  }

  /** `pos` belongs to the last index entry at or below the key, or is the start. */
  ghost predicate LastRestart(index: Index, key: Bytes, pos: nat) {
    || (pos == 0 && forall n | 0 <= n < |index| :: Less(key, index[n].0))
    || exists m :: 0 <= m < |index| && pos == index[m].1 && AtMost(index[m].0, key) && forall n | m < n < |index| :: Less(key, index[n].0)
  }

  lemma RestartAt(r: Run, k: Bytes, offset: nat, key: Bytes) returns (at: nat)
    requires Restart(r, k, offset) && AtMost(k, key)
    ensures at < |r| && offset == OffsetOf(r, at) && forall j | 0 <= j < at :: Less(r[j].key, key)
  {
    hide Less, OffsetOf;
    at :| 0 <= at < |r| && r[at].key == k && OffsetOf(r, at) == offset && (forall j | 0 <= j < at :: Less(r[j].key, k));
    forall j | 0 <= j < at ensures Less(r[j].key, key) { if k != key { LessTransitive(r[j].key, k, key); } }
  }

  /** The newest version of `key` at or below `snapshot`: through key range, Bloom
      filter and sparse index, the answer of a scan of the whole run. */
  method Get(data: Bytes, index: Index, bits: array<bool>, probes: Probes, minKey: Bytes, maxKey: Bytes, key: Bytes, snapshot: nat, ghost r: Run)
    returns (ok: bool, hit: Option<Entry>)
    requires LsmRuns.Sorted(r) && AllStorable(r) && data == DataOf(r) && IndexOk(r, index) && KeysRecorded(r, bits[..], probes)
    requires r != [] ==> minKey == r[0].key && maxKey == r[|r| - 1].key
    requires InRange(bits, probes, key)
    ensures ok && hit == FirstVisible(r, key, snapshot)
  {
    hide LsmRuns.Sorted, AllStorable, DataOf, IndexOk, KeysRecorded, InRange, AllSet, FirstVisible, Less;
    if data == [] || !(AtMost(minKey, key) && AtMost(key, maxKey)) {
      OutOfRange(r, key, snapshot);
      return true, None;
    }
    var maybe := BloomContains(bits, probes, key);
    if !maybe {
      NotRecorded(r, bits[..], probes, key, snapshot);
      return true, None;
    }
    var pos;
    ghost var at;
    pos, at := SeekOffset(index, key, r);
    ok, hit := ScanFrom(data, pos, key, snapshot, r, at);
  }

  lemma OutOfRange(r: Run, key: Bytes, snapshot: nat)
    requires LsmRuns.Sorted(r)
    requires DataOf(r) == [] || r == [] || !AtMost(r[0].key, key) || !AtMost(key, r[|r| - 1].key)
    ensures FirstVisible(r, key, snapshot) == None
  {
    hide Less, DataOf, FirstVisible;
    if r != [] {
      assert DataOf(r) != [] by { OffsetEnds(r); DataNotEmpty(r); }
      forall x | x in r ensures x.key != key {
        var i :| 0 <= i < |r| && r[i] == x;
        if i > 0 { assert Before(r[0], r[i]); }
        if i < |r| - 1 { assert Before(r[i], r[|r| - 1]); }
      }
    }
    NoneVisible(r, key, snapshot);
  }

  lemma DataNotEmpty(r: Run)
    requires r != []
    ensures DataOf(r) != []
  {
    EntryNotEmpty(r[|r| - 1]);
  }

  lemma NoneVisible(r: Run, key: Bytes, snapshot: nat)
    requires forall x | x in r :: !Visible(x, key, snapshot)
    ensures FirstVisible(r, key, snapshot) == None
  {
  }

  lemma NotRecorded(r: Run, bits: seq<bool>, probes: Probes, key: Bytes, snapshot: nat)
    requires KeysRecorded(r, bits, probes) && !AllSet(bits, probes(key))
    ensures FirstVisible(r, key, snapshot) == None
  {
    hide AllSet, FirstVisible;
    NoneVisible(r, key, snapshot);
  }

  /** The bounded scan: stops at the first visible version or past the key. */
  method ScanFrom(data: Bytes, start: nat, key: Bytes, snapshot: nat, ghost r: Run, ghost at: nat) returns (ok: bool, hit: Option<Entry>)
    requires LsmRuns.Sorted(r) && AllStorable(r) && data == DataOf(r) && at <= |r| && start == OffsetOf(r, at)
    requires forall j | 0 <= j < at :: Less(r[j].key, key)
    ensures ok && hit == FirstVisible(r, key, snapshot)
  {
    hide LsmRuns.Sorted, AllStorable, DataOf, DecodeEntry, OffsetOf, FirstVisible, Less;
    OffsetEnds(r);
    var pos := start;
    ghost var i := at;
    forall j | 0 <= j < at ensures !Visible(r[j], key, snapshot) { LessIrreflexive(key); }
    while pos < |data|
      invariant at <= i <= |r| && pos == OffsetOf(r, i)
      invariant forall j | 0 <= j < i :: !Visible(r[j], key, snapshot)
      decreases |r| - i
    {
      DecodeAt(r, if i < |r| then i else |r| - 1);
      var d := DecodeEntry(data, pos);
      if d.None? { return false, None; }
      var e, next := d.value.0, d.value.1;
      if e.key == key {
        if e.seqno <= snapshot {
          FirstAt(r, key, snapshot, i);
          return true, Some(e);
        }
      } else if !Less(e.key, key) {
        PastKey(r, key, snapshot, i);
        return true, None;
      }
      pos := next;
      i := i + 1;
    }
    if i < |r| { DecodeAt(r, i); }
    assert r[..|r|] == r;
    NoneBefore(r, key, snapshot);
    ok, hit := true, None;
  }

  lemma {:induction false} FirstAt(r: Run, key: Bytes, snapshot: nat, i: nat)
    requires i < |r| && Visible(r[i], key, snapshot) && forall j | 0 <= j < i :: !Visible(r[j], key, snapshot)
    ensures FirstVisible(r, key, snapshot) == Some(r[i])
  {
    if i > 0 {
      assert r[1..][i - 1] == r[i];
      forall j | 0 <= j < i - 1 ensures !Visible(r[1..][j], key, snapshot) { assert r[1..][j] == r[j + 1]; }
      FirstAt(r[1..], key, snapshot, i - 1);
    }
  }

  lemma NoneBefore(r: Run, key: Bytes, snapshot: nat)
    requires forall j | 0 <= j < |r| :: !Visible(r[j], key, snapshot)
    ensures FirstVisible(r, key, snapshot) == None
  {
    hide FirstVisible;
    forall x | x in r ensures !Visible(x, key, snapshot) { var j :| 0 <= j < |r| && r[j] == x; }
    NoneVisible(r, key, snapshot);
  }

  lemma PastKey(r: Run, key: Bytes, snapshot: nat, i: nat)
    requires LsmRuns.Sorted(r) && i < |r| && r[i].key != key && !Less(r[i].key, key)
    requires forall j | 0 <= j < i :: !Visible(r[j], key, snapshot)
    ensures FirstVisible(r, key, snapshot) == None
  {
    hide Less, FirstVisible;
    LessTotal(r[i].key, key);
    LessIrreflexive(key);
    forall j | i <= j < |r| ensures r[j].key != key {
      if j > i {
        assert Before(r[i], r[j]);
        if Less(r[i].key, r[j].key) { LessTransitive(key, r[i].key, r[j].key); }
      }
    }
    NoneBefore(r, key, snapshot);
  }
}
