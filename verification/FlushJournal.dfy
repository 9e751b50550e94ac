/** The flush journal as a file: which byte strings recovery replays, and what a
    crash can leave of one. */
module FlushJournal {
  import opened Bytes
  import opened PageLayout
  import opened Wrappers
  import opened Engine

  const JOURNAL_MAGIC: nat := 0x5048_584A_524E_4C31
  const JOURNAL_END: nat := 0x4A45_4E44
  const JOURNAL_VERSION: nat := 1
  const JOURNAL_HEADER: nat := 32
  const JOURNAL_ENTRY: nat := 8 + PAGE_SIZE
  const JOURNAL_TRAILER: nat := 8

  /** A page image and the page it belongs to. */
  datatype Entry = Entry(id: nat, page: Bytes)

  // ---- writing ---------------------------------------------------------------

  function Padding(n: nat): (b: Bytes)
    ensures |b| == n
  {
    seq(n, _ => 0)
  }

  function Header(count: nat, target: nat): (b: Bytes)
    ensures |b| == JOURNAL_HEADER
  {
    LE(JOURNAL_MAGIC, 8) + LE(JOURNAL_VERSION, 4) + LE(count, 4) + LE(target, 4) + Padding(12)
  }

  function EncodeEntries(ps: seq<Entry>): Bytes {
    if ps == [] then [] else EncodeEntries(ps[..|ps| - 1]) + EncodeEntry(ps[|ps| - 1])
  }

  function EncodeEntry(p: Entry): Bytes {
    LE(p.id, 4) + Padding(4) + p.page
  }

  function Body(ps: seq<Entry>, target: nat): Bytes {
    Header(|ps|, target) + EncodeEntries(ps)
  }

  function EncodeJournal(ps: seq<Entry>, target: nat, crc: Checksum): Bytes {
    Body(ps, target) + LE(crc(Body(ps, target)), 4) + LE(JOURNAL_END, 4)
  }

  /** What a flush journals: whole pages inside the file it is about to leave. */
  ghost predicate Journalable(ps: seq<Entry>, target: nat) {
    && |ps| < U32_LIMIT && target < U32_LIMIT
    && forall i | 0 <= i < |ps| :: ps[i].id < target && |ps[i].page| == PAGE_SIZE
  }

  /** The pages a journal leaves in the file: later images of a page win. */
  function PagesOf(ps: seq<Entry>): Pages {
    if ps == [] then map[] else PagesOf(ps[..|ps| - 1])[ps[|ps| - 1].id := ps[|ps| - 1].page]
  }

  // ---- checking and replaying --------------------------------------------------

  /** Target size and number of entries of a complete journal. */
  function Validate(b: Bytes, crc: Checksum): Option<(nat, nat)> {
    if |b| < JOURNAL_HEADER + JOURNAL_TRAILER then None
    else
      var magic, version, count, target := FromLE(b[0..8]), FromLE(b[8..12]), FromLE(b[12..16]), FromLE(b[16..20]);
      var end := |b| - JOURNAL_TRAILER;
      if magic != JOURNAL_MAGIC || version != JOURNAL_VERSION then None
      else if |b| != JOURNAL_HEADER + JOURNAL_TRAILER + count * JOURNAL_ENTRY then None
      else if FromLE(b[end + 4..]) != JOURNAL_END || FromLE(b[end..end + 4]) != crc(b[..end]) then None
      else Some((target, count))
  }

  predicate AtEntry(b: Bytes, i: nat) {
    JOURNAL_HEADER + (i + 1) * JOURNAL_ENTRY <= |b|
  }

  function EntryAt(b: Bytes, i: nat): (p: Entry)
    requires AtEntry(b, i)
  {
    var at := JOURNAL_HEADER + i * JOURNAL_ENTRY;
    Entry(FromLE(b[at..at + 4]), b[at + 8..at + JOURNAL_ENTRY])
  }

  lemma EntryFits(b: Bytes, count: nat, i: nat)
    requires |b| == JOURNAL_HEADER + JOURNAL_TRAILER + count * JOURNAL_ENTRY && i < count
    ensures AtEntry(b, i)
  {
    assert (i + 1) * JOURNAL_ENTRY <= count * JOURNAL_ENTRY;
  }

  /** The pages of the first `count` entries; later images of a page win. */
  function EntryPages(b: Bytes, count: nat): Pages {
    if count == 0 || JOURNAL_HEADER + count * JOURNAL_ENTRY > |b| then map[]
    else
      var e := EntryAt(b, count - 1);
      EntryPages(b, count - 1)[e.id := e.page]
  }

  /** How many entries precede the first one past the declared size. */
  function Replayable(b: Bytes, target: nat, count: nat): (n: nat)
    requires |b| == JOURNAL_HEADER + JOURNAL_TRAILER + count * JOURNAL_ENTRY
    ensures n <= count
    ensures n == count <==> forall i: nat | i < count :: AtEntry(b, i) && EntryAt(b, i).id < target
    ensures n < count ==> AtEntry(b, n) && EntryAt(b, n).id >= target
    ensures forall i: nat | i < n :: AtEntry(b, i) && EntryAt(b, i).id < target
  {
    FirstPast(b, target, count, 0)
  }

  function FirstPast(b: Bytes, target: nat, count: nat, i: nat): (n: nat)
    requires |b| == JOURNAL_HEADER + JOURNAL_TRAILER + count * JOURNAL_ENTRY && i <= count
    ensures i <= n <= count
    ensures n < count ==> AtEntry(b, n) && EntryAt(b, n).id >= target
    ensures forall j: nat | i <= j < n :: AtEntry(b, j) && EntryAt(b, j).id < target
    decreases count - i
  {
    if i == count then i
    else
      EntryFits(b, count, i);
      if EntryAt(b, i).id >= target then i else FirstPast(b, target, count, i + 1)
  }

  /** The file cut or grown to its declared size; pages it grows by are not written yet. */
  function Sized(file: Pages, target: nat): Pages {
    map p | p in file && p < target :: file[p]
  }

  /** Replays a journal file into `file`. Anything but a complete journal is discarded. A
      complete one fixes the file's size and is written over it, entry by entry, up
      to the first entry past that size: such an entry is corruption. */
  method Recover(b: Bytes, crc: Checksum, file: Pages) returns (ok: bool, after: Pages)
    ensures Validate(b, crc).None? ==> ok && after == file
    ensures Validate(b, crc).Some? ==>
              var (target, count) := Validate(b, crc).value;
              && |b| == JOURNAL_HEADER + JOURNAL_TRAILER + count * JOURNAL_ENTRY
              && (ok <==> forall i: nat | i < count :: AtEntry(b, i) && EntryAt(b, i).id < target)
              && after == Sized(file, target) + EntryPages(b, Replayable(b, target, count))
  {
    hide Validate, EntryAt, EntryPages, Sized, Replayable;
    ValidLength(b, crc);
    if b == [] { return true, file; }
    var v := Validate(b, crc);
    if v.None? { return true, file; }
    var (target, count) := v.value;
    after := Sized(file, target);
    NothingOver(b, after);
    ghost var n := Replayable(b, target, count);
    var i := 0;
    while i < count
      invariant i <= n && after == Sized(file, target) + EntryPages(b, i)
    {
      EntryFits(b, count, i);
      var e := EntryAt(b, i);
      if e.id >= target { return false, after; }
      PagesNext(b, Sized(file, target), i);
      after := after[e.id := e.page];
      i := i + 1;
    }
    ok := true;
  }

  lemma NothingOver(b: Bytes, file: Pages)
    ensures file + EntryPages(b, 0) == file
  {
  }

  lemma PagesNext(b: Bytes, file: Pages, i: nat)
    requires AtEntry(b, i)
    ensures file + EntryPages(b, i + 1) == (file + EntryPages(b, i))[EntryAt(b, i).id := EntryAt(b, i).page]
  {
    hide EntryAt;
  }

  /** A journal written whole is replayed in full: nothing but its own pages changes. */
  lemma WholeReplays(ps: seq<Entry>, target: nat, crc: Checksum, file: Pages)
    requires Journalable(ps, target)
    ensures var b := EncodeJournal(ps, target, crc);
            && Validate(b, crc) == Some((target, |ps|)) && EntryPages(b, |ps|) == PagesOf(ps)
            && forall i: nat | i < |ps| :: AtEntry(b, i) && EntryAt(b, i).id < target
    ensures (forall p | p in file :: p < target) ==> Sized(file, target) == file
  {
    hide EncodeJournal, Validate, EntryAt, EntryPages;
    JournalBack(ps, target, crc);
    EntryPagesBack(ps, target, crc, |ps|);
    assert ps[..|ps|] == ps;
    forall i: nat | i < |ps| ensures AtEntry(EncodeJournal(ps, target, crc), i) && EntryAt(EncodeJournal(ps, target, crc), i).id < target {
      EntryBack(ps, target, crc, i);
    }
  }

  lemma NotEmpty(ps: seq<Entry>, target: nat, crc: Checksum)
    ensures EncodeJournal(ps, target, crc) != []
  {
    assert |EncodeJournal(ps, target, crc)| >= JOURNAL_HEADER;
  }

  lemma ValidLength(b: Bytes, crc: Checksum)
    ensures Validate(b, crc).Some? ==> |b| == JOURNAL_HEADER + JOURNAL_TRAILER + Validate(b, crc).value.1 * JOURNAL_ENTRY
  {
    hide FromLE;
  }

  // ---- a written journal reads back ----------------------------------------------

  lemma {:induction false} EntriesLength(ps: seq<Entry>)
    requires forall i | 0 <= i < |ps| :: |ps[i].page| == PAGE_SIZE
    ensures |EncodeEntries(ps)| == |ps| * JOURNAL_ENTRY
  {
    hide LE;
    if ps != [] { EntriesLength(ps[..|ps| - 1]); }
  }

  lemma HeaderBack(count: nat, target: nat, rest: Bytes)
    requires count < U32_LIMIT && target < U32_LIMIT
    ensures var b := Header(count, target) + rest;
            && FromLE(b[0..8]) == JOURNAL_MAGIC && FromLE(b[8..12]) == JOURNAL_VERSION
            && FromLE(b[12..16]) == count && FromLE(b[16..20]) == target
  {
    hide LE, FromLE, Pow256, Padding;
    WordLimits();
    LERoundTrip(JOURNAL_MAGIC, 8);
    LERoundTrip(JOURNAL_VERSION, 4);
    LERoundTrip(count, 4);
    LERoundTrip(target, 4);
    var b, m, v, c, t := Header(count, target) + rest, LE(JOURNAL_MAGIC, 8), LE(JOURNAL_VERSION, 4), LE(count, 4), LE(target, 4);
    assert b[0..8] == m && b[8..12] == v && b[12..16] == c && b[16..20] == t;
  }

  lemma JournalParts(ps: seq<Entry>, target: nat, crc: Checksum)
    requires Journalable(ps, target)
    ensures var b, body := EncodeJournal(ps, target, crc), Body(ps, target);
            && |b| == |body| + JOURNAL_TRAILER == JOURNAL_HEADER + |ps| * JOURNAL_ENTRY + JOURNAL_TRAILER
            && b[..|body|] == body && b[|body|..|body| + 4] == LE(crc(body), 4) && b[|body| + 4..] == LE(JOURNAL_END, 4)
  {
    hide LE, EncodeEntries, Header;
    EntriesLength(ps);
    var body, c, e := Body(ps, target), LE(crc(Body(ps, target)), 4), LE(JOURNAL_END, 4);
    assert EncodeJournal(ps, target, crc) == body + c + e;
  }

  /** A journal written whole is accepted with its own counts. */
  lemma JournalBack(ps: seq<Entry>, target: nat, crc: Checksum)
    requires Journalable(ps, target)
    ensures Validate(EncodeJournal(ps, target, crc), crc) == Some((target, |ps|))
  {
    hide LE, FromLE, Pow256, EncodeEntries, Header;
    JournalParts(ps, target, crc);
    var b, body := EncodeJournal(ps, target, crc), Body(ps, target);
    WordLimits();
    LERoundTrip(crc(body), 4);
    LERoundTrip(JOURNAL_END, 4);
    HeaderBack(|ps|, target, EncodeEntries(ps));
    hide EncodeJournal, Body;
    assert forall lo, hi | 0 <= lo <= hi <= |body| :: b[lo..hi] == b[..|body|][lo..hi];
    assert b[0..8] == body[0..8] && b[8..12] == body[8..12] && b[12..16] == body[12..16] && b[16..20] == body[16..20];
    assert body == Header(|ps|, target) + EncodeEntries(ps) by { BodyIs(ps, target); }
  }

  lemma BodyIs(ps: seq<Entry>, target: nat)
    ensures Body(ps, target) == Header(|ps|, target) + EncodeEntries(ps)
  {
  }

  lemma {:induction false} EntrySlice(ps: seq<Entry>, i: nat)
    requires i < |ps| && forall j | 0 <= j < |ps| :: |ps[j].page| == PAGE_SIZE
    ensures (i + 1) * JOURNAL_ENTRY <= |EncodeEntries(ps)|
    ensures EncodeEntries(ps)[i * JOURNAL_ENTRY..(i + 1) * JOURNAL_ENTRY] == EncodeEntry(ps[i])
  {
    hide LE, EncodeEntry;
    var n := |ps| - 1;
    var most, last := EncodeEntries(ps[..n]), EncodeEntry(ps[n]);
    EntriesLength(ps[..n]);
    EntryLength(ps[n]);
    if i < n {
      EntrySlice(ps[..n], i);
      assert (most + last)[i * JOURNAL_ENTRY..(i + 1) * JOURNAL_ENTRY] == most[i * JOURNAL_ENTRY..(i + 1) * JOURNAL_ENTRY];
    }
  }

  lemma EntryLength(p: Entry)
    ensures |EncodeEntry(p)| == 8 + |p.page|
  {
  }

  lemma EntryDecoded(p: Entry)
    requires p.id < U32_LIMIT
    ensures FromLE(EncodeEntry(p)[0..4]) == p.id && EncodeEntry(p)[8..] == p.page
  {
    hide LE, FromLE, Pow256, Padding;
    WordLimits();
    LERoundTrip(p.id, 4);
    var x, y := LE(p.id, 4), Padding(4);
    assert EncodeEntry(p)[0..4] == x;
  }

  /** Every page image is read back at its place. */
  lemma EntryBack(ps: seq<Entry>, target: nat, crc: Checksum, i: nat)
    requires Journalable(ps, target) && i < |ps|
    ensures AtEntry(EncodeJournal(ps, target, crc), i)
    ensures EntryAt(EncodeJournal(ps, target, crc), i) == ps[i] && ps[i].id < target
  {
    hide LE, FromLE, EncodeEntries, EncodeEntry, Header;
    JournalParts(ps, target, crc);
    EntrySlice(ps, i);
    EntryDecoded(ps[i]);
    EntryLength(ps[i]);
    var b, body, es := EncodeJournal(ps, target, crc), Body(ps, target), EncodeEntries(ps);
    var at := i * JOURNAL_ENTRY;
    hide EncodeJournal;
    var e := es[at..at + JOURNAL_ENTRY];
    assert body[JOURNAL_HEADER..] == es;
    hide Body;
    ThroughSlices(b, |body|, JOURNAL_HEADER, at, JOURNAL_ENTRY);
    assert b[JOURNAL_HEADER + at..JOURNAL_HEADER + at + JOURNAL_ENTRY] == e;
    assert b[JOURNAL_HEADER + at..JOURNAL_HEADER + at + 4] == e[0..4];
    assert b[JOURNAL_HEADER + at + 8..JOURNAL_HEADER + at + JOURNAL_ENTRY] == e[8..];
  }

  lemma ThroughSlices(b: Bytes, n: nat, lo: nat, at: nat, len: nat)
    requires lo + at + len <= n <= |b|
    ensures b[..n][lo..][at..at + len] == b[lo + at..lo + at + len]
  {
    var c, d := b[..n][lo..], b[lo + at..lo + at + len];
    assert |c[at..at + len]| == len == |d|;
    forall i | 0 <= i < len ensures c[at..at + len][i] == d[i] {
      assert c[at + i] == b[..n][lo + at + i];
    }
  }

  // ---- what a crash leaves -----------------------------------------------------------

  /** A journal cut short at any byte is never replayed, whatever the checksum: its
      own header says how long it should be. */
  lemma CutIsDiscarded(ps: seq<Entry>, target: nat, crc: Checksum, n: nat)
    requires Journalable(ps, target) && n < |EncodeJournal(ps, target, crc)|
    ensures Validate(EncodeJournal(ps, target, crc)[..n], crc).None?
  {
    hide LE, FromLE, EncodeEntries, Header;
    JournalParts(ps, target, crc);
    var b, body := EncodeJournal(ps, target, crc), Body(ps, target);
    HeaderBack(|ps|, target, EncodeEntries(ps));
    if n >= JOURNAL_HEADER + JOURNAL_TRAILER {
      var c := b[..n];
      hide EncodeJournal;
      assert c[12..16] == b[12..16] == b[..|body|][12..16];
    }
  }

  /** The journal as the engine's steps see it. */
  function JournalOf(b: Bytes, crc: Checksum): Journal {
    if b == [] then NoJournal
    else
      var v := Validate(b, crc);
      if v.None? then Torn else Complete(EntryPages(b, v.value.1))
  }

  lemma {:induction false} EntryPagesBack(ps: seq<Entry>, target: nat, crc: Checksum, n: nat)
    requires Journalable(ps, target) && n <= |ps|
    ensures EntryPages(EncodeJournal(ps, target, crc), n) == PagesOf(ps[..n])
  {
    hide EncodeJournal, Journalable, EntryAt;
    if n > 0 {
      EntryPagesBack(ps, target, crc, n - 1);
      EntryBack(ps, target, crc, n - 1);
      assert ps[..n][..n - 1] == ps[..n - 1];
    }
  }

  /** Exactly the outcomes the engine's crash step allows: whatever byte prefix of the
      journal survives, recovery sees no journal, a torn one, or this one whole; and
      it sees it whole only if all of it survived. */
  lemma CrashLeavesJournal(ps: seq<Entry>, target: nat, crc: Checksum, n: nat)
    requires Journalable(ps, target) && n <= |EncodeJournal(ps, target, crc)|
    ensures var b := EncodeJournal(ps, target, crc);
            && (n == |b| ==> JournalOf(b[..n], crc) == Complete(PagesOf(ps)))
            && (n < |b| ==> JournalOf(b[..n], crc) == if n == 0 then NoJournal else Torn)
  {
    hide EncodeJournal, Journalable, Validate, EntryPages;
    var b := EncodeJournal(ps, target, crc);
    if n == |b| {
      assert b[..n] == b;
      NotEmpty(ps, target, crc);
      JournalBack(ps, target, crc);
      EntryPagesBack(ps, target, crc, |ps|);
      assert ps[..|ps|] == ps;
    } else {
      CutIsDiscarded(ps, target, crc, n);
    }
  }
}
