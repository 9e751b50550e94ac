/** The write-ahead log: record encoding, framing, and the redo set a scan of
    the log recovers after a crash. */
module Wal {
  import opened Bytes
  import opened Wrappers
  import opened Bincode

  datatype Record =
    | Begin(txnId: nat)
    | Insert(txnId: nat, key: Bytes, value: Bytes)
    | Delete(txnId: nat, key: Bytes)
    | Commit(txnId: nat, ts: nat)
    | Rollback(txnId: nat)
    | Checkpoint(treeTs: nat)

  /** Largest payload a frame may carry. */
  const MAX_RECORD_BYTES: nat := 64 * 1024 * 1024

  // ---- one record: the fixed-width little-endian encoding ------------------

  /** Fields fit their machine width and the payload fits a frame. */
  predicate Encodable(r: Record) {
    && |Encode(r)| <= MAX_RECORD_BYTES
    && match r
       case Begin(t) => t < U64_LIMIT
       case Insert(t, k, v) => t < U64_LIMIT && |k| < U64_LIMIT && |v| < U64_LIMIT
       case Delete(t, k) => t < U64_LIMIT && |k| < U64_LIMIT
       case Commit(t, ts) => t < U64_LIMIT && ts < U64_LIMIT
       case Rollback(t) => t < U64_LIMIT
       case Checkpoint(ts) => ts < U64_LIMIT
  }

  function Encode(r: Record): Bytes {
    match r
    case Begin(t) => LE(0, 4) + LE(t, 8)
    case Insert(t, k, v) => LE(1, 4) + LE(t, 8) + EncodeBytes(k) + EncodeBytes(v)
    case Delete(t, k) => LE(2, 4) + LE(t, 8) + EncodeBytes(k)
    case Commit(t, ts) => LE(3, 4) + LE(t, 8) + LE(ts, 8)
    case Rollback(t) => LE(4, 4) + LE(t, 8)
    case Checkpoint(ts) => LE(5, 4) + LE(ts, 8)
  }

  function Decode(b: Bytes): Option<Record> {
    match TakeWord(b, 4)
    case None => None
    case Some((tag, body)) =>
      match TakeWord(body, 8)
      case None => None
      case Some((t, rest)) =>
        if tag == 0 then Some(Begin(t))
        else if tag == 1 then
          match TakeBytes(rest)
          case None => None
          case Some((k, more)) =>
            (match TakeBytes(more)
             case None => None
             case Some((v, _)) => Some(Insert(t, k, v)))
        else if tag == 2 then
          match TakeBytes(rest)
          case None => None
          case Some((k, _)) => Some(Delete(t, k))
        else if tag == 3 then
          match TakeWord(rest, 8)
          case None => None
          case Some((ts, _)) => Some(Commit(t, ts))
        else if tag == 4 then Some(Rollback(t))
        else if tag == 5 then Some(Checkpoint(t))
        else None
  }

  /** Every record reads back as itself. */
  lemma DecodeEncode(r: Record)
    requires Encodable(r)
    ensures Decode(Encode(r)) == Some(r)
  {
    hide TakeWord, TakeBytes, EncodeBytes, LE;
    WordLimits();
    match r
    case Begin(t) =>
      TakeWordBack(0, 4, LE(t, 8)); TakeWordBack(t, 8, []);
      assert LE(t, 8) + [] == LE(t, 8);
    case Insert(t, k, v) =>
      var kv := EncodeBytes(k) + EncodeBytes(v);
      assert Encode(r) == LE(1, 4) + (LE(t, 8) + kv);
      TakeWordBack(1, 4, LE(t, 8) + kv); TakeWordBack(t, 8, kv);
      TakeBytesBack(k, EncodeBytes(v)); TakeBytesBack(v, []);
      assert EncodeBytes(v) + [] == EncodeBytes(v);
    case Delete(t, k) =>
      assert Encode(r) == LE(2, 4) + (LE(t, 8) + EncodeBytes(k));
      TakeWordBack(2, 4, LE(t, 8) + EncodeBytes(k)); TakeWordBack(t, 8, EncodeBytes(k));
      TakeBytesBack(k, []);
      assert EncodeBytes(k) + [] == EncodeBytes(k);
    case Commit(t, ts) =>
      assert Encode(r) == LE(3, 4) + (LE(t, 8) + LE(ts, 8));
      TakeWordBack(3, 4, LE(t, 8) + LE(ts, 8)); TakeWordBack(t, 8, LE(ts, 8)); TakeWordBack(ts, 8, []);
      assert LE(ts, 8) + [] == LE(ts, 8);
    case Rollback(t) =>
      TakeWordBack(4, 4, LE(t, 8)); TakeWordBack(t, 8, []);
      assert LE(t, 8) + [] == LE(t, 8);
    case Checkpoint(ts) =>
      TakeWordBack(5, 4, LE(ts, 8)); TakeWordBack(ts, 8, []);
      assert LE(ts, 8) + [] == LE(ts, 8);
  }

  /** The engine's key and value limits keep every frame within bounds, so a
      commit never fails half way through logging its writes. */
  lemma EngineWritesEncodable(t: nat, k: Bytes, v: Bytes)
    requires t < U64_LIMIT && |k| <= 1024 && |v| <= 10 * 1024 * 1024
    ensures Encodable(Insert(t, k, v)) && Encodable(Delete(t, k))
  {
  }

  // ---- framing -------------------------------------------------------------

  /** `[len u32][crc32 u32][payload]`. */
  function Frame(r: Record, crc: Checksum): (b: Bytes)
    ensures |b| == 8 + |Encode(r)|
  {
    LE(|Encode(r)|, 4) + LE(crc(Encode(r)), 4) + Encode(r)
  }

  function EncodeLog(rs: seq<Record>, crc: Checksum): Bytes {
    if rs == [] then [] else Frame(rs[0], crc) + EncodeLog(rs[1..], crc)
  }

  datatype Parsed = Parsed(records: seq<Record>, valid: nat)

  /** The frame at the start of `b`, if a whole intact one is there. */
  function FirstFrame(b: Bytes, crc: Checksum): (r: Option<(Record, nat)>)
    ensures r.Some? ==> 8 < r.value.1 <= |b|
  {
    if |b| < 8 then None
    else
      var len, sum := FromLE(b[..4]), FromLE(b[4..8]);
      if len == 0 || len > MAX_RECORD_BYTES || 8 + len > |b| then None
      else
        var payload := b[8..8 + len];
        if crc(payload) != sum then None
        else
          match Decode(payload)
          case None => None
          case Some(rec) => Some((rec, 8 + len))
  }

  /** Scans frames until the first that is short, over-long or corrupt. */
  function Parse(b: Bytes, crc: Checksum): (p: Parsed)
    ensures p.valid <= |b|
    decreases |b|
  {
    match FirstFrame(b, crc)
    case None => Parsed([], 0)
    case Some((rec, n)) =>
      var rest := Parse(b[n..], crc);
      Parsed([rec] + rest.records, n + rest.valid)
  }

  /** How many whole frames of `rs` fit in the first `n` bytes. */
  function WholeFrames(rs: seq<Record>, crc: Checksum, n: nat): (k: nat)
    ensures k <= |rs|
  {
    if rs == [] || |Frame(rs[0], crc)| > n then 0
    else 1 + WholeFrames(rs[1..], crc, n - |Frame(rs[0], crc)|)
  }

  predicate AllEncodable(rs: seq<Record>) {
    forall i | 0 <= i < |rs| :: Encodable(rs[i])
  }

  /** A whole frame parses, whatever follows it. */
  lemma FirstFrameBack(r: Record, crc: Checksum, rest: Bytes)
    requires Encodable(r)
    ensures FirstFrame(Frame(r, crc) + rest, crc) == Some((r, 8 + |Encode(r)|))
  {
    hide Decode, LE, FromLE, Pow256;
    assert |Encode(r)| >= 12 by { hide Decode; }
    DecodeEncode(r);
    hide Encode;
    var p := Encode(r);
    var b := Frame(r, crc) + rest;
    WordLimits();
    LERoundTrip(|p|, 4);
    LERoundTrip(crc(p), 4);
    assert b[..4] == LE(|p|, 4) && b[4..8] == LE(crc(p), 4) && b[8..8 + |p|] == p;
  }

  /** A frame cut anywhere before its end is not accepted. */
  lemma FirstFrameTorn(r: Record, crc: Checksum, rest: Bytes, n: nat)
    requires Encodable(r) && n < |Frame(r, crc)|
    ensures FirstFrame((Frame(r, crc) + rest)[..n], crc) == None
  {
    hide Encode, LE;
    if n >= 8 {
      var p, b := Encode(r), (Frame(r, crc) + rest)[..n];
      WordLimits();
      LERoundTrip(|p|, 4);
      assert b[..4] == LE(|p|, 4);
    }
  }

  /** A log cut at any byte yields exactly its whole frames, and reports where
      the last of them ends. */
  lemma {:induction false} ParseCut(rs: seq<Record>, crc: Checksum, n: nat)
    requires AllEncodable(rs) && n <= |EncodeLog(rs, crc)|
    ensures var k := WholeFrames(rs, crc, n);
            && Parse(EncodeLog(rs, crc)[..n], crc) == Parsed(rs[..k], |EncodeLog(rs[..k], crc)|)
            && EncodeLog(rs, crc)[..n][..|EncodeLog(rs[..k], crc)|] == EncodeLog(rs[..k], crc)
  {
    hide FirstFrame, Frame, Encode;
    if rs != [] {
      var f, tail := Frame(rs[0], crc), EncodeLog(rs[1..], crc);
      if |f| > n {
        FirstFrameTorn(rs[0], crc, tail, n);
      } else {
        var b := EncodeLog(rs, crc)[..n];
        var k := WholeFrames(rs[1..], crc, n - |f|);
        ParseCut(rs[1..], crc, n - |f|);
        assert b == f + tail[..n - |f|];
        FirstFrameBack(rs[0], crc, tail[..n - |f|]);
        assert b[|f|..] == tail[..n - |f|];
        assert rs[..k + 1] == [rs[0]] + rs[1..][..k];
        assert rs[..k + 1][1..] == rs[1..][..k];
      }
    }
  }

  /** Frames that were durable before the cut are all recovered. */
  lemma {:induction false} CutKeepsPrefix(rs: seq<Record>, crc: Checksum, m: nat, n: nat)
    requires m <= |rs| && |EncodeLog(rs[..m], crc)| <= n
    ensures m <= WholeFrames(rs, crc, n)
  {
    hide Frame, EncodeLog;
    if m > 0 {
      assert rs[..m][1..] == rs[1..][..m - 1] && rs[..m][0] == rs[0];
      EncodeLogStep(rs[..m], crc);
      CutKeepsPrefix(rs[1..], crc, m - 1, n - |Frame(rs[0], crc)|);
    }
  }

  lemma EncodeLogStep(rs: seq<Record>, crc: Checksum)
    requires rs != []
    ensures EncodeLog(rs, crc) == Frame(rs[0], crc) + EncodeLog(rs[1..], crc)
  {
    hide Frame;
  }

  /** Cutting any file at its reported valid length and appending `more` makes
      the next scan see the old records and the new ones together. */
  lemma {:induction false} ParseResumes(b: Bytes, crc: Checksum, more: seq<Record>)
    requires AllEncodable(more)
    ensures var p := Parse(b, crc);
            Parse(b[..p.valid] + EncodeLog(more, crc), crc) ==
            Parsed(p.records + more, p.valid + |EncodeLog(more, crc)|)
    decreases |b|
  {
    hide Frame, Encode, FirstFrame, EncodeLog, Parse;
    var tail := EncodeLog(more, crc);
    ParseStep(b, crc);
    match FirstFrame(b, crc)
    case None =>
      WholeLog(more, crc);
      assert b[..0] + tail == tail;
      assert [] + more == more;
    case Some((rec, n)) =>
      var q := Parse(b[n..], crc);
      ParseResumes(b[n..], crc, more);
      var c := b[..n + q.valid] + tail;
      SameFirstFrame(b, c, crc);
      ParseStep(c, crc);
      assert c[n..] == b[n..][..q.valid] + tail;
      assert [rec] + (q.records + more) == ([rec] + q.records) + more;
  }

  lemma ParseStep(b: Bytes, crc: Checksum)
    ensures FirstFrame(b, crc).None? ==> Parse(b, crc) == Parsed([], 0)
    ensures FirstFrame(b, crc).Some? ==>
              var n := FirstFrame(b, crc).value.1;
              var rest := Parse(b[n..], crc);
              Parse(b, crc) == Parsed([FirstFrame(b, crc).value.0] + rest.records, n + rest.valid)
  {
    hide FirstFrame;
  }

  lemma SameFirstFrame(b: Bytes, c: Bytes, crc: Checksum)
    requires FirstFrame(b, crc).Some?
    requires var n := FirstFrame(b, crc).value.1; n <= |c| && c[..n] == b[..n]
    ensures FirstFrame(c, crc) == FirstFrame(b, crc)
  {
    var n := FirstFrame(b, crc).value.1;
    assert b[..4] == b[..n][..4] == c[..n][..4] == c[..4];
    assert b[4..8] == b[..n][4..8] == c[..n][4..8] == c[4..8];
    assert b[8..n] == b[..n][8..n] == c[..n][8..n] == c[8..n];
  }

  lemma {:induction false} WholeLog(rs: seq<Record>, crc: Checksum)
    requires AllEncodable(rs)
    ensures Parse(EncodeLog(rs, crc), crc) == Parsed(rs, |EncodeLog(rs, crc)|)
  {
    hide Parse, EncodeLog, WholeFrames;
    ParseCut(rs, crc, |EncodeLog(rs, crc)|);
    assert rs[..|rs|] == rs;
    CutKeepsPrefix(rs, crc, |rs|, |EncodeLog(rs, crc)|);
    assert EncodeLog(rs, crc)[..|EncodeLog(rs, crc)|] == EncodeLog(rs, crc);
  }

  // ---- the redo set --------------------------------------------------------

  /** One logged write: `None` deletes the key. */
  type Op = (Bytes, Option<Bytes>)

  function OpRecord(id: nat, op: Op): Record {
    if op.1.Some? then Insert(id, op.0, op.1.value) else Delete(id, op.0)
  }

  /** What a commit appends: its writes, then the commit record. */
  function CommitRecords(id: nat, ts: nat, ops: seq<Op>): (rs: seq<Record>)
    ensures |rs| == |ops| + 1
  {
    seq(|ops|, i requires 0 <= i < |ops| => OpRecord(id, ops[i])) + [Commit(id, ts)]
  }

  /** The commit timestamp logged for each transaction. */
  function CommitTs(rs: seq<Record>): map<nat, nat> {
    if rs == [] then map[]
    else
      var m, last := CommitTs(rs[..|rs| - 1]), rs[|rs| - 1];
      if last.Commit? then m[last.txnId := last.ts] else m
  }

  function RolledBack(rs: seq<Record>): set<nat> {
    if rs == [] then {}
    else
      var s, last := RolledBack(rs[..|rs| - 1]), rs[|rs| - 1];
      if last.Rollback? then s + {last.txnId} else s
  }

  /** The writes of transaction `id`, in log order. */
  function OpsOf(rs: seq<Record>, id: nat): seq<Op> {
    if rs == [] then []
    else OpsOf(rs[..|rs| - 1], id) + OpIn(rs[|rs| - 1], id)
  }

  function OpIn(r: Record, id: nat): seq<Op> {
    if r.Insert? && r.txnId == id then [(r.key, Some(r.value))]
    else if r.Delete? && r.txnId == id then [(r.key, None)]
    else []
  }

  function MaxTxnId(rs: seq<Record>): (m: nat)
    ensures forall i | 0 <= i < |rs| && !rs[i].Checkpoint? :: rs[i].txnId <= m
    ensures m == 0 || exists i :: 0 <= i < |rs| && !rs[i].Checkpoint? && rs[i].txnId == m
  {
    if rs == [] then 0
    else
      var m, last := MaxTxnId(rs[..|rs| - 1]), rs[|rs| - 1];
      if !last.Checkpoint? && last.txnId > m then last.txnId else m
  }

  // What these say of a log, record by record.

  predicate WritesFor(r: Record, id: nat) {
    (r.Insert? || r.Delete?) && r.txnId == id
  }

  /** Record `i` is the last commit record of `id`. */
  predicate LastCommit(rs: seq<Record>, id: nat, i: nat) {
    && i < |rs| && rs[i].Commit? && rs[i].txnId == id
    && forall j | i < j < |rs| :: !(rs[j].Commit? && rs[j].txnId == id)
  }

  /** A transaction committed when its last commit record says, and was rolled back if any
      record says so. */
  lemma {:induction false} OutcomeMeans(rs: seq<Record>, id: nat)
    ensures id in CommitTs(rs) <==> exists i: nat :: LastCommit(rs, id, i)
    ensures forall i: nat | LastCommit(rs, id, i) :: id in CommitTs(rs) && CommitTs(rs)[id] == rs[i].ts
    ensures id in RolledBack(rs) <==> exists i :: 0 <= i < |rs| && rs[i] == Rollback(id)
  {
    if rs != [] {
      var n := |rs| - 1;
      var most, last := rs[..n], rs[n];
      OutcomeMeans(most, id);
      if last.Commit? && last.txnId == id {
        assert LastCommit(rs, id, n);
      } else {
        forall i: nat ensures LastCommit(rs, id, i) <==> LastCommit(most, id, i) { SameLastCommit(rs, id, i); }
      }
      if id in RolledBack(rs) {
        if last == Rollback(id) { assert rs[n] == Rollback(id); }
        else {
          var i :| 0 <= i < n && most[i] == Rollback(id);
          assert rs[i] == Rollback(id);
        }
      }
      forall i | 0 <= i < |rs| && rs[i] == Rollback(id) ensures id in RolledBack(rs) {
        if i < n { assert most[i] == Rollback(id); }
      }
    }
  }

  lemma SameLastCommit(rs: seq<Record>, id: nat, i: nat)
    requires rs != [] && !(rs[|rs| - 1].Commit? && rs[|rs| - 1].txnId == id)
    ensures LastCommit(rs, id, i) <==> LastCommit(rs[..|rs| - 1], id, i)
  {
    var n := |rs| - 1;
    if LastCommit(rs[..n], id, i) {
      forall j | i < j < |rs| ensures !(rs[j].Commit? && rs[j].txnId == id) {
        if j < n { assert rs[..n][j] == rs[j]; }
      }
    }
  }

  predicate Does(r: Record, id: nat, op: Op) {
    if op.1.Some? then r == Insert(id, op.0, op.1.value) else r == Delete(id, op.0)
  }

  /** Among the first `n` records, `at` lists in log order the inserts and deletes of `id`,
      and `ops` what they write. */
  ghost predicate ListsWrites(rs: seq<Record>, n: nat, id: nat, at: seq<nat>, ops: seq<Op>)
    requires n <= |rs|
  {
    && |at| == |ops| && (forall i, j | 0 <= i < j < |at| :: at[i] < at[j])
    && (forall i: nat | i < n && WritesFor(rs[i], id) :: i in at)
    && forall j | 0 <= j < |at| :: at[j] < n && Does(rs[at[j]], id, ops[j])
  }

  /** The writes of a transaction are its insert and delete records, all of them, in the
      order of the log. */
  lemma OpsInOrder(rs: seq<Record>, id: nat) returns (at: seq<nat>)
    ensures ListsWrites(rs, |rs|, id, at, OpsOf(rs, id))
  {
    at := OpsUpto(rs, |rs|, id);
    assert rs[..|rs|] == rs;
  }

  lemma {:induction false} OpsUpto(rs: seq<Record>, n: nat, id: nat) returns (at: seq<nat>)
    requires n <= |rs|
    ensures ListsWrites(rs, n, id, at, OpsOf(rs[..n], id))
  {
    if n == 0 {
      at := [];
    } else {
      hide ListsWrites;
      var before := OpsUpto(rs, n - 1, id);
      at := if WritesFor(rs[n - 1], id) then before + [n - 1] else before;
      assert rs[..n][..n - 1] == rs[..n - 1];
      ListsNext(rs, n - 1, id, before, OpsOf(rs[..n - 1], id));
    }
  }

  lemma ListsNext(rs: seq<Record>, n: nat, id: nat, at: seq<nat>, ops: seq<Op>)
    requires n < |rs| && ListsWrites(rs, n, id, at, ops)
    ensures ListsWrites(rs, n + 1, id, if WritesFor(rs[n], id) then at + [n] else at, ops + OpIn(rs[n], id))
  {
    var r := rs[n];
    if WritesFor(r, id) {
      var op := OpIn(r, id)[0];
      assert OpIn(r, id) == [op] && Does(r, id, op);
      hide WritesFor, Does, OpIn;
      var at', ops' := at + [n], ops + [op];
      forall i: nat | i < n + 1 && WritesFor(rs[i], id) ensures i in at' { if i == n { assert at'[|at|] == n; } }
      forall j | 0 <= j < |at'| ensures at'[j] < n + 1 && Does(rs[at'[j]], id, ops'[j]) { assert j < |at| ==> at'[j] == at[j]; }
    } else {
      assert ops + OpIn(r, id) == ops;
      hide WritesFor, Does, OpIn;
      forall i: nat | i < n + 1 && WritesFor(rs[i], id) ensures i in at { assert i != n; }
    }
  }

  /** A transaction is replayed when it committed, was not rolled back and
      wrote something. */
  predicate Redoes(rs: seq<Record>, id: nat) {
    id in CommitTs(rs) && id !in RolledBack(rs) && OpsOf(rs, id) != []
  }

  function TsOf(rs: seq<Record>, id: nat): nat {
    if id in CommitTs(rs) then CommitTs(rs)[id] else 0
  }

  ghost predicate ByTs(rs: seq<Record>, order: seq<nat>) {
    && (forall i, j | 0 <= i < j < |order| :: order[i] != order[j])
    && (forall i, j | 0 <= i < j < |order| :: TsOf(rs, order[i]) <= TsOf(rs, order[j]))
  }

  /** `order` lists the replayed transactions in commit order. */
  ghost predicate RedoOrder(rs: seq<Record>, order: seq<nat>) {
    ByTs(rs, order) && forall id :: id in order <==> Redoes(rs, id)
  }

  /** What replaying the log yields when transactions commit in `order`. */
  function Redo(rs: seq<Record>, order: seq<nat>): seq<(nat, seq<Op>)> {
    seq(|order|, i requires 0 <= i < |order| => (TsOf(rs, order[i]), OpsOf(rs, order[i])))
  }

  /** The writes collected per replayed transaction. */
  function PerTxn(rs: seq<Record>, replayed: set<nat>): map<nat, seq<Op>> {
    if rs == [] then map[]
    else
      var m, last := PerTxn(rs[..|rs| - 1], replayed), rs[|rs| - 1];
      if (last.Insert? || last.Delete?) && last.txnId in replayed then
        m[last.txnId := (if last.txnId in m then m[last.txnId] else []) + OpIn(last, last.txnId)]
      else m
  }

  lemma {:induction false} PerTxnAt(rs: seq<Record>, replayed: set<nat>, id: nat)
    ensures var m := PerTxn(rs, replayed);
            && (id in m <==> id in replayed && OpsOf(rs, id) != [])
            && (id in m ==> m[id] == OpsOf(rs, id))
  {
    if rs != [] { PerTxnAt(rs[..|rs| - 1], replayed, id); }
  }

  datatype Recovery = Recovery(
    committed: seq<(nat, seq<Op>)>,
    maxTxnId: nat,
    validBytes: nat,
    truncatedBytes: nat)

  /** Scans a log file and returns the redo set of committed transactions. */
  method Recover(bytes: Bytes, crc: Checksum) returns (r: Recovery, ghost order: seq<nat>)
    ensures var p := Parse(bytes, crc);
            && RedoOrder(p.records, order)
            && r == Recovery(Redo(p.records, order), MaxTxnId(p.records), p.valid, |bytes| - p.valid)
  {
    var rs, good := ScanFrames(bytes, crc);
    var commits, rolledBack, maxId := FirstPass(rs);
    var replayed := set id | id in commits && id !in rolledBack;
    var perTxn := SecondPass(rs, replayed);
    var committed;
    committed, order := SortByTs(rs, commits, replayed, perTxn);
    r := Recovery(committed, maxId, good, |bytes| - good);
  }

  /** The cursor loop over frames. */
  method ScanFrames(bytes: Bytes, crc: Checksum) returns (rs: seq<Record>, good: nat)
    ensures Parsed(rs, good) == Parse(bytes, crc)
  {
    hide FirstFrame;
    var cursor := 0;
    rs, good := [], 0;
    assert bytes[0..] == bytes;
    while true
      invariant good == cursor <= |bytes|
      invariant Parse(bytes, crc) ==
                Parsed(rs + Parse(bytes[cursor..], crc).records, cursor + Parse(bytes[cursor..], crc).valid)
      decreases |bytes| - cursor
    {
      var frame := FirstFrame(bytes[cursor..], crc);
      if frame.None? { break; }
      var (rec, n) := frame.value;
      assert bytes[cursor..][n..] == bytes[cursor + n..];
      ghost var rest := Parse(bytes[cursor + n..], crc).records;
      assert rs + ([rec] + rest) == (rs + [rec]) + rest;
      rs := rs + [rec];
      cursor := cursor + n;
      good := cursor;
    }
    assert rs + [] == rs;
  }

  /** Which transactions committed, and when? */
  method FirstPass(rs: seq<Record>) returns (commits: map<nat, nat>, rolledBack: set<nat>, maxId: nat)
    ensures commits == CommitTs(rs) && rolledBack == RolledBack(rs) && maxId == MaxTxnId(rs)
  {
    commits, rolledBack, maxId := map[], {}, 0;
    for i := 0 to |rs|
      invariant commits == CommitTs(rs[..i]) && rolledBack == RolledBack(rs[..i]) && maxId == MaxTxnId(rs[..i])
    {
      assert rs[..i + 1][..i] == rs[..i];
      var r := rs[i];
      if r.Commit? { commits := commits[r.txnId := r.ts]; }
      if r.Rollback? { rolledBack := rolledBack + {r.txnId}; }
      if !r.Checkpoint? && r.txnId > maxId { maxId := r.txnId; }
    }
    assert rs[..|rs|] == rs;
  }

  /** Collects the writes of the replayed transactions in log order. */
  method SecondPass(rs: seq<Record>, replayed: set<nat>) returns (perTxn: map<nat, seq<Op>>)
    ensures perTxn == PerTxn(rs, replayed)
  {
    perTxn := map[];
    for i := 0 to |rs|
      invariant perTxn == PerTxn(rs[..i], replayed)
    {
      assert rs[..i + 1][..i] == rs[..i];
      var r := rs[i];
      if (r.Insert? || r.Delete?) && r.txnId in replayed {
        perTxn := perTxn[r.txnId := (if r.txnId in perTxn then perTxn[r.txnId] else []) + OpIn(r, r.txnId)];
      }
    }
    assert rs[..|rs|] == rs;
  }

  /** Replay order: ascending commit timestamp. */
  method SortByTs(rs: seq<Record>, commits: map<nat, nat>, replayed: set<nat>, perTxn: map<nat, seq<Op>>)
    returns (committed: seq<(nat, seq<Op>)>, ghost order: seq<nat>)
    requires commits == CommitTs(rs)
    requires replayed == set id | id in commits && id !in RolledBack(rs)
    requires perTxn == PerTxn(rs, replayed)
    ensures RedoOrder(rs, order)
    ensures committed == Redo(rs, order)
  {
    hide OpsOf, PerTxn, RolledBack, CommitTs;
    forall id { PerTxnAt(rs, replayed, id); }
    committed, order := [], [];
    var rest := perTxn.Keys;
    while rest != {}
      invariant rest <= perTxn.Keys
      invariant committed == Redo(rs, order)
      invariant forall id :: id in order <==> id in perTxn && id !in rest
      invariant ByTs(rs, order)
      invariant forall i, id | 0 <= i < |order| && id in rest :: TsOf(rs, order[i]) <= commits[id]
      decreases |rest|
    {
      var id := Earliest(rest, commits);
      committed := committed + [(commits[id], perTxn[id])];
      order := order + [id];
      rest := rest - {id};
    }
  }

  method Earliest(ids: set<nat>, commits: map<nat, nat>) returns (id: nat)
    requires ids != {} && ids <= commits.Keys
    ensures id in ids && forall x | x in ids :: commits[id] <= commits[x]
  {
    id :| id in ids;
    var rest := ids;
    while rest != {}
      invariant rest <= ids && id in ids
      invariant forall x | x in ids && x !in rest :: commits[id] <= commits[x]
      decreases |rest|
    {
      var x :| x in rest;
      rest := rest - {x};
      if commits[x] < commits[id] { id := x; }
    }
  }
}
