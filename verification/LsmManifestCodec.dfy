/** Manifest edits as bytes: the fixed-width encoding the manifest's frames carry. */
module LsmManifestCodec {
  import opened Bytes
  import opened Wrappers
  import opened Bincode
  import opened LsmLevels
  import opened LsmManifest

  // ---- numbers fit their machine width ----------------------------------------

  predicate StatsNarrow(s: Stats) {
    s.minSeqno < U64_LIMIT && s.maxSeqno < U64_LIMIT && s.count < U64_LIMIT
  }

  predicate MetaNarrow(m: Meta) {
    && m.id < U64_LIMIT && m.level < U32_LIMIT && |m.minKey| < U64_LIMIT && |m.maxKey| < U64_LIMIT
    && StatsNarrow(m.stats) && m.bytes < U64_LIMIT
  }

  predicate Encodable(e: Edit)
    decreases e
  {
    match e
    case AddMeta(meta) => MetaNarrow(meta)
    case RemoveMeta(level, id) => level < U32_LIMIT && id < U64_LIMIT
    case FullSnapshot(metas, next) => |metas| < U64_LIMIT && next < U64_LIMIT && forall i | 0 <= i < |metas| :: MetaNarrow(metas[i])
    case Checkpoint(seqno) => seqno < U64_LIMIT
    case Batch(edits) => |edits| < U64_LIMIT && forall i | 0 <= i < |edits| :: Encodable(edits[i])
  }

  // ---- writing ------------------------------------------------------------------

  function EncodeStats(s: Stats): Bytes {
    LE(s.minSeqno, 8) + LE(s.maxSeqno, 8) + LE(s.count, 8)
  }

  function EncodeMeta(m: Meta): Bytes {
    LE(m.id, 8) + LE(m.level, 4) + EncodeBytes(m.minKey) + EncodeBytes(m.maxKey) + EncodeStats(m.stats) + LE(m.bytes, 8)
  }

  function EncodeMetas(ms: seq<Meta>): Bytes {
    if ms == [] then [] else EncodeMeta(ms[0]) + EncodeMetas(ms[1..])
  }

  function EncodeEdit(e: Edit): Bytes
    decreases e, 0
  {
    match e
    case AddMeta(meta) => LE(0, 4) + EncodeMeta(meta)
    case RemoveMeta(level, id) => LE(1, 4) + LE(level, 4) + LE(id, 8)
    case FullSnapshot(metas, next) => LE(2, 4) + LE(|metas|, 8) + EncodeMetas(metas) + LE(next, 8)
    case Checkpoint(seqno) => LE(3, 4) + LE(seqno, 8)
    case Batch(edits) => LE(4, 4) + LE(|edits|, 8) + EncodeEdits(edits)
  }

  function EncodeEdits(es: seq<Edit>): Bytes
    decreases es, 1
  {
    if es == [] then [] else EncodeEdit(es[0]) + EncodeEdits(es[1..])
  }

  // ---- reading ------------------------------------------------------------------

  /** Each reader returns what it read and the bytes behind it. */
  function TakeStats(b: Bytes): Option<(Stats, Bytes)> {
    if |b| < 24 then None
    else Some((Stats(FromLE(b[..8]), FromLE(b[8..16]), FromLE(b[16..24])), b[24..]))
  }

  function TakeMeta(b: Bytes): (r: Option<(Meta, Bytes)>)
    ensures r.Some? ==> |r.value.1| < |b|
  {
    if |b| < 12 then None
    else
      var minKey := TakeBytes(b[12..]);
      if minKey.None? then None else
      var maxKey := TakeBytes(minKey.value.1);
      if maxKey.None? then None else
      var stats := TakeStats(maxKey.value.1);
      if stats.None? then None else
      var size := TakeWord(stats.value.1, 8);
      if size.None? then None
      else Some((Meta(FromLE(b[..8]), FromLE(b[8..12]), minKey.value.0, maxKey.value.0, stats.value.0, size.value.0), size.value.1))
  }

  function TakeMetas(b: Bytes, n: nat): (r: Option<(seq<Meta>, Bytes)>)
    ensures r.Some? ==> |r.value.1| <= |b|
    decreases n
  {
    if n == 0 then Some(([], b))
    else
      var first := TakeMeta(b);
      if first.None? then None else
      var rest := TakeMetas(first.value.1, n - 1);
      if rest.None? then None else Some(([first.value.0] + rest.value.0, rest.value.1))
  }

  function TakeEdit(b: Bytes): (r: Option<(Edit, Bytes)>)
    ensures r.Some? ==> |r.value.1| < |b|
    decreases |b|, 0, 0
  {
    if |b| < 4 then None
    else
      var tag, body := FromLE(b[..4]), b[4..];
      if tag == 0 then
        var meta := TakeMeta(body);
        if meta.None? then None else Some((AddMeta(meta.value.0), meta.value.1))
      else if tag == 1 then
        if |body| < 12 then None else Some((RemoveMeta(FromLE(body[..4]), FromLE(body[4..12])), body[12..]))
      else if |body| < 8 then None
      else
        var word, more := FromLE(body[..8]), body[8..];
        if tag == 2 then
          var metas := TakeMetas(more, word);
          if metas.None? then None else
          var next := TakeWord(metas.value.1, 8);
          if next.None? then None else Some((FullSnapshot(metas.value.0, next.value.0), next.value.1))
        else if tag == 3 then Some((Checkpoint(word), more))
        else if tag == 4 then
          var edits := TakeEdits(more, word);
          if edits.None? then None else Some((Batch(edits.value.0), edits.value.1))
        else None
  }

  function TakeEdits(b: Bytes, n: nat): (r: Option<(seq<Edit>, Bytes)>)
    ensures r.Some? ==> |r.value.1| <= |b|
    decreases |b|, 1, n
  {
    if n == 0 then Some(([], b))
    else
      var first := TakeEdit(b);
      if first.None? then None else
      var rest := TakeEdits(first.value.1, n - 1);
      if rest.None? then None else Some(([first.value.0] + rest.value.0, rest.value.1))
  }

  /** The edit at the start of a payload; bytes behind it are not looked at. */
  function DecodeEdit(b: Bytes): Option<Edit> {
    var r := TakeEdit(b);
    if r.None? then None else Some(r.value.0)
  }

  // ---- reading back ---------------------------------------------------------------

  lemma WordBack(n: nat, w: nat, rest: Bytes)
    requires n < Pow256(w)
    ensures (LE(n, w) + rest)[..w] == LE(n, w) && (LE(n, w) + rest)[w..] == rest && FromLE(LE(n, w)) == n
  {
    LERoundTrip(n, w);
  }

  lemma Regroup(a: Bytes, b: Bytes, c: Bytes)
    ensures a + b + c == a + (b + c)
  {
  }

  lemma StatsBack(s: Stats, rest: Bytes)
    requires StatsNarrow(s)
    ensures TakeStats(EncodeStats(s) + rest) == Some((s, rest))
  {
    hide LE, FromLE;
    WordLimits();
    var b := EncodeStats(s) + rest;
    LERoundTrip(s.minSeqno, 8);
    LERoundTrip(s.maxSeqno, 8);
    LERoundTrip(s.count, 8);
    assert b[..8] == LE(s.minSeqno, 8) && b[8..16] == LE(s.maxSeqno, 8) && b[16..24] == LE(s.count, 8) && b[24..] == rest;
  }

  lemma MetaBack(m: Meta, rest: Bytes)
    requires MetaNarrow(m)
    ensures TakeMeta(EncodeMeta(m) + rest) == Some((m, rest))
  {
    hide LE, FromLE, TakeBytes, EncodeBytes, TakeStats, EncodeStats, TakeWord, Pow256;
    WordLimits();
    var size := LE(m.bytes, 8) + rest;
    var stats := EncodeStats(m.stats) + size;
    var maxKey := EncodeBytes(m.maxKey) + stats;
    var minKey := EncodeBytes(m.minKey) + maxKey;
    var b := EncodeMeta(m) + rest;
    MetaGroups(m, rest);
    LERoundTrip(m.id, 8);
    LERoundTrip(m.level, 4);
    assert b[..8] == LE(m.id, 8) && b[8..12] == LE(m.level, 4) && b[12..] == minKey;
    TakeBytesBack(m.minKey, maxKey);
    TakeBytesBack(m.maxKey, stats);
    StatsBack(m.stats, size);
    TakeWordBack(m.bytes, 8, rest);
  }

  lemma MetaGroups(m: Meta, rest: Bytes)
    ensures EncodeMeta(m) + rest ==
            LE(m.id, 8) + LE(m.level, 4) + (EncodeBytes(m.minKey) + (EncodeBytes(m.maxKey) + (EncodeStats(m.stats) + (LE(m.bytes, 8) + rest))))
  {
    hide LE, EncodeBytes, EncodeStats;
    var head := LE(m.id, 8) + LE(m.level, 4);
    var a, b, c, d := EncodeBytes(m.minKey), EncodeBytes(m.maxKey), EncodeStats(m.stats), LE(m.bytes, 8);
    Regroup(head + a + b + c, d, rest);
    Regroup(head + a + b, c, d + rest);
    Regroup(head + a, b, c + (d + rest));
    Regroup(head, a, b + (c + (d + rest)));
  }

  lemma {:induction false} MetasBack(ms: seq<Meta>, rest: Bytes)
    requires forall i | 0 <= i < |ms| :: MetaNarrow(ms[i])
    ensures TakeMetas(EncodeMetas(ms) + rest, |ms|) == Some((ms, rest))
  {
    hide EncodeMeta, TakeMeta, MetaNarrow;
    if ms == [] {
      assert EncodeMetas(ms) + rest == rest;
    } else {
      Regroup(EncodeMeta(ms[0]), EncodeMetas(ms[1..]), rest);
      MetaBack(ms[0], EncodeMetas(ms[1..]) + rest);
      MetasBack(ms[1..], rest);
      assert [ms[0]] + ms[1..] == ms;
    }
  }

  /** Every edit within the machine widths reads back as itself, whatever follows it. */
  lemma {:induction false} EditBack(e: Edit, rest: Bytes)
    requires Encodable(e)
    ensures TakeEdit(EncodeEdit(e) + rest) == Some((e, rest))
    decreases e, 0
  {
    hide LE, FromLE, TakeMeta, EncodeMeta, MetaNarrow, TakeMetas, EncodeMetas, TakeEdits, EncodeEdits, TakeWord, Pow256;
    WordLimits();
    match e
    case AddMeta(meta) =>
      Regroup(LE(0, 4), EncodeMeta(meta), rest);
      WordBack(0, 4, EncodeMeta(meta) + rest);
      MetaBack(meta, rest);
    case RemoveMeta(level, id) =>
      Regroup(LE(1, 4) + LE(level, 4), LE(id, 8), rest);
      Regroup(LE(1, 4), LE(level, 4), LE(id, 8) + rest);
      var body := LE(level, 4) + (LE(id, 8) + rest);
      WordBack(1, 4, body);
      WordBack(level, 4, LE(id, 8) + rest);
      WordBack(id, 8, rest);
      assert body[4..12] == body[4..][..8] && body[12..] == body[4..][8..];
    case FullSnapshot(metas, next) =>
      SnapshotBack(metas, next, rest);
    case Checkpoint(seqno) =>
      Regroup(LE(3, 4), LE(seqno, 8), rest);
      WordBack(3, 4, LE(seqno, 8) + rest);
      WordBack(seqno, 8, rest);
    case Batch(edits) =>
      var more := EncodeEdits(edits) + rest;
      Regroup(LE(4, 4) + LE(|edits|, 8), EncodeEdits(edits), rest);
      Regroup(LE(4, 4), LE(|edits|, 8), more);
      WordBack(4, 4, LE(|edits|, 8) + more);
      WordBack(|edits|, 8, more);
      EditsBack(edits, rest);
  }

  lemma SnapshotBack(metas: seq<Meta>, next: nat, rest: Bytes)
    requires Encodable(FullSnapshot(metas, next))
    ensures TakeEdit(EncodeEdit(FullSnapshot(metas, next)) + rest) == Some((FullSnapshot(metas, next), rest))
  {
    hide LE, FromLE, TakeMeta, MetaNarrow, TakeMetas, EncodeMetas, TakeEdits, TakeWord, Pow256;
    WordLimits();
    var tail := LE(next, 8) + rest;
    var more := EncodeMetas(metas) + tail;
    Regroup(LE(2, 4) + LE(|metas|, 8) + EncodeMetas(metas), LE(next, 8), rest);
    Regroup(LE(2, 4) + LE(|metas|, 8), EncodeMetas(metas), tail);
    Regroup(LE(2, 4), LE(|metas|, 8), more);
    WordBack(2, 4, LE(|metas|, 8) + more);
    WordBack(|metas|, 8, more);
    MetasBack(metas, tail);
    TakeWordBack(next, 8, rest);
  }

  lemma {:induction false} EditsBack(es: seq<Edit>, rest: Bytes)
    requires forall i | 0 <= i < |es| :: Encodable(es[i])
    ensures TakeEdits(EncodeEdits(es) + rest, |es|) == Some((es, rest))
    decreases es, 1
  {
    hide EncodeEdit, TakeEdit, Encodable;
    if es == [] {
      assert EncodeEdits(es) + rest == rest;
    } else {
      Regroup(EncodeEdit(es[0]), EncodeEdits(es[1..]), rest);
      EditBack(es[0], EncodeEdits(es[1..]) + rest);
      EditsBack(es[1..], rest);
      assert [es[0]] + es[1..] == es;
    }
  }

  /** Every payload reads back as the edit it was written for. */
  lemma DecodeEncode(e: Edit)
    requires Encodable(e)
    ensures DecodeEdit(EncodeEdit(e)) == Some(e)
  {
    hide TakeEdit, EncodeEdit, Encodable;
    EditBack(e, []);
    assert EncodeEdit(e) + [] == EncodeEdit(e);
  }

  /** No payload is empty. */
  lemma EncodingTagged(e: Edit)
    ensures |EncodeEdit(e)| >= 4
  {
    hide LE, EncodeMeta, EncodeMetas;
  }
}
