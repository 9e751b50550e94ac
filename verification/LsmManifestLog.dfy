/** The manifest as a file: framed edits, and what recovery makes of any bytes. */
module LsmManifestLog {
  import opened Bytes
  import opened Wrappers
  import opened LsmManifest
  import opened LsmManifestCodec

  const MAX_RECORD_BYTES: nat := 16 * 1024 * 1024
  const FRAME_HEADER: nat := 8

  /** An edit over the limit is refused before anything is written; its numbers keep to
      their machine widths. */
  predicate Fits(e: Edit) {
    Encodable(e) && |EncodeEdit(e)| <= MAX_RECORD_BYTES
  }

  lemma CheckpointFits(seqno: nat)
    requires seqno < U64_LIMIT
    ensures Fits(Checkpoint(seqno))
  {
    hide LE;
  }

  ghost predicate AllFit(es: seq<Edit>) {
    forall i | 0 <= i < |es| :: Fits(es[i])
  }

  function Frame(crc: Checksum, e: Edit): Bytes {
    LE(|EncodeEdit(e)|, 4) + LE(crc(EncodeEdit(e)), 4) + EncodeEdit(e)
  }

  function EncodeManifest(crc: Checksum, es: seq<Edit>): Bytes {
    if es == [] then [] else Frame(crc, es[0]) + EncodeManifest(crc, es[1..])
  }

  // ---- reading -----------------------------------------------------------------

  function Declared(b: Bytes): nat
    requires |b| >= FRAME_HEADER
  {
    FromLE(b[..4])
  }

  predicate Plausible(len: nat) {
    0 < len <= MAX_RECORD_BYTES
  }

  /** The edit of an intact frame at the start of `b`, and the frame's length. */
  function FrameAt(crc: Checksum, b: Bytes): Option<(Edit, nat)> {
    if |b| < FRAME_HEADER || !Plausible(Declared(b)) || FRAME_HEADER + Declared(b) > |b| then None
    else
      var payload := b[FRAME_HEADER..FRAME_HEADER + Declared(b)];
      if crc(payload) != FromLE(b[4..8]) || DecodeEdit(payload).None? then None
      else Some((DecodeEdit(payload).value, FRAME_HEADER + Declared(b)))
  }

  /** Bytes that are no intact frame but could be the end of an interrupted append:
      too few for a header, an impossible length in front of zeros or of fewer than 16
      bytes, a payload cut short, or a bad frame with nothing behind it. */
  predicate TornTail(b: Bytes) {
    || |b| < FRAME_HEADER
    || (!Plausible(Declared(b)) && (|b| < 16 || forall i | 0 <= i < |b| :: b[i] == 0))
    || (Plausible(Declared(b)) && FRAME_HEADER + Declared(b) >= |b|)
  }

  datatype Recovery = Recovered(edits: seq<Edit>, valid: nat) | Corrupt

  function Parse(crc: Checksum, b: Bytes): (p: Recovery)
    ensures p.Recovered? ==> p.valid <= |b|
    decreases |b|
  {
    var frame := FrameAt(crc, b);
    if frame.None? then if TornTail(b) then Recovered([], 0) else Corrupt
    else
      var (e, n) := frame.value;
      var rest := Parse(crc, b[n..]);
      if rest.Corrupt? then Corrupt else Recovered([e] + rest.edits, n + rest.valid)
  }

  /** Intact frames holding `edits` fill the first `n` bytes. */
  ghost predicate Frames(crc: Checksum, b: Bytes, edits: seq<Edit>, n: nat)
    decreases |b|
  {
    if edits == [] then n == 0
    else
      var frame := FrameAt(crc, b);
      && frame.Some? && frame.value.0 == edits[0] && frame.value.1 <= n
      && Frames(crc, b[frame.value.1..], edits[1..], n - frame.value.1)
  }

  /** Recovery of any file: the manifest its intact frames amount to and where they
      end, or nothing when the file is corrupt. */
  method Recover(crc: Checksum, bytes: Bytes) returns (r: Option<(Manifest, nat, nat)>)
    ensures var p := Parse(crc, bytes);
            r == if p.Corrupt? then None else Some((Replayed(p.edits), |p.edits|, p.valid))
  {
    hide FrameAt, TornTail, ApplyEdit, Parse;
    var cursor, count, m := 0, 0, EMPTY_MANIFEST;
    ghost var edits: seq<Edit> := [];
    assert bytes[0..] == bytes;
    ParsedFrom([], 0, Parse(crc, bytes));
    InitialReplay();
    while true
      invariant cursor <= |bytes| && count == |edits| && m == Replayed(edits)
      invariant Parse(crc, bytes) == Behind(edits, cursor, Parse(crc, bytes[cursor..]))
      decreases |bytes| - cursor
    {
      var rest := bytes[cursor..];
      var frame := FrameAt(crc, rest);
      ParseStep(crc, rest);
      if frame.None? {
        if !TornTail(rest) { return None; }
        assert edits + [] == edits;
        return Some((m, count, cursor));
      }
      var (e, n) := frame.value;
      FrameShrinks(crc, rest);
      assert rest[n..] == bytes[cursor + n..];
      BehindStep(edits, cursor, e, n, Parse(crc, rest[n..]));
      ReplayedAppend(edits, e);
      m := ApplyOne(m, e);
      edits := edits + [e];
      cursor, count := cursor + n, count + 1;
    }
  }

  lemma InitialReplay()
    ensures Replayed([]) == EMPTY_MANIFEST
  {
  }

  /** What a recovery amounts to once `edits`, ending at `n`, precede it. */
  function Behind(edits: seq<Edit>, n: nat, p: Recovery): Recovery {
    if p.Corrupt? then Corrupt else Recovered(edits + p.edits, n + p.valid)
  }

  lemma ParsedFrom(edits: seq<Edit>, n: nat, p: Recovery)
    ensures edits == [] && n == 0 ==> Behind(edits, n, p) == p
  {
    if p.Recovered? && edits == [] { assert edits + p.edits == p.edits; }
  }

  lemma BehindStep(edits: seq<Edit>, cursor: nat, e: Edit, n: nat, p: Recovery)
    ensures Behind(edits, cursor, Behind([e], n, p)) == Behind(edits + [e], cursor + n, p)
  {
    if p.Recovered? { assert edits + ([e] + p.edits) == edits + [e] + p.edits; }
  }

  lemma ParseStep(crc: Checksum, b: Bytes)
    ensures var frame := FrameAt(crc, b);
            && (frame.None? ==> Parse(crc, b) == if TornTail(b) then Recovered([], 0) else Corrupt)
            && (frame.Some? ==> frame.value.1 <= |b| && Parse(crc, b) == Behind([frame.value.0], frame.value.1, Parse(crc, b[frame.value.1..])))
  {
    hide TornTail, FromLE, DecodeEdit;
  }

  lemma FrameShrinks(crc: Checksum, b: Bytes)
    ensures FrameAt(crc, b).Some? ==> FRAME_HEADER < FrameAt(crc, b).value.1 <= |b|
  {
    hide FromLE, DecodeEdit;
  }

  // ---- corruption ----------------------------------------------------------------

  /** Behind intact frames come bytes that are neither an intact frame nor the end of
      an interrupted append. */
  ghost predicate BrokenBehind(crc: Checksum, b: Bytes, edits: seq<Edit>, n: nat) {
    Frames(crc, b, edits, n) && n <= |b| && FrameAt(crc, b[n..]).None? && !TornTail(b[n..])
  }

  /** Recovery fails if and only if the file is broken behind some intact frames. */
  lemma {:induction false} CorruptIff(crc: Checksum, b: Bytes)
    ensures Parse(crc, b).Corrupt? <==> exists edits, n: nat :: BrokenBehind(crc, b, edits, n)
    decreases |b|
  {
    hide FrameAt, TornTail, BrokenBehind;
    ParseStep(crc, b);
    FrameShrinks(crc, b);
    var frame := FrameAt(crc, b);
    if frame.None? {
      forall edits, n: nat ensures BrokenBehind(crc, b, edits, n) <==> edits == [] && n == 0 && !TornTail(b) { BrokenHere(crc, b, edits, n); }
      if !TornTail(b) { assert BrokenBehind(crc, b, [], 0); }
    } else {
      var e, k := frame.value.0, frame.value.1;
      CorruptIff(crc, b[k..]);
      if Parse(crc, b[k..]).Corrupt? {
        var edits, n: nat :| BrokenBehind(crc, b[k..], edits, n);
        assert ([e] + edits)[1..] == edits;
        BrokenLater(crc, b, [e] + edits, k + n);
      }
      forall edits, n: nat | BrokenBehind(crc, b, edits, n) ensures Parse(crc, b[k..]).Corrupt? {
        BrokenLater(crc, b, edits, n);
        assert BrokenBehind(crc, b[k..], edits[1..], n - k);
      }
    }
  }

  lemma BrokenHere(crc: Checksum, b: Bytes, edits: seq<Edit>, n: nat)
    requires FrameAt(crc, b).None?
    ensures BrokenBehind(crc, b, edits, n) <==> edits == [] && n == 0 && !TornTail(b)
  {
    hide FrameAt, TornTail;
    assert b[0..] == b;
  }

  lemma BrokenLater(crc: Checksum, b: Bytes, edits: seq<Edit>, n: nat)
    requires FrameAt(crc, b).Some? && FrameAt(crc, b).value.1 <= |b|
    ensures var (e, k) := FrameAt(crc, b).value;
            BrokenBehind(crc, b, edits, n) <==> edits != [] && edits[0] == e && k <= n && BrokenBehind(crc, b[k..], edits[1..], n - k)
  {
    hide FrameAt, TornTail;
    assert b[0..] == b;
    var k := FrameAt(crc, b).value.1;
    if k <= n <= |b| { assert b[k..][n - k..] == b[n..]; }
  }

  // ---- what a crash leaves -----------------------------------------------------------

  lemma FrameParts(crc: Checksum, e: Edit, rest: Bytes)
    requires Fits(e)
    ensures var b, p := Frame(crc, e) + rest, EncodeEdit(e);
            && |Frame(crc, e)| == FRAME_HEADER + |p| && |b| == FRAME_HEADER + |p| + |rest|
            && FromLE(b[..4]) == |p| && FromLE(b[4..8]) == crc(p)
            && b[FRAME_HEADER..FRAME_HEADER + |p|] == p && b[FRAME_HEADER + |p|..] == rest
  {
    hide LE, FromLE, Pow256, EncodeEdit, Encodable;
    WordLimits();
    var b, p := Frame(crc, e) + rest, EncodeEdit(e);
    LERoundTrip(|p|, 4);
    LERoundTrip(crc(p), 4);
    var x, y := LE(|p|, 4), LE(crc(p), 4);
    assert b[..4] == x && b[4..8] == y;
  }

  lemma FrameBack(crc: Checksum, e: Edit, rest: Bytes)
    requires Fits(e)
    ensures FrameAt(crc, Frame(crc, e) + rest) == Some((e, |Frame(crc, e)|))
    ensures (Frame(crc, e) + rest)[|Frame(crc, e)|..] == rest
  {
    FrameParts(crc, e, rest);
    hide Frame, FromLE, EncodeEdit, DecodeEdit, Encodable;
    EncodingTagged(e);
    DecodeEncode(e);
  }

  /** The beginning of a frame that was never finished. */
  ghost predicate Interrupted(crc: Checksum, b: Bytes) {
    b == [] || exists e :: Fits(e) && b <= Frame(crc, e) && |b| < |Frame(crc, e)|
  }

  /** An interrupted append is taken for what it is, never for corruption. */
  lemma InterruptedIsTorn(crc: Checksum, b: Bytes)
    requires Interrupted(crc, b)
    ensures FrameAt(crc, b).None? && TornTail(b)
  {
    hide EncodeEdit, DecodeEdit, Encodable, FromLE;
    if b != [] && |b| >= FRAME_HEADER {
      var e :| Fits(e) && b <= Frame(crc, e) && |b| < |Frame(crc, e)|;
      FrameParts(crc, e, []);
      var f := Frame(crc, e);
      assert f + [] == f;
      assert b[..4] == f[..4];
      EncodingTagged(e);
    }
  }

  /** A file of whole frames with an interrupted append behind them recovers to exactly
      those frames and their length. */
  lemma {:induction false} TornLogRecovers(crc: Checksum, es: seq<Edit>, torn: Bytes)
    requires AllFit(es) && Interrupted(crc, torn)
    ensures Parse(crc, EncodeManifest(crc, es) + torn) == Recovered(es, |EncodeManifest(crc, es)|)
    decreases |es|
  {
    hide Frame, FrameAt, TornTail, Interrupted, Fits;
    var b := EncodeManifest(crc, es) + torn;
    ParseStep(crc, b);
    if es == [] {
      assert b == torn;
      InterruptedIsTorn(crc, torn);
    } else {
      var rest := EncodeManifest(crc, es[1..]) + torn;
      assert b == Frame(crc, es[0]) + rest;
      FrameBack(crc, es[0], rest);
      TornLogRecovers(crc, es[1..], torn);
      assert [es[0]] + es[1..] == es;
    }
  }

  /** How many whole frames lie in the first `n` bytes. */
  function WholeFrames(crc: Checksum, es: seq<Edit>, n: nat): (k: nat)
    ensures k <= |es|
  {
    if es == [] || n < |Frame(crc, es[0])| then 0
    else 1 + WholeFrames(crc, es[1..], n - |Frame(crc, es[0])|)
  }

  /** The bytes behind the whole frames of a cut. */
  function Tail(crc: Checksum, es: seq<Edit>, n: nat): Bytes {
    if es == [] then [] else if n < |Frame(crc, es[0])| then Frame(crc, es[0])[..n]
    else Tail(crc, es[1..], n - |Frame(crc, es[0])|)
  }

  lemma {:induction false} CutSplits(crc: Checksum, es: seq<Edit>, n: nat)
    requires AllFit(es) && n <= |EncodeManifest(crc, es)|
    ensures EncodeManifest(crc, es)[..n] == EncodeManifest(crc, es[..WholeFrames(crc, es, n)]) + Tail(crc, es, n)
    ensures Interrupted(crc, Tail(crc, es, n))
    decreases |es|
  {
    hide Frame, Fits;
    var b, k := EncodeManifest(crc, es), WholeFrames(crc, es, n);
    if es == [] {
      assert b[..n] == [] && es[..k] == [];
    } else {
      var f, rest := Frame(crc, es[0]), EncodeManifest(crc, es[1..]);
      if n < |f| {
        assert b[..n] == f[..n] && es[..0] == [];
        assert Fits(es[0]) && f[..n] <= f && |f[..n]| < |f|;
      } else {
        CutSplits(crc, es[1..], n - |f|);
        CutFirst(crc, es, k);
        assert b[..n] == f + rest[..n - |f|];
      }
    }
  }

  lemma CutFirst(crc: Checksum, es: seq<Edit>, k: nat)
    requires 0 < k <= |es|
    ensures EncodeManifest(crc, es[..k]) == Frame(crc, es[0]) + EncodeManifest(crc, es[1..][..k - 1])
  {
    assert es[..k][1..] == es[1..][..k - 1] && es[..k][0] == es[0];
  }

  /** A manifest cut at any byte recovers to exactly its whole frames and their length:
      no crash makes the store refuse to open. */
  lemma CutRecovers(crc: Checksum, es: seq<Edit>, n: nat)
    requires AllFit(es) && n <= |EncodeManifest(crc, es)|
    ensures var k := WholeFrames(crc, es, n);
            Parse(crc, EncodeManifest(crc, es)[..n]) == Recovered(es[..k], |EncodeManifest(crc, es[..k])|)
  {
    hide EncodeManifest, Frame, FrameAt, TornTail, Interrupted, Fits, WholeFrames, Parse;
    var k := WholeFrames(crc, es, n);
    CutSplits(crc, es, n);
    TornLogRecovers(crc, es[..k], Tail(crc, es, n));
  }

  /** Frames that were durable before the cut are all among them. */
  lemma {:induction false} CutKeepsDurable(crc: Checksum, es: seq<Edit>, m: nat, n: nat)
    requires m <= |es| && |EncodeManifest(crc, es[..m])| <= n
    ensures m <= WholeFrames(crc, es, n)
    decreases m
  {
    hide Frame;
    if m > 0 {
      assert es[..m][1..] == es[1..][..m - 1] && es[..m][0] == es[0];
      CutKeepsDurable(crc, es[1..], m - 1, n - |Frame(crc, es[0])|);
    }
  }

  lemma {:induction false} EncodeAppend(crc: Checksum, a: seq<Edit>, b: seq<Edit>)
    ensures EncodeManifest(crc, a + b) == EncodeManifest(crc, a) + EncodeManifest(crc, b)
    decreases |a|
  {
    hide Frame;
    if a == [] {
      assert a + b == b;
    } else {
      EncodeAppend(crc, a[1..], b);
      assert (a + b)[1..] == a[1..] + b && (a + b)[0] == a[0];
      var f, x, y := Frame(crc, a[0]), EncodeManifest(crc, a[1..]), EncodeManifest(crc, b);
      assert f + (x + y) == f + x + y;
    }
  }

  /** Cutting any recovered file at its reported length and appending `more` makes the
      next recovery see the old edits and the new ones together. */
  lemma {:induction false} RecoveryResumes(crc: Checksum, b: Bytes, more: seq<Edit>)
    requires AllFit(more) && Parse(crc, b).Recovered?
    ensures var p := Parse(crc, b);
            Parse(crc, b[..p.valid] + EncodeManifest(crc, more)) ==
               Recovered(p.edits + more, p.valid + |EncodeManifest(crc, more)|)
    decreases |b|
  {
    hide FrameAt, TornTail, EncodeManifest, Frame, Fits;
    ParseStep(crc, b);
    FrameShrinks(crc, b);
    var frame := FrameAt(crc, b);
    var enc := EncodeManifest(crc, more);
    if frame.None? {
      assert b[..0] + enc == enc + [];
      assert [] + more == more;
      NothingInterrupted(crc);
      TornLogRecovers(crc, more, []);
    } else {
      var k := frame.value.1;
      var rest := Parse(crc, b[k..]);
      RecoveryResumes(crc, b[k..], more);
      var v := rest.valid;
      var c := b[..k + v] + enc;
      CutBehind(b, k, v, enc);
      FrameLocal(crc, b, c, k);
      ParseStep(crc, c);
      BehindMore(frame.value.0, rest.edits, more);
    }
  }

  lemma CutBehind(b: Bytes, k: nat, v: nat, enc: Bytes)
    requires k + v <= |b|
    ensures (b[..k + v] + enc)[k..] == b[k..][..v] + enc && (b[..k + v] + enc)[..k] == b[..k]
  {
  }

  lemma BehindMore(e: Edit, a: seq<Edit>, b: seq<Edit>)
    ensures [e] + (a + b) == [e] + a + b
  {
  }

  lemma NothingInterrupted(crc: Checksum)
    ensures Interrupted(crc, [])
  {
  }

  /** A frame depends on its own bytes only. */
  lemma FrameLocal(crc: Checksum, b: Bytes, c: Bytes, k: nat)
    requires FrameAt(crc, b).Some? && FrameAt(crc, b).value.1 == k && k <= |b| && k <= |c| && c[..k] == b[..k]
    ensures FrameAt(crc, c) == FrameAt(crc, b)
  {
    hide FromLE, DecodeEdit;
    assert b[..4] == b[..k][..4] && c[..4] == c[..k][..4];
    assert b[4..8] == b[..k][4..8] && c[4..8] == c[..k][4..8];
    assert b[FRAME_HEADER..k] == b[..k][FRAME_HEADER..] && c[FRAME_HEADER..k] == c[..k][FRAME_HEADER..];
  }
}
