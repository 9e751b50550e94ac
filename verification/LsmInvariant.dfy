/** The LSM store's invariant and the memory half of every step. */
module LsmInvariant {
  import opened Bytes
  import opened Wrappers
  import opened LsmRuns
  import opened LsmLevels
  import opened LsmCompaction
  import opened LsmCompactionSafety
  import opened LsmManifest
  import opened LsmManifestCodec
  import opened LsmManifestLog
  import opened LsmDisk
  import opened LsmEngine
  import opened LsmMemory

  function Layers(st: State): seq<Run> {
    st.frozen + [st.active, st.pending]
  }

  ghost predicate MemOk(layers: seq<Run>, writes: seq<Entry>, strict: bool) {
    SeqnosGrow(writes, strict) && Layered(layers, strict) && MemWritten(layers, writes) && MemNewest(layers, writes)
  }

  ghost predicate RunsOk(st: State, strict: bool) {
    && (forall i | 0 <= i < |st.frozen| :: LsmRuns.Sorted(st.frozen[i]) && st.frozen[i] != [])
    && LsmRuns.Sorted(st.active) && SeqnosGrow(st.pending, strict)
  }

  ghost predicate IdsBelow(levels: Levels, n: nat) {
    forall t | Has(levels, t) :: t.id < n
  }

  ghost predicate TablesOk(levels: Levels, writes: seq<Entry>) {
    levels != [] && LevelsOk(levels) && IdsOk(levels) && TablesWritten(levels, writes)
  }

  ghost predicate Covered(layers: seq<Run>, n: nat) {
    forall e | InMem(layers, e) :: e.seqno > n
  }

  /** No checkpoint runs ahead of the writes. */
  ghost predicate Reached(writes: seq<Entry>, n: nat) {
    n == 0 || exists w :: w in writes && n <= w.seqno
  }

  /** Sequence numbers are 64 bits wide. */
  ghost predicate Narrow(writes: seq<Entry>) {
    forall w | w in writes :: w.seqno < U64_LIMIT
  }

  lemma ReachedNarrow(writes: seq<Entry>, n: nat)
    requires Narrow(writes) && Reached(writes, n)
    ensures n < U64_LIMIT && Fits(Checkpoint(n))
  {
    CheckpointFits(n);
  }

  ghost predicate PhaseOk(st: State, strict: bool) {
    && (st.phase.Writing? ==> IdsBelow(st.levels, st.phase.id) && st.phase.id < st.nextId)
    && (st.phase.Flushing? ==> FlushOk(st, st.phase.table))
    && (st.phase.Marking? ==> st.phase.seqno > st.checkpoint && Reached(st.writes, st.phase.seqno) && (strict ==> Covered(Layers(st), st.phase.seqno)))
    && (st.phase.Swapping? ==> SwapOk(st, st.phase.job, st.phase.floor, st.phase.out))
    && (st.phase.Down? ==> st.active == [] && st.frozen == [] && st.pending == After(st.writes, st.checkpoint))
  }

  ghost predicate FlushOk(st: State, t: Table) {
    && st.frozen != [] && t.entries == st.frozen[0] && t.level == 0 && TableOk(t)
    && IdsBelow(st.levels, t.id) && t.id < st.nextId
  }

  ghost predicate SwapOk(st: State, job: Job, retain: nat, out: Option<Table>) {
    && LegalJob(st.levels, job) && OutputOk(job, retain, DropsTombstones(st.config, st.levels, job), out)
    && (out.Some? ==> IdsBelow(st.levels, out.value.id) && out.value.id < st.nextId)
  }

  ghost predicate DiskOk(st: State)
    requires st.phase.Swapping? ==> st.phase.job.source + 1 < |st.levels|
  {
    Describes(Replayed(st.edits), st.files, Durable(st)) && Replayed(st.edits).checkpoint == st.checkpoint
  }

  /** The manifest file holds exactly the edits, perhaps with an interrupted append
      behind them after a crash. */
  ghost predicate LogOk(st: State) {
    var whole := EncodeManifest(st.crc, st.edits);
    && AllFit(st.edits)
    && whole <= st.log && Interrupted(st.crc, st.log[|whole|..]) && (!st.phase.Down? ==> st.log == whole)
  }

  ghost predicate Inv(st: State, strict: bool) {
    Core(st, strict) && LogOk(st) && Narrow(st.writes)
  }

  /** Everything but the bytes of the manifest. */
  ghost predicate Core(st: State, strict: bool) {
    && MemOk(Layers(st), st.writes, strict) && RunsOk(st, strict)
    && TablesOk(st.levels, st.writes) && IdsBelow(st.levels, st.nextId)
    && TablesRight(st.levels, Layers(st), st.writes, st.floor)
    && PhaseOk(st, strict) && DiskOk(st) && Reached(st.writes, st.checkpoint)
    && (strict ==> Covered(Layers(st), st.checkpoint))
  }

  // ---- layers --------------------------------------------------------------

  lemma InLayers(f: seq<Run>, a: Run, p: Run, x: Entry)
    ensures InMem(f + [a, p], x) <==> InMem(f, x) || x in a || x in p
  {
    hide InMem;
    InMemLast(f + [a, p], x);
    assert (f + [a, p])[..|f| + 1] == f + [a];
    InMemLast(f + [a], x);
    assert (f + [a])[..|f|] == f;
  }

  /** `b` may sit above these layers. */
  ghost predicate Follows(layers: seq<Run>, b: Entry, strict: bool) {
    forall a | InMem(layers, a) :: Related(a, b, strict) ==> a.seqno < b.seqno
  }

  lemma LayeredSnoc(layers: seq<Run>, r: Run, strict: bool)
    ensures Layered(layers + [r], strict) <==> Layered(layers, strict) && forall b | b in r :: Follows(layers, b, strict)
  {
    hide Layered, Follows;
    if Layered(layers + [r], strict) { SnocLayered(layers, r, strict); }
    if Layered(layers, strict) && forall b | b in r :: Follows(layers, b, strict) { LayeredOnto(layers, r, strict); }
  }

  lemma SnocLayered(layers: seq<Run>, r: Run, strict: bool)
    requires Layered(layers + [r], strict)
    ensures Layered(layers, strict) && forall b | b in r :: Follows(layers, b, strict)
  {
    var all, n := layers + [r], |layers|;
    forall i, j, a, b | 0 <= i < j < n && a in layers[i] && b in layers[j] && Related(a, b, strict) ensures a.seqno < b.seqno {
      assert a in all[i] && b in all[j];
    }
    forall b, a | b in r && InMem(layers, a) && Related(a, b, strict) ensures a.seqno < b.seqno {
      var i :| 0 <= i < n && a in layers[i];
      assert a in all[i] && b in all[n];
    }
  }

  lemma LayeredOnto(layers: seq<Run>, r: Run, strict: bool)
    requires Layered(layers, strict) && forall b | b in r :: Follows(layers, b, strict)
    ensures Layered(layers + [r], strict)
  {
    var all := layers + [r];
    forall i, j, a, b | 0 <= i < j < |all| && a in all[i] && b in all[j] && Related(a, b, strict) ensures a.seqno < b.seqno {
      assert InMem(layers, a) by { assert a in layers[i]; }
    }
  }

  /** The three kinds of layer, taken apart. */
  lemma LayersSplit(f: seq<Run>, a: Run, p: Run, strict: bool)
    ensures Layered(f + [a, p], strict) <==>
              Layered(f, strict) && (forall b | b in a :: Follows(f, b, strict)) && (forall b | b in p :: Follows(f + [a], b, strict))
  {
    hide Layered, Follows;
    assert f + [a, p] == f + [a] + [p];
    LayeredSnoc(f + [a], p, strict);
    LayeredSnoc(f, a, strict);
  }

  lemma FollowsSnoc(f: seq<Run>, a: Run, b: Entry, strict: bool)
    ensures Follows(f + [a], b, strict) <==>
              Follows(f, b, strict) && forall x | x in a :: Related(x, b, strict) ==> x.seqno < b.seqno
  {
    hide InMem;
    forall x ensures InMem(f + [a], x) <==> InMem(f, x) || x in a {
      InMemLast(f + [a], x);
      assert (f + [a])[..|f|] == f;
    }
  }

  // ---- one more version in the active table --------------------------------

  lemma PushMembers(active: Run, writes: seq<Entry>, w: Entry)
    requires LsmRuns.Sorted(active) && forall x | x in active :: x.key == w.key ==> x.seqno < w.seqno
    ensures LsmRuns.Sorted(PutSlot(active, w)) && forall x :: x in PutSlot(active, w) <==> x in active || x == w
  {
    hide PutSlot, LsmRuns.Sorted;
    PutSlotSorted(active, w);
    forall x { PutSlotMembers(active, w, x); }
  }

  /** The active layer takes `w`, newer than all before it and older than what
      is still pending. */
  lemma PushLayered(f: seq<Run>, a: Run, a': Run, p: Run, p': Run, w: Entry, strict: bool)
    requires Layered(f + [a, p], strict)
    requires forall x :: x in a' <==> x in a || x == w
    requires (forall x | x in p' :: x in p) && Follows(f + [a], w, strict)
    requires forall b | b in p' :: Related(w, b, strict) ==> w.seqno < b.seqno
    ensures Layered(f + [a', p'], strict)
  {
    hide Layered, Follows, Related;
    LayersSplit(f, a, p, strict);
    LayersSplit(f, a', p', strict);
    FollowsSnoc(f, a, w, strict);
    forall b | b in p' ensures Follows(f + [a'], b, strict) {
      FollowsSnoc(f, a, b, strict);
      FollowsSnoc(f, a', b, strict);
    }
  }

  lemma WrittenFollows(layers: seq<Run>, writes: seq<Entry>, w: Entry, strict: bool)
    requires MemWritten(layers, writes) && SeqnosGrow(writes + [w], strict)
    ensures Follows(layers, w, strict)
  {
    hide InMem;
    forall a | InMem(layers, a) && Related(a, w, strict) ensures a.seqno < w.seqno {
      assert a in writes;
      var i :| 0 <= i < |writes| && writes[i] == a;
      assert (writes + [w])[i] == a && (writes + [w])[|writes|] == w;
    }
  }

  /** Memory after the owner writes `w`. */
  lemma PutMemOk(f: seq<Run>, a: Run, a': Run, writes: seq<Entry>, w: Entry, strict: bool)
    requires MemOk(f + [a, []], writes, strict) && SeqnosGrow(writes + [w], strict)
    requires forall x :: x in a' <==> x in a || x == w
    ensures MemOk(f + [a', []], writes + [w], strict)
    ensures SubMemory(f + [a, []], f + [a', []]) && InMem(f + [a', []], w)
  {
    hide Layered, Related, SeqnosGrow, InMem;
    var layers, layers' := f + [a, []], f + [a', []];
    forall x ensures InMem(layers', x) <==> InMem(layers, x) || x == w {
      InLayers(f, a, [], x);
      InLayers(f, a', [], x);
    }
    forall x ensures InMem(f + [a], x) <==> InMem(layers, x) {
      InLayers(f, a, [], x);
      InMemLast(f + [a], x);
      assert (f + [a])[..|f|] == f;
    }
    WrittenFollows(f + [a], writes, w, strict);
    PushLayered(f, a, a', [], [], w, strict);
    PutNewest(layers, layers', writes, w, strict);
  }

  lemma PutNewest(layers: seq<Run>, layers': seq<Run>, writes: seq<Entry>, w: Entry, strict: bool)
    requires MemNewest(layers, writes) && MemWritten(layers, writes) && SeqnosGrow(writes + [w], strict)
    requires forall x :: InMem(layers', x) <==> InMem(layers, x) || x == w
    ensures MemNewest(layers', writes + [w])
  {
    hide InMem;
    forall x, e | x in writes + [w] && InMem(layers', e) && x.key == e.key && !InMem(layers', x) ensures x.seqno < e.seqno {
      assert x in writes;
      if e == w && !InMem(layers, e) {
        var i :| 0 <= i < |writes| && writes[i] == x;
        assert (writes + [w])[i] == x && (writes + [w])[|writes|] == w;
      }
    }
  }

  /** Memory after replay moves the first pending write to the active table. */
  lemma ReplayMemOk(f: seq<Run>, a: Run, a': Run, p: Run, writes: seq<Entry>, strict: bool)
    requires p != [] && MemOk(f + [a, p], writes, strict) && SeqnosGrow(p, strict)
    requires forall x :: x in a' <==> x in a || x == p[0]
    ensures MemOk(f + [a', p[1..]], writes, strict)
    ensures forall x :: InMem(f + [a', p[1..]], x) <==> InMem(f + [a, p], x)
  {
    hide Layered, InMem, Follows;
    var layers, layers' := f + [a, p], f + [a', p[1..]];
    forall x ensures InMem(layers', x) <==> InMem(layers, x) {
      InLayers(f, a, p, x);
      InLayers(f, a', p[1..], x);
      assert x in p <==> x == p[0] || x in p[1..];
    }
    LayersSplit(f, a, p, strict);
    assert p[0] in p && Follows(f + [a], p[0], strict);
    PushLayered(f, a, a', p, p[1..], p[0], strict);
  }

  // ---- rotation and flush --------------------------------------------------

  lemma RotateMemOk(f: seq<Run>, a: Run, p: Run, writes: seq<Entry>, strict: bool)
    requires MemOk(f + [a, p], writes, strict)
    ensures MemOk(f + [a] + [[], p], writes, strict)
    ensures forall x :: InMem(f + [a] + [[], p], x) <==> InMem(f + [a, p], x)
  {
    hide Layered, InMem, Follows;
    forall x ensures InMem(f + [a] + [[], p], x) <==> InMem(f + [a, p], x) {
      InLayers(f, a, p, x);
      InLayers(f + [a], [], p, x);
      InMemLast(f + [a], x);
      assert (f + [a])[..|f|] == f;
    }
    LayersSplit(f, a, p, strict);
    LayeredSnoc(f, a, strict);
    LayersSplit(f + [a], [], p, strict);
    forall b | b in p ensures Follows(f + [a] + [[]], b, strict) { FollowsSnoc(f + [a], [], b, strict); }
  }

  lemma FlushMemOk(layers: seq<Run>, writes: seq<Entry>, strict: bool)
    requires MemOk(layers, writes, strict) && layers != []
    ensures MemOk(layers[1..], writes, strict)
  {
    hide Layered, InMem, SeqnosGrow;
    forall x ensures InMem(layers, x) <==> InMem(layers[1..], x) || x in layers[0] { InMemFirst(layers, x); }
    LayeredTail(layers, strict);
  }

  lemma LayeredTail(layers: seq<Run>, strict: bool)
    requires Layered(layers, strict) && layers != []
    ensures Layered(layers[1..], strict)
    ensures forall a, b | a in layers[0] && InMem(layers[1..], b) && Related(a, b, strict) :: a.seqno < b.seqno
  {
    forall i, j, a, b | 0 <= i < j < |layers| - 1 && a in layers[1..][i] && b in layers[1..][j] && Related(a, b, strict)
      ensures a.seqno < b.seqno
    {
      assert a in layers[i + 1] && b in layers[j + 1];
    }
    forall a, b | a in layers[0] && InMem(layers[1..], b) && Related(a, b, strict) ensures a.seqno < b.seqno {
      var j :| 0 <= j < |layers| - 1 && b in layers[1..][j];
      assert b in layers[j + 1];
    }
  }

  lemma {:induction false} HighestIn(r: Run)
    requires r != []
    ensures exists e :: e in r && e.seqno == Highest(r)
  {
    var n := |r| - 1;
    if n > 0 {
      HighestIn(r[..n]);
      var e :| e in r[..n] && e.seqno == Highest(r[..n]);
      assert e in r && r[n] in r;
    } else {
      assert r[..n] == [] && r[0] in r;
      assert Highest(r) == Max(Highest(r[..n]), r[n].seqno);
    }
  }

  /** With strictly growing seqnos, everything left in memory is newer than all
      of the flushed table. */
  lemma FlushCovers(layers: seq<Run>)
    requires Layered(layers, true) && layers != [] && layers[0] != []
    ensures Covered(layers[1..], Highest(layers[0]))
  {
    hide Layered, InMem, Highest;
    HighestIn(layers[0]);
    LayeredTail(layers, true);
    var top :| top in layers[0] && top.seqno == Highest(layers[0]);
    assert forall b | InMem(layers[1..], b) :: Related(top, b, true);
  }

  // ---- crash ---------------------------------------------------------------

  lemma {:induction false} AfterGrows(writes: seq<Entry>, cp: nat, strict: bool)
    requires SeqnosGrow(writes, strict)
    ensures SeqnosGrow(After(writes, cp), strict)
  {
    if writes != [] {
      var n := |writes| - 1;
      AfterGrows(writes[..n], cp, strict);
      var rest := After(writes[..n], cp);
      forall x | x in rest && Related(x, writes[n], strict) ensures x.seqno < writes[n].seqno {
        assert x in writes[..n];
        var i :| 0 <= i < n && writes[..n][i] == x;
        assert writes[i] == x;
      }
      SnocGrows(rest, writes[n], strict);
    }
  }

  lemma SnocGrows(ws: seq<Entry>, w: Entry, strict: bool)
    requires SeqnosGrow(ws, strict) && forall x | x in ws && Related(x, w, strict) :: x.seqno < w.seqno
    ensures SeqnosGrow(ws + [w], strict)
  {
  }

  /** After a crash, replay holds every write above the checkpoint. */
  lemma CrashMemOk(layers: seq<Run>, writes: seq<Entry>, cp: nat, strict: bool)
    requires MemOk(layers, writes, strict) && Covered(layers, cp)
    ensures var layers' := [] + [[], After(writes, cp)];
            MemOk(layers', writes, strict) && SubMemory(layers, layers') && Covered(layers', cp)
  {
    hide InMem, Layered, After, SeqnosGrow;
    var p := After(writes, cp);
    var layers' := [] + [[], p];
    assert Layered(layers', strict) by { OneLayer(p, strict); }
    forall x ensures InMem(layers', x) <==> x in p {
      InLayers([], [], p, x);
      NothingInMem();
    }
  }

  lemma OneLayer(p: Run, strict: bool)
    ensures Layered([] + [[], p], strict)
  {
  }
}
