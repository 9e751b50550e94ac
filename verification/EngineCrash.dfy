/** Crashes at every sub-step, and recovery from what they leave. */
module EngineCrash {
  import opened Bytes
  import opened Wrappers
  import opened History
  import opened VersionStore
  import opened Wal
  import opened Engine
  import opened EngineInvariant
  import opened EngineRecovery
  import opened EngineSafety
  import opened EngineSteps

  // ---- what a crash leaves in the page file --------------------------------

  lemma AgreeEverywhere(p: Pages, q: Pages)
    requires AgreeOff(p, q, {})
    ensures p == q
  {
    assert forall id :: id in p <==> id in q;
  }

  /** Whatever a crash leaves in place, recovery ends with the pages of one
      complete flush: the last one, or this one if its journal was complete. */
  lemma CrashPages(env: Env, s: State, s': State) returns (d: Disk)
    requires Inv(env, s) && Crash(env, s, s')
    ensures d.wal == s.disk.wal && d.synced == s.disk.synced
    ensures DiskOk(env, d, s.log, s.acked)
    ensures d.pages == s.disk.pages && RecoveredPages(s'.disk) == RecoveredPages(d)
    ensures if s.phase.Journaling? then d.journal == NoJournal || d.journal == Complete(s.phase.dirty) else d.journal == s.disk.journal
  {
    hide DiskOk, MemOk, NewLogOk, LogAfterCrash, ValidLog, Parse, Covers, ActiveFresh, Whole;
    d := s.disk;
    match s.phase
    case Writing(dirty, _) =>
      ReplayRestores(s.disk.pages, s'.disk.pages, dirty);
    case Replaying(dirty) =>
      ReplayRestores(s.disk.pages, s'.disk.pages, dirty);
    case Journaling(dirty, _) =>
      AgreeEverywhere(s.disk.pages, s'.disk.pages);
      if s'.disk.journal.Complete? { d := s.disk.(journal := Complete(dirty)); }
    case _ =>
      AgreeEverywhere(s.disk.pages, s'.disk.pages);
  }

  // ---- what a crash leaves of the log --------------------------------------

  lemma DurablePrefix(rs: seq<Record>, qs: seq<Record>, synced: nat, treeTs: nat, acked: nat)
    requires Durable(rs, synced, treeTs, acked) && qs <= rs && synced <= |qs|
    ensures Durable(qs, |qs|, treeTs, acked)
  {
    assert qs[..|qs|] == qs;
    if acked > treeTs {
      assert rs[..synced] <= qs;
      HasCommitIn(rs[..synced], qs, acked);
    }
  }

  /** A matching log cut at any byte past its durable part still recovers every
      acknowledged commit. */
  lemma CutDisk(env: Env, rs: seq<Record>, synced: nat, n: nat, d': Disk, log: Log, acked: nat)
    requires AllEncodable(rs) && synced <= |rs|
    requires ImageOk(env.decode(RecoveredPages(d')), log)
    requires LogMatches(rs, log, env.decode(RecoveredPages(d')).treeTs)
    requires Durable(rs, synced, env.decode(RecoveredPages(d')).treeTs, acked)
    requires d'.wal == CutAt(EncodeLog(rs, env.crc), n) && d'.synced == |Records(env, d')|
    requires |EncodeLog(rs[..synced], env.crc)| <= n
    ensures DiskOk(env, d', log, acked)
  {
    hide AllEncodable, LogMatches, ImageOk, Durable, EncodeLog, FileOk, Parse;
    FileCut(env, rs, synced, n, d');
    var qs, treeTs := Records(env, d'), env.decode(RecoveredPages(d')).treeTs;
    MatchesPrefix(rs, |qs|, log, treeTs);
    assert rs[..|qs|] == qs;
    DurablePrefix(rs, qs, synced, treeTs, acked);
  }

  lemma WholeFile(env: Env, d: Disk)
    requires FileOk(env, d) && Whole(env, d)
    ensures d.wal == EncodeLog(Records(env, d), env.crc) && AllEncodable(Records(env, d))
  {
    assert d.wal[..|d.wal|] == d.wal;
  }

  /** A crash of the ordinary append-only log. */
  lemma CutKeeps(env: Env, s: State, s': State, d: Disk, n: nat)
    requires d.wal == s.disk.wal && d.synced == s.disk.synced && DiskOk(env, d, s.log, s.acked) && Whole(env, d)
    requires RecoveredPages(s'.disk) == RecoveredPages(d)
    requires s'.disk.wal == CutAt(d.wal, n) && s'.disk.synced == |Records(env, s'.disk)|
    requires |EncodeLog(FirstN(Records(env, d), d.synced), env.crc)| <= n
    ensures DiskOk(env, s'.disk, s.log, s.acked)
  {
    hide AllEncodable, LogMatches, ImageOk, Durable, EncodeLog, Parse;
    WholeFile(env, d);
    CutDisk(env, Records(env, d), d.synced, n, s'.disk, s.log, s.acked);
  }

  /** A log that was replaced, or whose replacement is complete. */
  lemma ReplacedKeeps(env: Env, s: State, s': State, newLog: seq<Record>, n: nat)
    requires NewLogOk(newLog, s.store, s.log, s.treeTs) && s.acked <= |s.log|
    requires ImageOk(env.decode(RecoveredPages(s'.disk)), s.log) && env.decode(RecoveredPages(s'.disk)).treeTs == s.treeTs
    requires s'.disk.wal == CutAt(EncodeLog(newLog, env.crc), n) && s'.disk.synced == |Records(env, s'.disk)|
    requires |newLog| == 1 || n == |EncodeLog(newLog, env.crc)|
    ensures DiskOk(env, s'.disk, s.log, s.acked)
  {
    hide AllEncodable, LogMatches, ImageOk, EncodeLog, Parse, Covers, ActiveFresh, FileOk;
    if |newLog| == 1 {
      assert newLog[..0] == [];
      assert EncodeLog([], env.crc) == [] by { NothingLogged(env.crc); }
      assert Durable(newLog, 0, s.treeTs, s.acked);
      CutDisk(env, newLog, 0, n, s'.disk, s.log, s.acked);
    } else {
      CoverIsDurable(newLog, s.log, s.treeTs, s.acked);
      assert newLog[..|newLog|] == newLog;
      CutDisk(env, newLog, |newLog|, n, s'.disk, s.log, s.acked);
    }
  }

  lemma NothingLogged(crc: Checksum)
    ensures EncodeLog([], crc) == []
  {
  }

  /** Truncating in place happens only when the tree holds everything. */
  lemma TruncatedKeeps(env: Env, s: State, s': State, n: nat)
    requires FileOk(env, s.disk) && Whole(env, s.disk) && s.acked <= |s.log| <= s.treeTs
    requires LogMatches(Records(env, s.disk), s.log, s.treeTs)
    requires ImageOk(env.decode(RecoveredPages(s'.disk)), s.log) && env.decode(RecoveredPages(s'.disk)).treeTs == s.treeTs
    requires s'.disk.wal == CutAt(s.disk.wal, n) && s'.disk.synced == |Records(env, s'.disk)|
    ensures DiskOk(env, s'.disk, s.log, s.acked)
  {
    hide AllEncodable, LogMatches, ImageOk, EncodeLog, Parse;
    var rs := Records(env, s.disk);
    WholeFile(env, s.disk);
    hide FileOk;
    assert rs[..0] == [];
    NothingLogged(env.crc);
    assert Durable(rs, 0, s.treeTs, s.acked);
    CutDisk(env, rs, 0, n, s'.disk, s.log, s.acked);
  }

  lemma SameLogKeeps(env: Env, s: State, s': State, d: Disk)
    requires d.wal == s.disk.wal && DiskOk(env, d, s.log, s.acked)
    requires RecoveredPages(s'.disk) == RecoveredPages(d)
    requires s'.disk.wal == d.wal && s'.disk.synced == |Records(env, s'.disk)|
    ensures DiskOk(env, s'.disk, s.log, s.acked)
  {
    hide AllEncodable, LogMatches, ImageOk, EncodeLog, Parse, Durable;
    var rs := Records(env, d);
    DurablePrefix(rs, rs, d.synced, env.decode(RecoveredPages(d)).treeTs, s.acked);
  }

  lemma ResettingCrash(env: Env, s: State, s': State, d: Disk)
    requires Inv(env, s) && Crash(env, s, s') && s.phase.Resetting?
    requires d.wal == s.disk.wal && d.synced == s.disk.synced && DiskOk(env, d, s.log, s.acked)
    requires RecoveredPages(s'.disk) == RecoveredPages(d) == s.disk.pages
    ensures DiskOk(env, s'.disk, s.log, s.acked)
  {
    hide AllEncodable, LogMatches, ImageOk, EncodeLog, Parse, Durable, MemOk, ValidLog, Covers, ActiveFresh;
    var newLog := s.phase.newLog;
    var b := EncodeLog(newLog, env.crc);
    if |newLog| == 1 {
      var n: nat :| s'.disk.wal == CutAt(s.disk.wal, n) || s'.disk.wal == CutAt(b, n);
      if s'.disk.wal == CutAt(b, n) {
        ReplacedKeeps(env, s, s', newLog, n);
      } else {
        TruncatedKeeps(env, s, s', n);
      }
    } else if s'.disk.wal == b {
      assert b[..|b|] == b;
      ReplacedKeeps(env, s, s', newLog, |b|);
    } else {
      var n: nat :| |EncodeLog(FirstN(Records(env, s.disk), s.disk.synced), env.crc)| <= n && s'.disk.wal == CutAt(s.disk.wal, n);
      CutKeeps(env, s, s', d, n);
    }
  }

  lemma CrashKeeps(env: Env, s: State, s': State)
    requires Inv(env, s) && Crash(env, s, s')
    ensures Inv(env, s')
  {
    hide AllEncodable, LogMatches, ImageOk, EncodeLog, Parse, Durable, MemOk, ValidLog, Covers, ActiveFresh, NewLogOk, FileOk;
    var d := CrashPages(env, s, s');
    if s.phase.Down? || s.phase.Replaying? || s.phase.Unjournaling? {
      SameLogKeeps(env, s, s', d);
    } else if s.phase.Resetting? {
      ResettingCrash(env, s, s', d);
    } else {
      var n: nat :| |EncodeLog(FirstN(Records(env, s.disk), s.disk.synced), env.crc)| <= n && s'.disk.wal == CutAt(s.disk.wal, n);
      CutKeeps(env, s, s', d, n);
    }
  }

  // ---- recovery ------------------------------------------------------------

  lemma StartReplayKeeps(env: Env, s: State, s': State)
    requires Inv(env, s) && StartReplay(s, s')
    ensures Inv(env, s')
  {
    hide DiskOk, ValidLog;
  }

  lemma SyncReplayKeeps(env: Env, s: State, s': State)
    requires Inv(env, s) && SyncReplay(s, s')
    ensures Inv(env, s')
  {
    hide LogMatches, ValidLog, Parse, FileOk, ImageOk, Durable;
    ReplayIdempotent(s.disk.pages, s.phase.dirty);
    FileIgnoresPages(env, s.disk, s'.disk);
  }

  lemma DiscardJournalKeeps(env: Env, s: State, s': State)
    requires Inv(env, s) && DiscardJournal(s, s')
    ensures Inv(env, s')
  {
    hide LogMatches, ValidLog, Parse, FileOk, ImageOk, Durable;
    FileIgnoresPages(env, s.disk, s'.disk);
  }

  /** The recovered counters stop exactly at the last commit found, which is
      at least the last acknowledged one. */
  lemma RecoveredCount(rs: seq<Record>, log: Log, treeTs: nat, order: seq<nat>, synced: nat, acked: nat)
    requires LogMatches(rs, log, treeTs) && ValidLog(log) && RedoOrder(rs, order) && treeTs <= |log|
    requires Durable(rs, synced, treeTs, acked)
    ensures var m := Reached(rs, order, treeTs, |order|);
            && acked <= m
            && (m <= treeTs || HasCommit(rs, m))
            && (forall i | 0 <= i < |rs| && rs[i].Commit? :: rs[i].ts <= m)
  {
    hide LogMatches, ValidLog, TsOf, Durable;
    var m, n := Reached(rs, order, treeTs, |order|), |order|;
    forall ts | HasCommit(rs, ts) ensures ts <= m {
      var j := CommitInOrder(rs, log, treeTs, order, ts);
      if j < n - 1 { OrderStrict(rs, log, treeTs, order, j, n - 1); }
    }
    forall i | 0 <= i < |rs| && rs[i].Commit? ensures rs[i].ts <= m { assert HasCommit(rs, rs[i].ts); }
    if n > 0 { var i := ReplayedCommit(rs, log, treeTs, order, n - 1); }
    AckedFound(rs, synced, treeTs, acked);
  }

  lemma AckedFound(rs: seq<Record>, synced: nat, treeTs: nat, acked: nat)
    requires Durable(rs, synced, treeTs, acked)
    ensures acked <= treeTs || HasCommit(rs, acked)
  {
    if acked > treeTs { HasCommitIn(FirstN(rs, synced), rs, acked); }
  }
}
