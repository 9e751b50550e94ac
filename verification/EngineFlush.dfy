/** A journaled flush is atomic over whole runs, crashes during recovery included. */
module EngineFlush {
  import opened Bytes
  import opened Wrappers
  import opened History
  import opened VersionStore
  import opened Wal
  import opened Engine
  import opened EngineInvariant
  import opened EngineRecovery
  import opened EngineSafety
  import opened EngineSteps
  import opened EngineCrash
  import opened EngineTheorems

  // ---- one step --------------------------------------------------------------

  /** Outside the writing of a journal, no step moves the pages recovery leads to:
      not an in-place write, not a crash that tears some, not a replay. */
  lemma StepKeepsPages(env: Env, s: State, e: Event, s': State)
    requires Inv(env, s) && Step(env, s, e, s') && !s.phase.Journaling?
    ensures RecoveredPages(s'.disk) == RecoveredPages(s.disk)
  {
    hide DiskOk, MemOk, NewLogOk, ValidLog, Parse, EncodeLog, Covers, ActiveFresh, LogAfterCrash, Replay, Redo, RedoOrder, IsRetained, MergedWrites, MergedChains, HasImage, Whole;
    match e
    case SyncsPages => ReplayIdempotent(s.disk.pages, s.phase.dirty);
    case SyncsReplay => ReplayIdempotent(s.disk.pages, s.phase.dirty);
    case Crashes => var d := CrashPages(env, s, s');
    case _ =>
  }

  /** The writing of a journal ends in one of two ways: synced, which settles on the
      new pages, or cut short by a crash, which settles on the old or the new. */
  lemma JournalingEnds(env: Env, s: State, e: Event, s': State)
    requires Inv(env, s) && Step(env, s, e, s') && s.phase.Journaling?
    ensures RecoveredPages(s.disk) == s.disk.pages && !s'.phase.Journaling?
    ensures e.SyncsJournal? || e.Crashes?
    ensures RecoveredPages(s'.disk) == s.disk.pages + s.phase.dirty || (e.Crashes? && RecoveredPages(s'.disk) == s.disk.pages)
  {
    hide DiskOk, MemOk, NewLogOk, ValidLog, Parse, EncodeLog, Covers, ActiveFresh, LogAfterCrash, HasImage, Whole;
    if e.Crashes? { var d := CrashPages(env, s, s'); }
  }

  // ---- whole runs ------------------------------------------------------------

  /** Nothing after step `i` and before state `j` starts another flush. */
  ghost predicate NoFlushBetween(states: seq<State>, i: nat, j: nat) {
    j < |states| && forall m | i < m <= j :: !states[m].phase.Journaling?
  }

  /** Once its journal is decided, a flush stays decided until the next one starts. */
  lemma {:induction false} DecidedStays(env: Env, states: seq<State>, events: seq<Event>, i: nat, j: nat)
    requires IsRun(env, states, events) && i <= j < |states|
    requires forall m | i <= m < j :: !states[m].phase.Journaling?
    ensures RecoveredPages(states[j].disk) == RecoveredPages(states[i].disk)
  {
    hide Inv, Step, Init;
    if i < j {
      DecidedStays(env, states, events, i, j - 1);
      InvAlways(env, states, events, j - 1);
      StepKeepsPages(env, states[j - 1], events[j - 1], states[j]);
    }
  }

  /** Let state `i` begin to write the journal of `dirty` over the page file `P`. In
      every later state before the next flush starts, after any crashes, replays and
      journal discards, recovery leads to exactly `P` or exactly `P + dirty`: to
      `P + dirty` from the moment the journal is synced, and always to the same one
      once the journal is decided. The file itself is that one as soon as no complete
      journal is left. */
  lemma FlushIsAtomic(env: Env, states: seq<State>, events: seq<Event>, i: nat, j: nat)
    requires IsRun(env, states, events) && i < j && NoFlushBetween(states, i, j) && states[i].phase.Journaling?
    ensures var before, after := states[i].disk.pages, states[i].disk.pages + states[i].phase.dirty;
            && RecoveredPages(states[i].disk) == before
            && RecoveredPages(states[j].disk) == RecoveredPages(states[i + 1].disk)
            && (RecoveredPages(states[j].disk) == after || (events[i].Crashes? && RecoveredPages(states[j].disk) == before))
            && (events[i].SyncsJournal? ==> RecoveredPages(states[j].disk) == after)
            && (!states[j].disk.journal.Complete? ==> states[j].disk.pages == RecoveredPages(states[j].disk))
  {
    hide Inv, Step, Init;
    InvAlways(env, states, events, i);
    JournalingEnds(env, states[i], events[i], states[i + 1]);
    DecidedStays(env, states, events, i + 1, j);
  }

  /** Recovery ends: with the journal gone, the engine opens on exactly those pages. */
  lemma RecoveryOpensFlush(env: Env, states: seq<State>, events: seq<Event>, i: nat, j: nat)
    requires IsRun(env, states, events) && i < j < |events| && NoFlushBetween(states, i, j) && states[i].phase.Journaling?
    requires events[j].Recovers?
    ensures var before, after := states[i].disk.pages, states[i].disk.pages + states[i].phase.dirty;
            var image := env.decode(if states[j].disk.pages == after then after else before);
            states[j + 1].tree == image.tree && states[j + 1].treeTs == image.treeTs
  {
    hide Inv, Init, RecoverLog;
    FlushIsAtomic(env, states, events, i, j);
    assert Step(env, states[j], events[j], states[j + 1]);
    RecoverReadsPages(env, states[j], states[j + 1], events[j].order);
  }

  lemma RecoverReadsPages(env: Env, s: State, s': State, order: seq<nat>)
    requires RecoverLog(env, s, s', order)
    ensures s.disk.journal == NoJournal && s'.tree == env.decode(s.disk.pages).tree && s'.treeTs == env.decode(s.disk.pages).treeTs
  {
    hide Parse, Replay, Redo, RedoOrder, MaxTxnId;
  }
}
