/**
 What a crash leaves within reach.  The recovery entry is found through the staging directory,
 and nothing makes that directory durable between its creation and the first synchronisation
 of the parent after the exchange.
 */
module PublicationCrash {
  import opened Options
  import opened Publication
  import opened PublicationSafety

  // ----- Reaching the recovery entry -----

  /** Whatever a crash reveals, the staging directory is there with the recovery entry in it. */
  ghost predicate RecoveryReachable(d: Entries) {
    forall p, staging | p in d.payloadOnDisk && staging in d.stagingOnDisk :: staging && p.Some?
  }

  predicate ParentSyncTakesEffect(s: State, a: Action) {
    a.Proceed? && SyncsParent(s.phase)
  }

  /** The parent directory has been synchronised before moment `k`. */
  predicate ParentSynced(j: Job, schedule: seq<Action>, k: nat)
    requires k <= |schedule|
  {
    k > 0 && (ParentSyncTakesEffect(Trace(j, schedule)[k - 1], schedule[k - 1]) || ParentSynced(j, schedule, k - 1))
  }

  /** The phases up to the first synchronisation of the parent. */
  predicate BeforeParentSync(p: Phase) {
    BeforeExchange(p) || p.CheckName? || p.CheckRecovery? || p.CheckPublished? || p.SyncName?
  }

  /** The phases that come after one. */
  predicate AfterParentSync(p: Phase) {
    p.SyncRecovery? || BothDurable(p) || p.RollbackSyncRecovery? || p.RolledBack? || RecoveryRemoved(p)
  }

  ghost predicate StagingInv(p: Phase, d: Entries, synced: bool) {
    && (BeforeParentSync(p) ==> !synced && false in d.stagingOnDisk)
    && (AfterParentSync(p) ==> synced)
    && (RecoveryKept(p) ==> if synced then d.stagingOnDisk == {true} else false in d.stagingOnDisk)
  }

  lemma StagingAdvance(j: Job, s: State, synced: bool)
    requires Inv(j, s) && StagingInv(s.phase, s.dir, synced) && Passes(j, s)
    ensures StagingInv(Next(s.phase), DirAfter(j, s), synced || SyncsParent(s.phase))
  {
  }

  lemma StagingRaise(p: Phase, d: Entries, synced: bool)
    requires StagingInv(p, d, synced)
    ensures StagingInv(OnError(p), d, synced)
  {
  }

  lemma StagingStep(j: Job, s: State, a: Action, synced: bool)
    requires Inv(j, s) && StagingInv(s.phase, s.dir, synced)
    ensures var t := Step(j, s, a); StagingInv(t.phase, t.dir, synced || ParentSyncTakesEffect(s, a))
  {
    StagingRaise(s.phase, s.dir, synced);
    if Passes(j, s) {
      StagingAdvance(j, s, synced);
    }
  }

  lemma {:induction false} StagingReachable(j: Job, schedule: seq<Action>, k: nat)
    requires ValidJob(j) && k <= |schedule|
    ensures var s := Trace(j, schedule)[k]; StagingInv(s.phase, s.dir, ParentSynced(j, schedule, k))
  {
    if k > 0 {
      var t := Trace(j, schedule);
      Reachable(j, schedule, k - 1);
      StagingReachable(j, schedule, k - 1);
      StagingStep(j, t[k - 1], schedule[k - 1], ParentSynced(j, schedule, k - 1));
      TraceStep(j, schedule, k - 1);
    }
  }

  /**
   Over every schedule, while the recovery entry is kept: it is within reach after every crash,
   if and only if the parent directory has been synchronised since the staging directory was
   made.  That is never so up to the synchronisation after the exchange, and always so after it
   or after that of the rollback.
   */
  lemma RecoveryReachableExactly(j: Job, schedule: seq<Action>, k: nat)
    requires ValidJob(j) && k <= |schedule| && RecoveryKept(Trace(j, schedule)[k].phase)
    ensures var s := Trace(j, schedule)[k];
            && (RecoveryReachable(s.dir) <==> ParentSynced(j, schedule, k))
            && (BeforeParentSync(s.phase) ==> !RecoveryReachable(s.dir))
            && (AfterParentSync(s.phase) ==> RecoveryReachable(s.dir))
  {
    var d := Trace(j, schedule)[k].dir;
    Reachable(j, schedule, k);
    StagingReachable(j, schedule, k);
    assert d.payload in d.payloadOnDisk;
  }

  /**
   A publication that meets no trouble: right after the exchange a crash can leave the update at
   the name and no staging directory.
   */
  lemma RecoveryCanBeLost(j: Job) returns (schedule: seq<Action>)
    requires ValidJob(j)
    ensures Quiet(schedule) && Last(j, schedule).phase.CheckName?
    ensures var d := Last(j, schedule).dir;
            j.temp in d.nameOnDisk && false in d.stagingOnDisk && d.payload == Some(j.source)
  {
    schedule := QuietReaches(j, 12);
    QuietReachable(j, schedule, |schedule|);
    StagingReachable(j, schedule, |schedule|);
  }

  /** In the phases between, the history decides: a failed rollback can leave it either way. */
  lemma RollbackFailedEitherWay(j: Job, synced: bool) returns (schedule: seq<Action>)
    requires ValidJob(j)
    ensures Quiet(schedule) && Last(j, schedule).phase.RollbackFailed?
    ensures RecoveryReachable(Last(j, schedule).dir) <==> synced
  {
    var before := QuietReaches(j, if synced then 16 else 12);
    StagingReachable(j, before, |before|);
    Reachable(j, before, |before|);
    var failed := before + [Fail];
    Extend(j, before, Fail);
    schedule := failed + [Fail];
    Extend(j, failed, Fail);
    var d := Last(j, schedule).dir;
    assert d == Last(j, before).dir && d.payload in d.payloadOnDisk;
  }

  // ----- Reaching the original -----

  /** Whatever a crash reveals, the original is at the name or in a recovery entry within reach. */
  ghost predicate OriginalReachable(j: Job, d: Entries) {
    forall n, p, staging | n in d.nameOnDisk && p in d.payloadOnDisk && staging in d.stagingOnDisk ::
      n == j.source || (staging && p == Some(j.source))
  }

  /** The rollback's own synchronisation of the parent has taken effect before moment `k`. */
  predicate RollbackSynced(j: Job, schedule: seq<Action>, k: nat)
    requires k <= |schedule|
  {
    k > 0 &&
    ((schedule[k - 1].Proceed? && Trace(j, schedule)[k - 1].phase.RollbackSyncName?)
     || RollbackSynced(j, schedule, k - 1))
  }

  /** From the exchange on, until the directories are synchronised. */
  predicate Exposed(p: Phase) {
    p.CheckName? || p.CheckRecovery? || p.CheckPublished? || p.SyncName? || p.SyncRecovery?
    || p.Rollback? || p.RollbackSyncName?
  }

  predicate RollbackDurable(p: Phase) {
    p.RollbackSyncRecovery? || p.RolledBack?
  }

  /** A crash may reveal the update under both names. */
  ghost predicate UpdateTwice(j: Job, d: Entries) {
    j.temp in d.nameOnDisk && Some(j.temp) in d.payloadOnDisk
  }

  ghost predicate ExposureInv(j: Job, p: Phase, d: Entries, undone: bool) {
    && (Exposed(p) ==> UpdateTwice(j, d))
    && (RollbackDurable(p) ==> undone && d.nameOnDisk == {j.source})
    && (p.RollbackFailed? ==> if undone then d.nameOnDisk == {j.source} else UpdateTwice(j, d))
    && (undone ==> RollbackDurable(p) || p.RollbackFailed?)
  }

  lemma ExposureAdvance(j: Job, s: State, undone: bool)
    requires Inv(j, s) && QuietInv(j, s) && Passes(j, s) && ExposureInv(j, s.phase, s.dir, undone)
    ensures ExposureInv(j, Next(s.phase), DirAfter(j, s), undone || s.phase.RollbackSyncName?)
  {
  }

  lemma ExposureRaise(j: Job, p: Phase, d: Entries, undone: bool)
    requires ExposureInv(j, p, d, undone)
    ensures ExposureInv(j, OnError(p), d, undone)
  {
  }

  lemma ExposureStep(j: Job, s: State, a: Action, undone: bool)
    requires Inv(j, s) && QuietInv(j, s) && !a.Save? && !a.Overwrite? && ExposureInv(j, s.phase, s.dir, undone)
    ensures var t := Step(j, s, a);
            ExposureInv(j, t.phase, t.dir, undone || (a.Proceed? && s.phase.RollbackSyncName?))
  {
    ExposureRaise(j, s.phase, s.dir, undone);
    if Passes(j, s) {
      ExposureAdvance(j, s, undone);
    }
  }

  lemma {:induction false} ExposureReachable(j: Job, schedule: seq<Action>, k: nat)
    requires ValidJob(j) && Quiet(schedule) && k <= |schedule|
    ensures var s := Trace(j, schedule)[k]; ExposureInv(j, s.phase, s.dir, RollbackSynced(j, schedule, k))
  {
    if k > 0 {
      var t := Trace(j, schedule);
      QuietReachable(j, schedule, k - 1);
      ExposureReachable(j, schedule, k - 1);
      ExposureStep(j, t[k - 1], schedule[k - 1], RollbackSynced(j, schedule, k - 1));
      TraceStep(j, schedule, k - 1);
    }
  }

  predicate OriginalSafe(p: Phase, undone: bool) {
    BeforeExchange(p) || BothDurable(p) || RollbackDurable(p) || (p.RollbackFailed? && undone)
  }

  lemma OriginalReachableByPhase(j: Job, s: State, undone: bool)
    requires Inv(j, s) && QuietInv(j, s) && ExposureInv(j, s.phase, s.dir, undone)
    ensures OriginalReachable(j, s.dir) <==> OriginalSafe(s.phase, undone)
  {
    var d := s.dir;
    assert d.name in d.nameOnDisk && d.payload in d.payloadOnDisk && d.staging in d.stagingOnDisk;
  }

  /**
   With no outside writer, whatever fails: the original can be found after every crash exactly
   before the exchange, from the moment both versions are durable until the removal, and once
   the rollback has synchronised the parent.  In between a crash can reveal each directory as it
   was at a different moment, and the update under both names.
   */
  lemma OriginalReachableExactly(j: Job, schedule: seq<Action>, k: nat)
    requires ValidJob(j) && Quiet(schedule) && k <= |schedule|
    ensures var s := Trace(j, schedule)[k];
            OriginalReachable(j, s.dir) <==> OriginalSafe(s.phase, RollbackSynced(j, schedule, k))
  {
    QuietReachable(j, schedule, k);
    ExposureReachable(j, schedule, k);
    OriginalReachableByPhase(j, Trace(j, schedule)[k], RollbackSynced(j, schedule, k));
  }
}
