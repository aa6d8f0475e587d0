/** What the publication protocol guarantees over every schedule. */
module PublicationSafety {
  import opened Options
  import opened Publication

  function Linked(d: Entries): set<Inode> {
    {d.name} + if d.payload.Some? then {d.payload.value} else {}
  }

  // ----- No save is ever lost to the tool -----

  /** An editor's save takes the source name away from `file`. */
  ghost predicate Replaces(s: State, a: Action, t: State, file: Inode) {
    a.Save? && s.dir.name == file && t.dir.name == a.file && a.file != file
  }

  /** The only entries a tool step can drop: an unpublished payload, or the source at its removal. */
  lemma ToolDrops(j: Job, s: State, file: Inode)
    requires Inv(j, s) && file in Linked(s.dir) && file !in Linked(DirAfter(j, s))
    ensures || (file == j.temp && s.phase.CleanPayload?)
            || (file == j.source && s.phase.RemoveRecovery?)
  {
  }

  lemma StepKeepsLinks(j: Job, s: State, a: Action, file: Inode)
    requires Inv(j, s) && (file in s.files.saves ==> file in Linked(s.dir))
    ensures var t := Step(j, s, a);
            file in t.files.saves ==> file in Linked(t.dir) || Replaces(s, a, t, file)
  {
    if a.Proceed? && file in Linked(s.dir) && file !in Linked(DirAfter(j, s)) {
      ToolDrops(j, s, file);
    }
  }

  /**
   Whatever the interleaving, every save is still linked at the end, at the source name or in
   the recovery entry, unless a later save took the source name away from it.
   */
  lemma {:induction false} EverySaveSurvives(j: Job, schedule: seq<Action>, k: nat, file: Inode)
    requires ValidJob(j) && k <= |schedule| && file in Trace(j, schedule)[k].files.saves
    ensures var t := Trace(j, schedule);
            file in Linked(t[k].dir) || exists m :: 0 <= m < k && Replaces(t[m], schedule[m], t[m + 1], file)
  {
    var t := Trace(j, schedule);
    if k > 0 && !exists m :: 0 <= m < k && Replaces(t[m], schedule[m], t[m + 1], file) {
      if file in t[k - 1].files.saves {
        EverySaveSurvives(j, schedule, k - 1, file);
      }
      Reachable(j, schedule, k - 1);
      TraceStep(j, schedule, k - 1);
      StepKeepsLinks(j, t[k - 1], schedule[k - 1], file);
    }
  }

  // ----- What the tool does remove -----

  /**
   The tool drops the last link of a file in two places only: a payload nobody outside could
   have seen, and the source once the update is durable at its name, holding exactly the
   bytes the tool had read unless a writer got in after the last look at it.
   */
  lemma OnlyOwnFilesRemoved(j: Job, schedule: seq<Action>, k: nat, file: Inode)
    requires ValidJob(j) && k < |schedule| && !schedule[k].Save?
    requires var t := Trace(j, schedule); file in Linked(t[k].dir) && file !in Linked(t[k + 1].dir)
    ensures var s := Trace(j, schedule)[k];
            || (file == j.temp && BeforeExchange(s.phase) && !s.dir.exchanged)
            || (&& file == j.source && s.phase.RemoveRecovery?
                && (s.raced || Holds(s.files, Some(file), j.source, j.original))
                && Complete(j, s.files) && NameSettled(j, s.dir, s.files))
  {
    Reachable(j, schedule, k);
    TraceStep(j, schedule, k);
    var s := Trace(j, schedule)[k];
    if file !in Linked(DirAfter(j, s)) {
      ToolDrops(j, s, file);
    }
  }

  // ----- Crashes -----

  /** After a crash the file has all its bytes, as the tool wrote them, or as they were on disk. */
  ghost predicate IntactAfterCrash(j: Job, f: Files, i: Inode) {
    && (i == j.source ==> i in f.content && f.content[i] == j.original && (j.onDisk ==> i in f.stable))
    && (i == j.temp ==> i in f.stable && i in f.content && f.content[i] == j.updated)
  }

  /**
   At every moment, whatever the source name resolves to after a crash is the original, the
   complete update, or an outside save; the tool's two files are intact unless outside
   writers overwrote them.  From the exchange to the removal the staging directory, where a
   crash leaves it, has a recovery entry; and the source is removed only when the name can no
   longer resolve to it.
   */
  lemma CrashSafe(j: Job, schedule: seq<Action>, k: nat, i: Inode)
    requires ValidJob(j) && k <= |schedule| && i in Trace(j, schedule)[k].dir.nameOnDisk
    ensures var s := Trace(j, schedule)[k];
            && (i in s.files.saves || i == j.source || i == j.temp)
            && (i !in s.files.touched ==> IntactAfterCrash(j, s.files, i))
            && (RecoveryKept(s.phase) ==> None !in s.dir.payloadOnDisk)
            && (BothDurable(s.phase) ==>
                  i != j.source && s.dir.payloadOnDisk == {Some(j.source)} && s.dir.stagingOnDisk == {true})
            && (RecoveryRemoved(s.phase) ==> i != j.source)
            && (s.phase.Updated? ==> s.dir.stagingOnDisk == {false})
  {
    Reachable(j, schedule, k);
  }

  // ----- With no outside writer: arbitrary failures only -----

  predicate Quiet(schedule: seq<Action>) {
    forall a | a in schedule :: !a.Save? && !a.Overwrite?
  }

  predicate HalfPublished(p: Phase) {
    p.CheckName? || p.CheckRecovery? || p.CheckPublished? || p.SyncName? || p.SyncRecovery? || p.Rollback?
    || p.VerifyRecovery? || p.RemoveRecovery? || p.NotRemoved?
  }

  predicate Undone(p: Phase) {
    p.RollbackSyncName? || p.RollbackSyncRecovery? || p.RolledBack?
  }

  predicate UpdateInstalled(j: Job, d: Entries) {
    d.name == j.temp && d.payload == Some(j.source)
  }

  predicate UpdateSetAside(j: Job, d: Entries) {
    d.name == j.source && d.payload == Some(j.temp)
  }

  ghost predicate QuietInv(j: Job, s: State) {
    && s.files.saves == {} && s.files.touched == {} && !s.raced
    && (forall i | i in s.files.content :: i == j.source || i == j.temp)
    && (HalfPublished(s.phase) ==> UpdateInstalled(j, s.dir))
    && (Undone(s.phase) ==> UpdateSetAside(j, s.dir))
    && (s.phase.RollbackFailed? ==> UpdateInstalled(j, s.dir) || UpdateSetAside(j, s.dir))
  }

  lemma QuietAdvance(j: Job, s: State)
    requires Inv(j, s) && QuietInv(j, s) && Passes(j, s)
    ensures QuietInv(j, Advance(j, s))
  {
  }

  lemma QuietRaise(j: Job, s: State)
    requires Inv(j, s) && QuietInv(j, s)
    ensures QuietInv(j, Raise(s))
  {
  }

  lemma QuietStep(j: Job, s: State, a: Action)
    requires Inv(j, s) && QuietInv(j, s) && !a.Save? && !a.Overwrite?
    ensures QuietInv(j, Step(j, s, a))
  {
    QuietRaise(j, s);
    if Passes(j, s) {
      QuietAdvance(j, s);
    }
  }

  lemma {:induction false} QuietReachable(j: Job, schedule: seq<Action>, k: nat)
    requires ValidJob(j) && Quiet(schedule) && k <= |schedule|
    ensures Inv(j, Trace(j, schedule)[k]) && QuietInv(j, Trace(j, schedule)[k])
  {
    Reachable(j, schedule, k);
    if k > 0 {
      var t := Trace(j, schedule);
      QuietReachable(j, schedule, k - 1);
      QuietStep(j, t[k - 1], schedule[k - 1]);
      TraceStep(j, schedule, k - 1);
    }
  }

  /** The three situations a file can be in when nobody else touches it. */
  ghost predicate Outcome(j: Job, s: State) {
    var d, f := s.dir, s.files;
    && Holds(f, Some(j.source), j.source, j.original)
    && (BeforeExchange(s.phase) ==> d.name == j.source && !d.exchanged)
    && (!BeforeExchange(s.phase) ==> Holds(f, Some(j.temp), j.temp, j.updated))
    && (!BeforeExchange(s.phase) && !RecoveryRemoved(s.phase) ==>
          UpdateInstalled(j, d) || UpdateSetAside(j, d))
    && (RecoveryRemoved(s.phase) ==> d.name == j.temp && d.payload == None)
  }

  /**
   Under any sequence of failures the original is at its name with no exchange performed, or
   the original and the update are the name and the recovery entry in some order, or the
   verified update is at the name and the recovery entry is gone; and each exit means what its
   message says.
   */
  lemma QuietOutcomes(j: Job, schedule: seq<Action>, k: nat)
    requires ValidJob(j) && Quiet(schedule) && k <= |schedule|
    ensures var s := Trace(j, schedule)[k];
            && Outcome(j, s)
            && (s.phase.Untouched? || s.phase.ExchangeFailed? || s.phase.RolledBack? ==> s.dir.name == j.source)
            && (s.phase.NotRemoved? || s.phase.CleanupFailed? || s.phase.Updated? ==> s.dir.name == j.temp)
            && (s.phase.Updated? ==> s.dir.nameOnDisk == {j.temp})
  {
    QuietReachable(j, schedule, k);
    var s := Trace(j, schedule)[k];
    if s.phase.Updated? {
      assert forall i :: i in s.dir.nameOnDisk <==> i == j.temp;
    }
  }

  // ----- What can happen: the successful run, and two races -----

  /** Position on the path of a publication that meets no trouble; -1 off that path. */
  function Progress(p: Phase): int {
    match p
    case VerifyStart => 0
    case MakeStaging => 1
    case OpenStaging => 2
    case CreatePayload => 3
    case StatPayload => 4
    case WritePayload => 5
    case CopyMetadata => 6
    case SyncPayload => 7
    case VerifyName => 8
    case VerifyPayload => 9
    case SyncStaging => 10
    case Exchange => 11
    case CheckName => 12
    case CheckRecovery => 13
    case CheckPublished => 14
    case SyncName => 15
    case SyncRecovery => 16
    case VerifyRecovery => 17
    case RemoveRecovery => 18
    case RemoveStaging => 19
    case SyncRemoval => 20
    case Updated => 21
    case _ => -1
  }

  lemma ProgressNext(p: Phase)
    requires 0 <= Progress(p) < 21
    ensures Progress(Next(p)) == Progress(p) + 1
  {
  }

  /** On that path every check succeeds. */
  lemma QuietPasses(j: Job, s: State)
    requires Inv(j, s) && QuietInv(j, s) && 0 <= Progress(s.phase) < 21
    ensures Passes(j, s)
  {
  }

  function Last(j: Job, schedule: seq<Action>): State {
    Trace(j, schedule)[|schedule|]
  }

  lemma Extend(j: Job, schedule: seq<Action>, a: Action)
    ensures Last(j, schedule + [a]) == Step(j, Last(j, schedule), a)
  {
    assert (schedule + [a])[..|schedule|] == schedule;
  }

  /** The update can be written completely, however much of it already is. */
  lemma WriteRest(j: Job, before: seq<Action>) returns (schedule: seq<Action>)
    requires ValidJob(j) && Quiet(before) && Progress(Last(j, before).phase) == 5
    ensures Quiet(schedule) && Progress(Last(j, schedule).phase) == 5
    ensures Last(j, schedule).files.written == |j.updated|
  {
    QuietReachable(j, before, |before|);
    var left := |j.updated| - Last(j, before).files.written;
    schedule := if left == 0 then before else before + [Wrote(left)];
    if left != 0 {
      Extend(j, before, Wrote(left));
    }
  }

  lemma ProceedProgress(j: Job, schedule: seq<Action>)
    requires ValidJob(j) && Quiet(schedule) && 0 <= Progress(Last(j, schedule).phase) < 21
    requires Progress(Last(j, schedule).phase) == 5 ==> Last(j, schedule).files.written == |j.updated|
    ensures Progress(Last(j, schedule + [Proceed]).phase) == Progress(Last(j, schedule).phase) + 1
  {
    QuietReachable(j, schedule, |schedule|);
    ProgressNext(Last(j, schedule).phase);
    QuietPasses(j, Last(j, schedule));
    Extend(j, schedule, Proceed);
  }

  /** With no failure and no outside writer the publication reaches every phase up to its success. */
  lemma {:induction false} QuietReaches(j: Job, r: nat) returns (schedule: seq<Action>)
    requires ValidJob(j) && r <= 21
    ensures Quiet(schedule) && Progress(Last(j, schedule).phase) == r
  {
    if r == 0 {
      schedule := [];
    } else {
      var before := QuietReaches(j, r - 1);
      if r - 1 == 5 {
        before := WriteRest(j, before);
      }
      ProceedProgress(j, before);
      schedule := before + [Proceed];
    }
  }

  /**
   The window the last check leaves open: bytes written in place to the recovery file after
   that check are removed with it.
   */
  lemma LateOverwriteIsLost(j: Job, bytes: Bytes) returns (schedule: seq<Action>)
    requires ValidJob(j) && bytes != j.original
    ensures Last(j, schedule).phase.RemoveRecovery? && Last(j, schedule).raced
    ensures Holds(Last(j, schedule).files, Last(j, schedule).dir.payload, j.source, bytes)
    ensures j.source !in Linked(Last(j, schedule + [Proceed]).dir)
  {
    var quiet := QuietReaches(j, 18);
    QuietReachable(j, quiet, |quiet|);
    schedule := quiet + [Overwrite(j.source, bytes)];
    Extend(j, quiet, Overwrite(j.source, bytes));
    Extend(j, schedule, Proceed);
  }

  /** The bytes last written in place to the source since its last check, or else the original. */
  function SinceLastCheck(j: Job, schedule: seq<Action>, k: nat): Bytes
    requires k <= |schedule|
  {
    if k == 0 || !Trace(j, schedule)[k - 1].phase.RemoveRecovery? then j.original
    else
      match schedule[k - 1]
      case Overwrite(file, bytes) => if file == j.source then bytes else SinceLastCheck(j, schedule, k - 1)
      case _ => SinceLastCheck(j, schedule, k - 1)
  }

  lemma PendingStep(j: Job, s: State, a: Action)
    requires Inv(j, s) && Step(j, s, a).phase.RemoveRecovery?
    ensures s.phase.RemoveRecovery? || (s.phase.VerifyRecovery? && a.Proceed? && Passes(j, s))
    ensures s.phase.RemoveRecovery? && !(a.Overwrite? && a.file == j.source) ==>
              Step(j, s, a).files.content[j.source] == s.files.content[j.source]
  {
  }

  /** While the removal is pending the source holds the bytes of the last overwrite since its check. */
  lemma {:induction false} PendingBytes(j: Job, schedule: seq<Action>, k: nat)
    requires ValidJob(j) && k <= |schedule| && Trace(j, schedule)[k].phase.RemoveRecovery?
    ensures var f := Trace(j, schedule)[k].files;
            j.source in f.content && f.content[j.source] == SinceLastCheck(j, schedule, k)
    decreases k
  {
    Reachable(j, schedule, k);
    if k > 0 {
      var s, a := Trace(j, schedule)[k - 1], schedule[k - 1];
      Reachable(j, schedule, k - 1);
      TraceStep(j, schedule, k - 1);
      PendingStep(j, s, a);
      if s.phase.RemoveRecovery? {
        PendingBytes(j, schedule, k - 1);
      }
    }
  }

  /**
   What the removal takes away is exactly what the last overwrite since the check wrote: the
   bytes that were read, if and only if that overwrite, if there was one, wrote those bytes.
   */
  lemma RemovedExactly(j: Job, schedule: seq<Action>, k: nat)
    requires ValidJob(j) && k < |schedule| && schedule[k].Proceed? && Trace(j, schedule)[k].phase.RemoveRecovery?
    ensures var t := Trace(j, schedule);
            && j.source in Linked(t[k].dir) && j.source !in Linked(t[k + 1].dir)
            && Holds(t[k].files, t[k].dir.payload, j.source, SinceLastCheck(j, schedule, k))
  {
    Reachable(j, schedule, k);
    TraceStep(j, schedule, k);
    PendingBytes(j, schedule, k);
  }

  /** A check that finds a foreign file at the name exchanges the two entries again. */
  lemma ExchangesAgain(j: Job, before: seq<Action>) returns (schedule: seq<Action>)
    requires var s := Last(j, before); s.phase.CheckName? && s.dir.name != j.temp && s.dir.payload.Some?
    ensures Last(j, schedule).phase.RollbackSyncName?
    ensures Last(j, schedule).dir.name == Last(j, before).dir.payload.value
    ensures Last(j, schedule).dir.payload == Some(Last(j, before).dir.name)
  {
    var noticed := before + [Proceed];
    Extend(j, before, Proceed);
    schedule := noticed + [Proceed];
    Extend(j, noticed, Proceed);
  }

  lemma RollsBack(j: Job, before: seq<Action>) returns (schedule: seq<Action>)
    requires var s := Last(j, before); s.phase.CheckName? && s.dir.name != j.temp && s.dir.payload.Some?
    ensures Last(j, schedule).phase.RolledBack?
    ensures Last(j, schedule).dir.name == Last(j, before).dir.payload.value
    ensures Last(j, schedule).dir.payload == Some(Last(j, before).dir.name)
  {
    var swapped := ExchangesAgain(j, before);
    var synced := swapped + [Proceed];
    Extend(j, swapped, Proceed);
    schedule := synced + [Proceed];
    Extend(j, synced, Proceed);
  }

  lemma SaveBeforeExchange(j: Job, older: Inode, b: Bytes) returns (schedule: seq<Action>)
    requires ValidJob(j) && older != j.source && older != j.temp
    ensures var s := Last(j, schedule);
            && s.phase.CheckName? && s.dir.name == j.temp && s.dir.payload == Some(older)
            && forall i | i in s.files.content :: i in {j.source, j.temp, older}
  {
    var quiet := QuietReaches(j, 11);
    QuietReachable(j, quiet, |quiet|);
    var saved := quiet + [Save(older, b)];
    Extend(j, quiet, Save(older, b));
    schedule := saved + [Proceed];
    Extend(j, saved, Proceed);
  }

  lemma SavesAroundExchange(j: Job, older: Inode, newer: Inode, b1: Bytes, b2: Bytes)
    returns (schedule: seq<Action>)
    requires ValidJob(j) && older != newer && {older, newer} !! {j.source, j.temp}
    ensures var s := Last(j, schedule); s.phase.CheckName? && s.dir.name == newer && s.dir.payload == Some(older)
  {
    var before := SaveBeforeExchange(j, older, b1);
    schedule := before + [Save(newer, b2)];
    Extend(j, before, Save(newer, b2));
  }

  /**
   Two saves racing with the exchange and its rollback: both stay linked, but the older one
   ends at the source name and the newer one in the recovery entry.
   */
  lemma RollbackCanDemoteNewestSave(j: Job, older: Inode, newer: Inode, b1: Bytes, b2: Bytes)
    returns (schedule: seq<Action>)
    requires ValidJob(j) && older != newer && {older, newer} !! {j.source, j.temp}
    ensures Last(j, schedule).phase.RolledBack?
    ensures Last(j, schedule).dir.name == older && Last(j, schedule).dir.payload == Some(newer)
  {
    var raced := SavesAroundExchange(j, older, newer, b1, b2);
    schedule := RollsBack(j, raced);
  }
}
