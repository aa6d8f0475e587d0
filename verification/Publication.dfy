/**
 The header-publication protocol of the copyright checker: a corrected file is staged in a
 private directory, made durable, swapped with the source by an atomic exchange, checked,
 swapped back if anything moved, and only then is the old file removed.

 The protocol is a deterministic step function driven by a schedule.  A schedule interleaves
 the tool's own steps, each of which may succeed or fail, with outside writers that save by
 renaming a new file onto the source name or that overwrite a file in place.  Every theorem
 below quantifies over all schedules.
 */
module Publication {
  import opened Options

  type Bytes = seq<int>
  type Inode = nat

  /**
   One publication: the opened source file, the payload file, the bytes of both, and whether
   the original's bytes are on disk when the call begins, which the tool does not see to.
   */
  datatype Job = Job(source: Inode, temp: Inode, original: Bytes, updated: Bytes, onDisk: bool)

  /** The operation the tool performs next, or how the call ended. */
  datatype Phase =
    | VerifyStart | MakeStaging | OpenStaging | CreatePayload | StatPayload | WritePayload
    | CopyMetadata | SyncPayload | VerifyName | VerifyPayload | SyncStaging | Exchange
    | CheckName | CheckRecovery | CheckPublished | SyncName | SyncRecovery
    | Rollback | RollbackSyncName | RollbackSyncRecovery
    | VerifyRecovery | RemoveRecovery | RemoveStaging | SyncRemoval
    | CleanPayload | CleanStaging
    // A normal return.
    | Updated
    // Raised before any exchange was attempted.
    | Untouched
    // Raised with the recovery files reported as retained.
    | ExchangeFailed | RolledBack | RollbackFailed | NotRemoved
    // Raised: the update is installed, but cleanup or durability failed.
    | CleanupFailed

  /**
   The three directory entries involved, in memory and as a crash could reveal them.  An
   entry's `OnDisk` set holds every value it may have after a crash; synchronising its
   directory narrows the set to the current value.
   */
  datatype Entries = Entries(
    name: Inode,
    payload: Option<Inode>,
    staging: bool,
    nameOnDisk: set<Inode>,
    payloadOnDisk: set<Option<Inode>>,
    stagingOnDisk: set<bool>,
    exchanged: bool            // some exchange has taken effect
  )

  /** File contents.  A file in `stable` has its current bytes on disk. */
  datatype Files = Files(
    content: map<Inode, Bytes>,
    stable: set<Inode>,
    written: nat,              // bytes of the update handed to write so far
    saves: set<Inode>,         // files that outside writers renamed onto the source name
    touched: set<Inode>        // files that outside writers overwrote in place
  )

  datatype State = State(
    phase: Phase,
    dir: Entries,
    files: Files,
    identified: bool,          // the payload's identity has been recorded
    raced: bool                // an overwrite hit the recovery file after its last check, before its removal
  )

  datatype Action =
    | Proceed                            // the tool's next operation succeeds if its check allows it
    | Fail                               // the tool's next operation raises an error
    | Wrote(count: nat)                  // one write call of the payload loop
    | Save(file: Inode, bytes: Bytes)    // an editor renames a new file onto the source name
    | Overwrite(file: Inode, bytes: Bytes)

  predicate ValidJob(j: Job) {
    j.source != j.temp
  }

  function Start(j: Job): State {
    State(VerifyStart,
          Entries(j.source, None, false, {j.source}, {None}, {false}, false),
          Files(map[j.source := j.original], if j.onDisk then {j.source} else {}, 0, {}, {}),
          false, false)
  }

  // ----- Operations on directory entries -----

  /** The atomic exchange of the payload entry with the source name. */
  function Swap(d: Entries): Entries
    requires d.payload.Some?
  {
    Entries(d.payload.value, Some(d.name), d.staging,
            d.nameOnDisk + {d.payload.value}, d.payloadOnDisk + {Some(d.name)}, d.stagingOnDisk, true)
  }

  function SyncParentDir(d: Entries): Entries {
    d.(nameOnDisk := {d.name}, stagingOnDisk := {d.staging})
  }

  function SyncStagingDir(d: Entries): Entries {
    d.(payloadOnDisk := {d.payload})
  }

  function SetPayload(d: Entries, p: Option<Inode>): Entries {
    d.(payload := p, payloadOnDisk := d.payloadOnDisk + {p})
  }

  function SetStaging(d: Entries, present: bool): Entries {
    d.(staging := present, stagingOnDisk := d.stagingOnDisk + {present})
  }

  function SetName(d: Entries, i: Inode): Entries {
    d.(name := i, nameOnDisk := d.nameOnDisk + {i})
  }

  predicate Holds(f: Files, entry: Option<Inode>, file: Inode, bytes: Bytes) {
    entry == Some(file) && file in f.content && f.content[file] == bytes
  }

  // ----- The protocol -----

  /** Where an error raised in a phase leads: cleanup, rollback, or an exit. */
  function OnError(p: Phase): Phase {
    match p
    case VerifyStart | MakeStaging | OpenStaging | CleanPayload | CleanStaging => Untouched
    case CreatePayload | StatPayload | WritePayload | CopyMetadata | SyncPayload | VerifyName
      | VerifyPayload | SyncStaging => CleanPayload
    case Exchange => ExchangeFailed
    case CheckName | CheckRecovery | CheckPublished | SyncName | SyncRecovery => Rollback
    case Rollback | RollbackSyncName | RollbackSyncRecovery => RollbackFailed
    case VerifyRecovery | RemoveRecovery => NotRemoved
    case RemoveStaging | SyncRemoval => CleanupFailed
    case Updated | Untouched | ExchangeFailed | RolledBack | RollbackFailed | NotRemoved | CleanupFailed => p
  }

  function Raise(s: State): State {
    s.(phase := OnError(s.phase))
  }

  // What each phase does, by kind of operation.

  predicate Exchanges(p: Phase) {
    p.Exchange? || p.Rollback?
  }

  predicate SyncsParent(p: Phase) {
    p.SyncName? || p.RollbackSyncName? || p.SyncRemoval?
  }

  predicate SyncsStaging(p: Phase) {
    p.SyncStaging? || p.SyncRecovery? || p.RollbackSyncRecovery?
  }

  predicate RemovesDirectory(p: Phase) {
    p.RemoveStaging? || p.CleanStaging?
  }

  /** The condition an operation needs: a comparison that would raise, or what the kernel demands. */
  predicate Passes(j: Job, s: State) {
    var d, f := s.dir, s.files;
    match s.phase
    case VerifyStart | VerifyName => d.name == j.source
    case VerifyPayload => Holds(f, d.payload, j.temp, j.updated)
    case CheckName => d.name == j.temp
    case CheckRecovery | VerifyRecovery => Holds(f, d.payload, j.source, j.original)
    case CheckPublished => Holds(f, Some(d.name), j.temp, j.updated)
    case Exchange | Rollback => d.payload.Some?
    case RemoveStaging | CleanStaging => d.payload.None?
    case _ => true
  }

  function DirAfter(j: Job, s: State): Entries {
    var p, d := s.phase, s.dir;
    if Exchanges(p) && d.payload.Some? then Swap(d)
    else if SyncsParent(p) then SyncParentDir(d)
    else if SyncsStaging(p) then SyncStagingDir(d)
    else if RemovesDirectory(p) then SetStaging(d, false)
    else if p.RemoveRecovery? || (p.CleanPayload? && d.payload == Some(j.temp) && s.identified) then SetPayload(d, None)
    else if p.CreatePayload? then SetPayload(d, Some(j.temp))
    else if p.MakeStaging? then SetStaging(d, true)
    else d
  }

  function FilesAfter(j: Job, p: Phase, f: Files): Files {
    if p.CreatePayload? then f.(content := f.content[j.temp := []])
    else if p.SyncPayload? then f.(stable := f.stable + {j.temp})
    else f
  }

  function Next(p: Phase): Phase {
    match p
    case VerifyStart => MakeStaging
    case MakeStaging => OpenStaging
    case OpenStaging => CreatePayload
    case CreatePayload => StatPayload
    case StatPayload => WritePayload
    case WritePayload => CopyMetadata
    case CopyMetadata => SyncPayload
    case SyncPayload => VerifyName
    case VerifyName => VerifyPayload
    case VerifyPayload => SyncStaging
    case SyncStaging => Exchange
    case Exchange => CheckName
    case CheckName => CheckRecovery
    case CheckRecovery => CheckPublished
    case CheckPublished => SyncName
    case SyncName => SyncRecovery
    case SyncRecovery => VerifyRecovery
    case VerifyRecovery => RemoveRecovery
    case RemoveRecovery => RemoveStaging
    case RemoveStaging => SyncRemoval
    case SyncRemoval => Updated
    case Rollback => RollbackSyncName
    case RollbackSyncName => RollbackSyncRecovery
    case RollbackSyncRecovery => RolledBack
    case CleanPayload => CleanStaging
    case CleanStaging => Untouched
    case _ => p
  }

  function Advance(j: Job, s: State): State {
    State(Next(s.phase), DirAfter(j, s), FilesAfter(j, s.phase, s.files),
          s.identified || s.phase.StatPayload?, s.raced)
  }

  /** The tool's next operation, when the system call itself succeeds. */
  function ToolStep(j: Job, s: State): State {
    if s.phase.WritePayload? && s.files.written != |j.updated| then s
    else if Passes(j, s) then Advance(j, s)
    else Raise(s)
  }

  /** One call of write on the payload, which may accept fewer bytes than it was offered. */
  function WriteStep(j: Job, s: State, count: nat): State {
    var f := s.files;
    if s.phase != WritePayload || f.written >= |j.updated| then s
    else if count == 0 then Raise(s)
    else if f.written + count > |j.updated| then s
    else
      s.(files := f.(written := f.written + count,
                     content := f.content[j.temp := j.updated[..f.written + count]]))
  }

  /** An editor renames a file of its own, not open anywhere else, onto the source name. */
  function SaveStep(j: Job, s: State, i: Inode, b: Bytes): State {
    var f := s.files;
    if i in f.content || i == j.temp then s
    else s.(dir := SetName(s.dir, i), files := f.(content := f.content[i := b], saves := f.saves + {i}))
  }

  /** An outside writer reaches any file except a payload that never left the private directory. */
  function OverwriteStep(j: Job, s: State, i: Inode, b: Bytes): State {
    var f := s.files;
    if i !in f.content || (i == j.temp && !s.dir.exchanged) then s
    else
      s.(files := f.(content := f.content[i := b], stable := f.stable - {i}, touched := f.touched + {i}),
         raced := s.raced || (s.phase == RemoveRecovery && s.dir.payload == Some(i)))
  }

  function Step(j: Job, s: State, a: Action): State {
    match a
    case Proceed => ToolStep(j, s)
    case Fail => Raise(s)
    case Wrote(n) => WriteStep(j, s, n)
    case Save(i, b) => SaveStep(j, s, i, b)
    case Overwrite(i, b) => OverwriteStep(j, s, i, b)
  }

  /** The states a schedule passes through, from the moment the publication is called. */
  function Trace(j: Job, schedule: seq<Action>): (t: seq<State>)
    ensures |t| == |schedule| + 1 && t[0] == Start(j)
  {
    if schedule == [] then [Start(j)]
    else
      var n := |schedule| - 1;
      var t := Trace(j, schedule[..n]);
      t + [Step(j, t[n], schedule[n])]
  }

  lemma {:induction false} TraceStep(j: Job, schedule: seq<Action>, i: nat)
    requires i < |schedule|
    ensures Trace(j, schedule)[i + 1] == Step(j, Trace(j, schedule)[i], schedule[i])
    decreases |schedule|
  {
    var n := |schedule| - 1;
    if i < n {
      TraceStep(j, schedule[..n], i);
    }
  }

  // ----- What every reachable state satisfies -----

  predicate Settled(j: Job, f: Files, i: Inode) {
    i in f.saves || i == j.temp
  }

  /** Everything linked is the source, the payload or a save. */
  ghost predicate EntriesInv(j: Job, d: Entries, f: Files) {
    && (d.name == j.source || Settled(j, f, d.name))
    && (d.payload.Some? ==> d.payload.value == j.source || Settled(j, f, d.payload.value))
    && d.payload != Some(d.name)
    && (forall i | i in d.nameOnDisk :: i == j.source || Settled(j, f, i))
    && d.name in d.nameOnDisk && d.payload in d.payloadOnDisk && d.staging in d.stagingOnDisk
  }

  ghost predicate FilesInv(j: Job, f: Files) {
    && j.source in f.content && j.source !in f.saves && j.temp !in f.saves
    && (forall i | i in f.saves :: i in f.content)
    && (j.source !in f.touched ==> f.content[j.source] == j.original && (j.onDisk ==> j.source in f.stable))
  }

  // Which phases promise what.

  /** No exchange has been performed. */
  predicate BeforeExchange(p: Phase) {
    BeforePayload(p) || HoldingPayload(p) || p.Exchange? || p.CleanPayload? || p.CleanStaging? || p.Untouched?
    || p.ExchangeFailed?
  }

  predicate BeforePayload(p: Phase) {
    p.VerifyStart? || p.MakeStaging? || p.OpenStaging? || p.CreatePayload?
  }

  predicate HoldingPayload(p: Phase) {
    p.StatPayload? || p.WritePayload? || p.CopyMetadata? || p.SyncPayload? || p.VerifyName? || p.VerifyPayload?
    || p.SyncStaging?
  }

  predicate PayloadSynced(p: Phase) {
    p.VerifyName? || p.VerifyPayload? || p.SyncStaging?
  }

  /** The staging directory has a recovery entry, in memory and wherever a crash leaves the directory. */
  predicate RecoveryKept(p: Phase) {
    p.Exchange? || p.CheckName? || p.CheckRecovery? || p.CheckPublished? || p.SyncName? || p.SyncRecovery?
    || p.Rollback? || p.RollbackSyncName? || p.RollbackSyncRecovery? || p.VerifyRecovery? || p.RemoveRecovery?
    || p.ExchangeFailed? || p.RolledBack? || p.RollbackFailed? || p.NotRemoved?
  }

  predicate RecoveryRemoved(p: Phase) {
    p.RemoveStaging? || p.SyncRemoval? || p.CleanupFailed? || p.Updated?
  }

  /** The checks have seen the original in the recovery entry. */
  predicate OriginalHeld(p: Phase) {
    p.CheckPublished? || p.SyncName? || p.SyncRecovery? || p.VerifyRecovery? || p.RemoveRecovery?
    || p.NotRemoved?
  }

  /** The update and the original are both durable, each under its own name. */
  predicate BothDurable(p: Phase) {
    p.VerifyRecovery? || p.RemoveRecovery? || p.NotRemoved?
  }

  // What they promise.

  /** The payload was never visible outside its directory. */
  ghost predicate Unpublished(j: Job, d: Entries, f: Files) {
    && !d.exchanged && j.temp !in f.touched && d.name != j.temp
    && (d.payload == None || d.payload == Some(j.temp))
    && (forall i | i in d.nameOnDisk :: i in f.saves || i == j.source)
  }

  ghost predicate NotCreated(j: Job, d: Entries, f: Files) {
    d.payload == None && j.temp !in f.content && f.written == 0
  }

  ghost predicate Writing(j: Job, d: Entries, f: Files) {
    && d.staging && d.payload == Some(j.temp)
    && j.temp in f.content && f.written <= |j.updated| && f.content[j.temp] == j.updated[..f.written]
  }

  /** The payload is completely written and durable, unless somebody else has written to it since. */
  ghost predicate Complete(j: Job, f: Files) {
    j.temp in f.content && (j.temp !in f.touched ==> f.content[j.temp] == j.updated && j.temp in f.stable)
  }

  /** The name holds the update or a later save, in memory and after any crash. */
  ghost predicate NameSettled(j: Job, d: Entries, f: Files) {
    Settled(j, f, d.name) && forall i | i in d.nameOnDisk :: Settled(j, f, i)
  }

  ghost predicate PayloadInv(j: Job, p: Phase, d: Entries, f: Files) {
    && (BeforeExchange(p) ==> Unpublished(j, d, f))
    && (BeforePayload(p) ==> NotCreated(j, d, f))
    && (p.OpenStaging? || p.CreatePayload? ==> d.staging)
    && (HoldingPayload(p) ==> Writing(j, d, f))
    && (p.CopyMetadata? || p.SyncPayload? ==> f.written == |j.updated|)
    && (PayloadSynced(p) || RecoveryKept(p) || RecoveryRemoved(p) ==> Complete(j, f))
  }

  ghost predicate RecoveryInv(j: Job, p: Phase, d: Entries, f: Files) {
    && (RecoveryKept(p) ==> d.staging && d.payload.Some? && None !in d.payloadOnDisk)
    && (RecoveryRemoved(p) ==> d.payload.None?)
    && (OriginalHeld(p) ==> d.payload == Some(j.source))
    && (BothDurable(p) ==> d.payloadOnDisk == {Some(j.source)})
    && (p.SyncRecovery? || BothDurable(p) ==> d.stagingOnDisk == {true})
    && (p.SyncRemoval? ==> !d.staging)
    && (p.Updated? ==> d.stagingOnDisk == {false})
  }

  ghost predicate NameInv(j: Job, p: Phase, d: Entries, f: Files) {
    && (p.CheckRecovery? || OriginalHeld(p) ==> Settled(j, f, d.name))
    && (p.SyncRecovery? || BothDurable(p) || RecoveryRemoved(p) ==> NameSettled(j, d, f))
  }

  ghost predicate VerifiedInv(j: Job, s: State) {
    s.phase.RemoveRecovery? && !s.raced ==> Holds(s.files, s.dir.payload, j.source, j.original)
  }

  ghost predicate Inv(j: Job, s: State) {
    && ValidJob(j) && EntriesInv(j, s.dir, s.files) && FilesInv(j, s.files)
    && PayloadInv(j, s.phase, s.dir, s.files) && RecoveryInv(j, s.phase, s.dir, s.files)
    && NameInv(j, s.phase, s.dir, s.files) && VerifiedInv(j, s)
  }

  predicate ChangesFiles(p: Phase) {
    p.MakeStaging? || p.CreatePayload? || p.SyncPayload?
  }

  predicate Unlinks(p: Phase) {
    p.RemoveRecovery? || p.CleanPayload?
  }

  predicate OnlyLooks(p: Phase) {
    && !Exchanges(p) && !SyncsParent(p) && !SyncsStaging(p) && !RemovesDirectory(p) && !ChangesFiles(p) && !Unlinks(p)
  }

  lemma LookInv(j: Job, s: State)
    requires Inv(j, s) && Passes(j, s) && OnlyLooks(s.phase)
    requires s.phase.WritePayload? ==> s.files.written == |j.updated|
    ensures Inv(j, Advance(j, s))
  {
  }

  lemma ExchangeInv(j: Job, s: State)
    requires Inv(j, s) && Passes(j, s) && Exchanges(s.phase)
    ensures Inv(j, Advance(j, s))
  {
  }

  lemma SyncParentInv(j: Job, s: State)
    requires Inv(j, s) && Passes(j, s) && SyncsParent(s.phase)
    ensures Inv(j, Advance(j, s))
  {
  }

  lemma SyncStagingInv(j: Job, s: State)
    requires Inv(j, s) && Passes(j, s) && SyncsStaging(s.phase)
    ensures Inv(j, Advance(j, s))
  {
  }

  lemma RemoveDirectoryInv(j: Job, s: State)
    requires Inv(j, s) && Passes(j, s) && RemovesDirectory(s.phase)
    ensures Inv(j, Advance(j, s))
  {
  }

  lemma UnlinkInv(j: Job, s: State)
    requires Inv(j, s) && Passes(j, s) && Unlinks(s.phase)
    ensures Inv(j, Advance(j, s))
  {
  }

  lemma StagingFilesInv(j: Job, s: State)
    requires Inv(j, s) && Passes(j, s) && ChangesFiles(s.phase)
    ensures Inv(j, Advance(j, s))
  {
  }

  lemma RaiseInv(j: Job, s: State)
    requires Inv(j, s)
    ensures Inv(j, Raise(s))
  {
  }

  lemma WriteInv(j: Job, s: State, count: nat)
    requires Inv(j, s)
    ensures Inv(j, WriteStep(j, s, count))
  {
  }

  lemma SaveInv(j: Job, s: State, i: Inode, b: Bytes)
    requires Inv(j, s)
    ensures Inv(j, SaveStep(j, s, i, b))
  {
  }

  lemma OverwriteInv(j: Job, s: State, i: Inode, b: Bytes)
    requires Inv(j, s)
    ensures Inv(j, OverwriteStep(j, s, i, b))
  {
  }

  lemma ToolInv(j: Job, s: State)
    requires Inv(j, s)
    ensures Inv(j, ToolStep(j, s))
  {
    var p := s.phase;
    RaiseInv(j, s);
    if Passes(j, s) && !(p.WritePayload? && s.files.written != |j.updated|) {
      if Exchanges(p) {
        ExchangeInv(j, s);
      } else if SyncsParent(p) {
        SyncParentInv(j, s);
      } else if SyncsStaging(p) {
        SyncStagingInv(j, s);
      } else if RemovesDirectory(p) {
        RemoveDirectoryInv(j, s);
      } else if Unlinks(p) {
        UnlinkInv(j, s);
      } else if ChangesFiles(p) {
        StagingFilesInv(j, s);
      } else {
        LookInv(j, s);
      }
    }
  }

  lemma StepInv(j: Job, s: State, a: Action)
    requires Inv(j, s)
    ensures Inv(j, Step(j, s, a))
  {
    match a
    case Proceed => ToolInv(j, s);
    case Fail => RaiseInv(j, s);
    case Wrote(n) => WriteInv(j, s, n);
    case Save(i, b) => SaveInv(j, s, i, b);
    case Overwrite(i, b) => OverwriteInv(j, s, i, b);
  }

  /** Every state of every trace satisfies the invariant. */
  lemma {:induction false} Reachable(j: Job, schedule: seq<Action>, k: nat)
    requires ValidJob(j) && k <= |schedule|
    ensures Inv(j, Trace(j, schedule)[k])
  {
    if k > 0 {
      var t := Trace(j, schedule);
      Reachable(j, schedule, k - 1);
      StepInv(j, t[k - 1], schedule[k - 1]);
      TraceStep(j, schedule, k - 1);
    }
  }
}
