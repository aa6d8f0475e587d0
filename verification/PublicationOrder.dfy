/** Where the newest save is: exchanges carry it from the name to the recovery entry and back. */
module PublicationOrder {
  import opened Options
  import opened Publication
  import opened PublicationSafety

  // ----- Counting what took effect -----

  /** The step performs an atomic exchange. */
  predicate ExchangeTakesEffect(j: Job, s: State, a: Action) {
    a.Proceed? && Exchanges(s.phase) && Passes(j, s)
  }

  /** The step is an editor's save. */
  predicate SaveTakesEffect(j: Job, s: State, a: Action) {
    a.Save? && a.file !in s.files.content && a.file != j.temp
  }

  /** The number of exchanges between two moments. */
  function ExchangesBetween(j: Job, schedule: seq<Action>, from: nat, k: nat): nat
    requires from <= k <= |schedule|
  {
    if k == from then 0
    else
      ExchangesBetween(j, schedule, from, k - 1) +
      if ExchangeTakesEffect(j, Trace(j, schedule)[k - 1], schedule[k - 1]) then 1 else 0
  }

  lemma {:induction false} ExchangesAdd(j: Job, schedule: seq<Action>, from: nat, m: nat, k: nat)
    requires from <= m <= k <= |schedule|
    ensures ExchangesBetween(j, schedule, from, k) ==
            ExchangesBetween(j, schedule, from, m) + ExchangesBetween(j, schedule, m, k)
  {
    if m < k {
      ExchangesAdd(j, schedule, from, m, k - 1);
    }
  }

  // ----- The newest save -----

  predicate AtName(d: Entries, file: Inode) {
    d.name == file
  }

  predicate InRecovery(d: Entries, file: Inode) {
    d.payload == Some(file)
  }

  /** An operation of the tool moves a save only by exchanging the two entries. */
  lemma ToolMoves(j: Job, s: State, file: Inode)
    requires Inv(j, s) && file in s.files.saves && (AtName(s.dir, file) || InRecovery(s.dir, file))
    ensures var d := DirAfter(j, s);
            && (AtName(d, file) <==> AtName(s.dir, file) != (Exchanges(s.phase) && s.dir.payload.Some?))
            && (InRecovery(d, file) <==> !AtName(d, file))
  {
    if file !in Linked(DirAfter(j, s)) {
      ToolDrops(j, s, file);
    }
  }

  /** What a step that saves nothing does to the entries. */
  lemma EntriesAfter(j: Job, s: State, a: Action)
    requires !SaveTakesEffect(j, s, a)
    ensures var t := Step(j, s, a);
            && t.files.saves == s.files.saves
            && (t.dir == s.dir || (a.Proceed? && Passes(j, s) && t.dir == DirAfter(j, s)))
            && (ExchangeTakesEffect(j, s, a) ==> t.dir == DirAfter(j, s))
            && (t.dir != s.dir && Exchanges(s.phase) ==> ExchangeTakesEffect(j, s, a))
  {
  }

  /** A step that saves nothing moves a save only by exchanging the two entries. */
  lemma ExchangeMoves(j: Job, s: State, a: Action, t: State, file: Inode)
    requires Inv(j, s) && file in s.files.saves && !SaveTakesEffect(j, s, a) && t == Step(j, s, a)
    requires AtName(s.dir, file) != InRecovery(s.dir, file)
    ensures file in t.files.saves
    ensures AtName(t.dir, file) <==> AtName(s.dir, file) != ExchangeTakesEffect(j, s, a)
    ensures InRecovery(t.dir, file) <==> !AtName(t.dir, file)
  {
    EntriesAfter(j, s, a);
    ToolMoves(j, s, file);
  }

  lemma SaveLands(j: Job, s: State, a: Action)
    requires Inv(j, s) && SaveTakesEffect(j, s, a)
    ensures var t := Step(j, s, a); a.file in t.files.saves && AtName(t.dir, a.file) && !InRecovery(t.dir, a.file)
  {
  }

  /** Step `m` is the newest save before moment `k`. */
  ghost predicate IsNewestSave(j: Job, schedule: seq<Action>, m: nat, k: nat)
    requires m < k <= |schedule|
  {
    && SaveTakesEffect(j, Trace(j, schedule)[m], schedule[m])
    && forall i | m < i < k :: !SaveTakesEffect(j, Trace(j, schedule)[i], schedule[i])
  }

  /** The file is at the name after an even number of exchanges, and in recovery after an odd number. */
  predicate Placed(d: Entries, file: Inode, n: nat) {
    (AtName(d, file) <==> n % 2 == 0) && (InRecovery(d, file) <==> n % 2 == 1)
  }

  lemma PlacedAfterSave(j: Job, schedule: seq<Action>, m: nat)
    requires ValidJob(j) && m < |schedule| && SaveTakesEffect(j, Trace(j, schedule)[m], schedule[m])
    ensures var s, file := Trace(j, schedule)[m + 1], schedule[m].file;
            file in s.files.saves && Placed(s.dir, file, 0)
  {
    Reachable(j, schedule, m);
    TraceStep(j, schedule, m);
    SaveLands(j, Trace(j, schedule)[m], schedule[m]);
  }

  lemma PlacedMoves(d: Entries, e: Entries, file: Inode, n: nat, moved: bool)
    requires Placed(d, file, n)
    requires (AtName(e, file) <==> AtName(d, file) != moved) && (InRecovery(e, file) <==> !AtName(e, file))
    ensures Placed(e, file, n + if moved then 1 else 0)
  {
  }

  lemma PlacedAfterStep(j: Job, schedule: seq<Action>, i: nat, s: State, t: State, file: Inode, n: nat)
    requires ValidJob(j) && i < |schedule| && s == Trace(j, schedule)[i] && t == Trace(j, schedule)[i + 1]
    requires !SaveTakesEffect(j, s, schedule[i]) && file in s.files.saves && Placed(s.dir, file, n)
    ensures file in t.files.saves
    ensures Placed(t.dir, file, n + if ExchangeTakesEffect(j, s, schedule[i]) then 1 else 0)
  {
    Reachable(j, schedule, i);
    TraceStep(j, schedule, i);
    ExchangeMoves(j, s, schedule[i], t, file);
    PlacedMoves(s.dir, t.dir, file, n, ExchangeTakesEffect(j, s, schedule[i]));
  }

  /**
   Over every schedule the newest save is at the source name if and only if an even number of
   exchanges has taken effect since, and otherwise it is in the recovery entry.
   */
  lemma {:induction false} NewestSaveExactly(j: Job, schedule: seq<Action>, m: nat, k: nat)
    requires ValidJob(j) && m < k <= |schedule| && IsNewestSave(j, schedule, m, k)
    ensures var s, file := Trace(j, schedule)[k], schedule[m].file;
            file in s.files.saves && Placed(s.dir, file, ExchangesBetween(j, schedule, m + 1, k))
    decreases k
  {
    if m + 1 < k {
      NewestSaveExactly(j, schedule, m, k - 1);
      var t := Trace(j, schedule);
      PlacedAfterStep(j, schedule, k - 1, t[k - 1], t[k], schedule[m].file,
                      ExchangesBetween(j, schedule, m + 1, k - 1));
    } else {
      PlacedAfterSave(j, schedule, m);
    }
  }

  // ----- How many exchanges there can be -----

  /** The exchanges that have taken effect when the protocol is in a phase. */
  predicate PossibleCount(p: Phase, n: nat) {
    if BeforeExchange(p) then n == 0
    else if Undone(p) then n == 2
    else if p.RollbackFailed? then n == 1 || n == 2
    else n == 1
  }

  lemma CountNext(p: Phase, n: nat)
    requires PossibleCount(p, n)
    ensures PossibleCount(Next(p), n + if Exchanges(p) then 1 else 0)
  {
  }

  lemma CountOnError(p: Phase, n: nat)
    requires PossibleCount(p, n)
    ensures PossibleCount(OnError(p), n)
  {
  }

  lemma PhaseAfter(j: Job, s: State, a: Action)
    ensures var p := Step(j, s, a).phase;
            || (p == Next(s.phase) && (ExchangeTakesEffect(j, s, a) <==> Exchanges(s.phase)))
            || ((p == s.phase || p == OnError(s.phase)) && !ExchangeTakesEffect(j, s, a))
  {
  }

  lemma CountStep(j: Job, s: State, a: Action, n: nat)
    requires PossibleCount(s.phase, n)
    ensures PossibleCount(Step(j, s, a).phase, n + if ExchangeTakesEffect(j, s, a) then 1 else 0)
  {
    PhaseAfter(j, s, a);
    CountNext(s.phase, n);
    CountOnError(s.phase, n);
  }

  lemma {:induction false} CountByPhase(j: Job, schedule: seq<Action>, k: nat)
    requires k <= |schedule|
    ensures PossibleCount(Trace(j, schedule)[k].phase, ExchangesBetween(j, schedule, 0, k))
  {
    if k > 0 {
      var t := Trace(j, schedule);
      CountByPhase(j, schedule, k - 1);
      TraceStep(j, schedule, k - 1);
      CountStep(j, t[k - 1], schedule[k - 1], ExchangesBetween(j, schedule, 0, k - 1));
    }
  }

  predicate EndsWithoutRollback(p: Phase) {
    p.Untouched? || p.ExchangeFailed? || p.NotRemoved? || p.CleanupFailed? || p.Updated?
  }

  /** Without a rollback no save is in the recovery entry at the end. */
  lemma NoSaveInRecovery(j: Job, schedule: seq<Action>, k: nat, file: Inode)
    requires ValidJob(j) && k <= |schedule| && file in Trace(j, schedule)[k].files.saves
    ensures var s := Trace(j, schedule)[k]; EndsWithoutRollback(s.phase) ==> !InRecovery(s.dir, file)
  {
    Reachable(j, schedule, k);
  }

  lemma ExchangesSince(j: Job, schedule: seq<Action>, m: nat, k: nat)
    requires m < k <= |schedule| && schedule[m].Save?
    ensures ExchangesBetween(j, schedule, 0, k) ==
            ExchangesBetween(j, schedule, 0, m) + ExchangesBetween(j, schedule, m + 1, k)
  {
    ExchangesAdd(j, schedule, 0, m, k);
    ExchangesAdd(j, schedule, m, m + 1, k);
  }

  /**
   How the call can end with the newest save in recovery: only after a rollback.  If the
   rollback completed, exactly when the save fell between the exchange and the rollback; if it
   failed after its exchange, the same; if it failed before, exactly when the save came before
   the first exchange.  Every other exit has the newest save at the name.
   */
  lemma DemotedExactly(j: Job, schedule: seq<Action>, m: nat, k: nat)
    requires ValidJob(j) && m < k <= |schedule| && IsNewestSave(j, schedule, m, k)
    ensures var s, file := Trace(j, schedule)[k], schedule[m].file;
            var before, all := ExchangesBetween(j, schedule, 0, m), ExchangesBetween(j, schedule, 0, k);
            && (s.phase.RolledBack? ==> all == 2 && (InRecovery(s.dir, file) <==> before == 1))
            && (s.phase.RollbackFailed? ==>
                  (all == 1 || all == 2) && (InRecovery(s.dir, file) <==> before == all - 1))
            && (EndsWithoutRollback(s.phase) ==> AtName(s.dir, file))
  {
    NewestSaveExactly(j, schedule, m, k);
    CountByPhase(j, schedule, k);
    CountByPhase(j, schedule, m);
    ExchangesSince(j, schedule, m, k);
    NoSaveInRecovery(j, schedule, k, schedule[m].file);
  }
}
