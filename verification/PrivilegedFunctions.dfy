/**
 The functions a collection-level privilege check may run: a registry of at most twenty, whose
 names are looked up in the catalog on first use and kept.
 */
module PrivilegedFunctions {
  import opened Options

  const MAX_ALLOWED := 20
  const NAME_LIMIT := 63

  /** An identity function; what it yields depends on the catalog of the moment. */
  type Identity = nat

  datatype Name = Name(schema: string, name: string)

  /** The functions that can be found, with their names. */
  type Catalog = map<Identity, Name>

  datatype Entry = Entry(identity: Identity, resolved: Option<Name>)

  datatype Registration = Registered | LimitExceeded | NotPreloading

  const CREATE_COLLECTION: Identity := 0
  const CREATE_COLLECTION_WITH_OPTIONS: Identity := 1
  const CREATE_INDEXES: Identity := 2
  const INITIAL := [Entry(CREATE_COLLECTION, None), Entry(CREATE_COLLECTION_WITH_OPTIONS, None), Entry(CREATE_INDEXES, None)]

  function Truncate(s: string): string {
    if |s| > NAME_LIMIT then s[..NAME_LIMIT] else s
  }

  /** A name as the registry keeps it. */
  function Stored(n: Name): Name {
    Name(Truncate(n.schema), Truncate(n.name))
  }

  predicate FitsName(n: Name) {
    |n.schema| <= NAME_LIMIT && |n.name| <= NAME_LIMIT
  }

  function Resolve(e: Entry, c: Catalog): Entry {
    if e.resolved.None? && e.identity in c then Entry(e.identity, Some(Stored(c[e.identity]))) else e
  }

  predicate Matches(e: Entry, q: Name) {
    e.resolved == Some(q)
  }

  /** The first entry that matches once it has been looked up; the number of entries when none does. */
  function FirstMatch(entries: seq<Entry>, c: Catalog, q: Name, i: nat): (k: nat)
    requires i <= |entries|
    ensures i <= k <= |entries| && (k < |entries| ==> Matches(Resolve(entries[k], c), q))
    ensures forall j | i <= j < k :: !Matches(Resolve(entries[j], c), q)
    decreases |entries| - i
  {
    if i == |entries| || Matches(Resolve(entries[i], c), q) then i else FirstMatch(entries, c, q, i + 1)
  }

  /** The entries after a question: looked up to the first match and no further. */
  function AfterAsk(entries: seq<Entry>, c: Catalog, q: Name): (r: seq<Entry>)
    ensures |r| == |entries|
    ensures forall i | 0 <= i < |r| ::
              r[i] == if i <= FirstMatch(entries, c, q, 0) then Resolve(entries[i], c) else entries[i]
  {
    seq(|entries|, i requires 0 <= i < |entries| =>
      if i <= FirstMatch(entries, c, q, 0) then Resolve(entries[i], c) else entries[i])
  }

  predicate Answer(entries: seq<Entry>, c: Catalog, q: Name) {
    exists e | e in entries :: Matches(Resolve(e, c), q)
  }

  /** The answer that asks the catalog about every registered function again. */
  predicate FreshAnswer(entries: seq<Entry>, c: Catalog, q: Name) {
    exists e | e in entries :: e.identity in c && c[e.identity] == q
  }

  function Outcome(n: nat, preloading: bool): Registration {
    if n >= MAX_ALLOWED then LimitExceeded else if !preloading then NotPreloading else Registered
  }

  function AfterRegister(entries: seq<Entry>, identity: Identity, preloading: bool): seq<Entry> {
    if Outcome(|entries|, preloading).Registered? then entries + [Entry(identity, None)] else entries
  }

  // ----- The registry -----

  class Registry {
    const entries: array<Entry>
    var num: nat

    ghost predicate Valid()
      reads this, entries
    {
      entries.Length == MAX_ALLOWED && num <= MAX_ALLOWED
    }

    ghost function Contents(): seq<Entry>
      requires Valid()
      reads this, entries
    {
      entries[..num]
    }

    constructor ()
      ensures Valid() && fresh(entries) && Contents() == INITIAL
    {
      entries := new Entry[MAX_ALLOWED](_ => Entry(0, None));
      num := 3;
      new;
      entries[0], entries[1], entries[2] := INITIAL[0], INITIAL[1], INITIAL[2];
    }

    method Register(identity: Identity, preloading: bool) returns (r: Registration)
      requires Valid()
      modifies this`num, entries
      ensures Valid() && r == Outcome(old(|Contents()|), preloading)
      ensures Contents() == AfterRegister(old(Contents()), identity, preloading)
    {
      if num >= MAX_ALLOWED {
        return LimitExceeded;
      }
      if !preloading {
        return NotPreloading;
      }
      entries[num] := Entry(identity, None);
      num := num + 1;
      r := Registered;
    }

    method IsValidForExecution(q: Name, c: Catalog) returns (valid: bool)
      requires Valid()
      modifies entries
      ensures Valid()
      ensures valid == Answer(old(Contents()), c, q)
      ensures Contents() == AfterAsk(old(Contents()), c, q)
    {
      ghost var before := Contents();
      for i := 0 to num
        invariant Valid() && num == |before|
        invariant forall k | 0 <= k < i :: entries[k] == Resolve(before[k], c) && !Matches(entries[k], q)
        invariant forall k | i <= k < num :: entries[k] == before[k]
      {
        var e := entries[i];
        if e.resolved.None? && e.identity in c {
          entries[i] := Entry(e.identity, Some(Stored(c[e.identity])));
        }
        if Matches(entries[i], q) {
          assert before[i] in before;
          return true;
        }
      }
      valid := false;
    }
  }

  // ----- Every sequence of calls -----

  datatype Call = Register(identity: Identity, preloading: bool) | Ask(query: Name, catalog: Catalog)

  function Step(entries: seq<Entry>, call: Call): seq<Entry> {
    match call
    case Register(identity, preloading) => AfterRegister(entries, identity, preloading)
    case Ask(query, catalog) => AfterAsk(entries, catalog, query)
  }

  function Run(calls: seq<Call>): seq<Entry> {
    if calls == [] then INITIAL else Step(Run(calls[..|calls| - 1]), calls[|calls| - 1])
  }

  lemma {:induction false} SizeBounded(calls: seq<Call>)
    ensures 3 <= |Run(calls)| <= MAX_ALLOWED
  {
    if calls != [] {
      SizeBounded(calls[..|calls| - 1]);
    }
  }

  /** Same functions in the same places, and what has been resolved stays as it is. */
  ghost predicate Keeps(a: seq<Entry>, b: seq<Entry>) {
    |a| <= |b| && forall i | 0 <= i < |a| :: b[i].identity == a[i].identity && (a[i].resolved.Some? ==> b[i] == a[i])
  }

  lemma {:induction false} ResolvedEntriesKept(calls: seq<Call>, k: nat)
    requires k <= |calls|
    ensures Keeps(Run(calls[..k]), Run(calls))
    decreases |calls| - k
  {
    if k == |calls| {
      assert calls[..k] == calls;
    } else {
      ResolvedEntriesKept(calls, k + 1);
      assert calls[..k + 1][..k] == calls[..k];
      assert Keeps(Run(calls[..k]), Step(Run(calls[..k]), calls[k]));
    }
  }

  /** Some question was asked while the catalog showed the function under the kept name. */
  ghost predicate SeenIn(calls: seq<Call>, e: Entry)
    requires e.resolved.Some?
  {
    exists k | 0 <= k < |calls| :: Shows(calls[k], e)
  }

  ghost predicate Shows(call: Call, e: Entry)
    requires e.resolved.Some?
  {
    call.Ask? && e.identity in call.catalog && e.resolved.value == Stored(call.catalog[e.identity])
  }

  /** Only a lookup that succeeded is remembered. */
  lemma {:induction false} OnlySuccessRemembered(calls: seq<Call>)
    ensures forall e | e in Run(calls) && e.resolved.Some? :: SeenIn(calls, e)
  {
    if calls != [] {
      var n := |calls| - 1;
      var before := Run(calls[..n]);
      OnlySuccessRemembered(calls[..n]);
      forall i | 0 <= i < |Run(calls)| && Run(calls)[i].resolved.Some?
        ensures SeenIn(calls, Run(calls)[i])
      {
        var e := Run(calls)[i];
        if i < |before| && before[i].resolved.Some? {
          assert before[i] in before && e == before[i];
          var k :| 0 <= k < n && Shows(calls[..n][k], e);
          assert Shows(calls[k], e);
        } else {
          assert Shows(calls[n], e);
        }
      }
    }
  }

  // ----- Answers and the catalog -----

  /** The names the registry would recognise now: those it kept, and those it would look up. */
  function Recognized(entries: seq<Entry>, c: Catalog): set<Name> {
    (set e | e in entries && e.resolved.Some? :: e.resolved.value)
    + (set e | e in entries && e.resolved.None? && e.identity in c :: Stored(c[e.identity]))
  }

  /** The names the catalog has for the registered functions now. */
  function Visible(entries: seq<Entry>, c: Catalog): set<Name> {
    set e | e in entries && e.identity in c :: c[e.identity]
  }

  lemma AnswerRecognizes(entries: seq<Entry>, c: Catalog, q: Name)
    ensures Answer(entries, c, q) <==> q in Recognized(entries, c)
    ensures FreshAnswer(entries, c, q) <==> q in Visible(entries, c)
  {
    assert forall e | e in entries ::
        Matches(Resolve(e, c), q) <==>
        || (e.resolved.Some? && e.resolved.value == q)
        || (e.resolved.None? && e.identity in c && Stored(c[e.identity]) == q);
  }

  /**
   At any moment of any sequence of calls, renames and drops included: every answer equals
   asking the catalog afresh, if and only if the names kept, with the stored names of what is
   still to be looked up, are the names the catalog has now for the registered functions.
   */
  lemma FreshExactly(calls: seq<Call>, c: Catalog)
    ensures var entries := Run(calls);
            (forall q :: Answer(entries, c, q) == FreshAnswer(entries, c, q)) <==>
            Recognized(entries, c) == Visible(entries, c)
  {
    var entries := Run(calls);
    forall q {
      AnswerRecognizes(entries, c, q);
    }
  }

  /** The kept name of one function, if it has one, is the stored form of its name now. */
  predicate UpToDate(e: Entry, c: Catalog) {
    e.resolved.Some? ==> e.identity in c && e.resolved.value == Stored(c[e.identity])
  }

  lemma StoredExactly(n: Name)
    ensures Stored(n) == n <==> FitsName(n)
    ensures FitsName(Stored(n))
  {
  }

  ghost predicate NamesFit(entries: seq<Entry>, c: Catalog) {
    forall e | e in entries && e.identity in c :: FitsName(c[e.identity])
  }

  /** The function's kept name is some registered function's name now, and its own name now is recognised. */
  predicate Covered(entries: seq<Entry>, c: Catalog, e: Entry) {
    && (e.resolved.Some? ==> e.resolved.value in Visible(entries, c))
    && (e.identity in c ==> c[e.identity] in Recognized(entries, c))
  }

  lemma UpToDateCovered(entries: seq<Entry>, c: Catalog, e: Entry)
    requires e in entries && UpToDate(e, c) && NamesFit(entries, c)
    ensures Covered(entries, c, e)
  {
    if e.identity in c {
      StoredExactly(c[e.identity]);
    }
  }

  lemma CoveredExactly(entries: seq<Entry>, c: Catalog)
    requires NamesFit(entries, c)
    ensures Recognized(entries, c) == Visible(entries, c) <==> forall e | e in entries :: Covered(entries, c, e)
  {
    forall e | e in entries && e.identity in c {
      StoredExactly(c[e.identity]);
    }
    if forall e | e in entries :: Covered(entries, c, e) {
      forall q ensures q in Recognized(entries, c) <==> q in Visible(entries, c) {
      }
    }
  }

  /** What the registry recognises always fits, since it keeps names only in their stored form. */
  lemma RecognizedFits(calls: seq<Call>, c: Catalog, q: Name)
    requires q in Recognized(Run(calls), c)
    ensures FitsName(q)
  {
    OnlySuccessRemembered(calls);
    forall n: Name {
      StoredExactly(n);
    }
  }

  /**
   At any moment of any sequence of calls, renames and drops included: every answer equals asking
   the catalog afresh, if and only if the visible names fit and each function that went out of
   date is covered by others.  Its kept name must be the name now of some registered function,
   and its name now, if it still has one, must be recognised through another entry.
   */
  lemma FreshByFunction(calls: seq<Call>, c: Catalog)
    ensures var entries := Run(calls);
            (forall q :: Answer(entries, c, q) == FreshAnswer(entries, c, q)) <==>
            NamesFit(entries, c) && forall e | e in entries && !UpToDate(e, c) :: Covered(entries, c, e)
  {
    var entries := Run(calls);
    FreshExactly(calls, c);
    if NamesFit(entries, c) {
      CoveredExactly(entries, c);
      forall e | e in entries && UpToDate(e, c) {
        UpToDateCovered(entries, c, e);
      }
    } else {
      var e :| e in entries && e.identity in c && !FitsName(c[e.identity]);
      assert c[e.identity] in Visible(entries, c);
      if c[e.identity] in Recognized(entries, c) {
        RecognizedFits(calls, c, c[e.identity]);
      }
    }
  }

  /** One function went out of date, and all others are up to date. */
  lemma OneOutOfDate(entries: seq<Entry>, c: Catalog, stale: Entry)
    requires stale in entries && stale.resolved.Some?
    requires (forall e | e in entries && e != stale :: UpToDate(e, c)) && NamesFit(entries, c)
    ensures Recognized(entries, c) == Visible(entries, c) <==>
            && stale.resolved.value in Visible(entries, c)
            && (stale.identity in c ==> c[stale.identity] in Recognized(entries, c))
  {
    CoveredExactly(entries, c);
    forall e | e in entries && UpToDate(e, c) {
      UpToDateCovered(entries, c, e);
    }
  }

  /** A function that was visible stays visible under the same name. */
  ghost predicate Stable(calls: seq<Call>) {
    forall i, k | 0 <= i < k < |calls| && calls[i].Ask? && calls[k].Ask? :: Extends(calls[k].catalog, calls[i].catalog)
  }

  ghost predicate Extends(later: Catalog, earlier: Catalog) {
    forall id | id in earlier :: id in later && later[id] == earlier[id]
  }

  /** While visible functions stay as they are, what is kept is what the catalog says now. */
  lemma KeptAgrees(calls: seq<Call>, k: nat)
    requires k < |calls| && calls[k].Ask? && Stable(calls)
    ensures forall e | e in Run(calls[..k]) :: UpToDate(e, calls[k].catalog)
  {
    OnlySuccessRemembered(calls[..k]);
    forall e | e in Run(calls[..k]) && e.resolved.Some?
      ensures UpToDate(e, calls[k].catalog)
    {
      var i :| 0 <= i < k && Shows(calls[..k][i], e);
      assert calls[..k][i] == calls[i];
      assert Extends(calls[k].catalog, calls[i].catalog);
    }
  }

  lemma RecognizedIsStored(entries: seq<Entry>, c: Catalog)
    requires forall e | e in entries :: UpToDate(e, c)
    ensures Recognized(entries, c) == set e | e in entries && e.identity in c :: Stored(c[e.identity])
  {
  }

  /** When nothing is out of date, what is recognised is what is visible exactly when the names fit. */
  lemma UpToDateExactly(entries: seq<Entry>, c: Catalog)
    requires forall e | e in entries :: UpToDate(e, c)
    ensures Recognized(entries, c) == Visible(entries, c) <==>
            forall e | e in entries && e.identity in c :: FitsName(c[e.identity])
  {
    RecognizedIsStored(entries, c);
    forall e | e in entries && e.identity in c {
      StoredExactly(c[e.identity]);
    }
    if e :| e in entries && e.identity in c && !FitsName(c[e.identity]) {
      assert c[e.identity] in Visible(entries, c) && c[e.identity] !in Recognized(entries, c);
    }
  }

  /**
   While visible functions stay as they are, every answer equals asking the catalog afresh, if
   and only if the visible registered names fit the space they are kept in.
   */
  lemma FreshWhileStable(calls: seq<Call>, k: nat)
    requires k < |calls| && calls[k].Ask?
    ensures var entries, c := Run(calls[..k]), calls[k].catalog;
            Stable(calls) ==>
              ((forall q :: Answer(entries, c, q) == FreshAnswer(entries, c, q)) <==>
               (forall e | e in entries && e.identity in c :: FitsName(c[e.identity])))
  {
    if Stable(calls) {
      FreshExactly(calls[..k], calls[k].catalog);
      KeptAgrees(calls, k);
      UpToDateExactly(Run(calls[..k]), calls[k].catalog);
    }
  }

  const OLD_NAME := Name("api", "create")
  const NEW_NAME := Name("api", "make")

  /** A function that was renamed is still known by its old name. */
  lemma RenameIsMissed()
    ensures var calls := [Ask(OLD_NAME, map[CREATE_COLLECTION := OLD_NAME])];
            var c := map[CREATE_COLLECTION := NEW_NAME];
            Answer(Run(calls), c, OLD_NAME) && !FreshAnswer(Run(calls), c, OLD_NAME)
  {
    var before := map[CREATE_COLLECTION := OLD_NAME];
    var calls := [Ask(OLD_NAME, before)];
    StoredExactly(OLD_NAME);
    assert calls[..0] == [];
    assert Run(calls) == AfterAsk(INITIAL, before, OLD_NAME);
    assert Run(calls)[0] == Entry(CREATE_COLLECTION, Some(OLD_NAME));
    assert Run(calls)[0] in Run(calls);
    assert OLD_NAME.name[0] != NEW_NAME.name[0];
  }
}
