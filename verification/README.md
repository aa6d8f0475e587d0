# DocumentDB: a model of its protocols and tools

This project models the parts of the DocumentDB repository whose correctness is hard to see by
reading one function, and proves what they promise for all inputs, all runs and all reachable
states.

* **Publishing a corrected source file** (`Publication`, `PublicationSafety`, `PublicationOrder`,
  `PublicationCrash`).
  The copyright checker stages a new file in a private directory, makes it durable, swaps it with the source by
  an atomic exchange, checks both, swaps back if anything moved, and only then removes the old
  file. The model is a step function driven by a schedule; a schedule interleaves the tool's
  operations, each of which may fail, with editors that save by renaming and with writers that
  overwrite in place. A crash may reveal, for each directory entry, any value it had since its
  directory was last synchronised.
* **Rewriting headers** (`LeadingComments`, `LicenceLines`, `HeaderComment`, `LineEndings`,
  `HeaderFile`): the scan for leading comments, the notices and licence lines inside one comment,
  splicing the new comments in, the line endings of the file, and a whole file from end to end.
* **The functional-test gate** (`Splitting`, `Reports`, `RecoverGate`, `SplitGate`, `NodeIds`,
  `KnownFailures`, `Reconcile`, `ReconcileFixpoint`): splitting a suite over parallel legs,
  merging reports, recovering failures by isolated re-runs, the pipeline of all legs, the plugin
  that marks known failures, and reconciling the list of known failures with a report.
* **The backend-contract scan of the logs** (`BackendContract`).
* **Binary geometries** (`Wkb`, `WkbWriter`, `WkbTraversal`, `WkbRoundTrip`): well-known binary as
  in clause 8 of OGC 06-103r4 (Simple Feature Access Part 1), the PostGIS extension with a spatial
  reference identifier, the writer that reserves and patches counts, and the bounded walk.
* **The privileged-function registry** (`PrivilegedFunctions`), **integer literals of error codes**
  (`ErrorCodeLiteral`) and **the search that reports a missing position** (`BinarySearch`).

`Text` holds string operations and `Options` the option type; both are used by the other modules.

## Results that are not what one might expect

The properties below fail on some inputs. Each has a lemma with an input that shows the failure
and a lemma that says, for all inputs, exactly when the property holds.

* A second normalisation of a comment changes it when the last line that stays shares its line
  with the licence identifier (`HeaderComment.SecondPassDiffers`;
  `HeaderComment.CommentIdempotentExactly`).
* After reconciling, a passing test that was listed under two spellings stays red
  (`ReconcileFixpoint.TwoSpellingsStayRed`; `ReconcileFixpoint.SecondRunExactly`).
* A base report that repeats an ID keeps its earlier record (`Reports.RepeatedRecordIsKept`;
  `Reports.LastWriterWinsExactly`).
* A list whose sample entry stops at the root directory gives a spelling that changes the test
  named (`NodeIds.BrokenStyle`; `NodeIds.StylePrefixExactly`).
* Dropping the spatial reference identifier does not undo adding it when the type already carried
  the flag (`Wkb.FlagIsLost`; `Wkb.SridUndoneExactly`). On encoded geometries it always does
  (`Wkb.SridUndone`).
* The walk over a binary geometry shows a ring before it has read the ring's points, so a visitor
  can be given a ring that lies outside the buffer (`WkbRoundTrip.OverrunRingIsShown`): one that
  claims more points than there are, or one with a negative count whose 32-bit length wraps round
  (`WkbRoundTrip.WrappedRingIsShown`). There is no other case (`WkbRoundTrip.ReadInsideExactly`).
* A ring that claims more points than there are need not end the walk. Without a visitor for each
  point the ring is skipped by its 32-bit length, and the count 0x10000001 lets the walk go on
  (`WkbRoundTrip.OverclaimIsPassed`). It ends if and only if points are visited, or that length is
  negative or more than the bytes left (`WkbRoundTrip.OverclaimEndsWalkExactly`).
* A privileged function that is renamed is still known by its old name
  (`PrivilegedFunctions.RenameIsMissed`; `PrivilegedFunctions.FreshByFunction`).
* A save that races with the rollback ends in the recovery entry while an older save holds the
  name, as `scripts/README-copyright-checks.md` warns
  (`PublicationSafety.RollbackCanDemoteNewestSave`). The newest save is at the name if and only if
  an even number of exchanges took effect since (`PublicationOrder.NewestSaveExactly`), and
  `PublicationOrder.DemotedExactly` says for each exit when it is not.
* Bytes written in place to the recovery file after its last check are removed with it
  (`PublicationSafety.LateOverwriteIsLost`; `PublicationSafety.RemovedExactly`).

* A crash right after the exchange can leave the update at the name and no recovery directory
  (`PublicationCrash.RecoveryCanBeLost`). The recovery entry is within reach after every crash if
  and only if the parent directory was synchronised since the staging directory was made
  (`PublicationCrash.RecoveryReachableExactly`), and `PublicationCrash.OriginalReachableExactly`
  says in which phases the original can be found after every crash.

## Assumptions about the surroundings

* The staging directory is private: nobody else creates or replaces entries in it. An inode number
  is not reused while the tool holds the file open. A comparison of file identity and contents that
  succeeds tells the truth at that moment; it may fail for any reason.
* Whether the source's bytes are on disk when the tool starts is a parameter: the tool synchronises
  what it writes, not the source. Only if they are is the original promised after a crash.
* Synchronising a directory makes its entries durable; synchronising a file makes its contents
  durable. The exchange is atomic in memory.
* Split tags and hashes of collections are taken to be injective where a theorem needs it, and the
  theorem says so. The runner's fallback hash for a failed hashing command is outside that.
* The root directory that the plugin takes from pytest is `documentdb_tests`, the one the
  reconciling tool has as a constant.
* Catalog names are PostgreSQL names of at most 63 bytes, so they fit the registry's buffers; a
  longer one would never be recognised (`PrivilegedFunctions.FreshWhileStable`).
* PostGIS answers a polygon with a polygon of points of the same size. Point equality, antipodal
  edges and the orientation and validity it decides are parameters.
* Buffers of binary geometries are shorter than two gigabytes.
* Isolated re-runs, report files, catalogs and log sources are inputs. A re-run is arbitrary.

## Model

| member | source | states |
|---|---|---|
| Publication.StepInv | scripts/check_oss_copyright.py:277-415 | every action, of the tool or of an outside writer, keeps the invariant that ties the phase to the directory entries, to what a crash may reveal, and to the file contents |
| Publication.Reachable | scripts/check_oss_copyright.py:277-415 | the invariant holds in every state of every schedule |
| PublicationSafety.ToolDrops | scripts/check_oss_copyright.py:373-409 | the only entries a tool operation can drop are an unpublished payload during cleanup and the source at its removal |
| PublicationSafety.EverySaveSurvives | scripts/check_oss_copyright.py:277-415 | over every interleaving an editor's save stays linked, at the name or in the recovery entry, unless a later save took the name away from it |
| PublicationSafety.OnlyOwnFilesRemoved | scripts/check_oss_copyright.py:373-409 | a last link disappears only for a payload nobody outside could see, or for the source once the update is complete and durably settled at the name, with the bytes that were read unless a writer came after the last check |
| PublicationSafety.CrashSafe | scripts/check_oss_copyright.py:299-384 | at every moment whatever the name resolves to after a crash is the original, the whole update or a save, and the tool's two files have their bytes unless overwritten in place, on disk for the update, and for the original if they were at the start; from exchange to removal the staging directory, where a crash leaves it, has a recovery entry, and the name, that directory and the entry are durable before the removal |
| PublicationCrash.RecoveryReachableExactly | scripts/check_oss_copyright.py:286-384 | over every schedule, while the recovery entry is kept, it is within reach after every crash if and only if the parent was synchronised since the staging directory was made; by phase: never before the synchronisation after the exchange, always after it or after that of the rollback |
| PublicationCrash.RecoveryCanBeLost | scripts/check_oss_copyright.py:286-341 | a run without trouble has a moment after the exchange at which a crash can show the update and no staging directory |
| PublicationCrash.RollbackFailedEitherWay | scripts/check_oss_copyright.py:360-371 | a failed rollback can leave the recovery entry within reach of every crash or not |
| PublicationCrash.OriginalReachableExactly | scripts/check_oss_copyright.py:286-384 | with no outside writer and arbitrary failures, the original can be found after every crash exactly before the exchange, from the moment both entries are durable until the removal, and once the rollback synchronised the parent |
| PublicationSafety.QuietReachable | scripts/check_oss_copyright.py:286-415 | with no outside writer and arbitrary failures, both files keep their bytes and the entries hold them in one of two orders |
| PublicationSafety.QuietOutcomes | scripts/check_oss_copyright.py:286-415 | with no outside writer every state is one of three situations, the original is never lost before verified publication, and each exit means what its message says |
| PublicationSafety.QuietReaches | scripts/check_oss_copyright.py:286-384 | every phase up to success can be reached, so the other theorems are not empty |
| PublicationSafety.LateOverwriteIsLost | scripts/check_oss_copyright.py:373-381 | bytes written in place between the last check and the removal are removed |
| PublicationSafety.RemovedExactly | scripts/check_oss_copyright.py:373-381 | the file that is removed holds exactly the bytes last written in place since its last check: the bytes that were read if and only if the last overwrite in that window, if any, wrote those bytes |
| PublicationSafety.RollbackCanDemoteNewestSave | scripts/README-copyright-checks.md:21-25 | two saves around the exchange and its rollback end with the older at the name and the newer in recovery |
| PublicationOrder.NewestSaveExactly | scripts/check_oss_copyright.py:277-415 | over every schedule and at every moment the newest save is at the name if and only if an even number of exchanges took effect since it, and in the recovery entry otherwise |
| PublicationOrder.CountByPhase | scripts/check_oss_copyright.py:338-371 | none, one or two exchanges have taken effect, as the phase says; only a failed rollback leaves one or two |
| PublicationOrder.DemotedExactly | scripts/README-copyright-checks.md:21-25 | a call ends with the newest save in recovery only after a rollback: a completed one exactly when the save fell between the two exchanges, a failed one exactly when one exchange took effect after the save; every other exit has it at the name |
| LeadingComments.RunOfLines | scripts/check_oss_copyright.py:472-481 | the run ends exactly where consecutive lines of the same style end |
| LeadingComments.ScanComments | scripts/check_oss_copyright.py:457-484 | the intervals are comments separated by white space and nothing that opens a comment follows; an error is raised exactly when an unterminated or a nested block follows some such intervals |
| LeadingComments.CommentUnique | scripts/check_oss_copyright.py:457-493 | at most one comment starts at a position, so its end and its style are determined |
| LeadingComments.LeadingUnique | scripts/check_oss_copyright.py:457-484 | there is only one list of intervals with those properties |
| LeadingComments.SpansApart | scripts/check_oss_copyright.py:457-484 | intervals are non-empty, increasing and disjoint, with only white space between them |
| LeadingComments.Splice | scripts/check_oss_copyright.py:682-683 | replacing from right to left equals replacing all intervals at once |
| LeadingComments.EditedIdentity | scripts/check_oss_copyright.py:682-683 | replacing intervals by their own text leaves the text unchanged |
| LeadingComments.EditsInOrder | scripts/check_oss_copyright.py:640-683 | the edits of the scanned comments are in order and inside the text |
| LeadingComments.RewriteHeader | scripts/check_oss_copyright.py:633-686 | it fails exactly when an unterminated or nested block follows some comments; otherwise only the text inside rewritten comments changes, except trailing white space when nothing follows the header |
| LicenceLines.DropOwned | scripts/check_oss_copyright.py:521-533 | the loop over the lines of a comment with several owners equals the recursive definition of what it drops |
| LicenceLines.KeptExactly | scripts/check_oss_copyright.py:521-535 | a line disappears exactly when it is a licence line and, with other owners present, a copyright line of the owner stands above it with only licence and filler lines between |
| LicenceLines.ProseKept | scripts/check_oss_copyright.py:521-542 | every line that is not a licence line stays, in order, with notices trimmed |
| LicenceLines.IdentifierLastExactly | scripts/check_oss_copyright.py:511-535 | the kept lines end in a compact line exactly when some compact line stays and all lines after it disappear |
| LicenceLines.IdempotentExactly | scripts/check_oss_copyright.py:506-561 | for any coherent patterns a second pass changes nothing if and only if the last line that stays is not compact |
| HeaderComment.KindExactly | scripts/check_oss_copyright.py:62-83 | no line matches two of the patterns in a conflicting way, and the kind of a line says exactly which patterns match |
| HeaderComment.TrimIsNotice | scripts/check_oss_copyright.py:62-67 | a trimmed notice is a notice with the same prefix and is left alone by trimming |
| HeaderComment.HeaderCoherent | scripts/check_oss_copyright.py:62-98 | the patterns satisfy what the rewriting relies on: written lines are recognised, raise no licence conflict and are not compact |
| HeaderComment.BodyRender | scripts/check_oss_copyright.py:496-561 | reading the body of a rendered comment gives back the lines it was rendered from |
| HeaderComment.CommentIdempotentExactly | scripts/check_oss_copyright.py:496-561 | normalising a normalised line-style comment returns it unchanged if and only if the last line that stays does not share its line with the identifier |
| HeaderComment.SecondPassDiffers | scripts/check_oss_copyright.py:506-561 | a notice, a compact line and a licence line: the second pass differs from the first |
| LineEndings.LeftoversExactly | scripts/check_oss_copyright.py:600-603 | what remains after deleting pairs has no stray character exactly when every character is part of a pair or allowed alone, even where deletion forms new pairs |
| LineEndings.AcceptsExactly | scripts/check_oss_copyright.py:600-603 | the mixed-ending check accepts exactly the uniformly ended texts |
| LineEndings.RoundTrip | scripts/check_oss_copyright.py:600-686 | restoring the line endings of an accepted text gives the text back |
| LineEndings.WriteThenRead | scripts/check_oss_copyright.py:686 | text written with either ending is read back as it was |
| HeaderFile.EditsAreLocal | scripts/check_oss_copyright.py:600-686 | editing the text on line feeds edits the file itself: between the edits every byte stays, line endings included |
| HeaderFile.EditsAreOwned | scripts/check_oss_copyright.py:639-672 | the edits are those of the comments that carry the owner's notice, in order, and each replaces a line comment by its normal form |
| HeaderFile.SurveyComments | scripts/check_oss_copyright.py:634-674 | whether some comment has a notice, one of the owner, one in documentation or a licence conflict; or the reason of the first comment of the owner that cannot be normalised |
| HeaderFile.NormalizeFile | scripts/check_oss_copyright.py:585-701 | for every file of a language other than C and Python each refusal, preserving, rewriting and adding happens exactly under its condition; a comment of the owner that cannot be normalised is refused for the reason of the first such comment, an unrecognised notice or a licence conflict; what is written differs from the file only in the comments of the owner or by the new header |
| HeaderFile.CanonicalUnchanged | scripts/check_oss_copyright.py:679-686 | a file whose comments are in normal form is written back unchanged, unless white space follows a lone header |
| Splitting.ReadManifestIds | documentdb-local/functional-tests/tools/functional_gate.py:49-67 | the loop with its set of seen IDs gives first occurrences in order |
| Splitting.ManifestElements | documentdb-local/functional-tests/tools/functional_gate.py:49-67 | the IDs read depend only on the set of lines |
| Splitting.StrideMembers | documentdb-local/functional-tests/tools/functional_gate.py:92-95 | a position is in a leg's slice exactly when it is the leg's number plus a multiple of the number of legs |
| Splitting.SlicesPartition | documentdb-local/functional-tests/tools/functional_gate.py:70-95 | every test of one universe is on exactly one leg, and leg sizes differ by at most one |
| Splitting.ReadRecords | documentdb-local/functional-tests/tools/functional_gate.py:139-158 | unreadable records are problems, and repeated identical records count once |
| Splitting.VerifySplitUniverses | documentdb-local/functional-tests/tools/functional_gate.py:115-184 | no problem is reported if and only if the set of files has the expected number of records, no tag with two records and one hash; order and repetition do not matter |
| Splitting.CollectedDeterminesUniverse | documentdb-local/functional-tests/scripts/run_pytest_split.sh:150-158 | equal collected lines give equal sorted universes |
| Splitting.AllSplitsRan | documentdb-local/functional-tests/tools/functional_gate.py:115-184 | when the check accepts, every split number has a run behind it |
| Splitting.SplitCoverage | documentdb-local/functional-tests/tools/functional_gate.py:70-184 | when the check accepts, every test any leg collected is executed by exactly one split and shares differ by at most one |
| Reports.NewIdsExactly | documentdb-local/functional-tests/tools/functional_gate.py:776-784 | the added IDs are exactly the non-empty overlay IDs that the base lacks |
| Reports.MergeMeaning | documentdb-local/functional-tests/tools/functional_gate.py:764-786 | merged IDs are the base IDs and then new IDs in order of first appearance; each record is the last overlay record of its ID at the ID's last base position, and the base record elsewhere |
| Reports.LastWriterWinsExactly | documentdb-local/functional-tests/tools/functional_gate.py:767-784 | the last writer wins everywhere if and only if no earlier repetition of an overlaid ID in the base differs from it |
| Reports.RepeatedRecordIsKept | documentdb-local/functional-tests/tools/functional_gate.py:767-784 | a base with two records of one test: the earlier one survives the merge |
| Reports.MergeConcat | documentdb-local/functional-tests/tools/functional_gate.py:771-784 | merging overlays one after the other is merging them all |
| Reports.BuildIndex | documentdb-local/functional-tests/tools/functional_gate.py:767-768 | the index maps every ID to its last position |
| Reports.ApplyIndexed | documentdb-local/functional-tests/tools/functional_gate.py:776-784 | one record through the index equals searching for the last position, and the index stays right |
| Reports.RefreshSummary | documentdb-local/functional-tests/tools/functional_gate.py:788-801 | outcome counts equal the true tallies, outcomes that vanished become zero, and other keys stay |
| Reports.MergeReports | documentdb-local/functional-tests/tools/functional_gate.py:744-803 | the indexed merge refines the plain one and the summary is true of the result |
| RecoverGate.FailureIdsExactly | documentdb-local/functional-tests/tools/functional_gate.py:256-281 | exactly the stripped, non-empty IDs of failing records are listed |
| RecoverGate.ResidualExactly | documentdb-local/functional-tests/tools/functional_gate.py:991-1015 | nothing fails or is unrecorded exactly when every expected ID is recorded and no named record fails |
| RecoverGate.RecoverAndGate | documentdb-local/functional-tests/tools/functional_gate.py:848-1015 | against any re-runner the exit code is 0 if and only if the inputs can be gated and the final report is clean |
| RecoverGate.GreenRestsOnAPass | documentdb-local/functional-tests/tools/functional_gate.py:848-1015 | for every expected or once failing test a green verdict rests on a record of it, seen in some execution, that does not fail |
| RecoverGate.PassMonotone | documentdb-local/functional-tests/tools/functional_gate.py:934-989 | a pass whose reports mention only re-run IDs adds nothing to the failing or unrecorded set |
| RecoverGate.RecoveryMonotone | documentdb-local/functional-tests/tools/functional_gate.py:934-989 | over all passes the failing or unrecorded set only shrinks and recorded IDs never disappear |
| RecoverGate.VictimRecovers | documentdb-local/functional-tests/tools/functional_gate.py:934-989 | a test whose last re-run record does not fail leaves the failing set |
| SplitGate.SliceIsAssigned | documentdb-local/functional-tests/scripts/run_pytest_split.sh:222-240 | every test in a leg's slice file is among the IDs its gate expects |
| SplitGate.GateLeg | documentdb-local/functional-tests/scripts/run_pytest_split.sh:324-331 | a leg exits with 0 if and only if its slice can be gated and its final report is clean |
| SplitGate.GreenPipeline | documentdb-local/functional-tests/scripts/run_pytest_split.sh:202-331 | when all legs are green and the cross-leg check accepts, every test any leg collected belongs to one split, was executed there without a failure, and fails in no final report |
| NodeIds.SplitConcat | documentdb-local/functional-tests/tools/functional_gate.py:320-334 | splitting at slashes distributes over joining with a slash |
| NodeIds.NormalExactly | documentdb-local/functional-tests/tools/functional_gate.py:320-334 | an ID is its own normal form exactly when no part is the root directory |
| NodeIds.NormalizeIdempotent | documentdb-local/functional-tests/tools/functional_gate.py:320-334 | a normal form is normal |
| NodeIds.StylePrefixExactly | documentdb-local/functional-tests/tools/functional_gate.py:414-426 | putting a sample's spelling in front keeps every normal form if and only if the sample does not stop at the root directory |
| NodeIds.BrokenStyle | documentdb-local/functional-tests/tools/functional_gate.py:414-426 | a sample that stops at the root directory gives a spelling that changes a test name |
| NodeIds.LookupAgrees | documentdb-local/functional-tests/tools/conftest_known_failures.py:87-97 | for a normal ID, membership in the plugin's suffix set is membership in the normalised list |
| KnownFailures.Plugin.LoadTestList | documentdb-local/functional-tests/tools/conftest_known_failures.py:43-53 | the entries are the stripped lines that are neither blank nor comments |
| KnownFailures.Plugin.Load | documentdb-local/functional-tests/tools/conftest_known_failures.py:56-84 | only the first call fills the lists, and it succeeds exactly when they do not overlap |
| KnownFailures.Plugin.MarkItems | documentdb-local/functional-tests/tools/conftest_known_failures.py:122-159 | a test is skipped exactly when a crash entry covers it, else expected to fail exactly when the failing list names it, else allowed to fail exactly when the flaky list does |
| KnownFailures.SuppressedExactly | documentdb-local/functional-tests/tools/conftest_known_failures.py:100-120 | the suffix set and the prefix list together cover exactly the tests that some entry covers, as written or from the root directory on |
| KnownFailures.CrashesExactly | documentdb-local/functional-tests/tools/conftest_known_failures.py:100-155 | a normal ID is skipped if and only if it is the normal form of an entry for one test, or extends that of a directory entry, or that of a file entry and two colons |
| Reconcile.ReadReport | documentdb-local/functional-tests/tools/functional_gate.py:360-372 | the last named record of each normal ID |
| Reconcile.ReconcileFailingList | documentdb-local/functional-tests/tools/functional_gate.py:337-438 | the loops compute the list, all buckets in their order and the kept lines of the declarative definition, flaky passes and uncollected entries included |
| Reconcile.UncollectedExactly | documentdb-local/functional-tests/tools/functional_gate.py:407-408 | exactly the listed normal forms without a record, each once, in the order they are first listed |
| ReconcileFixpoint.Buckets | documentdb-local/functional-tests/tools/functional_gate.py:389-408 | what is added, removed and pruned, in terms of outcome, listing and flakiness |
| ReconcileFixpoint.EntriesAfter | documentdb-local/functional-tests/tools/functional_gate.py:410-426 | the entries of the written list are the old ones without the dropped plus the additions, whose normal forms are the failing tests |
| ReconcileFixpoint.ListedAfter | documentdb-local/functional-tests/tools/functional_gate.py:389-426 | a collected test is listed afterwards exactly when it was added, or was listed and not removed, or another spelling of it remains |
| ReconcileFixpoint.SecondRunExactly | documentdb-local/functional-tests/tools/functional_gate.py:337-438 | the second run has no failure if and only if no passing test was listed under two spellings |
| ReconcileFixpoint.Fixpoint | documentdb-local/functional-tests/tools/functional_gate.py:337-438 | with distinct normal forms the second run has no failure, and reconciling again changes nothing |
| ReconcileFixpoint.StillLoads | documentdb-local/functional-tests/tools/conftest_known_failures.py:56-84 | a reconciled list still passes the plugin's overlap check |
| ReconcileFixpoint.TwoSpellingsStayRed | documentdb-local/functional-tests/tools/functional_gate.py:379-412 | a passing test listed with and without the root directory is red again after reconciling |
| BackendContract.FieldsExactly | documentdb-local/scripts/documentdb_local_tests/backend_contract.py:188-193 | the anchor pattern visits every occurrence of the field exactly once, also where occurrences are glued together |
| BackendContract.CodesExactly | documentdb-local/scripts/documentdb_local_tests/backend_contract.py:195-201 | the value pattern reads every value of the readable shape |
| BackendContract.NamedMissingExactly | documentdb-local/scripts/documentdb_local_tests/backend_contract.py:211-230 | greedy matching of the missing-object pattern finds a match exactly when some split of the line into its parts exists |
| BackendContract.FindBackendContractErrors | documentdb-local/scripts/documentdb_local_tests/backend_contract.py:257-278 | the reported lines are those with a contract code or a missing object that is not skipped, in the order of the log |
| BackendContract.FilteredCounts | documentdb-local/scripts/documentdb_local_tests/backend_contract.py:269-278 | each offending line is reported as often as it occurs, and no other line |
| BackendContract.FindUnexpectedSqlstates | documentdb-local/scripts/documentdb_local_tests/backend_contract.py:281-297 | sorted, distinct, and exactly the readable codes outside the contract |
| BackendContract.FindUnparseableSubStatusValues | documentdb-local/scripts/documentdb_local_tests/backend_contract.py:300-342 | sorted, distinct, and exactly the values that are neither empty nor readable |
| BackendContract.NoBlindSpot | documentdb-local/scripts/documentdb_local_tests/backend_contract.py:257-342 | the three scans are silent on a line if and only if nothing is missing and every field is empty or only quotes |
| BackendContract.Gate | documentdb-local/scripts/documentdb_local_tests/backend_contract.py:420-478 | strict mode returns 0 if and only if every line is clean; plain mode if and only if no line has a contract error |
| BackendContract.StripAnsiAtBreak | documentdb-local/scripts/documentdb_local_tests/backend_contract.py:233-235 | removing colour codes from the text is removing them line by line |
| BackendContract.CountAgreesWithScans | documentdb-local/scripts/documentdb_local_tests/backend_contract.py:345-350 | the number of fields in the text is the total over the lines the scans look at |
| Wkb.SridUndoneExactly | pg_documentdb/include/geospatial/bson_geospatial_private.h:454-486 | masking the flag and dropping four bytes undoes the extension if and only if the flag was not set before |
| Wkb.FlagIsLost | pg_documentdb/include/geospatial/bson_geospatial_private.h:454-486 | a type with the flag comes back without it |
| Wkb.SridUndone | pg_documentdb/include/geospatial/bson_geospatial_private.h:454-486 | on the encoding of any geometry dropping the identifier undoes adding it |
| Wkb.CollectionExactly | pg_documentdb/include/geospatial/bson_geospatial_private.h:498-535 | collecting encoded geometries gives the extended form of their collection |
| WkbWriter.DistinctNoRepeats | pg_documentdb/src/geospatial/bson_geojson_utils.c:593-622 | no written point repeats its neighbour |
| WkbWriter.DistinctKeeps | pg_documentdb/src/geospatial/bson_geojson_utils.c:593-622 | a list without repeats is written as it is |
| WkbWriter.Buffer.ReserveNum | pg_documentdb/include/geospatial/bson_geospatial_private.h:333-340 | four zero bytes are appended and their position is returned |
| WkbWriter.Buffer.PatchNum | pg_documentdb/include/geospatial/bson_geospatial_private.h:377-382 | exactly the four bytes of the slot change |
| WkbWriter.Buffer.WritePoints | pg_documentdb/src/geospatial/bson_geojson_utils.c:560-762 | reserving, writing and patching gives the bytes of the distinct points with their count first, and fails exactly on an antipodal edge, too few points, a duplicate vertex of a ring or a ring that is not closed |
| WkbWriter.Buffer.WritePolygon | pg_documentdb/src/geospatial/bson_geojson_utils.c:238-311 | rings written in a buffer of their own are appended as the encoding of the polygon that PostGIS orients, and it fails exactly without rings, on a bad ring or an invalid polygon |
| WkbWriter.Buffer.WriteGeometry | pg_documentdb/src/geospatial/bson_geojson_utils.c:184-538 | at any depth of nesting the buffer grows by the encoding that knows every count beforehand, and fails exactly on empty lists, bad lines, bad polygons and nested collections |
| WkbTraversal.Iterator.Increment | pg_documentdb/include/geospatial/bson_geospatial_wkb_iterator.h:108-129 | the position moves exactly when enough bytes remain and never leaves the buffer |
| WkbTraversal.Iterator.Walk | pg_documentdb/src/geospatial/bson_geospatial_wkb_iterator.c:51-250 | the walk over the iterator, with a visitor for each point or without, computes the recursive reading of the bytes; without one a ring is skipped by its 32-bit length; when it fails, with the visits made before the error |
| WkbRoundTrip.ReadInside | pg_documentdb/src/geospatial/bson_geospatial_wkb_iterator.c:51-250 | whatever the bytes are, with point visits or without, and also when the walk fails, every point, single geometry and whole geometry shown lies inside the buffer |
| WkbRoundTrip.OverclaimEndsWalkExactly | pg_documentdb/src/geospatial/bson_geospatial_wkb_iterator.c:126-190 | a ring that claims more points than there are ends the walk if and only if points are visited, or its 32-bit length is negative or more than the bytes left |
| WkbRoundTrip.RingEndsWalkExactly | pg_documentdb/src/geospatial/bson_geospatial_wkb_iterator.c:126-190 | any ring shown ends the walk if and only if its points are too many, one by one or by their 32-bit length, and after such a ring only points of it are shown |
| WkbRoundTrip.OverclaimIsPassed | pg_documentdb/src/geospatial/bson_geospatial_wkb_iterator.c:137-190 | a count of 0x10000001 and sixteen bytes: with point visits the walk fails after one point, without them it succeeds past the ring |
| WkbRoundTrip.ReadInsideExactly | pg_documentdb/src/geospatial/bson_geospatial_wkb_iterator.c:51-250 | with point visits or without, everything shown lies inside the buffer if and only if no ring reached claims more points than the bytes left or has a negative count whose length wraps to too much |
| WkbRoundTrip.OverrunRingIsShown | pg_documentdb/src/geospatial/bson_geospatial_wkb_iterator.c:137-151 | thirteen bytes of a polygon whose ring claims one point: the ring is shown before the walk fails |
| WkbRoundTrip.WrappedRingIsShown | pg_documentdb/src/geospatial/bson_geospatial_wkb_iterator.c:137-190 | a count of -2147483647 shows a ring of sixteen bytes that are not there: with point visits the walk succeeds, without them it fails at the ring |
| WkbRoundTrip.EncodedShown | pg_documentdb/src/geospatial/bson_geospatial_wkb_iterator.c:51-250 | walking an encoded geometry, with point visits or without, shows all its points where they are visited, its rings and single geometries in order, with their exact bytes, counts and owning polygon, and ends at the end of the buffer |
| WkbRoundTrip.ExtendedShown | pg_documentdb/src/geospatial/bson_geospatial_wkb_iterator.c:60-74 | the identifier changes nothing that is shown inside the geometry |
| PrivilegedFunctions.Registry.Register | pg_documentdb/src/rbac_hooks.c:82-104 | the limit is checked first, then preloading; on either error nothing changes |
| PrivilegedFunctions.Registry.IsValidForExecution | pg_documentdb/src/rbac_hooks.c:214-255 | the answer, and which entries are resolved by asking: those up to the first match that the catalog shows |
| PrivilegedFunctions.SizeBounded | pg_documentdb/src/rbac_hooks.c:65-104 | over all call sequences the registry has between three and twenty entries |
| PrivilegedFunctions.ResolvedEntriesKept | pg_documentdb/src/rbac_hooks.c:206-247 | entries keep their places and resolved entries never change |
| PrivilegedFunctions.OnlySuccessRemembered | pg_documentdb/src/rbac_hooks.c:206-247 | every remembered name was shown by the catalog of an earlier question |
| PrivilegedFunctions.FreshByFunction | pg_documentdb/src/rbac_hooks.c:206-255 | after any calls and for any catalog, answers are fresh if and only if the visible names fit and, for every function whose kept name is out of date, that name is some visible name and its name now, if any, is recognised through another entry |
| PrivilegedFunctions.FreshExactly | pg_documentdb/src/rbac_hooks.c:206-255 | as sets of names: answers equal asking the catalog afresh if and only if the kept names and the stored names of unresolved entries are the names visible now |
| PrivilegedFunctions.OneOutOfDate | pg_documentdb/src/rbac_hooks.c:206-255 | with one function renamed or dropped, that is so if and only if its kept name is some visible name and its name now is recognised through another entry |
| PrivilegedFunctions.FreshWhileStable | pg_documentdb/src/rbac_hooks.c:206-255 | while visible functions stay as they are, answers are fresh if and only if the visible registered names fit |
| PrivilegedFunctions.RenameIsMissed | pg_documentdb/src/rbac_hooks.c:206-255 | after a rename the old name is still accepted |
| ErrorCodeLiteral.FormatWithUnderscores | pg_documentdb_gw/documentdb_gateway_core/build.rs:128-140 | the reversed loop gives the sign and the digits in groups of three from the end |
| ErrorCodeLiteral.LiteralReadsBack | pg_documentdb_gw/documentdb_gateway_core/build.rs:128-140 | deleting underscores gives the plain decimal text, and the literal parses to the number |
| ErrorCodeLiteral.GroupShape | pg_documentdb_gw/documentdb_gateway_core/build.rs:128-140 | counted from the end exactly every fourth character is an underscore, and the first is a digit |
| BinarySearch.Search | pg_documentdb/include/utils/search_utils.h:23-53 | a matching index or the complement of the insertion point, with every intermediate value inside 32 bits |
| BinarySearch.InsertionPointUnique | pg_documentdb/include/utils/search_utils.h:16-22 | there is only one insertion point |

## Left out

- Extended attributes, ownership, permissions, symbolic links and races on parent directories during publication: they enter only as checks that may fail.
- Python regular expressions and Unicode classes in full: the patterns are written out over ASCII spaces, digits and letters.
- Block comments inside `normalize_comment`, C sources and the conversion of blocks to line comments.
- HeaderFile.NormalizeFile: does not model the docstrings and encoding lines of Python, and takes what block and documentation comments say and the length of the preamble as parameters.
- A second normalisation of a whole file: it is stated for comments, and files in which comments merge are not followed.
- Choosing the language of a file, and its character encoding.
- Setup-phase errors in the reconcile fixpoint: the tool keeps them for a human, so a run that has them is not a fixpoint.
- Reading and writing of JSON, YAML and report files, subprocesses, git and standard output.
- The serial leg of tests that must not run in parallel, and the guards of the runner script on the size of a collection and of a report.
- Engine comparison, Markdown rendering, sample-data scripts and packaging.
- WkbWriter.Buffer.WriteGeometry: does not model parsing the document and the bounds of coordinates, because points enter as sixteen bytes; what PostGIS decides about orientation and validity is a parameter.
- WkbTraversal.Iterator.Walk: does not model a visitor that stops the traversal; of absent visitors only the one for points is modelled, because the others change nothing but the calls to them; it reads a number only when four bytes remain, where the original reads first and then fails on the increment.
- Big-endian hosts: the writer uses the byte order of its host, and the model is of a little-endian one.
- BinarySearch.Search: does not model the multiplication of the index by the element size.
- PrivilegedFunctions.Registry.IsValidForExecution: takes the three catalog lookups together, as one that finds both names or none.
- The hook dispatchers of the extension, the aggregation, cursor, index, heap and background-job headers: forward-or-default branches, or types without bodies.
