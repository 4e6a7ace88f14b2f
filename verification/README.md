# A Dafny model of the hard parts of an OPC UA stack

This project models eleven pieces of the stack and proves what they are for.  Each piece has a functional specification, whose properties are proved as lemmas, and, where the original changes state step by step, methods or classes proved against that specification.

- **Historical reads** (`KeyOrder`, `HistoryQuery`, `HistoryPages`, `HistoryPaging`, `HistoryRuns`, `HistoryModified`, `HistoryBackend`).  The SQL tables are a map from (node, source timestamp) to the stored value and a log of superseded rows in insertion order; a SELECT is its filter, order and limit.  Pages are proved to add up to the unpaged read, forward and in reverse, with and without bounds, and to stay sound while the table is rewritten between pages.
- **The write ledger** (`HistoryLedger`, `HistoryDeletes`, `HistoryWrites`, `HistoryBackend`).  Inserts, replaces, updates and deletes conserve rows between the table and the log; what was written last is what is read, and what made way or was deleted is read from the log.
- **Topological sorters** (`TotalOrder`, `DependencyGraph`, `TypeSorter`, `TargetSorter`).  Kahn's algorithm twice over one theory of graphs and counters: least order, completeness, exact reports of cycles.
- **Certificate chains** (`Certificates`, `ChainBuilder`, `ChainStages`, `ChainSoundness`, `ChainSuppression`, `ChainMeaning`, `ChainReports`, `ChainPipeline`).  Each stage of the pipeline is a list of events that does not depend on which steps are suppressed; the outcome is an interpretation of that list.  What is accepted, reported and refused is then stated on the fields of certificates, responses and lists alone.
- **Handles** (`Handles`).  The plain handle factory, and the lock-free one as atomic steps of any number of threads.
- **The type tree** (`NodeIds`, `TypeTree`, `TypeProperties`, `HashSets`) and **the reference index** (`References`).
- **The encrypted secret** (`ByteCodec`, `SecretPayload`, `SecretEnvelope`).
- **FX connection commands** (`KeyedList`, `FxCommands`, `FxRuns`, `FxOrder`, `FxEstablish`).
- **CRC-32C** (`Crc`) and **P_hash** (`PHash`).

Where a specification function follows the original step by step, its meaning is stated a second time on inputs and results, in other terms, and the two are proved to agree.

Cryptography enters as parameters: which signatures verify, the message authentication code, what the allocator of communication ids returns.  Clocks are parameters too: a historical read is given the times at which it prunes and at which it hands out a token.  Unsigned machine integers are modelled where they wrap or truncate: the 32-bit handle counter, the 16-bit padding size, the casts of string lengths and tick counts.

## What the code does otherwise than documented or expected

Each of these has the exact condition for all inputs below, and, where the condition is an equivalence and an input is short, a lemma with an input that fails.

- `delete_node_references` documents its result as whether any references were found; it returns whether the node has an entry, be it an empty one (`References.ReportedIsNotFound`).  After any run that is whether a link of the node was put in since it was last deleted (`References.DeleteAfterRun`; an input is `References.ReportsWithoutLinks`).
- The size hint of the reference iterator is computed before filtering, so its lower bound can exceed what is yielded (`References.HintAgainstYield`, `References.HintCanPromiseTooMuch`).
- Registering or removing a type does not clear the cache of subtype answers, so remembered answers can be wrong (`TypeTree.CacheAfterAdd`, `TypeTree.CacheAfterRemove`, `TypeTree.StaleAnswerExists`, `TypeTree.StaleAfterRemoval`).
- Registering a type does not check the supertype.  A type put under itself or below one of its own descendants makes a circle, from which the subtype walk to anything outside does not end, and one moved to another supertype stays listed under the old one (`TypeTree.AddKeepsConsistent`, `TypeTree.CircleCanBeMade`).
- Registering a property does not check whether its node or its place is taken already, and then the two tables disagree (`TypeProperties.AddKeepsInverse`, `TypeProperties.SiteCanBeTakenOver`).
- `get_all_children` does not look at node classes, so it can list nodes that are not subtypes (`TypeTree.DescendantsAreSubtypes`, `TypeTree.UntypedDescendantExists`).
- The lock-free handle factory can be brought to a state in which no call under way can finish (`Handles.ProgressUnlessStuck`, `Handles.StuckIsReachable`).
- Padding of 65536 bytes or more does not fit its size field and is not parsed back (`SecretPayload.RoundTripIffPaddingFits`).  The builder takes any block size, but key derivation only yields the initialization vector of AES with its 16 bytes, for which `SecretPayload.RoundTrip` holds; the input of `SecretPayload.WideBlocksDoNotRoundTrip` cannot arise from it.
- A signing time past the end of the representable range is rounded on reading, and then other bytes are checked than were signed (`SecretEnvelope.VerifierChecksWhatWasSigned`, `SecretEnvelope.LateTimeIsNotVerified`).
- Encoding an envelope whose signature is longer than all the rest of it panics instead of failing (`SecretEnvelope.LengthsRefused`).
- The decoder of the envelope ignores the value of the type id and anything after the body (`SecretEnvelope.RewritingIff`, `SecretEnvelope.ForeignFrameIsRead`).
- Entities are verified before control is established, so a bundle that asks for both must come from a client that holds the locks already (`FxRuns.VerificationNeedsEarlierLocks`).
- A failed reassignment of control groups is not undone.  It leaves the locks as they were exactly when every group handed over before the first one nobody holds was handed to its holder (`FxCommands.ReassignLeavesLocksIff`; an input is `FxCommands.FailedReassignmentStays`).
- Enabling communication reports Good for every endpoint listed, also for an id that names none (`FxRuns.EnableMeaning`, `FxRuns.EnablingNothingIsReportedGood`).
- `read_processed` collects its raw values over the continuation points of its own backend, and fails exactly when a pause after a page that left rows outlives the token (`HistoryBackend.SqliteHistoryBackend.CollectRawValues`).
- Removing an endpoint is written to drop its connections, but no endpoint is ever given one (`FxRuns.ConnectionsOutliveEndpoints`).

## Model

| member | source | states |
|---|---|---|
| HistoryQuery.FetchBounds | async-opcua-history-sqlite/src/query.rs:18-41 | the nearest row at or before, or at or after, a time: none is nearer, and it is missing only when no row lies on that side |
| HistoryPages.PartsInOrder | async-opcua-history-sqlite/src/backend.rs:504-555 | start bound, interval and end bound are pushed in reading order, so the sort that follows changes nothing |
| HistoryPaging.PageServesDue | async-opcua-history-sqlite/src/backend.rs:382-396 | a page is exactly the next page-size rows the reader is owed, and more is announced exactly when some are left |
| HistoryPaging.CursorIsResumable | async-opcua-history-sqlite/src/backend.rs:577-658 | a cursor that is handed out rests before the end of the interval, so that resuming is meaningful |
| HistoryPaging.ResumeNotBehind | async-opcua-history-sqlite/src/backend.rs:504-538 | the last row of a page lies beyond the cursor it resumed from and not before the start bound |
| HistoryPaging.RestIsOwed | async-opcua-history-sqlite/src/backend.rs:577-658 | resuming at the last row of a page owes exactly the rows that page did not serve |
| HistoryRuns.ServeOwed | async-opcua-history-sqlite/src/backend.rs:577-658 | a continuation point is handed out exactly when rows are left, and it continues at the first of them |
| HistoryRuns.PagesAddUp | async-opcua-history-sqlite/src/backend.rs:577-658 | over an unchanged table, pages of any positive sizes join to the prefix of the unpaged read they have room for, and the read ends exactly when they have room for all |
| HistoryRuns.PagedEqualsUnpaged | async-opcua-history-sqlite/src/backend.rs:577-658 | a completed paged read returns what one read with a large enough page returns |
| HistoryRuns.UnpagedReadMeaning | async-opcua-history-sqlite/src/backend.rs:382-396 | that one read is strictly ordered and holds one row for each timestamp of the interval and, with bounds, for the nearest at or beyond either end, and no others |
| HistoryRuns.OnlyForward | async-opcua-history-sqlite/src/backend.rs:577-658 | timestamps move strictly forward over a run, however the table is rewritten between pages |
| HistoryRuns.ValuesWereStored | async-opcua-history-sqlite/src/backend.rs:577-658 | every value returned was a row of the table at one of the visits |
| HistoryRuns.SteadyIsReturned | async-opcua-history-sqlite/src/backend.rs:577-658 | a row of the interval present at every visit of a completed read is returned |
| HistoryRuns.InterleavedRun | async-opcua-history-sqlite/src/backend.rs:577-658 | the three together: no duplicates, nothing made up, and steady rows returned exactly once |
| HistoryModified.LogPagesAddUp | async-opcua-history-sqlite/src/backend.rs:398-462 | pages of superseded rows join to the rows of the range in order of (source, modification, row id) |
| HistoryModified.LogReadMeaning | async-opcua-history-sqlite/src/backend.rs:398-462 | those are exactly the log rows of the range, each once, given distinct row ids |
| HistoryModified.LogInterleavedRun | async-opcua-history-sqlite/src/backend.rs:398-462 | with the log changing between pages keys still move strictly forward, rows were stored, and keys kept throughout are returned |
| HistoryBackend.SortMeaning | async-opcua-server/src/history/read.rs:9-15 | the sort of historical values orders them by time and keeps them all |
| HistoryBackend.SortOfSorted | async-opcua-server/src/history/read.rs:9-15 | values already in order come out unchanged |
| HistoryBackend.FetchRawModifiedValues | async-opcua-history-sqlite/src/backend.rs:382-396 | the values pushed for a page: start bound, interval rows, end bound |
| HistoryBackend.SortDedupAndTrimPage | async-opcua-history-sqlite/src/backend.rs:557-575 | sorting, dropping equal timestamps and trimming in place give the page of the specification and whether more is left |
| HistoryBackend.SqliteHistoryBackend.InsertContinuationPoint | async-opcua-history-sqlite/src/backend.rs:295-305 | stores the cursor, and when, under a token never used before |
| HistoryBackend.SqliteHistoryBackend.PruneContinuationPoints | async-opcua-history-sqlite/src/backend.rs:282-285 | keeps exactly the continuation points younger than the limit |
| HistoryBackend.SqliteHistoryBackend.ReadRawModified | async-opcua-history-sqlite/src/backend.rs:577-658 | expired tokens are dropped; an unknown or expired token is refused, a known one is consumed; the page is the one owed at the cursor; a new token exists exactly when rows are left |
| HistoryBackend.SqliteHistoryBackend.CollectRawValues | async-opcua-history-sqlite/src/backend.rs:691-753 | the loop over the backend's own continuation points ends; it fails exactly when the pause after a page that left rows outlives its token; otherwise it has collected exactly the rows owed, in time order, and leaves no continuation point of its own behind |
| HistoryBackend.SqliteHistoryBackend.UpdateData | async-opcua-history-sqlite/src/backend.rs:867-1042 | a batch is its values applied in turn, with one status each; expired continuation points are dropped |
| HistoryBackend.SqliteHistoryBackend.DeleteAtTime | async-opcua-history-sqlite/src/backend.rs:1404-1468 | deletes at the times given, one by one, logging what it removes; expired continuation points are dropped |
| HistoryBackend.SqliteHistoryBackend.DeleteRawModified | async-opcua-history-sqlite/src/backend.rs:1314-1402 | current rows of the range move to the log, or log rows of the range are dropped, with the status for an empty range; expired continuation points are dropped |
| HistoryLedger.RequestConserves | async-opcua-history-sqlite/src/backend.rs:92-125 | for each request: rows held plus rows purged equals rows held before plus rows accepted, as multisets |
| HistoryLedger.RunConserves | async-opcua-history-sqlite/src/backend.rs:867-1468 | the same over every run; so without purging, accepted rows equal current rows plus logged rows |
| HistoryLedger.LogOnlyGrows | async-opcua-history-sqlite/src/backend.rs:1314-1402 | only a delete of modified data takes rows from the log, and exactly those of its range; otherwise the old log is a prefix of the new |
| HistoryLedger.RunKeepsRowids | async-opcua-history-sqlite/src/backend.rs:92-125 | row ids rise along the log over every run |
| HistoryLedger.LastAcceptedIsCurrent | async-opcua-history-sqlite/src/backend.rs:878-1034 | after a batch each key holds the last value accepted for it, or what it held before |
| HistoryLedger.StatusTellsOccupancy | async-opcua-history-sqlite/src/backend.rs:878-1034 | each status says whether the key was occupied when its turn came |
| HistoryDeletes.DeleteAtTimesMeaning | async-opcua-history-sqlite/src/backend.rs:1404-1468 | the rows at the times given leave the table, and no others; the log gains exactly these rows, each once, as they were and marked deleted, with the time of the first deletion |
| HistoryDeletes.DeleteAtTimesStatuses | async-opcua-history-sqlite/src/backend.rs:1404-1468 | a status is Good exactly for the first mention of a time at which there was a row |
| HistoryDeletes.RemoveBatchMeaning | async-opcua-history-sqlite/src/backend.rs:1008-1034 | so do the rows at the times of a batch of removals |
| HistoryDeletes.DeleteRangeMeaning | async-opcua-history-sqlite/src/backend.rs:1314-1402 | so do the rows of [start, end), in ascending order; the status tells whether there were any |
| HistoryWrites.LastStoredIsHeld | async-opcua-history-sqlite/src/backend.rs:878-1007 | the last value stored at a time is held there, filed under its own timestamps and status where it has them |
| HistoryWrites.OthersAreKept | async-opcua-history-sqlite/src/backend.rs:878-1007 | what no value was stored at stays as it was |
| HistoryWrites.LogGrowsByBatch | async-opcua-history-sqlite/src/backend.rs:878-1034 | the log gains one row for each status that tells of a row making way |
| HistoryWrites.LogTellsOfBatch | async-opcua-history-sqlite/src/backend.rs:878-1034 | that log row is the one that was there when the value's turn came, with the kind and time of the change |
| HistoryWrites.PurgeMeaning | async-opcua-history-sqlite/src/backend.rs:1314-1402 | purging takes exactly the log rows of [start, end) and touches no current row; the status tells whether there were any |
| HistoryWrites.ReadMeaning | async-opcua-history-sqlite/src/query.rs:18-78 | a complete read on the table alone: in order, rows as stored, the times from start to end with the nearest rows beyond as bounds |
| HistoryWrites.LogReadInOrder | async-opcua-history-sqlite/src/backend.rs:398-462 | a complete read of the log on the log alone: the rows of the range by source time, time of change and row id |
| HistoryWrites.WrittenIsRead | async-opcua-history-sqlite/src/backend.rs:382-396 | what was stored last at a time of the interval is read from it as it was handed in |
| HistoryWrites.SupersededIsRead | async-opcua-history-sqlite/src/backend.rs:398-462 | what made way or was removed is read from the log, with the kind and time of the change |
| DependencyGraph.GreedyIsLeast | async-opcua-codegen/src/generator.rs:41-66 | always taking the first ready node gives the lexicographically least topological order |
| DependencyGraph.LeastIsUnique | async-opcua-codegen/src/generator.rs:41-66 | there is one least order, whatever computes it |
| DependencyGraph.FinishedMeaning | async-opcua-codegen/src/generator.rs:41-80 | what the algorithm placed is exactly what is neither on a cycle nor after one; it placed everything exactly when there is no cycle |
| DependencyGraph.AfterCycleIsLargest | async-opcua-codegen/src/generator.rs:68-80 | the nodes on or after a cycle are the largest set in which each depends on one of the set |
| DependencyGraph.KahnStep | async-opcua-codegen/src/generator.rs:55-66 | one round keeps the queue equal to the nodes whose dependencies are all placed |
| DependencyGraph.LeftOver | async-opcua-codegen/src/generator.rs:68-80 | at the end a counter is positive exactly for the nodes not placed |
| TypeSorter.NamesAreOrdered | async-opcua-codegen/src/generator.rs:14-30 | type names are strictly and totally ordered |
| TypeSorter.SortTypesTopologically | async-opcua-codegen/src/generator.rs:10-89 | a repeated name is reported; otherwise the result is the least permutation by name with dependencies first, or exactly the types on or after a cycle; the counters never go below zero |
| TypeSorter.InputOrderDoesNotMatter | async-opcua-codegen/src/generator.rs:10-89 | shuffling the input changes neither the order nor the cycle reported |
| TypeSorter.EdgesAreUses | async-opcua-codegen/src/generator.rs:91-142 | the graph has an edge exactly where a structure's base, or the type of a field or array, is a type of that name in the target namespace |
| TypeSorter.SortedTypesMeaning | async-opcua-codegen/src/generator.rs:10-89 | in the result a type comes after every type it uses, and of two types the smaller name first unless it uses something not yet placed |
| TypeSorter.CircularTypesMeaning | async-opcua-codegen/src/generator.rs:68-80 | sorting fails exactly when some types use each other round and round, and reports the largest set of types each of which uses one of the set |
| TypeSorter.NameLessMeaning | async-opcua-codegen/src/generator.rs:14-30 | names are compared at the first place where they differ, a name before its continuations |
| TargetSorter.SortTargetsTopologically | async-opcua-codegen/src/generator.rs:144-211 | the least permutation by position with dependencies first, or exactly the targets on or after a cycle |
| TargetSorter.ResultIsUnique | async-opcua-codegen/src/generator.rs:144-211 | that determines the result |
| TargetSorter.EdgesAreNeeds | async-opcua-codegen/src/generator.rs:149-165 | the graph has an edge exactly where a target asks for a file another one makes |
| TargetSorter.SortedTargetsMeaning | async-opcua-codegen/src/generator.rs:144-211 | the result is the targets taken in turn: each once, after those it needs, by position otherwise |
| TargetSorter.CircularTargetsMeaning | async-opcua-codegen/src/generator.rs:182-201 | sorting fails exactly when some targets need each other round and round, and reports the largest such set |
| Certificates.InterpretMeaning | async-opcua-crypto/src/cert_chain.rs:437-457 | a run fails with the first event that is critical or not suppressed, and succeeds with all findings otherwise |
| Certificates.SuppressionPredicts | async-opcua-crypto/src/cert_chain.rs:437-457 | a run that succeeds under one choice of suppressed steps determines the outcome under every other |
| ChainBuilder.FoundMeansOccurs | async-opcua-crypto/src/cert_chain.rs:972-986 | a certificate is found in a list exactly when it occurs there with nothing unreadable before it |
| ChainBuilder.ChainIsUnique | async-opcua-crypto/src/cert_chain.rs:162-208 | a certificate has at most one chain |
| ChainBuilder.ChainIsNamed | async-opcua-crypto/src/cert_chain.rs:210-233 | every issuer of a chain bears the name, and the key identifier if both are given, asked for below it, and comes from one of the two lists |
| ChainBuilder.BuildChain | async-opcua-crypto/src/cert_chain.rs:162-208 | finds the chain, of at most ten pairwise different certificates and ending at its first anchor, or fails when there is none |
| ChainSoundness.SilentIffSound | async-opcua-crypto/src/cert_chain.rs:133-160 | the stages have nothing to report exactly when signatures, policy, trust, validity, usage and revocation are all in order |
| ChainSoundness.TrustedMeaning | async-opcua-crypto/src/cert_chain.rs:343-361 | a trusted chain shares a certificate, byte for byte, with the trust list |
| ChainSoundness.PathLengthBoundsDepth | async-opcua-crypto/src/cert_chain.rs:553-615 | every issuer is a CA, and its path length bounds the number of issuers between it and the leaf (section 4.2.1.9 of RFC 5280) |
| ChainSoundness.VerdictMeaning | async-opcua-crypto/src/cert_chain.rs:751-772 | a verdict comes from a fresh answer for the serial number; there is none only when no answer decides |
| ChainSoundness.ClearedMeaning | async-opcua-crypto/src/cert_chain.rs:645-692 | a cleared certificate has a current good response or a current list without it, signed by its issuer |
| ChainSoundness.AcceptedIffSound | async-opcua-crypto/src/cert_chain.rs:133-160 | with nothing suppressed, validation accepts exactly the certificates with a sound chain, without findings |
| ChainSoundness.AcceptedHasTrustedChain | async-opcua-crypto/src/cert_chain.rs:133-160 | whatever is suppressed, an accepted certificate has a chain signed link by link that contains a trusted certificate and nothing known to be revoked |
| ChainSuppression.SuppressionIsFaithful | async-opcua-crypto/src/cert_chain.rs:133-160 | an accepted validation and its findings give the outcome for every other choice of suppressed steps: the same, or the status of the first finding no longer suppressed |
| ChainSuppression.CriticalFailuresStay | async-opcua-crypto/src/cert_chain.rs:42-58 | validation fails with everything suppressed exactly when it fails for every choice |
| ChainSuppression.LenientReportsLess | async-opcua-crypto/src/cert_chain.rs:941-970 | lenient checking reports what required checking does, less the missing revocation lists |
| ChainSuppression.ModesAreOrdered | async-opcua-crypto/src/cert_chain.rs:645-692 | acceptance under Required implies acceptance under Lenient, which implies it under Disabled |
| ChainMeaning.ChainsAreWellBuilt | async-opcua-crypto/src/cert_chain.rs:162-233 | the chains built are exactly those that go from issuer to issuer, offered before trusted and first come first served, up to the first self-signed or trusted certificate, ten at most, none twice |
| ChainMeaning.WordMeaning | async-opcua-crypto/src/cert_chain.rs:645-692 | what is reported about a certificate is decided by the first usable response and its first answer, or else by the first list that fits |
| ChainMeaning.SoundMeaning | async-opcua-crypto/src/cert_chain.rs:133-160 | a chain is sound exactly when signatures, algorithms and key length, trust, dates, uses, depth and revocation are in order, field by field |
| ChainMeaning.AcceptedIffInOrder | async-opcua-crypto/src/cert_chain.rs:133-160 | with nothing suppressed a certificate is accepted exactly when it has a well-built chain that is in order, so none outside its dates is |
| ChainReports.FindingsMeaning | async-opcua-crypto/src/cert_chain.rs:363-640 | whatever is suppressed, an accepted certificate's findings hold each finding exactly as often as its chain gives cause, and no others |
| ChainReports.RefusalMeaning | async-opcua-crypto/src/cert_chain.rs:133-160 | the status of a refusal: chain incomplete, or decided by the first thing out of order, stage by stage and along the chain |
| ChainPipeline.VerifyChainSignatures | async-opcua-crypto/src/cert_chain.rs:235-255 | fails critically at the first link whose signature does not verify; a last certificate that is not self-signed is not checked |
| ChainPipeline.ValidateSecurityPolicy | async-opcua-crypto/src/cert_chain.rs:363-419 | one finding for each certificate with a forbidden algorithm and one for the key length of the leaf, in this order, and none without a policy |
| ChainPipeline.FindTrusted | async-opcua-crypto/src/cert_chain.rs:343-361 | whether the chain meets the trust list, or an unreadable certificate comes first |
| ChainPipeline.ValidateValidity | async-opcua-crypto/src/cert_chain.rs:459-491 | one finding for each certificate outside its validity period, with the status for the leaf or for an issuer |
| ChainPipeline.ValidateUsage | async-opcua-crypto/src/cert_chain.rs:500-515 | the findings of the leaf, then of each issuer |
| ChainPipeline.ValidateLeafUsage | async-opcua-crypto/src/cert_chain.rs:516-551 | key usage, then purpose, each a finding of its own |
| ChainPipeline.ValidateIssuerUsage | async-opcua-crypto/src/cert_chain.rs:553-601 | CA flag, then path length, then key usage |
| ChainPipeline.OcspStatus | async-opcua-crypto/src/cert_chain.rs:704-749 | the verdict of the first response that decides and verifies, with a finding when its algorithm is forbidden |
| ChainPipeline.FindValidCrl | async-opcua-crypto/src/cert_chain.rs:799-827 | the first current list of the issuer that verifies, with a finding when its algorithm is forbidden |
| ChainPipeline.ValidateRevocation | async-opcua-crypto/src/cert_chain.rs:645-692 | response before list, a revoked certificate critical, an unknown one a finding in required mode only |
| ChainPipeline.ValidateCertificateChain | async-opcua-crypto/src/cert_chain.rs:133-160 | the stages in order, up to the first failure that is not suppressed |
| Handles.NthHandleIsCyclic | async-opcua-core/src/handle.rs:27-36 | handles run through first..MAX over and over |
| Handles.NoRepeatWithinRound | async-opcua-core/src/handle.rs:27-36 | no handle repeats within a round |
| Handles.Handle.Next | async-opcua-core/src/handle.rs:27-36 | returns the handle due and moves to its successor |
| Handles.AtomicHandle.Next | async-opcua-core/src/handle.rs:72-95 | used by one thread, returns the handle the counter stands for and moves to its successor, also when the first handle is the largest integer |
| Handles.RunBoth | async-opcua-core/src/handle.rs:27-95 | used by one thread, both factories return the same handles |
| Handles.Linearizable | async-opcua-core/src/handle.rs:72-95 | under any interleaving the n-th handle settled is the n-th one a single caller would get |
| Handles.HandlesAreDistinct | async-opcua-core/src/handle.rs:72-95 | handles are at least first, and equal ones are a whole round apart |
| Handles.WrappedCounterIsRescued | async-opcua-core/src/handle.rs:72-95 | with the wrapped counter in 1..first some pending compare-exchange succeeds |
| Handles.ProgressUnlessStuck | async-opcua-core/src/handle.rs:72-95 | the calls under way can settle a handle on their own exactly when the counter is not at zero with all of them waiting for one |
| Handles.StuckStaysStuck | async-opcua-core/src/handle.rs:72-95 | from there no number of retries settles a handle until a new call comes |
| Handles.StuckIsReachable | async-opcua-core/src/handle.rs:72-95 | an interleaving of two threads that gets there |
| TypeTree.AddKeepsMirror | async-opcua-nodes/src/type_tree.rs:227-245 | adding keeps the two indexes mirroring each other exactly when the id had no other parent |
| TypeTree.AddKeepsAcyclic | async-opcua-nodes/src/type_tree.rs:227-245 | no circle forms exactly when the new parent is not below the id, whatever parent it had |
| TypeTree.AddKeepsConsistent | async-opcua-nodes/src/type_tree.rs:227-245 | adding keeps a consistent tree consistent exactly when the id is new or comes under its present parent again, and the parent is not below it |
| TypeTree.CircleCanBeMade | async-opcua-nodes/src/type_tree.rs:227-245 | a type registered under itself is its own supertype |
| TypeTree.RunsKeepConsistent | async-opcua-nodes/src/type_tree.rs:227-305 | over a run of additions and removals the indexes keep mirroring each other without circles exactly when every addition meets that condition |
| TypeTree.LastRegistrationCounts | async-opcua-nodes/src/type_tree.rs:157-179 | class, abstractness and supertype of a node are what its last registration said; after a removal it is not registered |
| TypeTree.DescendantsAreSubtypes | async-opcua-nodes/src/type_tree.rs:318-332 | what the search lists and what the walk accepts agree exactly when everything below the root is of a type class |
| TypeTree.SubtypeMeaning | async-opcua-nodes/src/type_tree.rs:111-143 | a subtype answer is yes exactly when supertypes lead there through nodes registered as one of the four kinds of type |
| TypeTree.UntypedDescendantExists | async-opcua-nodes/src/type_tree.rs:318-332 | a variable registered under a type is listed and is no subtype |
| TypeTree.AddChangesAnswers | async-opcua-nodes/src/type_tree.rs:227-245 | the subtype answers that change by registering a type, new or once more, exactly: those beyond it are lost, those by the new link are gained |
| TypeTree.RemoveChangesAnswers | async-opcua-nodes/src/type_tree.rs:282-305 | an answer turns to no exactly when the walk passed through the type removed |
| TypeTree.CacheAfterAdd | async-opcua-nodes/src/type_tree.rs:227-245 | the cache stays right after registering a type, new or once more, exactly when it holds no `no` that the new link turns to yes, and no `yes` from beyond the type that the new link does not reach |
| TypeTree.CacheAfterRemove | async-opcua-nodes/src/type_tree.rs:282-305 | the cache stays right after removing exactly when no remembered yes passed through the id |
| TypeTree.StaleAnswerExists | async-opcua-nodes/src/type_tree.rs:111-143 | a query, an addition and the same query again give a wrong answer |
| TypeTree.StaleAfterRemoval | async-opcua-nodes/src/type_tree.rs:282-305 | a query, the removal of its type and the same query again do so too |
| TypeTree.AnswersSinceChange | async-opcua-nodes/src/type_tree.rs:111-143 | between changes, under any eviction, a query answers what the walk says unless an answer from before is still remembered |
| TypeTree.DefaultTypeTree.AddTypeNode | async-opcua-nodes/src/type_tree.rs:227-245 | updates class, abstractness and both indexes; a consistent tree stays consistent exactly under the condition of AddKeepsConsistent |
| TypeTree.DefaultTypeTree.AddTypeProperty | async-opcua-nodes/src/type_tree.rs:248-279 | registers a property in both tables |
| TypeTree.DefaultTypeTree.Remove | async-opcua-nodes/src/type_tree.rs:282-305 | unlinks a registered node from its parent and drops its properties, or else drops a property of that id; tells whether there was either; keeps a consistent tree consistent and the property tables in agreement |
| TypeTree.DefaultTypeTree.IsSubtypeOf | async-opcua-nodes/src/type_tree.rs:111-143 | the walk ends; the answer is the remembered one, or the walk's, which is then remembered; with a right cache it is right |
| TypeTree.DefaultTypeTree.GetAllChildren | async-opcua-nodes/src/type_tree.rs:318-332 | the search ends, listing the root and everything below it, each once |
| TypeProperties.AddKeepsInverse | async-opcua-nodes/src/type_tree.rs:248-279 | the two tables of properties stay inverse exactly when the node serves no other site and the site holds no other node |
| TypeProperties.SiteCanBeTakenOver | async-opcua-nodes/src/type_tree.rs:248-279 | two properties registered at one place |
| TypeProperties.RemoveKeepsInverse | async-opcua-nodes/src/type_tree.rs:282-305 | removing a type with its properties, or one property, keeps them inverse |
| References.References.InsertReference | async-opcua-nodes/src/references.rs:108-142 | adds one link to both indexes; the early return on a duplicate loses nothing |
| References.References.ImportReference | async-opcua-nodes/src/references.rs:155-188 | the same with the direction resolved |
| References.References.DeleteReference | async-opcua-nodes/src/references.rs:191-222 | removes one link from both indexes and tells whether it was there |
| References.References.DeleteNodeReferences | async-opcua-nodes/src/references.rs:229-264 | with both ends: removes exactly the links touching the node; otherwise only its own entries |
| References.References.HasReference | async-opcua-nodes/src/references.rs:267-284 | whether the link is held |
| References.Run | async-opcua-nodes/src/references.rs:108-264 | over every run both indexes represent one set of links, the one the operations describe |
| References.LastWordDecides | async-opcua-nodes/src/references.rs:108-264 | a link is there exactly when the last operation about it put it in |
| References.HalfDeletionAgreesIffUnlinked | async-opcua-nodes/src/references.rs:229-264 | deleting only a node's own entries keeps the indexes in agreement exactly when it had no links |
| References.ReportedIsNotFound | async-opcua-nodes/src/references.rs:224-264 | the result differs from whether links were found exactly when all the entries of the node are empty |
| References.EntriesMeaning | async-opcua-nodes/src/references.rs:108-264 | after any run a node has an entry exactly when a link of it was put in since it was last deleted |
| References.DeleteAfterRun | async-opcua-nodes/src/references.rs:224-264 | deleting a node after any run reports exactly that, and the index then represents the run with the deletion |
| References.ReportsWithoutLinks | async-opcua-nodes/src/references.rs:224-264 | with one link put in and taken out again a node has an entry and no links |
| References.ReferenceIterator.NextInner | async-opcua-nodes/src/references.rs:378-406 | forward references first, then inverse ones |
| References.ReferenceIterator.Next | async-opcua-nodes/src/references.rs:315-332 | the next reference that passes the filter |
| References.BrowseAll | async-opcua-nodes/src/references.rs:287-303 | finding yields exactly the links of the node in the directions asked for that pass the filter, each once |
| References.HintHoldsIffNothingIsDropped | async-opcua-nodes/src/references.rs:334-352 | the announced lower bound is one exactly when the filter drops nothing of what is left |
| References.HintAgainstYield | async-opcua-nodes/src/references.rs:315-352 | the announced lower bound against what the iterator yields from there: it holds exactly when nothing left is dropped; the upper bound always holds |
| References.HintCanPromiseTooMuch | async-opcua-nodes/src/references.rs:334-352 | one reference of another type: the bound is one and nothing passes |
| SecretPayload.BuildSecretPayload | async-opcua-crypto/src/ecc.rs:1369-1414 | fails exactly for an empty block or a string too long; the checks on the length of the result never fail |
| SecretPayload.PaddingFits | async-opcua-crypto/src/ecc.rs:1369-1414 | the result is whole blocks, padding and secret fill at least one, the padding is below two |
| SecretPayload.PaddingIsLeast | async-opcua-crypto/src/ecc.rs:1389-1396 | no shorter padding gives whole blocks and fills, with the secret, at least one |
| SecretPayload.PlaintextLayout | async-opcua-crypto/src/ecc.rs:1369-1414 | the plaintext piece by piece: lengths and size lowest byte first, padding made of the size's low byte |
| SecretPayload.ParsePayloadByteString | async-opcua-crypto/src/ecc.rs:1645-1679 | reads one string at the offset, which moves past it |
| SecretPayload.ParseSecretPayload | async-opcua-crypto/src/ecc.rs:1602-1642 | the parser by offsets agrees with the one on remaining bytes |
| SecretPayload.AcceptedIffWellFormed | async-opcua-crypto/src/ecc.rs:1602-1679 | what is accepted is exactly two encoded strings, uniform padding and its size |
| SecretPayload.RoundTripIffPaddingFits | async-opcua-crypto/src/ecc.rs:1369-1679 | what is built is parsed back exactly when the padding is below 65536 |
| SecretPayload.RoundTrip | async-opcua-crypto/src/ecc.rs:1369-1679 | so always for blocks of up to 32768 bytes |
| SecretPayload.WideBlocksDoNotRoundTrip | async-opcua-crypto/src/ecc.rs:1369-1679 | an input that is not parsed back, with a block wider than any that key derivation yields |
| ByteCodec.ReadByteStringIff | async-opcua-types/src/byte_string.rs:135-184 | reading yields a string and a rest exactly when the input is the encoding of the string and the rest, and the string is within the limit; null and empty stay apart |
| SecretEnvelope.EncodeDataToSign | async-opcua-crypto/src/ecc.rs:797-812 | appends the fields in order, refusing other policies, bodies past i32 and key data past u16 |
| SecretEnvelope.PartsAreRead | async-opcua-crypto/src/ecc.rs:824-912 | what is accepted, and as what: a node id, the mask, the declared length, a well-formed body, and anything after it |
| SecretEnvelope.DeclaredLength | async-opcua-crypto/src/ecc.rs:924-938 | the declared body length is the bytes written after it plus a signature of the policy's length |
| SecretEnvelope.SignedLayout | async-opcua-crypto/src/ecc.rs:797-812 | the bytes to sign piece by piece, down to the bytes of lengths, ticks and null strings |
| SecretEnvelope.PolicyDecidesSignature | async-opcua-crypto/src/ecc.rs:924-938 | 64 bytes of signature for P-256, 96 for P-384, and no other policies |
| SecretEnvelope.LengthsRefused | async-opcua-crypto/src/ecc.rs:792-815 | which lengths are refused, and how: a signature longer than all the rest panics, a body past i32 or keys past u16 are invalid |
| SecretEnvelope.NodeIdMeaning | async-opcua-types/src/node_id/mod.rs:134-176 | the first byte tells how long a node id is |
| SecretEnvelope.RoundTripIff | async-opcua-crypto/src/ecc.rs:792-953 | decoding an encoded envelope gives it back exactly when the signature has the policy's length, the time is in range and the strings are within the limits |
| SecretEnvelope.RewritingIff | async-opcua-crypto/src/ecc.rs:792-953 | encoding a decoded envelope gives the input back exactly for the short type id, a time in range and nothing after the body |
| SecretEnvelope.ForeignFrameIsRead | async-opcua-crypto/src/ecc.rs:824-912 | an envelope read under another type id and with a byte after the body, and not rewritten as it was |
| SecretEnvelope.SignerSignsWhatIsSent | async-opcua-crypto/src/ecc.rs:1349-1365 | filling in the signature does not change the bytes that were signed |
| SecretEnvelope.VerifierChecksWhatWasSigned | async-opcua-crypto/src/ecc.rs:1519-1529 | the verifier recomputes the bytes that were signed exactly when the time is not past the end of the range |
| SecretEnvelope.LateTimeIsNotVerified | async-opcua-crypto/src/ecc.rs:1519-1529 | a time one tick past the end: other bytes are checked than were signed |
| KeyedList.PutAllIsMapUpdate | async-opcua-fx/src/establish.rs:570-578 | merging keyed values is a map update in which the last write wins; keys stay distinct and keep their places |
| KeyedList.Merge | async-opcua-fx/src/establish.rs:570-578 | the loop replaces or appends entry by entry |
| FxCommands.PrefixTakesEffect | async-opcua-fx/src/establish.rs:151-194 | the effect is that of a prefix: up to and including the first item that fails, or all |
| FxCommands.EstablishIsAllOrNothing | async-opcua-fx/src/establish.rs:378-456 | control is established exactly when no group asked for is held by another; then all are held by the caller and nothing else changed, otherwise nothing changed |
| FxCommands.OthersKeepTheirLocks | async-opcua-fx/src/establish.rs:420-440 | a lock another client holds stays as it is |
| FxCommands.ReassignMeaning | async-opcua-fx/src/establish.rs:498-545 | reassigning succeeds exactly when every group is held, and adds or drops no lock |
| FxCommands.ReassignWrites | async-opcua-fx/src/establish.rs:498-545 | reassigning writes exactly the owners handed out up to the first group nobody holds, and fails exactly when it comes to one |
| FxCommands.ReassignLeavesLocksIff | async-opcua-fx/src/establish.rs:498-545 | whether or not it fails, the locks are as before exactly when every group handed over was handed to its holder |
| FxCommands.LastEndpointHolds | async-opcua-fx/src/establish.rs:498-545 | the last endpoint to list a group holds it afterwards |
| FxCommands.FailedReassignmentStays | async-opcua-fx/src/establish.rs:498-545 | an input: a failed reassignment that has changed an owner |
| FxRuns.PerformIsFramed | async-opcua-fx/src/establish.rs:151-194 | each command changes its own part of the state only |
| FxRuns.BundleLocks | async-opcua-fx/src/establish.rs:151-194 | commands without reassignment leave the locks or take exactly the groups asked for, none of them held by another |
| FxRuns.DispatchTakesAllOrNone | async-opcua-fx/src/establish.rs:151-194 | so does a dispatched bundle, whichever command fails |
| FxRuns.VerificationMeaning | async-opcua-fx/src/establish.rs:253-316 | entities verify exactly when there is a verifier, the caller already holds all their control groups and none is found bad |
| FxRuns.VerificationNeedsEarlierLocks | async-opcua-fx/src/establish.rs:151-194 | verification runs before control is established, so a bundle asking for both without holding the locks beforehand fails and takes none |
| FxRuns.RunsKeepKeysDistinct | async-opcua-fx/src/establish.rs:151-206 | from the empty state on, endpoint ids, connection ids and configuration keys stay distinct |
| FxRuns.ConnectionsOutliveEndpoints | async-opcua-fx/src/establish.rs:710-733 | in every reachable state, closing and removing endpoints leaves all connections |
| FxRuns.CloseMeaning | async-opcua-fx/src/establish.rs:710-733 | closing disables or removes the one endpoint, and fails exactly when there is none |
| FxRuns.CommunicateMeaning | async-opcua-fx/src/establish.rs:638-670 | a configuration updates the table of connections, or replaces it, and is refused exactly when it has none |
| FxRuns.ConfigureMeaning | async-opcua-fx/src/establish.rs:458-496 | configuration data updates the table of one endpoint, and fails exactly when there is no such endpoint |
| FxRuns.EnableMeaning | async-opcua-fx/src/establish.rs:672-708 | enables exactly the endpoints listed that there are, or all when none is listed; never fails; reports Good for every id listed |
| FxRuns.EnablingNothingIsReportedGood | async-opcua-fx/src/establish.rs:672-708 | an id that names no endpoint is reported Good and nothing changes |
| FxRuns.CreateMeaning | async-opcua-fx/src/establish.rs:336-376 | a new endpoint starts out empty, an existing one only changes its configuration |
| FxOrder.AssetsComeFirst | async-opcua-fx/src/establish.rs:19-29 | without a verifier, or when an asset is bad or not as expected, nothing else happens; the results end with it |
| FxOrder.VerificationComesBeforeChanges | async-opcua-fx/src/establish.rs:19-29 | when entities cannot be verified nothing changes at all |
| FxOrder.CreationComesBefore | async-opcua-fx/src/establish.rs:163-191 | when an endpoint cannot be created no lock, connection, reservation, data or switch changes |
| FxOrder.ControlComesBefore | async-opcua-fx/src/establish.rs:163-191 | nor when a group is held by another client |
| FxOrder.ConfigurationComesBefore | async-opcua-fx/src/establish.rs:163-191 | when an endpoint to configure is not there no group is handed over, no connection or reservation changes and nothing is enabled |
| FxOrder.ReassignmentComesBefore | async-opcua-fx/src/establish.rs:163-191 | when nobody holds a group to reassign no connection or reservation changes and nothing is enabled |
| FxOrder.ReservingSeesOldConnections | async-opcua-fx/src/establish.rs:580-616 | reserving is served by the connections from before the bundle, with a status for each request; when one fails the connections stay and nothing is enabled |
| FxOrder.CommunicationComesBefore | async-opcua-fx/src/establish.rs:618-670 | when a communication configuration is refused nothing is enabled |
| FxOrder.CreateThenConfigure | async-opcua-fx/src/establish.rs:336-376 | a bundle that creates and configures succeeds; every listed endpoint exists, its table updated by the data in order |
| FxOrder.EstablishThenReassign | async-opcua-fx/src/establish.rs:378-545 | a bundle that establishes and reassigns succeeds when no group is blocked; each group goes to the last endpoint listing it |
| FxOrder.ConfigureThenFailReassigning | async-opcua-fx/src/establish.rs:458-545 | data set in a bundle stays set when the reassignment after it fails |
| FxOrder.ClaimStatuses | async-opcua-fx/src/establish.rs:378-418 | each group's status: Good up to the first held by another, which is locked; nothing done after it |
| FxOrder.HandOverStatuses | async-opcua-fx/src/establish.rs:498-545 | each group's status: Good up to the first nobody holds, which requires a lock; nothing done after it |
| FxOrder.EntityStatus | async-opcua-fx/src/establish.rs:253-316 | an entity is reported by the first group that is not the caller's, or else by the verifier |
| FxOrder.UnsupportedReports | async-opcua-fx/src/establish.rs:253-284 | without a verifier each entity to be verified is reported as not supported, and no others |
| FxOrder.CreationStatus | async-opcua-fx/src/establish.rs:336-376 | the status of a created endpoint tells whether its definition is complete |
| FxOrder.ConfigurationStatuses | async-opcua-fx/src/establish.rs:458-496 | each datum's status tells whether its endpoint is there |
| FxOrder.CommunicationStatus | async-opcua-fx/src/establish.rs:618-670 | the status of a configuration tells whether there is anything to set up |
| FxEstablish.FxConnectionState.AcquireControlGroup | async-opcua-fx/src/establish.rs:420-440 | takes a group unless another holds it, and tells whether it was free |
| FxEstablish.FxConnectionState.ReleaseAcquired | async-opcua-fx/src/establish.rs:442-456 | drops the listed locks the owner holds |
| FxEstablish.FxConnectionState.EstablishControl | async-opcua-fx/src/establish.rs:378-418 | acquiring group by group and releasing on failure is all or nothing, also with repeated groups, with a status for every group |
| FxEstablish.FxConnectionState.ReassignControl | async-opcua-fx/src/establish.rs:498-545 | hands groups over up to the first nobody holds, with a status for every group |
| FxEstablish.FxConnectionState.VerifyAssets | async-opcua-fx/src/establish.rs:209-251 | results up to the first bad or unexpected one; not supported without a verifier |
| FxEstablish.FxConnectionState.VerifyFunctionalEntities | async-opcua-fx/src/establish.rs:253-316 | locks are required before an entity is verified |
| FxEstablish.FxConnectionState.CreateConnectionEndpoints | async-opcua-fx/src/establish.rs:336-376 | endpoints are created or reconfigured in turn, up to the first incomplete one |
| FxEstablish.FxConnectionState.SetConfigurationData | async-opcua-fx/src/establish.rs:458-496 | data is merged endpoint by endpoint, up to the first unknown one |
| FxEstablish.FxConnectionState.ReserveCommunicationIds | async-opcua-fx/src/establish.rs:580-616 | requests are served in turn, up to the first not granted in full |
| FxEstablish.FxConnectionState.SetCommunicationConfiguration | async-opcua-fx/src/establish.rs:618-670 | configurations are applied in turn, up to the first refused |
| FxEstablish.FxConnectionState.EnableCommunication | async-opcua-fx/src/establish.rs:672-708 | enables the endpoints listed, or all when none is |
| FxEstablish.FxConnectionState.ProcessEstablishConnections | async-opcua-fx/src/establish.rs:151-194 | performs the requested commands in the order of the specification, up to the first that fails |
| FxEstablish.FxConnectionState.CloseConnectionEndpoint | async-opcua-fx/src/establish.rs:710-733 | removes or disables the endpoint in place |
| FxEstablish.FxConnectionState.ProcessCloseConnections | async-opcua-fx/src/establish.rs:197-207 | closes the endpoints in turn, each against what the ones before left, with one status each |
| Crc.CalculateCrc | async-opcua-safety/src/crc.rs:2-15 | the byte-wise loop computes the shift register fed bit by bit, lowest bit first (section 12.1 of RFC 3720) |
| Crc.CrcIsAffine | async-opcua-safety/src/crc.rs:2-15 | the checksum distributes over the exclusive or of three messages of one length |
| Crc.CollisionIffZeroSyndrome | async-opcua-safety/src/crc.rs:2-15 | two messages of one length collide exactly when their difference leaves an empty register empty |
| Crc.RunIsShifts | async-opcua-safety/src/crc.rs:4-13 | feeding up to 32 bits one by one is meeting them at once and shifting |
| Crc.ShiftIsInjective | async-opcua-safety/src/crc.rs:7-12 | no two registers shift to the same one |
| Crc.BurstsAreDetected | async-opcua-safety/src/crc.rs:2-15 | messages that differ only within 32 consecutive bits have different checksums |
| Crc.LongerBurstsMayPass | async-opcua-safety/src/crc.rs:2-15 | with 33 bits they may not: two messages of five bytes |
| Crc.ChecksumOfChecked | async-opcua-safety/src/crc.rs:2-15 | a message followed by its own checksum always has the same checksum, 0x48674BC7; the empty message has zero |
| PHash.Expand | async-opcua-crypto/src/hash.rs:50-113 | exactly the length asked for, the start of the stream of section 5 of RFC 5246 |
| PHash.ShorterIsPrefix | async-opcua-crypto/src/hash.rs:50-113 | a shorter expansion is a prefix of a longer one |
| PHash.ByteAt | async-opcua-crypto/src/hash.rs:50-113 | each byte of the result, by block and place in the block |
| PHash.FirstBlocks | async-opcua-crypto/src/hash.rs:50-113 | the first two blocks, written out |

## Left out

- SQL itself, connection pools and transactions that fail: a page fetch and a write transaction are atomic steps; tokens are fresh numbers.
- Times between ticks and open-ended times of historical reads: times are whole ticks.
- Historical events, annotations, structure data and `read_raw_reverse`: they repeat the same patterns.
- The intervals and aggregates computed by `read_processed` after its collecting loop: not part of this model.
- `set_next` and `reset` of the lock-free handle factory racing with calls.  `first + 1` wraps, as in builds without overflow checks; with a first handle of u32::MAX, builds with them panic there.
- Namespaces of the type tree, and lookups of properties by browse path.
- References.Run: leaves out `delete_node_references` without the far ends, because it drops one side only; `References.HalfDeletionAgreesIffUnlinked` says when that is harmless.
- The cache of subtype answers inside the filter of the reference iterator: the filter is a function.
- The order in which hash sets are walked: any order is allowed.
- Messages of certificate findings, DER parsing and the host-name and application-URI checks, which the pipeline leaves to its caller.
- The tables of allowed algorithms and key lengths of each security policy: a parameter.
- UTF-8 validation of strings in the envelope: a parameter; encryption, key agreement and key derivation around payload and envelope.
- Reading of the envelope works on the bytes that are left instead of a cursor with a position.
- SecretPayload.BuildSecretPayload: assumes that the sum of the lengths fits a 64-bit size, as two lengths below 2^31 do.
- `IdReservation`: what it hands out is a parameter that may depend on all earlier requests; conversion of connection settings, and verifier callbacks that change state.
- Result fields of FX endpoints that are always Good.
