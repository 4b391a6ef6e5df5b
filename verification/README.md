# A verified model of httk-store

This project models the parts of httk-store whose correctness rests on state, order or exact
arithmetic, and proves what they promise. Each module follows one component of the store; methods and
classes follow the code's own loops and updates, and are proved against functions whose properties are
then stated as lemmas. `dafny verify dfyconfig.toml` checks everything.

* **The id ledger** (`LedgerFormat`, `LedgerSpec`, `IdLedgers`, `LedgerRuns`, `LedgerTheorems`,
  `LedgerCalls`, `LedgerLifecycle`). A signed, append-only allocator of entry ids. The writer and the
  validator are separate code; the model keeps them separate and proves that they agree on every run of
  any number of sessions over one file, that ids are never reused, and that a key is re-bound only by
  superseding. What each call answers and leaves behind is stated from the records alone. Signing is
  uninterpreted.
* **Leases** (`Leases`, `LeaseGrants`). The handshake between writers and fscks over shared MongoDB
  documents, one step per database operation. A granted fsck is alone as long as the heartbeats of
  granted writers and of fscks that rely on their document stay fresh. Neither assumption can be dropped:
  wherever an fsck takes over from one that relies on its document, or a poll that lets it pass misses a
  granted writer, the two can go on to be granted side by side. When leases are granted, taken over and
  given back is stated exactly.
* **Fsck** (`FsckModel`, `Fsck`, `FsckTheorems`). Repair, mark and sweep in place: the batched worklist
  computes exactly reachability, the sweep deletes exactly the unreachable dependency documents, and
  neither pass undoes the other. What is followed, kept and repaired is stated from the stored cells.
* **Filters** (`FilterModel`, `FilterTranslation`, `FilterLiterals`, `FilterRefusals`). OPTIMADE filter
  trees and search expressions, each with its own three-valued meaning over rows, and the translation
  between them: where it selects too much, too little or has another truth value is stated exactly, for
  every row, and so is which filters are refused and what each served test asks of a stored row.
* **Paging** (`Slices`, `Federation`, `RemotePaging`, `PagingTokens`, `TokenLimits`, `Base64Url`). Global
  offset and limit over lazily consumed parts equal a slice of the whole; slices of slices, lengths and
  counts agree; continuation tokens are a bijection.
* **Exact text** (`Arith`, `Decimals`, `Tensors`, `FractionText`, `ScaledFractions`). Printers and
  parsers of tensors and fractions that undo each other, canonical and shortest forms, and the bounded
  256-bit comparison of fraction products.
* **Records** (`Documents`, `DocumentKeys`, `DocumentValidator`, `Evaluator`, `EvaluatorLaws`,
  `SchemaUpgrade`, `StagedLoading`). Record documents survive the round trip and satisfy the validator
  built for them, which refuses exactly the flawed ones; decided predicates stay decided when more becomes
  known; accepted schema upgrades keep every row and compose along any chain; staged shards are loaded at
  most once exactly when no refused insert lands after it was counted.

Where a documented property does not hold of the code, the code is modelled and the exact condition is
proved:

* The ledger's documentation says that segments partition the records exactly. The validator never
  looks at the sign of a segment's record count, so an accepted container partitions its records
  exactly when no count is negative or none is positive (`LedgerTheorems.AcceptedSegmentsPartition`,
  with `BackwardSegmentIsAccepted` as the witness).
* A property the server does not know is documented as one with unknown value, which matches nothing.
  Tests of it translate to a filter that is false, so `NOT _other_x = 1` matches every row
  (`FilterTranslation.NegatedUnknownMatchesAll`).
* Generated handler tables answer `IS KNOWN` and `IS UNKNOWN` by a constant. That is right exactly on
  rows where the property has a value (`FilterTranslation.LeafIsFaithful`).
* A whole filter selects a row on which it does not hold exactly where it `Gains` and leaves out one on
  which it holds exactly where it `Loses`; both are defined along the filter from these two tests
  (`FilterTranslation.TranslationIsFaithful`). On rows where the constant tests are right, decided filters
  keep their value, and selecting a wrong row takes a test of an unknown property under an odd number of
  negations (`FilterTranslation.DecidedIsKept`).
* The schema resolver does not reject two fields that share a document key. Derived fields, which it lists
  last, are written but not read back. For fields kept under one key each, every record comes back from its
  document exactly when only derived fields share keys (`DocumentKeys.RecordsComeBackExactly`, which also
  decides other orders). A shared channel of a field with several columns may lose a value without notice
  (`Documents.CollidingNamesLoseAValue`) or be harmless (`DocumentKeys.SharedChannelMayBeHarmless`).
* The sweep leaves a reference dangling that resolved before exactly when a document of a known collection
  without a valid role refers to a dependency document that nothing else reaches
  (`FsckModel.SweepDanglesExactly`, with `RolelessReferenceDangles` as the witness).
* A stage receives a row twice when a refused insert lands after the count that found nothing
  (`StagedLoading.LateRowsLandTwice`); whatever becomes of the second insert, it does not exactly when no
  row of the first is still on its way (`StagedLoading.RetryIsSafeExactly`).
* A failure reported as clean may leave rows in the stage (`StagedLoading.CleanFailureLeavesRows`): it is
  reported exactly when a count of the call stays unanswered, and the stage has received nothing exactly
  when that was the count before the first insert or no insert had any effect
  (`StagedLoading.FailsCleanlyExactly`, `StagedLoading.CleanFailureIsClean`).

## Model

| member | source | states |
|---|---|---|
| LedgerFormat.ValidateSegments | src/httk/store/id_ledger.py:950-1040 | the validation loop accepts exactly the segment tables that are numbered, chained, within range, signed as required, monotone in their bases and matched by the record numbers |
| LedgerFormat.ValidateEntries | src/httk/store/id_ledger.py:1183-1237 | the entry loop accepts exactly the records that conform, are never reused and supersede exactly the prior id, and yields the live bindings |
| LedgerFormat.TargetsDecide | src/httk/store/id_ledger.py:1234-1237 | checking the pending alias targets after the loop is checking every record's target against all assigned ids |
| LedgerFormat.LookupStep | src/httk/store/id_ledger.py:465-476 | a record re-binds its own key to its own id and no other key |
| LedgerSpec.HighestBounds | src/httk/store/id_ledger.py:607-622 | no id of a family carries a number above the family's high-water mark |
| LedgerSpec.FreshIdIsNew | src/httk/store/id_ledger.py:580-593 | the next printed id is an id no record of any family holds |
| LedgerSpec.AppendKeepsEntries | src/httk/store/id_ledger.py:595-600 | appending a record that supersedes the key's current id, with a new id or a known target, keeps every record sound |
| LedgerSpec.AssignKeeps | src/httk/store/id_ledger.py:370-413 | assigning keeps the session's records, bases and live map sound in every branch |
| LedgerSpec.AliasKeeps | src/httk/store/id_ledger.py:415-463 | aliasing keeps the session's records, bases and live map sound in every branch |
| LedgerSpec.GrowthKeepsEntries | src/httk/store/id_ledger.py:760-796 | adding families keeps every earlier record conforming |
| LedgerSpec.OpenKeeps | src/httk/store/id_ledger.py:264-366 | an opened session is sound whatever bases, series, keys and mode it was opened with |
| IdLedgers.LedgerFile.AcquireLock | src/httk/store/id_ledger.py:817-836 | exclusive creation of the lock file succeeds exactly when it was absent |
| IdLedgers.IdLedger.Create | src/httk/store/id_ledger.py:202-261 | creating checks the bases, takes the lock, refuses an existing file and writes the signed empty segment, or undoes the lock and leaves the disk as it was |
| IdLedgers.IdLedger.Open | src/httk/store/id_ledger.py:264-366 | opening validates, reconciles bases and series, and releases the lock again on every error |
| IdLedgers.IdLedger.Assign | src/httk/store/id_ledger.py:370-413 | the new state and result are those of the assignment function, errors included |
| IdLedgers.IdLedger.Alias | src/httk/store/id_ledger.py:415-463 | the new state and result are those of the alias function, errors included |
| IdLedgers.IdLedger.LookupId | src/httk/store/id_ledger.py:465-476 | the live map gives the id of the newest record of the key |
| IdLedgers.IdLedger.Bindings | src/httk/store/id_ledger.py:478-510 | every live key is listed with the id it resolves to and the family that id was assigned in, so no alias is left unresolved |
| IdLedgers.IdLedger.Close | src/httk/store/id_ledger.py:514-539 | closing writes only a changed ledger, keeps the lock when it cannot sign, and is idempotent |
| IdLedgers.IdLedger.Mint | src/httk/store/id_ledger.py:580-593 | minting appends one record with the next number of the family, or fails unchanged |
| IdLedgers.IdLedger.NextNumber | src/httk/store/id_ledger.py:607-622 | the scan over all records finds the family's largest number |
| IdLedgers.IdLedger.Write | src/httk/store/id_ledger.py:624-691 | one append adds the unwritten records with the one segment that signs them |
| LedgerRuns.SoundIsAccepted | src/httk/store/id_ledger.py:857-898 | what writers leave on disk is what the independent validator demands |
| LedgerRuns.TruncationIsSound | src/httk/store/id_ledger.py:32-35 | dropping the newest segments with exactly their records leaves an older sound ledger |
| LedgerRuns.WriteKeepsDisk | src/httk/store/id_ledger.py:624-691 | a write keeps the container sound and makes it hold exactly the session's records and bases |
| LedgerRuns.OpenLocks | src/httk/store/id_ledger.py:264-366 | opening takes the lock exactly for a writer and touches nothing else on disk |
| LedgerRuns.StepKeepsInv | src/httk/store/id_ledger.py:202-539 | every create, open, assign, alias and close keeps disk, sessions and lock consistent |
| LedgerRuns.RunKeepsInv | src/httk/store/id_ledger.py:202-539 | so does every run of them, in any interleaving of sessions |
| LedgerTheorems.EveryRunIsAccepted | src/httk/store/id_ledger.py:950-1040 | after any run the container passes the validator under every signature policy the run's keys satisfy |
| LedgerTheorems.ReopenIsExact | src/httk/store/id_ledger.py:264-366 | closing and reopening gives back exactly the records, live bindings, bases and segment count |
| LedgerTheorems.WritersExclude | src/httk/store/id_ledger.py:817-836 | no two sessions ever write the same ledger at once |
| LedgerTheorems.IdsAreNeverReused | src/httk/store/id_ledger.py:580-622 | in every run no id is bound twice, within or across families, and a family's numbers strictly increase |
| LedgerTheorems.NumbersAscend | src/httk/store/id_ledger.py:580-622 | in the container of any run a later assignment has another id than an earlier one, and a higher number in the same family |
| LedgerTheorems.StepExtends | src/httk/store/id_ledger.py:624-691 | one call only adds records and segments to the container |
| LedgerTheorems.HistoryIsKept | src/httk/store/id_ledger.py:37-46 | a longer run's container extends the shorter run's: no record or segment is ever edited or removed |
| LedgerTheorems.LookupMovesOnlyBySupersession | src/httk/store/id_ledger.py:37-46 | when a key resolves to another id later, a later record of that key superseded the earlier id |
| LedgerTheorems.CallMovesOnlyItsKey | src/httk/store/id_ledger.py:370-463 | a call re-binds no key but its own, and a known key only when told to supersede |
| LedgerTheorems.AssignIsIdempotent | src/httk/store/id_ledger.py:370-413 | an assigned id is what the key resolves to, and asking again returns it and changes nothing |
| LedgerTheorems.TruncationIsAccepted | src/httk/store/id_ledger.py:30-35 | rolling a reachable container back to its first segments and exactly their records is accepted as an older ledger |
| LedgerTheorems.RenumberingIsRejected | src/httk/store/id_ledger.py:1024-1029 | removing, adding or renumbering records without changing the segments is refused, verified or not |
| LedgerTheorems.CoverBalance | src/httk/store/id_ledger.py:986-1022 | along a chained segment table, forward coverage of a record less backward coverage is the net distance |
| LedgerTheorems.AcceptedSegmentsPartition | src/httk/store/id_ledger.py:30-32 | an accepted container's segments partition its records exactly when no count is negative, or none is positive |
| LedgerTheorems.BackwardSegmentIsAccepted | src/httk/store/id_ledger.py:986-1022 | three sealed segments that cover a record twice pass the validator under every policy the signing keys satisfy |
| LedgerCalls.LookupIsNewest | src/httk/store/id_ledger.py:465-476 | a key resolves to what its newest record binds it to, and is unknown exactly when no record has it |
| LedgerCalls.AliasIsExact | src/httk/store/id_ledger.py:415-463 | aliasing succeeds exactly for a new key and an assigned id, for an alias asked for again, and for an assignment told to give way to another assigned id; the key then is an alias of that id and resolves to it, no id is assigned, and a refusal changes nothing |
| LedgerCalls.AssignIsExact | src/httk/store/id_ledger.py:370-413 | assigning succeeds exactly for a new key, an alias told to give way, and an assignment asked for again in its family; the key then is assigned the returned id in that family, the one it had or a minted one |
| LedgerCalls.MintBinds | src/httk/store/id_ledger.py:580-600 | a minted id is new, carries the base of its family and the number after the highest, and is bound to the key |
| LedgerCalls.HighestIsHeld | src/httk/store/id_ledger.py:607-622 | the high-water mark of a family is zero or the number of one of its ids |
| LedgerLifecycle.CreateIsExact | src/httk/store/id_ledger.py:202-261 | creating succeeds exactly with usable bases, a free lock, no file and a signing key, and leaves the lock held and a file with the one signed empty segment; a failure leaves all as it was |
| LedgerLifecycle.OpenIsExact | src/httk/store/id_ledger.py:264-366 | opening succeeds exactly when a writer finds the lock free, the validator accepts the file and the expected series and families fit; the session holds what the file records under the expected bases, and is dirty exactly when they add a family |
| LedgerLifecycle.UnitedBases | src/httk/store/id_ledger.py:760-796 | expected families are reconciled exactly when every stored family keeps its base and added ones leave the map usable |
| LedgerLifecycle.CloseIsExact | src/httk/store/id_ledger.py:514-540 | closing fails exactly for an open writer with something to write and no key; otherwise it gives back the lock and adds exactly the new records with one segment signed over them when there are changes |
| LedgerLifecycle.AcceptedRecordsStand | src/httk/store/id_ledger.py:1183-1237 | in an accepted container every record conforms to the live bases, repeats no id, names an assigned target, and supersedes exactly what its key was bound to |
| LedgerLifecycle.AcceptedSegmentsAreSealed | src/httk/store/id_ledger.py:986-1167 | in an accepted container every segment is stamped for the ledger, its series and its place, keeps earlier bases, and its seal over its own records verifies, by a trusted key where any is named |
| LedgerLifecycle.AcceptedIsALedger | src/httk/store/id_ledger.py:926-1040 | an accepted container carries the format, version, series and identity, a chained segment table from record 1, and distinct live bases |
| LedgerLifecycle.CoveredRecords | src/httk/store/id_ledger.py:1015-1020 | a segment row covers the records from its start on, positions before the first counting from the end, and fails exactly when its start lies before the front |
| LedgerLifecycle.RunsAreStepByStep | src/httk/store/id_ledger.py:202-540 | a run makes its calls one after the other |
| LedgerLifecycle.StepsAreCalls | src/httk/store/id_ledger.py:202-540 | a call on a session changes that session as the call does, no other, and the disk only by closing; a session joins when its creation or opening succeeds |
| Leases.NextKeepsInv | src/httk/store/backend/mongo/leases.py:126-202 | every single database operation of either side keeps the handshake's invariant, under the freshness assumptions |
| Leases.ExecutionKeepsInv | src/httk/store/backend/mongo/leases.py:126-202 | so does every interleaving of operations by any number of writers and fscks |
| Leases.Exclusion | src/httk/store/backend/mongo/leases.py:160-202 | while heartbeats stay fresh, no state has a granted fsck beside a granted writer or a second granted fsck, and the granted fsck owns the lock document |
| Leases.GrantsStayApart | src/httk/store/backend/mongo/leases.py:190-202 | past its two freshness reads an fsck shares no state with a granted writer |
| Leases.HoldersStayOwners | src/httk/store/backend/mongo/leases.py:160-188 | an fsck that has refreshed its document and not given up still owns it |
| Leases.NextKeepsDisplaced | src/httk/store/backend/mongo/leases.py:75-88 | a displaced fsck leaves at its next refresh and none of its operations touches another owner's document |
| Leases.DisplacedForGood | src/httk/store/backend/mongo/leases.py:75-88 | an fsck whose document was taken over or cleared stays displaced or is gone, in every later state, fresh or not |
| Leases.DisplacedIsHarmless | src/httk/store/backend/mongo/leases.py:75-88 | it never regains the document: refreshing ends its run and releasing leaves the document alone |
| Leases.LostDocumentGrantsTwo | src/httk/store/backend/mongo/leases.py:160-217 | in any run, when an fsck that relies on its document loses it to a takeover, or to a cleared lock before another one starts, both can go on to be granted |
| Leases.MissedWriterStaysGranted | src/httk/store/backend/mongo/leases.py:107-202 | in any run, when a poll lets an fsck pass while a granted writer is not fresh, and leases are not stale at once, both can go on to be granted side by side |
| Leases.PollingFsckMustStayFresh | src/httk/store/backend/mongo/leases.py:160-202 | a run with fresh granted holders, in which a paused polling fsck is displaced and then granted beside its successor |
| Leases.WriterMustStayFresh | src/httk/store/backend/mongo/leases.py:107-123 | a run in which a writer goes stale and refreshes between the two freshness reads and is missed by both |
| LeaseGrants.JudgmentIsExact | src/httk/store/backend/mongo/leases.py:119-202 | in any run an fsck that judges is granted exactly when it is forced or every writer document still there was young when it last listed the fresh ones, and leaves otherwise |
| LeaseGrants.FsckGrantsAreJudged | src/httk/store/backend/mongo/leases.py:189-199 | an fsck is granted by its judgment alone, judges after its listing alone, and lists exactly after a poll that finds no young writer |
| LeaseGrants.WriterGrantIsExact | src/httk/store/backend/mongo/leases.py:126-157 | a writer is granted exactly when it finds a layout and no fsck document after its insert, and leaves when it finds otherwise |
| LeaseGrants.ReplacersAreForced | src/httk/store/backend/mongo/leases.py:169-183 | only forced fscks try to replace a document |
| LeaseGrants.DocumentChangesHands | src/httk/store/backend/mongo/leases.py:75-217 | in any run the lock document is inserted where there is none, taken over from an expired owner by a forced fsck, given back by its owner or cleared when expired, and changes hands in no other way |
| LeaseGrants.AskingIsAnswered | src/httk/store/backend/mongo/leases.py:167-183 | an insert gets the document exactly when there is none, a replacement exactly when it has expired; whoever is refused is gone, unless forced and yet to replace |
| LeaseGrants.HeartbeatsAreOwn | src/httk/store/backend/mongo/leases.py:75-84 | a heartbeat moves only when its owner inserts or refreshes, to the present, and every such refresh moves it |
| LeaseGrants.RefreshNeedsADocument | src/httk/store/backend/mongo/leases.py:75-84 | a writer whose document is missing at a refresh leaves, and a refresh is nothing to a process without a lease |
| LeaseGrants.GoneLeavesNothing | src/httk/store/backend/mongo/leases.py:86-100 | in any run a process that is gone has left no writer document and no lock document behind |
| LeaseGrants.ReleaseLeaves | src/httk/store/backend/mongo/leases.py:86-202 | a failed acquisition leaves, a release ends the process, and a writer document goes in no other way |
| FsckModel.MarkIsLeast | src/httk/store/backend/mongo/fsck.py:235-315 | the marked set is the least one that holds the roots and is closed under references |
| FsckModel.SweepKeepsMark | src/httk/store/backend/mongo/fsck.py:353-371 | sweeping leaves reachability as it was |
| FsckModel.SweepIsIdempotent | src/httk/store/backend/mongo/fsck.py:353-371 | marking and sweeping again deletes nothing |
| FsckModel.SweepLeavesNoDangling | src/httk/store/backend/mongo/fsck.py:353-371 | no reference of a surviving document that resolved before the sweep dangles after it |
| FsckModel.SweepDeletesExactlyGarbage | src/httk/store/backend/mongo/fsck.py:353-371 | the sweep deletes exactly the unreachable dependency documents of the known collections |
| FsckModel.SweepDanglesExactly | src/httk/store/backend/mongo/fsck.py:235-371 | no reference that resolved before dangles after the sweep, exactly when documents without a valid role refer to no dependency document that nothing else reaches |
| FsckModel.RolelessReferenceDangles | src/httk/store/backend/mongo/fsck.py:235-315 | a document without a valid role survives while what it alone refers to is swept |
| FsckModel.RolesMakeMentionsEdges | src/httk/store/backend/mongo/fsck.py:235-315 | with valid roles everywhere every held reference is followed |
| FsckModel.BackingOfEntry | src/httk/store/storage_layout.py:533-546 | with unique record names each record name leads to its own collection |
| FsckModel.RepairCleans | src/httk/store/backend/mongo/fsck.py:151-232 | with conflict removal the pass leaves every row naming a backing document with the row's content id and every text-content-id main document dispatched |
| FsckModel.CleanIsFixed | src/httk/store/backend/mongo/fsck.py:151-232 | on clean rows the pass changes nothing |
| FsckModel.SweepKeepsClean | src/httk/store/backend/mongo/fsck.py:353-371 | the sweep never undoes the repair |
| FsckModel.FsckLeavesClean | src/httk/store/backend/mongo/fsck.py:462-535 | one repairing fsck leaves all families clean, before and after its sweep |
| FsckModel.SameContentsSameMark | src/httk/store/backend/mongo/fsck.py:235-315 | marking does not depend on whether an empty dispatch collection exists |
| FsckModel.SecondFsckChangesNothing | src/httk/store/backend/mongo/fsck.py:462-535 | a second run repairs no row, removes no row and sweeps no document |
| FsckTheorems.EdgesAreCells | src/httk/store/backend/mongo/fsck.py:285-315 | a document with a valid role refers exactly to the sids its reference fields hold and the named column of its child elements hold, in known collections |
| FsckTheorems.RootsAreStarts | src/httk/store/backend/mongo/fsck.py:253-282 | marking starts exactly from main-role documents and from what the dispatch rows of families with several records name |
| FsckTheorems.MarkedStays | src/httk/store/backend/mongo/fsck.py:235-394 | every start is marked, and so is whatever a cell of a marked document with a valid role names; what is marked and stored stays as it is through the sweep |
| FsckTheorems.MarkedForAReason | src/httk/store/backend/mongo/fsck.py:235-315 | a marked node is a start or is named by a cell of a marked document with a valid role |
| FsckTheorems.SweepTouchesDependenciesOnly | src/httk/store/backend/mongo/fsck.py:353-394 | the sweep leaves dispatch rows, unknown collections and documents of other roles alone and edits none |
| FsckTheorems.SoundRows | src/httk/store/backend/mongo/fsck.py:169-190 | a dispatch row is sound exactly when its record is one of the family and the document it names there has the row's text content id |
| FsckTheorems.RepairKeepsRows | src/httk/store/backend/mongo/fsck.py:165-232 | the pass keeps every row when it may not remove conflicts, and otherwise exactly the sound ones; all others are rows it wrote for main documents under their content ids |
| FsckTheorems.RepairCoversMains | src/httk/store/backend/mongo/fsck.py:197-232 | after the pass each main document with a text content id has its row, or, unless conflicts were removed, is named by another |
| FsckTheorems.PassTouchesRowsOnly | src/httk/store/backend/mongo/fsck.py:151-232 | the pass edits no document, and no dispatch rows but those of families with several records |
| Fsck.Worklist.Enqueue | src/httk/store/backend/mongo/fsck.py:248-251 | a sid of a known collection is marked once and queued once, anything else ignored |
| Fsck.Worklist.VisitDocument | src/httk/store/backend/mongo/fsck.py:279-315 | exactly what the schema's links hold in known collections is marked |
| Fsck.Worklist.VisitLink | src/httk/store/backend/mongo/fsck.py:279-315 | a reference contributes its sid, a child list the sids of its named column, anything malformed nothing |
| Fsck.Worklist.VisitElements | src/httk/store/backend/mongo/fsck.py:303-310 | the elements of a child list contribute the sids of the named column |
| Fsck.Worklist.PopBatch | src/httk/store/backend/mongo/fsck.py:284-284 | up to one batch leaves the queue and counts as visited, with every node queued at most once |
| Fsck.Worklist.VisitBatch | src/httk/store/backend/mongo/fsck.py:279-315 | a batch is visited once, with all its edges marked and nothing marked but edges of marked nodes |
| Fsck.SeedMains | src/httk/store/backend/mongo/fsck.py:253-267 | the seeds are exactly the main-role documents of the known collections |
| Fsck.SeedDispatches | src/httk/store/backend/mongo/fsck.py:269-277 | and exactly the targets the dispatch rows name |
| Fsck.Drain | src/httk/store/backend/mongo/fsck.py:279-315 | the batched loop ends, closed under references and within what is reachable |
| Fsck.Mark | src/httk/store/backend/mongo/fsck.py:235-315 | the worklist returns exactly the reachable nodes |
| Fsck.Store.RepairFamily | src/httk/store/backend/mongo/fsck.py:151-232 | unsound rows go only when told to, sound rows stay, and each main document gets its row unless the unique index leaves no room |
| Fsck.Store.RemoveUnsound | src/httk/store/backend/mongo/fsck.py:167-191 | exactly the unsound rows go, and only when told to |
| Fsck.Store.InsertMissing | src/httk/store/backend/mongo/fsck.py:193-232 | every main document of a backing ends up covered and nothing but its rows is inserted |
| Fsck.Store.IntegrityPass | src/httk/store/backend/mongo/fsck.py:151-232 | every multi-record family is repaired and nothing else is touched |
| Fsck.Store.Sweep | src/httk/store/backend/mongo/fsck.py:353-371 | deleting in place equals removing the unmarked dependency documents |
| Fsck.Store.RunFsck | src/httk/store/backend/mongo/fsck.py:462-535 | repair, then mark, then sweep, the sweep skipped beside unattributed collections |
| FilterTranslation.SimpleHandlersAreOk | src/httk/store/query/optimade_filters.py:853-911 | the generated handler table gives HAS only to lists and tests nullity on the property's own field |
| FilterTranslation.SetHandler | src/httk/store/query/optimade_filters.py:497-523 | the accumulating set handler holds exactly when the stored list satisfies HAS ALL, HAS ANY or HAS ONLY |
| FilterTranslation.SetExprMeans | src/httk/store/query/optimade_filters.py:497-523 | the set expression means containment of the stored values |
| FilterTranslation.FormatValues | src/httk/store/query/optimade_filters.py:203-253 | list constants are converted one by one, the first misfit deciding the error |
| FilterTranslation.InversionIsFaithful | src/httk/store/query/optimade_filters.py:155-155 | swapping a constant from left to right with the inverted operator keeps the comparison, and inverting twice is nothing |
| FilterTranslation.CompareExprMeans | src/httk/store/query/optimade_filters.py:380-494 | identity, number, text, timestamp and constant comparisons mean the comparison of the typed constant |
| FilterTranslation.MatchExprMeans | src/httk/store/query/optimade_filters.py:393-456 | string matching means the substring test on the property's value |
| FilterTranslation.AbsentTestNeverHolds | src/httk/store/query/optimade_filters.py:327-377 | a test of an unknown property is unknown by its meaning and translates to a filter that never holds |
| FilterTranslation.LeafIsFaithful | src/httk/store/query/optimade_filters.py:656-847 | a node over the entry's own properties translates to what it means exactly when the property is recognized and a constant nullity test is made where it has a value |
| FilterTranslation.SwappedLeafIsSame | src/httk/store/query/optimade_filters.py:771-776 | the node handed to the resolver with its operands swapped asks the same |
| FilterTranslation.SemiJoinMeans | src/httk/store/query/optimade_filters.py:626-645 | given an exact resolver, the rewritten node means that some related entry satisfies the stripped node |
| FilterTranslation.RelatedIsFaithful | src/httk/store/query/optimade_filters.py:580-600 | each dotted node means that some related entry, chosen for that node alone, satisfies it |
| FilterTranslation.TranslationMeans | src/httk/store/query/optimade_filters.py:560-847 | the search expression has on every row the value of the filter tree in which tests of unknown properties are false, constant nullity tests of properties without value are turned round, and everything else means what it says |
| FilterTranslation.TranslationIsFaithful | src/httk/store/query/optimade_filters.py:560-847 | on every row the translation selects what does not hold exactly where the filter gains, leaves out what holds exactly where it loses, and has another truth value exactly where it does either |
| FilterTranslation.PolarityBounds | src/httk/store/query/optimade_filters.py:650-655 | where constant nullity tests are right, only tests of unknown properties under an odd number of negations make a filter gain, only those under an even number make it lose, and neither makes a decided value wrong |
| FilterTranslation.ErrorsAreExact | src/httk/store/query/optimade_filters.py:650-655 | along conjunctions, disjunctions and negations the two wrong tests add up to exactly the places where value and meaning differ |
| FilterTranslation.DecidedIsKept | src/httk/store/query/optimade_filters.py:560-847 | where constant nullity tests are right a decided filter keeps its value, the selected rows are right exactly where it does not gain, tests of unknown properties under even negations select no wrong row, and without any the values always agree |
| FilterTranslation.NegatedAbsentTest | src/httk/store/query/optimade_filters.py:327-377 | under any number of negations a test of an unknown property means unknown, and its translation holds on every row or on none by the parity |
| FilterTranslation.NegatedUnknownMatchesAll | src/httk/store/query/optimade_filters.py:88-93 | `NOT _other_x = 1` translates to a filter that matches every row, while its meaning is unknown |
| FilterTranslation.ConstantKnownTest | src/httk/store/query/optimade_filters.py:293-306 | a constant nullity test is right exactly on rows where the property has a value |
| FilterLiterals.LiteralsStand | src/httk/store/query/optimade_filters.py:203-253 | a literal is read as the value it is written for in the declared type, and is a type mismatch exactly when it is of another kind or a fraction for an integer |
| FilterLiterals.ComparesRelates | src/httk/store/query/optimade_filters.py:157-166 | comparisons are equality and the order of numbers, of truth values and of texts by their first difference |
| FilterLiterals.ComparisonAsks | src/httk/store/query/optimade_filters.py:380-494 | a translated comparison is true exactly on rows whose stored value relates to the value the literal is written for |
| FilterLiterals.TimestampAsks | src/httk/store/query/optimade_filters.py:466-494 | a timestamp comparison is true exactly on rows whose stored value relates to the UTC spelling, and is refused exactly when the text is no timestamp |
| FilterLiterals.MisfitsAreRefused | src/httk/store/query/optimade_filters.py:203-253 | a comparison with an own property is a type mismatch exactly when the literal does not fit the declared type or is no timestamp |
| FilterLiterals.LiteralOnTheLeft | src/httk/store/query/optimade_filters.py:758-794 | a literal on the left asks the same of the values the other way round |
| FilterLiterals.MatchAsks | src/httk/store/query/optimade_filters.py:393-413 | a match is true exactly on rows whose stored text is the literal with something after it, before it, or around it |
| FilterLiterals.TypeAsks | src/httk/store/query/optimade_filters.py:416-463 | the entry type is compared and matched as the constant text it is |
| FilterLiterals.NullityAsks | src/httk/store/query/optimade_filters.py:309-324 | a test of nullity made on the field is true exactly where the field has a value, or has none |
| FilterLiterals.ListAsks | src/httk/store/query/optimade_filters.py:497-523 | a HAS filter is true exactly when the stored list relates to the values its literals are written for as ALL, ANY or ONLY say, and is served exactly when every literal fits |
| FilterLiterals.RelatedAsks | src/httk/store/query/optimade_filters.py:580-645 | a test of related entries is true exactly where the row names an entry on which the test behind the relationship is true |
| FilterLiterals.UnknownPropertyAsks | src/httk/store/query/optimade_filters.py:327-377 | a test of an unknown property is refused exactly when its name bears a claimed prefix, and otherwise false, but for IS UNKNOWN |
| FilterLiterals.UnknownListAsks | src/httk/store/query/optimade_filters.py:655-757 | so is a LENGTH or HAS filter on one, the latter once it names values compared for equality |
| FilterLiterals.GeneratedTableServes | src/httk/store/query/optimade_filters.py:853-911 | the generated table serves each mapped property by its stored key and the handler of its type, with id and type besides |
| FilterLiterals.DottedIsFlat | src/httk/store/query/optimade_filters.py:661-676 | the handler key of a deep path spells all its parts with dots between them |
| FilterLiterals.RefusedByItsTests | src/httk/store/query/optimade_filters.py:649-655 | a filter is refused exactly when one of its tests is, and for the reason of the first of these |
| FilterRefusals.CompareIsServed | src/httk/store/query/optimade_filters.py:758-794 | a comparison is served exactly when it has one literal that stands for a value the property can take, is ordered only where that has a meaning, and its property is recognized or bears no claimed prefix |
| FilterRefusals.MatchIsServed | src/httk/store/query/optimade_filters.py:795-822 | a match is served exactly when its text is a literal the matched property can take |
| FilterRefusals.KnownIsServed | src/httk/store/query/optimade_filters.py:823-841 | a test of nullity is served exactly for served properties, unknown ones without a claimed prefix, and related entries that can be looked for |
| FilterRefusals.LengthIsServed | src/httk/store/query/optimade_filters.py:721-757 | LENGTH is served for unknown properties alone |
| FilterRefusals.HasIsServed | src/httk/store/query/optimade_filters.py:655-720 | a set filter is served exactly when it names values that fit, compared for equality, on a stored list, on related ids, on related entries or on an unknown property |
| FilterRefusals.RelatedIsServed | src/httk/store/query/optimade_filters.py:626-645 | a test of related entries is served exactly when the relationship is followed by one name, a resolver is at hand and the ids it finds can be looked for |
| FilterRefusals.WrongListsAreRefused | src/httk/store/query/optimade_filters.py:702-718 | a set filter on a property that is no list, or with literals that do not fit, is refused by its type |
| FilterRefusals.FilterIsServed | src/httk/store/query/optimade_filters.py:649-847 | a filter is translated exactly when each of its tests is of a kind that the server serves |
| Slices.NarrowIsListSlice | src/httk/store/federated_store.py:400-437 | a slice of a page is the page of the combined bounds |
| Slices.NarrowTwice | src/httk/store/federated_store.py:400-437 | slices of slices agree with slicing the iterated rows twice |
| Slices.PageHasPageLength | src/httk/store/federated_store.py:390-398 | the length computed from the total alone is the number of rows of the page |
| Slices.FullPageIsStable | src/httk/store/federated_store.py:259-341 | rows beyond a full page do not change it |
| Slices.TakeEachKeepsPrefix | src/httk/store/federated_store.py:259-341 | cutting every part keeps the prefix of the whole |
| Slices.PushdownIsExact | src/httk/store/federated_store.py:259-341 | pushing offset plus limit down to every source yields the same global page |
| Federation.AssembleRow | src/httk/store/federated_store.py:328-336 | child values and source names are interleaved in output order |
| Federation.ReplayIsFaithful | src/httk/store/federated_store.py:154-166 | the expression replayed on a child selects exactly the records of which the condition holds |
| Federation.MatchingSelects | src/httk/store/federated_store.py:269-284 | a child yields exactly its records that satisfy every condition, each as often as it has it and in its order |
| Federation.ConditionsCombine | src/httk/store/federated_store.py:154-166 | conditions given together and And intersect the rows, Or unites them, Not leaves the rest, constants give all or none, a predicate what the child says |
| Federation.RunYieldsSourceRows | src/httk/store/federated_store.py:259-341 | without paging a run yields exactly, for each satisfying record of each source, the source's name in origin columns and the record's values in the others |
| Federation.MaximumCuts | src/httk/store/federated_store.py:270-275 | asking for at most so many rows yields the first so many |
| Federation.FailsForWantOfRows | src/httk/store/federated_store.py:288-296 | a run fails exactly when a source is broken and the page is not full without it and the later ones |
| Federation.YieldChild | src/httk/store/federated_store.py:312-341 | one source's rows extend the page exactly, across the global skip and limit |
| Federation.RunChild | src/httk/store/federated_store.py:285-341 | one source, cut at the pushed-down limit, extends the page to the next cut part |
| Federation.ExecutePlan | src/httk/store/federated_store.py:259-341 | the lazy loop yields the page of the concatenated sources and fails exactly at a broken source it has to reach |
| Federation.CountPlan | src/httk/store/federated_store.py:225-256 | the count is the exact total, cached only when every source answered |
| Federation.GetItemIsListSlice | src/httk/store/federated_store.py:400-437 | slicing a result set and iterating is iterating and slicing the list, with the count cache shared |
| Federation.GetItemIsExact | src/httk/store/federated_store.py:400-422 | a slice is taken exactly for a unit step and nonnegative bounds, and no start is a start at the first row |
| Federation.Length | src/httk/store/federated_store.py:390-398 | the reported length is the number of rows iterated |
| Federation.First | src/httk/store/federated_store.py:439-445 | the first row, asking for one row only |
| Federation.One | src/httk/store/federated_store.py:447-460 | the only row, with none and several told apart from two rows only |
| Federation.Searcher.Add | src/httk/store/federated_store.py:874-894 | a new condition starts a fresh count and leaves the caches of earlier plans alone |
| Federation.Searcher.SetLimit | src/httk/store/federated_store.py:989-999 | a negative limit means none, and the shared count stays valid |
| Federation.Searcher.AddOffset | src/httk/store/federated_store.py:1001-1014 | offsets add up, negative ones are refused, and the shared count stays valid |
| Federation.Searcher.Search | src/httk/store/federated_store.py:956-977 | a search yields the page of everything that satisfies all conditions added so far |
| Federation.Searcher.Count | src/httk/store/federated_store.py:979-987 | the count is that of all rows that satisfy the conditions, whatever offset and limit |
| Federation.TotalIgnoresOutputs | src/httk/store/federated_store.py:956-977 | the count does not depend on the projection, so one cache serves all plans |
| RemotePaging.ReducedPageLimit | src/httk/store/optimade/client.py:273-288 | the next size is the largest named number below the refused one, else half of it, and always smaller and positive |
| RemotePaging.FinalSize | src/httk/store/optimade/client.py:591-602 | retrying ends at a positive size no larger than asked for, refused only at one item |
| RemotePaging.FinalSizeIsTried | src/httk/store/optimade/client.py:570-608 | the final size ends a sequence of sizes, each the largest named number below the refused one before it or else half of that |
| RemotePaging.TriesAreUnique | src/httk/store/optimade/client.py:273-288 | the service decides that sequence |
| RemotePaging.RemoteStore.GetPage | src/httk/store/optimade/client.py:570-608 | the first-page retry ends there and lowers the learned size only after a reduction succeeded |
| RemotePaging.RemoteStore.AdmittedStaysHome | src/httk/store/optimade/remote_query.py:1563-1586 | without consent to other origins everything followed stays at the base's origin, scheme upgrades included |
| RemotePaging.RemoteStore.AdmittedIsSpelled | src/httk/store/optimade/remote_query.py:159-183 | a link is refused exactly when it is no web address or leaves the origin without consent or tolerated upgrade; an upgraded link takes the base's authority over https and keeps its own path, query and fragment, any other is followed as it is spelled |
| RemotePaging.RemoteStore.NextPage | src/httk/store/optimade/remote_query.py:1560-1596 | one turn consumes a URL whose spelling was never consumed before, below the page bound, or fails for exactly the reason that applies |
| RemotePaging.RemoteStore.Objects | src/httk/store/optimade/remote_query.py:1533-1622 | against any service the loop makes a walk: at most the page bound, no URL spelled alike twice, no page beyond the limit, the emitted items are the page of the consumed items, and it ends properly or with the error that keeps it from going on |
| RemotePaging.RemoteStore.WalksStopTogether | src/httk/store/optimade/remote_query.py:1560-1620 | no walk stops where another goes on |
| RemotePaging.RemoteStore.WalkIsUnique | src/httk/store/optimade/remote_query.py:1552-1620 | the service and the settings decide the walk: its pages, what it emits and how it ends |
| RemotePaging.RemoteStore.OneTextManyPages | src/httk/store/optimade/remote_query.py:1589-1620 | a service that answers every URL with one text whose relative link leads deeper is followed to new URLs until the page bound |
| RemotePaging.Emit | src/httk/store/optimade/remote_query.py:1603-1611 | one page's items extend the emitted page across skip and limit |
| RemotePaging.LimitReachedIsFinal | src/httk/store/optimade/remote_query.py:1610-1611 | once the limit is reached no further page could change the result |
| RemotePaging.RequestPageLimit | src/httk/store/optimade/remote_query.py:1545-1549 | the first request asks for at least one item and no more than the store's limit |
| RemotePaging.RequestIsLeast | src/httk/store/optimade/remote_query.py:1545-1549 | the first request asks for the least of what the store allows, what it is told and what is wanted |
| RemotePaging.LowersCapitals | src/httk/store/optimade/remote_query.py:137-143 | schemes are told apart without regard to capitals |
| RemotePaging.OriginsAreExact | src/httk/store/optimade/remote_query.py:137-168 | two web addresses are of one origin exactly when scheme, host and port agree, default ports included, and a link is a tolerated upgrade exactly when it is the base but for http, with port 80 standing in for 443 |
| PagingTokens.ValueRoundTrip | src/httk/store/query/paging_tokens.py:158-227 | decoding a typed anchor undoes encoding it |
| PagingTokens.ValueReencodes | src/httk/store/query/paging_tokens.py:187-227 | an accepted anchor re-encodes to exactly the stored value |
| PagingTokens.CharacterLimitImpliesByteLimit | src/httk/store/query/paging_tokens.py:24-29 | a token within the character limit never exceeds the payload limit |
| PagingTokens.DecodeInvertsEncode | src/httk/store/query/paging_tokens.py:40-112 | every token that can be made decodes to what it was made from |
| PagingTokens.EncodeInvertsDecode | src/httk/store/query/paging_tokens.py:68-112 | every accepted token is the one that encoding its contents gives |
| TokenLimits.AnchorsAreEncoded | src/httk/store/query/paging_tokens.py:158-186 | an anchor can be encoded exactly when its integer has at most 128 digits, its text or bytes at most 4096, or its spelling is canonical |
| TokenLimits.TokensAreMade | src/httk/store/query/paging_tokens.py:40-66 | a token can be made exactly of a direction, a positive record number, a hexadecimal fingerprint and at most 32 anchors that fit, if its payload takes at most 9000 bytes |
| TokenLimits.TokensAreAccepted | src/httk/store/query/paging_tokens.py:68-112 | a text is accepted as a token of some contents exactly when it is the one made of them |
| Base64Url.DecodeInvertsEncode | src/httk/store/query/paging_tokens.py:153-155 | unpadded base64url decodes to the octets it encodes, over the URL-safe alphabet |
| Base64Url.EncodedLength | src/httk/store/query/paging_tokens.py:153-155 | three octets take four characters, rounded up |
| Decimals.IntTextParses | src/httk/store/backend/codecs.py:324-328 | the decimal text of an integer parses back to it |
| Decimals.SplitJoin | src/httk/store/backend/codecs.py:328-328 | splitting undoes joining when no part holds the separator |
| Tensors.ReducedDenominator | src/httk/store/backend/codecs.py:306-308 | the denominator in lowest terms is the least positive number that clears the element |
| Tensors.ClearingIsMultiple | src/httk/store/backend/codecs.py:306-308 | what clears an element is exactly what its reduced denominator divides |
| Tensors.Lcm | src/httk/store/backend/codecs.py:307-307 | the least common multiple is a common multiple and no smaller one exists |
| Tensors.CommonMultipleIsMultiple | src/httk/store/backend/codecs.py:307-307 | the common multiples are exactly the multiples of the least one |
| Tensors.CommonDenominatorIsLeast | src/httk/store/backend/codecs.py:290-309 | the printed denominator is the least positive one that makes every element an integer |
| Tensors.DecodeOfText | src/httk/store/backend/codecs.py:312-333 | parsing lays the printed numerators out row by row over the printed denominator |
| Tensors.DecodeAnswers | src/httk/store/backend/codecs.py:309-333 | of texts of a denominator and numerators exactly those are refused that ask for an empty shape, have a denominator that is not positive or a wrong number of elements |
| Tensors.DecodeInvertsEncode | src/httk/store/backend/codecs.py:290-333 | decoding gives back the same rational numbers in the same shape, over the least common denominator |
| Tensors.SameValuesSameText | src/httk/store/backend/codecs.py:290-309 | the text does not depend on the denominator a tensor happened to carry |
| Tensors.TextIsCanonical | src/httk/store/backend/codecs.py:290-309 | tensors of one shape have equal texts exactly when their numbers are equal |
| FractionText.Render | src/httk/store/optimade/remote_query.py:203-223 | a reduced fraction is refused exactly when no decimal equals it, and otherwise printed exactly with the fewest places |
| FractionText.TwosNeedPlaces | src/httk/store/optimade/remote_query.py:207-212 | each factor 2 of a reduced denominator needs a decimal place |
| FractionText.FivesNeedPlaces | src/httk/store/optimade/remote_query.py:207-212 | each factor 5 of a reduced denominator needs a decimal place |
| FractionText.OtherFactorRefuses | src/httk/store/optimade/remote_query.py:213-216 | a reduced denominator with any other factor is no decimal |
| FractionText.PointTextDenotes | src/httk/store/optimade/remote_query.py:217-223 | reading the padded, pointed digits gives the scaled integer and its places |
| FractionText.SignIsPrinted | src/httk/store/optimade/remote_query.py:203-223 | a sign is printed exactly for negative numbers |
| ScaledFractions.OverIsLarge | src/httk/store/backend/clickhouse/support.py:241-248 | a component is over the digit budget exactly when its magnitude reaches ten to the nineteenth |
| ScaledFractions.NothingWraps | src/httk/store/backend/clickhouse/support.py:249-255 | every partial product of four short components stays inside the signed 256-bit range |
| ScaledFractions.CrossMultiplied | src/httk/store/backend/clickhouse/support.py:253-254 | the cross-multiplied equation is the equation between the rational products |
| ScaledFractions.ScaledEqualIsExact | src/httk/store/backend/clickhouse/support.py:219-261 | on four fraction texts, each the canonical `p/q` with its denominator always printed or a bare integer, the wrapping expression decides equality of the rational products, refusing exactly long components and then zero denominators |
| ScaledFractions.WrapKeepsRange | src/httk/store/backend/clickhouse/support.py:249-255 | wrapping stays in the range, differs by a multiple of its size and changes nothing inside it |
| ScaledFractions.RangeIsSigned256 | src/httk/store/backend/clickhouse/support.py:249-255 | the range is that of signed 256-bit integers |
| ScaledFractions.SignsDoNotCount | src/httk/store/backend/clickhouse/support.py:219-248 | a leading sign does not count as a digit, and short texts that are no numbers are refused |
| Evaluator.ScopeItems | src/httk/store/backend/mongo/evaluator.py:301-341 | the scope walk collects what each parent reaches and keeps what the filter makes True |
| Evaluator.PlainItems | src/httk/store/backend/mongo/evaluator.py:301-341 | an unfiltered root or reference scope has at most one object, which filling in fields never takes away |
| Evaluator.StableValueStays | src/httk/store/backend/mongo/evaluator.py:344-446 | a known value stays the same when missing fields are filled in |
| Evaluator.DecidedStaysDecided | src/httk/store/backend/mongo/evaluator.py:153-298 | a True or False result with some fields missing is unchanged by every way of filling them in |
| Evaluator.NullTestsChangeTheirMind | src/httk/store/backend/mongo/evaluator.py:449-492 | null and presence tests, which the theorem excludes, do flip |
| EvaluatorLaws.ConnectivesDecide | src/httk/store/backend/mongo/evaluator.py:216-260 | conjunctions, disjunctions and negations are true and false exactly as in three-valued logic |
| EvaluatorLaws.ConditionDecides | src/httk/store/backend/mongo/evaluator.py:261-279 | a test under a condition is the test where the condition is true and unknown elsewhere |
| EvaluatorLaws.ComparisonDecides | src/httk/store/backend/mongo/evaluator.py:449-492 | a comparison is unknown exactly when a value is missing or the two cannot be compared, and otherwise true exactly when they relate as it says |
| EvaluatorLaws.NullIsDecided | src/httk/store/backend/mongo/evaluator.py:456-470 | equality with null and the null test ask whether the value is missing |
| EvaluatorLaws.ScaledDecides | src/httk/store/backend/mongo/evaluator.py:280-298 | the scaled test compares the exact products, and is unknown exactly when a value is missing or no number |
| EvaluatorLaws.ItemsAreInScope | src/httk/store/backend/mongo/evaluator.py:301-341 | a scope holds exactly the objects reached from the parent scope that pass its filter |
| EvaluatorLaws.FilterKeeps | src/httk/store/backend/mongo/evaluator.py:325-341 | the filter of a scope keeps each object as often as it is there, or not at all |
| EvaluatorLaws.ExistsDecides | src/httk/store/backend/mongo/evaluator.py:197-215 | an exists test is true exactly when some object of the scope passes, and otherwise false |
| EvaluatorLaws.FieldsAreRead | src/httk/store/backend/mongo/evaluator.py:344-446 | a field is read off the one object of its scope, and present exactly when that has it |
| EvaluatorLaws.NoSingleObject | src/httk/store/backend/mongo/evaluator.py:344-446 | of none or several objects nothing is read, and a count counts them |
| EvaluatorLaws.OtherValues | src/httk/store/backend/mongo/evaluator.py:344-400 | literals are themselves, store values are there when the store has them, and an alternative id joins prefix, id, tilde and kind |
| SchemaUpgrade.AddedParentColumns | src/httk/store/storage_layout.py:821-855 | an added field passes exactly when old rows can be backfilled with nulls |
| SchemaUpgrade.ClassifyTable | src/httk/store/storage_layout.py:783-818 | one table is accepted exactly when only such fields were added, and yields exactly their columns |
| SchemaUpgrade.Classify | src/httk/store/storage_layout.py:756-818 | the classifier accepts exactly the additive changes, with the columns each stored table gains |
| SchemaUpgrade.RefusedForReasons | src/httk/store/storage_layout.py:757-846 | an upgrade is additive exactly when no table was removed and no changed table has an unknown key, another invariant, a dropped or changed field, or an added field that is enforced, a child, derived, part of the identity or not nullable |
| SchemaUpgrade.PlanIsExact | src/httk/store/storage_layout.py:785-846 | the plan names exactly the columns of the fields that stored tables gain |
| SchemaUpgrade.AcceptedAddsExactly | src/httk/store/storage_layout.py:743-753 | stored columns plus added columns are exactly the current ones, and only nullable ones are added |
| SchemaUpgrade.AcceptedKeepsIdentity | src/httk/store/storage_layout.py:756-818 | every stored row keeps its values and its content identity |
| SchemaUpgrade.UpgradesCompose | src/httk/store/storage_layout.py:756-818 | two accepted steps are one accepted step and the added columns unite |
| SchemaUpgrade.ChainsCompose | src/httk/store/storage_layout.py:756-818 | so is any chain of accepted steps whose entry-id tables agree, with the union of all added columns |
| Documents.EncodeRecord | src/httk/store/backend/mongo/documents.py:77-159 | the field loop fills the document that the fields' contributions make up, or refuses a missing required value |
| Documents.MissingValues | src/httk/store/backend/mongo/documents.py:100-106 | a missing value is left out where it may be, an empty list for a required child, and refused elsewhere |
| Documents.DecodeRecord | src/httk/store/backend/mongo/documents.py:186-228 | the field loop yields, by name, exactly the stored values of the fields that are not derived, or fails on one not stored as written |
| Documents.ItemRoundTrip | src/httk/store/backend/mongo/documents.py:162-183 | one value written to its columns reads back and satisfies the element validator |
| Documents.FieldRoundTrip | src/httk/store/backend/mongo/documents.py:186-228 | a field reads back from any document that agrees with it on the field's keys, and the document satisfies its validator |
| Documents.FieldsSurvive | src/httk/store/backend/mongo/documents.py:77-159 | the contribution of a field that no later one writes over, and whose keys no earlier one fills while it is null, survives in the whole document |
| Documents.RecordRoundTrip | src/httk/store/backend/mongo/mapping.py:298-391 | every well-typed record encodes, and each field that no other disturbs decodes to itself and satisfies the validator, None apart from an empty child and lists apart from tuples; with distinct keys that is every field (DistinctKeysDisturbNothing) |
| Documents.KeysComeFromFields | src/httk/store/backend/mongo/mapping.py:298-391 | the document of a record has no key but its fields' own |
| DocumentValidator.FieldsAreJudged | src/httk/store/backend/mongo/mapping.py:298-340 | the validator refuses exactly mistyped columns, missing required ones, channels without their exact one, and children that are missing, no lists, or hold an element with missing, foreign or mistyped columns |
| DocumentValidator.ValidFieldsDecode | src/httk/store/backend/mongo/mapping.py:298-340 | what the validator lets through decodes to a value of the declared type, when the columns of an optional field are stored together |
| Documents.CollidingNamesLoseAValue | src/httk/store/backend/mongo/mapping.py:146-176 | two fields that share a document key: the validator accepts the document and one field decodes to another value |
| DocumentKeys.OverwrittenFieldIsLost | src/httk/store/backend/mongo/documents.py:77-159 | of two records that differ in one field that is read back, and there only under keys that a later field writes over, one does not come back, whatever the codec |
| DocumentKeys.RecordsComeBackExactly | src/httk/store/backend/mongo/mapping.py:146-176 | for fields kept under one key each, all records come back from their documents, for all values of derived fields, exactly when no field that is read shares a key with a later one and no optional one with an earlier one; in the resolver's order, exactly when only derived fields share keys |
| DocumentKeys.HarmlessSharingKeepsRecords | src/httk/store/backend/mongo/documents.py:186-228 | whatever the number of columns, every record comes back when each shared key belongs to a derived field earlier on, and later to a derived one or one that is never null |
| DocumentKeys.FilledNullIsLost | src/httk/store/backend/mongo/documents.py:186-228 | a null field that is read back reads as something else when any other field fills one of its keys |
| DocumentKeys.SharedChannelMayBeHarmless | src/httk/store/backend/mongo/mapping.py:146-176 | a shared channel that decoding does not read loses no record although both fields are read |
| StagedLoading.RetryAfterNothing | src/httk/store/backend/clickhouse/support.py:373-382 | before a retry the refused insert has left nothing in the stage |
| StagedLoading.ShardSends | src/httk/store/backend/clickhouse/support.py:368-394 | in all a stage is sent the block of the first insert, and that of the second exactly on a retry |
| StagedLoading.ShardAtMostOnce | src/httk/store/backend/clickhouse/support.py:368-394 | no row is received twice exactly when there is no retry or the late rows of the first insert and the second make up at most one block |
| StagedLoading.RetryIsSafeExactly | src/httk/store/backend/clickhouse/support.py:373-389 | whatever becomes of the second insert nothing is received twice, exactly when no row of the refused first lands after its count |
| StagedLoading.ShardIsExact | src/httk/store/backend/clickhouse/support.py:368-394 | into a settled stage with a safe retry, success means exactly the block, an uncertain outcome something else, and never a row twice |
| StagedLoading.FailsCleanlyExactly | src/httk/store/backend/clickhouse/support.py:395-398 | a clean failure is reported exactly when a count that the call makes stays unanswered |
| StagedLoading.CleanFailureIsClean | src/httk/store/backend/clickhouse/support.py:395-398 | after a clean failure the stage has received nothing exactly when the first count was the unanswered one or no insert had any effect |
| StagedLoading.CleanFailureLeavesRows | src/httk/store/backend/clickhouse/support.py:395-398 | a run in which the whole block lands and the failure is reported as clean |
| StagedLoading.LateRowsLandTwice | src/httk/store/backend/clickhouse/support.py:381-394 | a run that succeeds after a retry and ends with every row in the stage twice |
| StagedLoading.TableIsExact | src/httk/store/backend/clickhouse/support.py:366-394 | with safe retries a stage receives each row of its shards at most once, and on success exactly once |
| StagedLoading.LoadIsExact | src/httk/store/backend/clickhouse/support.py:317-401 | so do all stages of a load |
| StagedLoading.FinalRefusalsLoadSafely | src/httk/store/backend/clickhouse/support.py:317-324 | when no refused insert has rows on their way every load is safe |
| StagedLoading.Server.CreateStages | src/httk/store/backend/clickhouse/support.py:334-362 | empty stages are created exactly when none of them exists yet |
| StagedLoading.Server.Attempt | src/httk/store/backend/clickhouse/support.py:371-390 | an insert and the count after it leave the stage as the service has it, and tell what was acknowledged and counted |
| StagedLoading.Server.LoadShard | src/httk/store/backend/clickhouse/support.py:368-394 | the calls on the server are those of the run, verdict and stage included, and no other stage changes |
| StagedLoading.Server.LoadTable | src/httk/store/backend/clickhouse/support.py:366-394 | shards are loaded in order up to the first that fails |
| StagedLoading.Server.LoadStages | src/httk/store/backend/clickhouse/support.py:317-401 | tables are loaded in order into fresh stages up to the first that fails; existing stages make it fail and are never touched |

## Left out

- Ed25519, SHA-256 and the seal format: signing and verifying are uninterpreted functions.
- The entry-id printer and parser of httk.core are not part of this model; parsing is taken to undo printing.
- The ledger's malformed JSON, wrongly typed columns and missing tables: they reach the model as a missing subject or a rejected container.
- A crash between the database commit and the in-memory bookkeeping, and manual deletion of the ledger's lock file.
- LedgerTheorems.RenumberingIsRejected: speaks of the number and numbering of records; a change of contents is caught by the uninterpreted signatures only.
- LedgerTheorems.EveryRunIsAccepted: policies that the signing keys of the run do not satisfy are outside it, since nothing then holds of the verdict.
- Lease backoff, the client-side heartbeat throttle and polling delays: a refresh may happen at any time, which allows more runs than the code has. `clear_stale_lock` is a step of its own that checks staleness.
- Lease objects as classes: the shared documents and the processes are one state value, because every interleaving of their operations is the point.
- Leases.Exclusion: assumes fresh heartbeats for granted writers and for fscks that rely on their document; LostDocumentGrantsTwo and MissedWriterStaysGranted show what happens otherwise.
- Fsck's timestamp marks, link checks, violation messages, counters and identity owners; the order in which batches and rows are read.
- FsckModel.SweepLeavesNoDangling: follows documents with a valid role; SweepDanglesExactly covers all documents.
- Custom handler tables beyond the generated shape, the SQL that search expressions become, and rounding of float constants, which are real numbers here.
- FilterTranslation.DecidedIsKept: speaks of rows where the constant nullity tests of the filter are right; TranslationIsFaithful covers all rows.
- Dotted paths whose root is not a relationship: the rest of the path is ignored, as the code does.
- Federation.ExecutePlan: a source that fails in the middle of its own iteration; sources fail when built, limited or started.
- Federated sorting, output validation, time travel and cursors.
- Reading an authority's host and port is an uninterpreted function; an invalid port is not part of this model.
- Remote response envelopes, redaction, warnings and sorting: a response parses to a page or does not. `RemoteResultSet` slices by the arithmetic proved in `Slices`.
- Binary floats, `float.hex`, datetimes and their texts in tokens and codecs: values named by their canonical text.
- PagingTokens.EncodeInvertsDecode: the JSON printer and parser are taken to undo each other.
- The lenient integer spellings that Python's `int` accepts in exact tensor text: the parser here reads a sign and digits.
- Exact surd text, and the conversion between nested tensors and matrices in fixed-shape fields.
- Documents.RecordRoundTrip: assumes codecs that undo themselves.
- DocumentKeys.RecordsComeBackExactly: takes the values of derived fields as free, not as computed from the record.
- Whole-record comparison, `distinct_count`, presentation prefixes and canonical predicate hashing in the evaluator.
- Evaluator.DecidedStaysDecided: excludes null, presence, count and exists tests, on which it is false.
- Schema fingerprints' absent and null attributes are one, and column order is not kept.
- A Parquet file that cannot be read, and the text of the loader's errors.
- ClickHouse's bootstrap fence, finalizer maps, leases and bulk integrity queries; the SQL store and searcher; the export archive, logging and the command line.
