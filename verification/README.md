# Valise, modelled and proved in Dafny

Valise is a retrieval store kept in one append-only file.  This project models the parts of it whose
correctness is not visible from one function at a time and proves what they promise.  The model has
five parts.

**The store** (`Keys`, `Utf8`, `Engine`, `Identity`, `Schema`, `SchemaDoc`, `Store`, `StoreProofs`, `StoreView`,
`Writer`, `Declare`, `StoreRuns`, `PutResults`, `DeclareResults`, `Loader`, `BulkCatalog`, `BulkRuns`,
`Compact`, `CompactProofs`, `CompactResults`, `Compactor`, `LinkedRuns`, `Forget`, `PartitionRuns`,
`ForgetResults`).  The engine only appends and tombstones.  The writer makes updates and deletes out of that:
it appends a new frame, tombstones the old one, holds back vectors whose codec is not fitted yet, and
keeps an in-memory index from keys to frames that is never persisted.  `Engine.ValiseFile` is the
engine as a class; `IdentityIndex`, `WriterCore`, `Bulk` and the compactor are the source's mutable
objects, each method proved equal to a function of `Store`, `Identity`, `Loader`, `Compact` or
`Forget` over values.  About those functions it is proved that

- every operation keeps `Store.Coherent`: one active frame per key, the index lists exactly the
  active vectors of that frame, every staged vector is owned by the frame its key maps to;
- the store means a map: `StoreView.Lookup` finds records by scanning frames, without the index, and
  `StoreRuns.RunRefines` shows that any run of definitions, declarations, puts, deletes and commits
  does to it what it does to a map from collection and key to record;
- a put stores the first text and every vector of the record it was given, and is refused exactly when a
  field does not fit, a parent is not there, or the live version owns a vector not yet committed;
- after a commit the index a reopened store rebuilds is the live index;
- compaction keeps every record, once re-encoded, except for links to parent versions that are gone,
  and is a no-op the second time; `LinkedRuns.LinkedRunRefines` extends the map to runs that compact;
- a bulk load ends in the same catalog for every batch size and every digest function, and succeeds
  exactly if its puts are accepted and the catalog is in time order at its commits;
- a forget empties exactly the partitions that lie before the cutoff as a whole, and no run of a
  partitioned store ever forgets a record at or after it.

**The fsync barrier** (`GroupFsync`).  Each stretch of code that holds the lock is one atomic step of
any number of callers; what is written and what is durable are ghost sets.  The theorems are about
every interleaving, with fsyncs that may fail: a success is durable, and a call fails only if its own
fsync did.

**The UPQ quantizer** (`RingCuts`, `RingChoice`, `PhaseAlloc`, `RingFit`, `FitResults`, `FitMeaning`,
`UpqCells`): closed-form ring boundaries against a search over all rings, costs from prefix sums against a
sum over samples, radii that minimise, the greedy phase allocation, the cell layout and the 11-bit packing.

**Bits, kernel, rotation** (`Bits`, `BitStream`, `DotKernel`, `DotScore`, `Hadamard`, `WhtEntries`,
`Signs`): the generic bit packer and its inverse, the integer dot product in groups and a tail and its
distance from the real inner product, the in-place Walsh-Hadamard rotation, its entries and its exact inverse.

**Partitions** (`Civil`, `Partition`, `Forget`, `PartitionRuns`): day numbers and civil dates of the proleptic Gregorian
calendar (ISO 8601:2004, section 3.2.1), names, periods, windows and forgetting.

Floats are modelled by `real`, machine integers by `int` with range lemmas where the range matters (the
random generator's words by `bv64`), hash maps by `map`.  JSON encoding, vector decoding, codec fitting, the clock, the success of an fsync
and the digest of a key are parameters, so every theorem holds for all of them.

## Where the code and its own comments differ

The model follows the code.  The exact conditions are proved.

- `src/db/schema_doc.rs:30-42` says that a schema document adds no ingest constraint for timestamps
  from 0 on.  It adds none, but replacing the single latest document removes one
  (`SchemaDoc.ReplacingTheLatestRelaxes`), so "admissible after iff before" holds exactly under
  the condition in `SchemaDoc.SyncAdmitsSame`.
- `src/db/schema_doc.rs:8-9` says that each collection has one document frame.  A declaration repeated
  with an added field before any commit stages a second one, because an unflushed document has no
  readable uri; `SchemaDoc.SyncKeepsOneDoc` is the exact condition, `SchemaDoc.DeclaredTwiceBeforeCommit`
  the example.
- `src/db/loader.rs:12-16` calls upserts independent of the batch size.  Records and the
  not-yet-committed rule are; whether a commit meets the time-order error is not
  (`BulkRuns.OneByOneOutOfOrder`, `BulkRuns.BatchesOfTwoInOrder`).  `BulkRuns.SucceedsExactly` says
  when a load succeeds, `BulkRuns.AgreesWithOneByOne` when batching makes no difference, and
  `BulkRuns.OldestFirstLoads` that items given oldest first always load.
- A window whose end precedes its start still selects partitions that span it
  (`Partition.InvertedWindow`), and partition names of negative years do not read back
  (`Partition.NegativeYearUnread`).
- `src/codec/upq.rs:143-147` presents the boundaries as replacing a search over all rings.  They do if
  and only if the finite boundaries come in order and no ring past the first infinite one ever gets
  cheaper than the last ring reached, both read off the radii and coefficients
  (`RingChoice.CheapestIffExact`); `FitResults.ClampCanMiss` is an example of the failure.
- `src/codec/upq.rs:83-84` documents power-of-two phase counts, and `src/format/upq_params.rs:306-311`
  refuses a persisted design without them.  A fit may keep its first iterate, an even split of the
  cells, so they are powers of two if and only if a later iterate is kept or the split is one itself
  (`FitResults.PowersIff`); `FitResults.FitKeepsFirst` is a sample whose every fit returns five phases
  a ring.
- Forgetting reads member lists as of the last commit, so it leaves the index in agreement with the
  file exactly if nothing in the expired partitions is pending (`Forget.ForgetCoherentIff`).
- `src/db/compact.rs:311-315` says that a tombstoned parent re-parents its child to the root.  That
  includes a parent merely put again, whose key is still live: a link is live exactly while the
  parent's key names the version it points to (`CompactProofs.ParentLiveIff`,
  `StoreRuns.RePutOrphans`).
- Compacting with frames still pending drops those frames' payloads and uris and so their keys
  (`CompactProofs.CompactMeaning` states precisely which keys survive).

## Model

| member | source | states |
|---|---|---|
| Keys.DecodeEncode | src/db/record.rs:40-64 | every key reads back from its encoding |
| Keys.EncodeDecode | src/db/record.rs:67-78 | every byte string that decodes is the encoding of the key it decodes to; malformed UTF-8 and wrong lengths do not decode |
| Keys.EncodeInjective | src/db/record.rs:40-64 | two keys share an encoding only if they are the same key, across all three kinds |
| Keys.EncodedForm | src/db/record.rs:40-64 | the persisted form: tag 1 and the text, tag 2 and eight little-endian bytes, tag 3 and the bytes |
| Utf8.ValidIffText | src/db/record.rs:67-78 | the byte test accepts exactly the UTF-8 encodings of sequences of Unicode scalar values |
| Engine.ActiveFrames | src/file/accessors.rs:211-216 | exactly the frames not tombstoned, in ascending id order |
| Engine.ActiveVectors | src/file/accessors.rs:416-423 | exactly the active vectors of one space, in ascending id order |
| Engine.AcceptedIffTimeOrdered | src/file/time_index_io.rs:33-57 | sorting the entries by time and then insisting on ascending ids accepts exactly the catalogs whose timestamps never decrease in id order over active frames |
| Engine.ValiseFile.BuildTimeIndex | src/file/time_index_io.rs:33-57 | the loop accepts if and only if the catalog is time-ordered |
| Engine.ValiseFile.CreateCollectionAt | src/file/frame_ops.rs:17-46 | refuses a taken name and changes nothing, else appends the collection under the next id |
| Engine.ValiseFile.PutFrame | src/file/frame_ops.rs:49-170 | appends under the next id, flushing payloads at the soft cap; refuses an unknown collection unchanged |
| Engine.BufferBounded | src/file/frame_ops.rs:49-170 | less than 4 MiB of payload is ever buffered, and the put that reaches it flushes every frame |
| Engine.ValiseFile.PutVector | src/file/vector_ops.rs:14-110 | the order of the refusals (owner, its status, space, dimension) and the row appended |
| Engine.ValiseFile.DeleteVector | src/file/vector_ops.rs:364-397 | refuses a pending vector, an unknown one and one already gone; otherwise changes that status alone |
| Engine.ValiseFile.DeleteFrame | src/file/vector_ops.rs:399-446 | refuses a frame that is not active; otherwise changes that status alone |
| Engine.ValiseFile.Commit | src/file/commit.rs:38-118 | succeeds exactly on a time-ordered catalog with a successful fsync, and then everything is flushed and visible to member lists |
| Identity.IdentityIndex.Get | src/db/identity.rs:51-53 | finds an entry exactly if the key has one |
| Identity.IdentityIndex.CommittedKeys | src/db/identity.rs:59-70 | exactly the keys of the collection that a crash would not erase |
| Identity.IdentityIndex.Insert | src/db/identity.rs:73-81 | overwrites the entry of one key and puts an uncommitted one on the dirty list |
| Identity.IdentityIndex.Remove | src/db/identity.rs:84-86 | removes one key, returns what it had, leaves the dirty list |
| Identity.IdentityIndex.RemoveCollection | src/db/identity.rs:91-94 | removes exactly the keys of one collection, from the map and from the dirty list |
| Identity.IdentityIndex.PushVector | src/db/identity.rs:98-110 | appends one vector to one entry; a push to a missing key vanishes |
| Identity.IdentityIndex.MarkAllCommitted | src/db/identity.rs:114-122 | draining the dirty list commits exactly the entries named on it and empties it |
| Identity.IdentityIndex.Rebuild | src/db/identity.rs:127-182 | the loops over frames and over each space produce the index of a plain scan of the file |
| Identity.IdentityIndex.RebuildFrames | src/db/identity.rs:127-155 | the first pass finds the newest live frame of each key and the reverse map |
| Identity.IdentityIndex.RebuildSpace | src/db/identity.rs:156-182 | the pass over one space attaches each of its active vectors to the entry of its owner |
| Identity.RebuiltIsScan | src/db/identity.rs:127-182 | the rebuilt index has an entry for exactly the live keys, each naming the newest live frame and exactly the active vectors owned by frames live under the key, each once |
| Schema.ResolvePlan | src/db/writer.rs:458-550 | reports the first complaint in the source's order or splits the record's vectors by whether their space is calibrated |
| Schema.SplitVectors | src/db/writer.rs:458-550 | the final loop keeps every vector in order on its side of the split and fails on an unregistered space |
| Schema.NamedVectorsFit | src/db/writer.rs:458-550 | every vector of a record that passes validation has the dimension of a field bound to its space |
| SchemaDoc.FieldSameIsCanonEquality | src/db/schema_doc.rs:412-431 | the field comparison, with its fallback to raw JSON, is equality of canonical forms and hence an equivalence |
| SchemaDoc.CheckCompatible | src/db/schema_doc.rs:470-490 | identical, additive or mismatch as documented; identical means canonically equal field lists |
| SchemaDoc.CompatibleTransitive | src/db/schema_doc.rs:470-490 | a chain of accepted redeclarations is accepted as one; it is identical exactly if each link was |
| SchemaDoc.DocUriIsNoKey | src/db/schema_doc.rs:495-500 | no record key is ever spelled like a document uri, so key-driven code skips documents |
| SchemaDoc.FirstDoc | src/db/schema_doc.rs:542-559 | the first active, flushed document with the uri, or none exactly if there is none |
| SchemaDoc.Watermark | src/db/schema_doc.rs:531-538 | the least value at or above zero and every active timestamp |
| SchemaDoc.EnsureSchemaCollection | src/db/schema_doc.rs:523-528 | returns the first collection of the reserved name, created only if there was none |
| SchemaDoc.ApplySync | src/db/schema_doc.rs:607-638 | tombstones the replaced document and appends the new one at the watermark of what is left; nothing it asks for is refused |
| SchemaDoc.SyncKeepsTimeOrder | src/db/schema_doc.rs:607-638 | a staged document keeps the catalog in the order a commit accepts |
| SchemaDoc.SyncAdmits | src/db/schema_doc.rs:530-538 | after a document, exactly the timestamps that are non-negative and admissible without the replaced document can still be appended |
| SchemaDoc.SyncAdmitsSame | src/db/schema_doc.rs:530-538 | a timestamp was admissible before if and only if it is admissible after and the replaced document is not later than it |
| SchemaDoc.ReplacingTheLatestRelaxes | src/db/schema_doc.rs:591-638 | a committed file and a redeclaration that is planned to replace its one latest document: a timestamp refused before is admitted after |
| SchemaDoc.SyncKeepsOneDoc | src/db/schema_doc.rs:591-638 | one document is left exactly if the replaced one was the only one, flushed or not |
| SchemaDoc.DeclaredTwiceBeforeCommit | src/db/schema_doc.rs:542-602 | declaring twice before a commit plans two first writes and leaves two documents |
| SchemaDoc.DeclaredIsRestored | src/db/schema_doc.rs:563-586 | after a commit, reopening restores the declared document under its name and every other as before |
| DeclareResults.PlanVerdict | src/db/schema_doc.rs:591-602 | what a declaration plans depends on the oldest readable document alone: nothing if its fields are the same, a replacement if fields were appended, an error if any was changed, a first write if there is none |
| DeclareResults.DeclaredIsUpToDate | src/db.rs:280-306 | declaring again what was declared and committed plans nothing, unless an older document of the uri was left |
| DeclareResults.ReopenVerdict | src/db/schema_doc.rs:563-586 | reopening fails exactly on a document that does not decode |
| DeclareResults.ReopenRestores | src/db/schema_doc.rs:563-586 | otherwise it restores for each collection the newest document that decodes, and nothing else |
| DeclareResults.DeclareVerdict | src/db.rs:306-348 | a declaration is accepted exactly if its name is not reserved, it keeps what the process and the file hold, and the name is not taken; which error comes first |
| DeclareResults.DefineVerdict | src/db/space.rs:364-425 | a space is accepted exactly under a new name with a positive multiple of 64 dimensions, or again with the same dimension; what is registered |
| StoreProofs.PlanForFits | src/db/writer.rs:458-550 | a plan that resolves names an existing collection and only spaces of the vectors' dimensions |
| StoreProofs.DeleteCoherent | src/db/writer.rs:283-326 | a delete keeps the index, the file and the staged vectors in agreement |
| StoreProofs.InsertCoherent | src/db/writer.rs:133-220 | adding a first version under a free key keeps them in agreement |
| StoreProofs.PutCoherent | src/db/writer.rs:86-223 | every successful put does, first version or update, ready or deferred vectors |
| StoreProofs.CalibrationFacts | src/db/writer.rs:344-418 | calibration registers a space for every staged vector, of its dimension, promotes only deferred spaces and leaves ready ones alone |
| StoreProofs.FlushCoherent | src/db/writer.rs:344-453 | flushing leaves nothing staged and keeps the agreement, without touching a frame |
| StoreProofs.CommitCoherent | src/db/writer.rs:330-340 | a successful commit leaves a coherent store with nothing staged, nothing dirty, everything flushed and every entry committed |
| StoreView.OneFramePerKey | src/db/writer.rs:82-85 | no two active frames carry the same key of the same collection |
| StoreView.LookupByIndex | src/db/writer.rs:96-116 | the index names exactly the frame a scan over all frames finds |
| StoreView.RebuildYieldsLiveIndex | src/db/identity.rs:127-182 | with everything flushed and committed, the rebuilt index is the live one: same keys, frames, vectors, all committed |
| StoreView.SplitMeans | src/db/writer.rs:165-205 | the vectors put now and the vectors staged for later are together exactly the record's |
| StoreView.DeleteMeaning | src/db/writer.rs:283-326 | a delete removes its key and leaves every other record as it was |
| StoreView.PutMeaning | src/db/writer.rs:86-223 | after a put its key stands for exactly the record put (`PutResults.PutStores` says which) and every other key for what it did |
| PutResults.PutStores | src/db/writer.rs:130-172 | the payload looked up after a put is the bytes of the first text field, or nothing; each vector is there as often as fields bound to its space carry it; time, role and parent are those given |
| PutResults.VectorsAreCarried | src/db/record.rs:187-192 | the vectors of a record, counted field by field |
| PutResults.PutVerdict | src/db/writer.rs:86-128 | a put succeeds exactly if every field fits the shape, the text space is known, the parent is live and the live version owns no uncommitted vector; which of the late errors comes when |
| PutResults.PutMisfit | src/db/writer.rs:475-508 | the first field that does not fit decides the error: unknown, wrong dimension, wrong kind |
| PutResults.DeleteVerdict | src/db/writer.rs:283-326 | a delete is held back exactly while the live version owns an uncommitted vector, and otherwise answers whether there was a record |
| PutResults.BlockedIsPending | src/db/writer.rs:118-128 | the guard on the index entry is that condition on the file |
| PutResults.RunKeepsPending | src/db/writer.rs:86-453 | the fact it rests on holds after every run, compactions included |
| PutResults.FlushCalibrates | src/db/writer.rs:393-418 | a space still deferred gets a codec fitted on exactly its first staged vectors, as many as its target asks for |
| StoreView.CommitMeaning | src/db/writer.rs:330-453 | calibrating, flushing and committing change no record a reader could see |
| StoreView.CommitRebuilds | src/db/writer.rs:330-340 | after a commit the index rebuilt from the file is the live index |
| Writer.WriterCore.Put | src/db/writer.rs:86-223 | the phases of `put` compute the specified store, and every error leaves the store unchanged |
| Writer.WriterCore.ReplaceVersion | src/db/writer.rs:142-185 | new frame and ready vectors first, then the old version's vectors and frame, and no step is refused |
| Writer.WriterCore.PutPlanned | src/db/writer.rs:140-220 | the mutating phases: replace, drop what was staged for the old frame, stage, remap |
| Writer.WriterCore.TombstonePrior | src/db/writer.rs:174-182 | tombstones the version's vectors, if committed, and its frame, with no refusal |
| Writer.WriterCore.Delete | src/db/writer.rs:283-326 | computes the specified store and answers whether there was a record; errors change nothing |
| Writer.WriterCore.DistinctNames | src/db/writer.rs:345-351 | the staged space names without repetition, first seen first |
| Writer.WriterCore.TakeSample | src/db/writer.rs:401-407 | the first vectors staged for the space, up to the target |
| Writer.WriterCore.CalibrateSpaces | src/db/writer.rs:393-418 | fits and registers each deferred space once, in first-seen order |
| Writer.WriterCore.PutStaged | src/db/writer.rs:420-430 | every staged vector is accepted by the engine |
| Writer.WriterCore.AttachStaged | src/db/writer.rs:443-449 | attaches each new vector id to the entry of its key |
| Writer.WriterCore.FlushDeferred | src/db/writer.rs:344-453 | computes the specified flush |
| Writer.WriterCore.Commit | src/db/writer.rs:330-340 | flush, engine commit and mark, or the engine's error |
| Writer.AppendFirstAgrees | src/db/writer.rs:135-139 | appending the new version before tombstoning the old one ends in the same store as deleting and then inserting |
| Writer.PriorIsDeletable | src/db/writer.rs:118-128 | once the guard is passed, the engine can refuse no tombstone of the old version |
| Writer.SampleNotEmpty | src/db/writer.rs:408-410 | the empty-sample branch is never taken |
| Writer.StagedArePuttable | src/db/writer.rs:187-195 | no staged vector is ever pinned to a tombstoned frame, so a flush cannot fail on one |
| Declare.DefineCoherent | src/db/space.rs:364-425 | defining a space keeps the store coherent and touches no record |
| Declare.DefineMeaning | src/db/space.rs:364-425 | no record changes when a space is defined |
| Declare.DeclareCoherent | src/db.rs:306-348 | declaring a collection, with its document staged, keeps the store coherent |
| Declare.DeclareMeaning | src/db.rs:306-348 | no record changes when a collection is declared or redeclared |
| StoreRuns.StepCoherent | src/db/writer.rs:86-453 | every operation, compaction included, keeps the store coherent |
| StoreRuns.RunCoherent | src/db/writer.rs:86-453 | so does every run |
| StoreRuns.StepRefines | src/db/writer.rs:86-453 | each operation does to the records what it does to a map |
| StoreRuns.RunRefines | src/db/writer.rs:86-453 | after any run, with re-puts inside a batch and deferred calibration, the records are those of the map |
| StoreRuns.RePutOrphans | src/db/writer.rs:174-182 | putting a parent again leaves its children with dead links to a live key |
| StoreRuns.RunThenCommit | src/db/identity.rs:127-182 | and after a final commit a reopen rebuilds the very index the run ended with |
| StoreRuns.RunKeepsTimeOrder | src/db/compact.rs:311-366 | runs of declarations, time-ordered puts, deletes, commits and compactions keep active frames in time order, and a commit then succeeds |
| Loader.Bulk.constructor | src/db/loader.rs:39-46 | an empty window and a threshold of at least one |
| Loader.Bulk.Put | src/db/loader.rs:50-66 | flush on a repeated digest, put, note, flush at the threshold |
| Loader.Bulk.Flush | src/db/loader.rs:69-77 | commits and clears the window; does nothing when nothing is pending |
| Loader.UnseenIsCommitted | src/db/loader.rs:32-35 | a digest not seen in the window means the key has no uncommitted version, whatever collides |
| Loader.NeverNotYetCommitted | src/db/loader.rs:50-66 | no put of a bulk load meets the not-yet-committed rejection, for any threshold and digest, and the window keeps covering what is uncommitted |
| BulkRuns.LoadNeverNotYetCommitted | src/db/loader.rs:12-16 | no whole load ends in that rejection, whatever else stops it |
| BulkRuns.PutIsCatPut | src/db/writer.rs:86-223 | what a put refuses and what it appends depend on the frames, names and shapes alone, never on vectors, calibration or what is committed |
| BulkRuns.BulkPutMirrors | src/db/loader.rs:50-66 | one bulk put commits, refuses and appends what the window and the catalog decide |
| BulkRuns.RunIsLoad | src/db/loader.rs:50-77 | a whole load does to the store, errors included, what the load of its catalog does |
| BulkRuns.OneByOneIsLoad | src/db/loader.rs:50-77 | committing after every put is the load of threshold one |
| BulkCatalog.LoadExact | src/db/loader.rs:50-77 | on a catalog, a load succeeds exactly if every put is accepted and the catalog is in time order at each commit point of the window |
| BulkCatalog.BatchBounded | src/db/loader.rs:50-66 | between puts fewer than the threshold are uncommitted, and a commit comes exactly when it is reached |
| BulkRuns.SucceedsExactly | src/db/loader.rs:12-16 | the same of the store, and the load then ends in the catalog of the items alone |
| BulkRuns.AgreesWithOneByOne | src/db/loader.rs:12-16 | a load of accepted items and the load that commits every put end alike if and only if the catalog is in order after every put or out of order at a commit point |
| BulkRuns.OldestFirstLoads | src/db/loader.rs:12-16 | items oldest first, none older than what is live, load for every threshold and digest if their puts are accepted |
| BulkRuns.BatchSizeIndependent | src/db/loader.rs:12-16 | if committing after every put succeeds, every threshold and digest succeed and end in the same catalog; if it fails for any reason but time order, they fail the same way |
| BulkRuns.BulkRunRefines | src/db/loader.rs:50-77 | after the last flush the records are those of the map the puts describe |
| BulkRuns.BulkEqualsOneByOne | src/db/loader.rs:12-16 | every key maps to the same record as when committing after every put |
| BulkRuns.OneByOneOutOfOrder | src/db/loader.rs:12-16 | four puts that fail the time-order check when each is committed |
| BulkRuns.BatchesOfTwoInOrder | src/db/loader.rs:12-16 | and succeed in batches of two |
| Compact.RankIsOrderIsomorphism | src/db/compact.rs:341-366 | old to new frame ids is an order-preserving bijection from active frames onto the new file |
| Compact.NewFramesAt | src/db/compact.rs:343-366 | each active frame is found, field by field, at its new id |
| Compactor.ReadSample | src/db/compact.rs:256-266 | the first live vectors of a space decoded, or an error if one is still pending |
| Compactor.CopySpaces | src/db/compact.rs:251-302 | every space re-registered under its own id, its codec reused or re-fitted on a live sample |
| Compactor.CopyCollections | src/db/compact.rs:303-309 | names and creation times carry over under the same ids and none is refused |
| Compactor.CopyFrames | src/db/compact.rs:311-372 | streams the active frames and returns exactly their new ids |
| Compactor.CopyVectorsOf | src/db/compact.rs:380-397 | streams one space's live vectors onto the new ids of their owners; fails exactly on a pending one |
| Compactor.BuildCompactedFile | src/db/compact.rs:192-401 | succeeds exactly if samples and vectors are readable, the source is in time order and the fsync succeeds, and then the file is the specified one |
| Compactor.CompactStore | src/db/compact.rs:78-189 | the no-op decision, and otherwise the new file with the index rebuilt from it |
| Compactor.StreamableIff | src/db/compact.rs:78-189 | the operation the runs use succeeds exactly where the method does and ends in the same file |
| Compactor.CountsMeanTombstones | src/db/compact.rs:133-136 | comparing raw counts decides whether anything is tombstoned |
| CompactProofs.OpenCoherent | src/db/identity.rs:127-182 | a freshly opened file with unique live keys and live owners is a coherent store |
| CompactProofs.CompactedWellFormed | src/db/compact.rs:192-401 | ids in the new file refer backwards and dimensions fit |
| CompactProofs.CompactCoherent | src/db/compact.rs:78-189 | compacting a coherent store leaves a coherent store, whatever was pending |
| CompactProofs.CompactMeaning | src/db/compact.rs:192-401 | exactly the flushed keys survive, each with its collection, payload, time, role and its vectors re-encoded once in spaces of the same names; a parent is kept exactly while it is live |
| CompactResults.CompactStores | src/db/compact.rs:192-401 | role, payload and time are unchanged, and the vectors are the live ones of the frame, each decoded by the codec of its own space, counted one by one |
| CompactResults.CodecAfter | src/db/compact.rs:251-302 | a space keeps its codec unless asked to re-fit and not empty; then the codec is fitted on the first 50 000 live vectors in id order, decoded |
| CompactResults.CompactVerdict | src/db/compact.rs:133-401 | a compaction with something to drop succeeds exactly if no live vector is uncommitted and the frames are in time order, re-fitting or not; which error comes |
| CompactProofs.ParentLiveIff | src/db/compact.rs:354 | a record's link is live exactly while the parent's key still names the version it points to |
| CompactProofs.CompactInvisible | src/db/compact.rs:311-366 | after a commit, with lossless re-encoding, only records whose parent was deleted or put again look different, and only in having no parent |
| LinkedRuns.CompactMatches | src/db/compact.rs:192-401 | against a map that tracks which links are live, such a compaction forgets the parents of dead links and nothing else |
| LinkedRuns.CutMatches | src/db/writer.rs:174-220 | a put or delete of a key cuts exactly the links of its children |
| LinkedRuns.LinkedRunRefines | src/db/writer.rs:86-453 | over every run, compactions included, the records are those of the map and the live links those of the specification |
| CompactProofs.CompactIdempotent | src/db/compact.rs:133-146 | a second compaction is a no-op |
| CompactProofs.CompactedTimeOrdered | src/db/compact.rs:311-313 | the new file is in time order exactly if the source was |
| Civil.EpochIsZero | src/db/partition.rs:303-311 | day 0 is 1 January 1970 |
| Civil.NextDayIsNext | src/db/partition.rs:303-311 | the calendar's next day has the next number, over months, leap years and any sign of year; with the epoch this fixes every number |
| Civil.DaysMonotone | src/db/partition.rs:303-311 | later dates have larger numbers |
| Civil.FoundDate | src/db/partition.rs:313-324 | every integer maps to a valid date that maps back to it |
| Civil.DateOfDays | src/db/partition.rs:303-324 | every valid date survives the round trip |
| Civil.YearOfEra | src/db/partition.rs:315-319 | the division chain finds the year of the era that holds the day |
| Partition.ParsePrintedYmd | src/db/partition.rs:279-288 | a printed day name reads back, padding and all |
| Partition.ParsePrintedYm | src/db/partition.rs:290-298 | a printed month name reads back |
| Partition.NegativeYearUnread | src/db/partition.rs:279-298 | a name of a negative year does not |
| Partition.PeriodHolds | src/db/partition.rs:259-276 | the half-open period of a timestamp's partition holds the timestamp, December included |
| Partition.PeriodsTellDates | src/db/partition.rs:259-276 | two timestamps share a period exactly if they share the day, or the month |
| Partition.PeriodsTile | src/db/partition.rs:259-276 | periods tile time: a timestamp lies in the period of another exactly if it has the same one |
| Partition.KnownPeriods | src/db/partition.rs:259-276 | the day and the month around the end of January 2024, in seconds |
| Partition.NameShape | src/db/partition.rs:123-135 | up to the year 9999 names have four digits for the year and two for month and day |
| Partition.RoutedPeriod | src/db/partition.rs:123-135 | the routed name parses to that period exactly if the year is not negative |
| Partition.SameNameIffSamePeriod | src/db/partition.rs:123-135 | two records share a partition name exactly if their timestamps share a period, negative years included |
| Partition.WindowSelects | src/db/partition.rs:245-255 | a window selects exactly the partitions with an instant in it |
| Partition.InvertedWindow | src/db/partition.rs:245-255 | an inverted window selects exactly the partitions that span it, though no instant lies in it |
| Partition.WindowFindsRecord | src/db/partition.rs:245-255 | a record stamped inside the window is in a selected partition |
| Forget.ForgetBefore | src/db/partition.rs:184-232 | the loops, commit and index edit compute the specified store and count, or its error (`ForgetResults` says what those are) |
| Forget.TombstoneAll | src/db/partition.rs:207-223 | tombstones exactly the listed members that are active, in whatever order the partitions come, and counts the frames |
| Forget.ForgetCoherentIff | src/db/partition.rs:184-232 | the index agrees with the file afterwards if and only if nothing live in an expired partition was pending |
| Forget.NothingPendingAfterCommit | src/file/accessors.rs:82-92 | after a commit nothing is |
| Forget.ForgetMeaning | src/db/partition.rs:207-230 | the expired partitions are empty and every other record is as it was |
| Forget.ForgetsOnlyOld | src/db/partition.rs:177-184 | where timestamps fit their partitions, only frames older than the cutoff are tombstoned |
| Forget.RoutedPutFits | src/db/writer.rs:239-243 | a routed put with an explicit timestamp keeps timestamps in their partitions; without one it does if the two clock readings share a period |
| PartitionRuns.RunFits | src/db/partition.rs:123-232 | runs of routed ingest, declarations, deletes, commits, compactions and forgets stay coherent and keep timestamps in their partitions' periods |
| PartitionRuns.RunForgetsOnlyOld | src/db/partition.rs:177-184 | after any such run from an empty store, a forget tombstones only frames older than its cutoff |
| ForgetResults.ForgetExact | src/db/partition.rs:177-232 | with nothing old pending, after a forget every key of a partition whose instants all precede the cutoff reads as nothing and every key of any other collection reads as before |
| ForgetResults.ForgetCounts | src/db/partition.rs:207-223 | the answer is the number of frames that were active and no longer are |
| ForgetResults.ForgetRefines | src/db/partition.rs:207-230 | a forget does to the records what dropping the partitions before the cutoff does to the map |
| ForgetResults.ActsRefine | src/db/partition.rs:123-232 | over every run of ingest, forgets, declarations, puts, deletes and commits the records are the map's |
| GroupFsync.Barrier.TakeTicket | src/concurrency/writer_pipeline.rs:84-93 | the ticket taken, the counter advanced, the early exit |
| GroupFsync.Barrier.Try | src/concurrency/writer_pipeline.rs:96-108 | covered, wait or lead with all tickets so far as the target |
| GroupFsync.Barrier.Release | src/concurrency/writer_pipeline.rs:113-119 | the leader flag falls and the counter rises on success alone, never backwards |
| GroupFsync.NextKeepsInv | src/concurrency/writer_pipeline.rs:80-125 | every atomic step of every caller keeps the invariant |
| GroupFsync.OkMeansDurable | src/concurrency/writer_pipeline.rs:73-79 | in every interleaving a call that returned success has its bytes durable |
| GroupFsync.PublishesDurable | src/concurrency/connection.rs:349-395 | a commit enters its publish phase only with its written bytes durable |
| GroupFsync.AtMostOneLeader | src/concurrency/writer_pipeline.rs:99-108 | two leaders are the same caller |
| GroupFsync.EarlyExitIsDead | src/concurrency/writer_pipeline.rs:88-91 | the counter stays below the next ticket, so the early exit is never taken |
| GroupFsync.CoveredTicketsDurable | src/concurrency/writer_pipeline.rs:116-118 | every ticket up to the counter is durable |
| GroupFsync.NeverStranded | src/concurrency/writer_pipeline.rs:99-104 | a sleeping caller has an active leader or a notification still to come |
| GroupFsync.CoveredAfterTwoRounds | src/concurrency/writer_pipeline.rs:73-79 | two successful rounds after taking its ticket a caller finds itself covered |
| GroupFsync.AnswersAreOwn | src/concurrency/writer_pipeline.rs:113-123 | in every run a call is on its way to an error exactly if its own fsync failed, and one whose fsync succeeded is on its way to success |
| GroupFsync.FailsIffFsyncFailed | src/concurrency/writer_pipeline.rs:113-123 | a finished call failed if and only if its own fsync did; while no fsync fails every finished call has published |
| GroupFsync.CoveredReturnsOk | src/concurrency/writer_pipeline.rs:96-98 | a caller that finds its ticket covered returns success, and only then without leading |
| GroupFsync.ClosureOnce | src/concurrency/writer_pipeline.rs:109-112 | each closure runs at most once and is there whenever its caller can be promoted |
| GroupFsync.RoundsBounded | src/concurrency/writer_pipeline.rs:73-79 | there are never more fsyncs than callers |
| GroupFsync.NeverStuck | src/concurrency/writer_pipeline.rs:94-124 | until every call has finished some step other than a spurious wake-up is possible |
| GroupFsync.RunsAreBounded | src/concurrency/writer_pipeline.rs:94-124 | every run is bounded by the callers and the spurious wake-ups, so every call returns |
| RingCuts.RingCutBoundaries | src/codec/upq.rs:148-167 | the loop computes the boundaries the lemmas are about, none for no rings |
| RingCuts.CutsOrdered | src/codec/upq.rs:160-164 | whatever the radii and coefficients, boundaries never decrease |
| RingCuts.RingIsBetween | src/codec/upq.rs:397-398 | a ring is chosen exactly between its two boundaries, the upper one included |
| RingCuts.RawCutIsCrossover | src/codec/upq.rs:155-156 | a finite boundary is exactly where the outer ring becomes cheaper |
| RingCuts.NoCrossover | src/codec/upq.rs:157-159 | with no positive denominator the inner ring never loses |
| RingCuts.InfiniteIsFar | src/codec/upq.rs:155-159 | a boundary at infinity hides a crossover only beyond a million million times the gap of the squared radii |
| RingCuts.ChosenRingIsArgmin | src/codec/upq.rs:397-398 | unclamped boundaries pick a ring of least cost among all rings, for every amplitude |
| FitResults.ClampCanMiss | src/codec/upq.rs:160-164 | rings of 64, 4 and 64 phases with the codec's own coefficients: the clamp makes the choice miss a cheaper ring |
| RingChoice.CheapestIffExact | src/codec/upq.rs:143-167 | for ascending non-negative radii the boundaries pick a cheapest ring for every amplitude if and only if the finite ones come in order and no ring past the last one reached has a positive denominator against it; so they do where no clamp fired and no denominator fell into the sliver rounded to infinity |
| RingChoice.DisorderMisses | src/codec/upq.rs:160-164 | the first boundary out of order yields an amplitude at which a cheaper ring is missed |
| RingChoice.FarRingMisses | src/codec/upq.rs:157-159 | a ring past an infinite boundary that wins in the end is missed from some amplitude on |
| PhaseAlloc.FindBest | src/codec/upq.rs:180-189 | the first ring of largest gain that fits, or none exactly if none fits |
| PhaseAlloc.GainIsSaved | src/codec/upq.rs:169-185 | the gain of a doubling is exactly the phase cost it saves |
| PhaseAlloc.DoublingIsFair | src/codec/upq.rs:185-191 | a greedy step never gives a lighter ring more than a heavier one |
| PhaseAlloc.AllocPow2 | src/codec/upq.rs:172-195 | terminates with powers of two of at least four, within the budget when it suffices, no ring left that could be doubled, heavier rings never with fewer, and every doubling the one that saved most at the time |
| PhaseAlloc.GreedyDetermines | src/codec/upq.rs:172-195 | weights and budget determine the allocation |
| RingFit.Prefixes | src/codec/upq.rs:217-222 | the tables hold all prefix sums of the sample and of its squares |
| RingFit.PrefixSumsSuffice | src/codec/upq.rs:269-275 | the closed form over two table entries is the per-sample sum of ring costs |
| RingFit.Assign | src/codec/upq.rs:249-263 | the cuts split the sorted sample at the boundaries; the repair loop changes nothing |
| RingFit.CutsAssign | src/codec/upq.rs:256-258 | a sample lies between the cuts of a ring exactly as the encoder would assign it |
| RingFit.MeasureRing | src/codec/upq.rs:269-277 | one ring's count, sum and exact cost from the tables |
| RingFit.Measure | src/codec/upq.rs:251-278 | the total is the sum over all samples of the cost on the assigned ring |
| RingFit.RefineIterate | src/codec/upq.rs:284-316 | the next radii, sorted, empty rings respawned beside the densest, and phases allocated by the sorted weights |
| FitMeaning.MovedIsBest | src/codec/upq.rs:290-296 | a ring with samples moves to the one radius at which they cost least |
| FitMeaning.FitRefines | src/codec/upq.rs:248-317 | every iterate of a fit comes from the one before by best radii, respawns beside the fullest ring, a sort, and the greedy allocation by the phase costs of the rings' samples |
| FitMeaning.SumsWeigh | src/codec/upq.rs:305-316 | an allocation weight over the squared number of phases is what rounding phases costs the ring's samples |
| FitMeaning.CoeffIsMeanSquare | src/codec/upq.rs:130-134 | the tangential coefficient is the mean square angle error within a phase step |
| RingFit.Fit | src/codec/upq.rs:201-346 | refuses exactly an empty sample, fewer than two rings or an overflow; otherwise returns the first cheapest of all iterates, with its radii, phases, bases, boundaries and true mean cost |
| RingFit.AssignedIsCheapest | src/codec/upq.rs:143-147 | the cost a fit assigns is the minimum over all rings for every amplitude exactly under that condition |
| RingFit.FitSucceeds | src/codec/upq.rs:326-330 | with four cells or more per ring no iterate overflows, and from the second on all phases are powers of two |
| FitResults.PowersIff | src/codec/upq.rs:83-84 | the returned phases are powers of two if and only if the kept iterate is a later one or the even split is a power of two |
| FitResults.PowersFromSplit | src/codec/upq.rs:246-247 | an even split into a power of two suffices, whatever the sample |
| FitResults.FitKeepsFirst | src/codec/upq.rs:279-282 | for one sample at the radius all three rings start from and fifteen cells, every fit keeps the first iterate and returns five phases a ring |
| FitResults.OrderMembers | src/codec/upq.rs:298-303 | the stable sort of the rings is a permutation |
| FitResults.RefinedReorders | src/codec/upq.rs:284-303 | the next radii are the moved radii in another order |
| FitResults.FittedAscends | src/codec/upq.rs:290-303 | with samples and initial radii from zero up and four cells or more a ring, the returned radii ascend from zero |
| UpqCells.CellsDistinct | src/codec/upq.rs:320-325 | every pair of ring and phase has its own cell below the sum of the phases |
| UpqCells.Locate | src/codec/upq.rs:320-325 | and every cell below the sum belongs to one |
| UpqCells.PhaseIsNear | src/codec/upq.rs:400-401 | the decoded angle is within half a step of the encoded one, up to whole turns |
| UpqCells.EncodedCell | src/codec/upq.rs:397-403 | a code names the chosen ring and its nearest phase and lies below the cell count |
| UpqCells.EncodedDecodes | src/codec/upq.rs:397-461 | the table entry of a code is the point of the chosen ring at an angle within half a step of the one encoded, with the signs of its coordinates |
| UpqCells.FittedIsValid | src/codec/upq.rs:319-346 | every design a fit returns satisfies what encoder, tables and packing rely on |
| UpqCells.CodesCheapestIff | src/codec/upq.rs:397-403 | with closed-form boundaries, every code names a ring no other ring beats if and only if the design's radii and phases pass the check |
| UpqCells.FittedCodesCheapestIff | src/codec/upq.rs:397-403 | the same of every fitted design, whose radii are shown to ascend |
| UpqCells.BuildTables | src/codec/upq.rs:443-461 | each cell below the sum is written exactly once, with its own ring's radius and phase; no other cell is written |
| UpqCells.LoadsInRow | src/codec/upq.rs:989-991 | every four-byte load stays inside the stride and every write inside the packed bytes |
| UpqCells.ExtractIsField | src/codec/upq.rs:974-984 | a load at any place reads the field a sequential reader finds, whatever the neighbours |
| UpqCells.OrField | src/codec/upq.rs:952-965 | or-ing one field into its two or three bytes adds it at its place |
| UpqCells.Pack11 | src/codec/upq.rs:952-965 | the bytes are the little-endian number of all fields side by side |
| UpqCells.SameAsGeneric | src/codec/upq.rs:952-965 | which is what the generic packer writes at width 11, byte for byte |
| UpqCells.EncodeRow | src/codec/upq.rs:872-879 | every pair of an encoded row reads back as its own cell, with no integrity error |
| UpqCells.CellVerdict | src/codec/upq.rs:757-770 | a code reads back exactly if it names a cell, and is refused otherwise |
| UpqCells.RowIsLeast | src/codec/upq.rs:989-991 | packed fields take the fewest bytes and a row the least multiple of 16 with room for the last load |
| UpqCells.DefaultBlockSizeFor | src/codec/upq.rs:465-471 | the largest power of two up to 1024 that divides the dimension |
| BitStream.PackBits | src/codec/qam_lloyd_max.rs:384-414 | for widths 1 to 32 the bytes are the little-endian sum of the masked values at their places, later bytes zero, no write outside the packed bytes |
| BitStream.Drain | src/codec/qam_lloyd_max.rs:395-405 | the accumulator holds at most 39 bits and draining it loses none |
| BitStream.Load | src/codec/qam_lloyd_max.rs:417-440 | loading bytes holds exactly the window of the stream that starts at the next field |
| BitStream.UnpackBits | src/codec/qam_lloyd_max.rs:417-440 | each output is the field of the stream at its place |
| BitStream.FieldOfStream | src/codec/qam_lloyd_max.rs:384-414 | the field at a place of the packed number is the value put there, cut to the width |
| BitStream.UnpackOfPack | src/codec/qam_lloyd_max.rs:384-440 | unpacking undoes packing, up to the mask, for every width, count and value list |
| BitStream.ZeroBeyond | src/codec/qam_lloyd_max.rs:83-92 | bytes past the packed length stay zero |
| BitStream.PaddingIsLeast | src/codec/qam_lloyd_max.rs:83-92 | a padded stream is the least multiple of 64 bytes with room for its fields |
| DotKernel.FromCodec | src/codec/qam_sliding.rs:113-161 | only five amplitude and six phase bits are accepted; tables are in range and quantized in the units the lemmas use |
| DotKernel.LevelsKept | src/codec/qam_sliding.rs:126-136 | every amplitude level is within half a unit of its table entry, the largest included |
| DotKernel.AnglesKept | src/codec/qam_sliding.rs:137-142 | every cosine and sine is within half a sixty-third of its entry |
| DotKernel.NeverSaturates | src/codec/qam_sliding.rs:369-377 | the narrowing clamp never changes a value, which stays within 125 |
| DotKernel.SumBound | src/codec/qam_sliding.rs:198-199 | the sum over the pairs stays within 125 times 127 per pair |
| DotKernel.GroupFields | src/codec/qam_sliding.rs:310-340 | an index read through its group's 64-bit window is the one sequential unpacking reads |
| DotKernel.SumGroup | src/codec/qam_sliding.rs:346-383 | one group is the sum over its pairs |
| DotKernel.RawDotIntFull | src/codec/qam_sliding.rs:346-383 | all whole groups are the sum over their pairs |
| DotKernel.RawDotIntTail | src/codec/qam_sliding.rs:310-344 | the tail is the sum over the pairs after the last whole group |
| DotKernel.RawDotInt | src/codec/qam_sliding.rs:212-240 | groups and tail are the plain sum over all pairs, for every number of pairs, within the documented bound (`DotScore.ScoreIsNear` says what the sum stands for) |
| DotKernel.TermsOfPacked | src/codec/qam_sliding.rs:212-383 | on streams the generic packer wrote, the summed indices are the packed ones |
| DotScore.PrepareQuery | src/codec/qam_sliding.rs:163-205 | the query scaled pair by pair and cut to integers, each within half a unit, the largest 127 units, with the factor that takes a sum back |
| DotScore.ScoreIsNear | src/codec/qam_sliding.rs:163-240 | the kernel's sum times that factor is the inner product of the rotated query with the decoded row, up to a slack per pair of 40259/63 query units times amplitude units |
| DotScore.NarrowedIsInner | src/codec/qam_sliding.rs:372-379 | 128 times a narrowed pair is 63 times its inner product with the phase, up to 191 |
| DotScore.LargestLevel | src/codec/qam_sliding.rs:125-136 | the largest level is exactly 127 amplitude units |
| Hadamard.WhtTwice | bench/python/codec_study.py:140-156 | the transform applied twice multiplies by the block size |
| Hadamard.WhtSquares | bench/python/codec_study.py:140-156 | it scales the sum of squares by the block size |
| WhtEntries.WhtEntry | bench/python/codec_study.py:140-156 | every entry is the sum of the coordinates, negated where row and column have an odd number of one bits in common |
| WhtEntries.ForwardEntry | src/codec/qam_lloyd_max.rs:316-341 | every coordinate of the rotation is that sum over its masked block, scaled |
| Hadamard.StageDoubles | bench/python/codec_study.py:140-156 | one stage of the loop over transformed blocks gives transformed blocks of twice the size |
| Hadamard.Butterfly | src/codec/qam_lloyd_max/simd.rs:412-417 | the innermost loop combines two blocks in place and touches nothing else |
| Hadamard.RunStage | src/codec/qam_lloyd_max/simd.rs:410-419 | one stage over one block, in place |
| Hadamard.Fwht | src/codec/qam_lloyd_max/simd.rs:408-421 | the loop over h = 1, 2, 4, ... is the transform of the block, in place |
| Hadamard.FwhtNormalized | src/codec/qam_lloyd_max/simd.rs:404-426 | every block transformed and normalized |
| Hadamard.NormalizedTwice | src/codec/qam_lloyd_max/simd.rs:404-426 | the normalized transform is its own inverse for every number of blocks |
| Hadamard.RotationRoundTrip | src/codec/qam_lloyd_max.rs:316-372 | sign mask then transform is undone by transform then sign mask, and the other way round |
| Hadamard.RotationKeepsNorm | src/codec/qam_lloyd_max.rs:316-372 | the rotation keeps the sum of squares |
| Hadamard.BlockHadamardForward | src/codec/qam_lloyd_max.rs:316-341 | the checks in their order, then the rotation in place; an error leaves the data |
| Hadamard.BlockHadamardInverse | src/codec/qam_lloyd_max.rs:347-372 | the same for the inverse |
| Signs.SignsFromSeed | src/codec/qam_lloyd_max.rs:295-310 | each sign is one bit of SplitMix64, determined by seed and place alone, and every sign is plus or minus one |
| Signs.GoldenSequence | src/codec/prng.rs:23-29 | the first five draws from seed 0 are the published ones |
| Signs.FirstSigns | src/codec/qam_lloyd_max.rs:295-310 | a one bit negates and a zero bit does not, lowest bit first |

## Left out

- Search, scoring, readers and views: ranking ties follow hash-map order.
- Text indexing and text spaces' analyzers: a record's text is its payload only, and compaction does not read schema documents to rebind text.
- Engine internals: segment writing, catalogs, footer recovery, memory maps, locks, checksums.  The engine's ids are positions and its only I/O error is a failing fsync.
- Soft-delete flags of collections, metrics of spaces, chunk numbers, `updated_at` and payload codecs: carried by the source, looked at by nothing modelled here.
- Records that hold non-finite floats are refused by the source; `real` has none.
- JSON text of schema documents: reading a payload and parsing a spec are parameters, and the payload of a document is given beside it.
- Codec fitting: a fitted codec is known only by the sample it was fitted on.
- Inline vector specs of a declaration: modelled as `DefineSpace` steps before it; space handles of another store are not modelled.
- `put_auto`: a put under a generated key.
- The registry rebuilt from documents on reopening: compaction keeps the registry it had; `SchemaDoc.DeclaredIsRestored` covers what a reopen reads.
- Compactor.CompactStore: the temporary file, its rename and reopening are one step, and report counts and byte sizes are left out.
- Identity nesting: the source's map of maps per collection is one map from collection and key.
- Engine.ValiseFile.Commit: does not treat a file without changes as a no-op, so it may also report a failing fsync there, and so may `Forget.ForgetBefore`.
- Declare.DeclareCoherent: no metric is compared when a space is defined again, because the model's spaces have none.
- StoreRuns.RunRefines: runs with compactions are in `LinkedRuns.LinkedRunRefines`, which asks each compaction to follow a commit and to re-encode without loss.
- GroupFsync.RunsAreBounded: tickets do not overflow, and spurious wake-ups are counted, not excluded.
- RingFit.Fit: the sorted sample and the initial radii are parameters (histogram and stride sampling are left out); at least one cell per ring is required, since with fewer the source divides by a phase count of zero and computes with infinities.
- `fit_sweep`, the Rayleigh sample and Lloyd-Max design: convergence and statistics, not laws.
- UpqCells.BuildTables: cosine and sine are parameters, and the eight-bit mirror of the table is left out.
- UpqCells.EncodedCell: rounding of the normalized amplitude and angle to 32-bit floats is not modelled.
- `y_hat_norm`, sign sketches, `amp_index`, distances: float arithmetic over the same fields.
- DotScore.PrepareQuery: the length and finiteness checks and the rotation that come before it are not part of it.
- DotKernel.RawDotIntFull: the NEON and AVX2 kernels are not modelled; the scalar reference stands for them.
- Bits.Or: the bitwise or of machine words, defined bit by bit on naturals; masks and shifts are remainders, quotients and products.
- Partition windows by last days or by explicit suffixes, and custom partition labels, which have no period.
- Partition.RoutedPeriod: timestamps are at most the largest 64-bit value, and arithmetic on periods does not wrap.
- Civil-date arithmetic does not wrap at 64 bits.
