# starfield-datastore, modelled and proved in Dafny

starfield-datastore fetches immutable scientific files and keeps them in a local
content-addressed store: an index of sidecars (key to digest, length, provenance) over a
directory of blobs named by their SHA-256. Above the store a server owns a cache with hard byte
limits and publishes what it fetched to S3 under conditional writes. This project models those
parts and proves what they promise, for every input, every run and every interleaving.

| file | what it holds |
|---|---|
| `Basics.dfy`, `Sums.dfy` | shared types; sums over finite maps |
| `ContentCheck.dfy` | the check tree, its meaning, the streaming reader, the verdict on the first 8192 bytes |
| `Pins.dfy` | digest pins inside a tree, validation, the server's metadata test |
| `Receiver.dfy`, `TransferLaws.dfy` | the budgeted, hashing, early-rejecting writer; what it guarantees for every producer |
| `Catalog.dfy`, `Resolve.dfy` | index, blobs, eviction, publication, transfers and the resolution chain on values |
| `Outcomes.dfy` | how publications, transfers and resolutions end: exactly when, and with what |
| `Store.dfy` | the store as a class, one process at a time |
| `StoreProtocol.dfy` | the store as a transition system: many processes, crashes, corruption; entries, locks, progress |
| `StoreServing.dfy` | what that system hands out, and who is contacted after a fill |
| `StoreAlone.dfy` | one process of it left alone; that everything that may be handed out can be |
| `Coordinator.dfy`, `ManagedServer.dfy` | admission, draining and maintenance; whole runs of a managed server |
| `S3Writes.dfy`, `S3Protocol.dfy` | the PUT retry loop and multipart slicing; concurrent conditional writers of one key |
| `Manifest.dfy`, `ManifestDocument.dfy` | declarative checks and their encoding; documents, merging, pinning |
| `Netrc.dfy`, `Fetch.dfy` | netrc lexer and section machine; redirects and the credentials they carry |
| `Server.dfy`, `Repair.dfy` | answering a miss; explicit local repair over a whole manifest |

`dafny verify dfyconfig.toml` checks everything.

## How the model is set up

- SHA-256, the HTML text test and custom predicates are the functions of an `Oracles` value, and
  every statement holds for all of them. The hash is required to be injective (`Injective`) only
  where a blob that is already there is kept in place of the new body and the result is then said
  to be genuine or ready, for the exactness clauses of `TransferLaws.ArrivalIsHonestExactly` and
  `StoreAlone.UndisturbedAnswersExactly`, and to tell corrupted bytes from true ones in
  `StoreServing.CorruptionBetweenReadsIsServed`.
  Locks, dangling keys, readiness over time, progress, undisturbed hits and the server's metadata
  test need nothing of it.
- A transfer is a run of writes a producer chooses freely, each written in full or torn after some
  bytes, and an ending. Mirrors, archives and local files are such producers. Where a statement
  needs it, the producer must report a failed file write (`Reports`, `AllReport`, `Honest`); what
  happens when it does not is `TransferLaws.SwallowedFailureCorrupts`.
- `Stores.Store` is the code as one process runs it: fields reassigned step by step. Mirror and
  source behaviour, the clock and disk faults around a publication are the fields of an `Attempt`.
  Its resolution methods are proved equal to the functions of `Resolution`, about which the
  properties are proved.
  `StoreProtocol` splits the same operations into the atomic file and lock steps between which
  other processes run and a crash or error may strike (`Abort` drops that process's locks); the two
  share `PublishBlob`, `Referenced`, `DropEntry` and what it takes for a key to be `Ready`. A hit
  reads its blob once for the length, once for the digest and once for every leaf of the check, and
  the blob may be corrupted in between. A body reaches a process of the
  protocol hashed and validated, which is what `TransferLaws.ArrivalIsHonest` and
  `Pins.ValidationIsGenuine` establish. How long gc goes on evicting is left to choice there, and
  decided in `Stores.Store.Gc`.
- Both directions are proved where an operation may refuse: that nothing wrong is answered, and that
  whatever may be answered is. The latter is said of contacts and bodies (`Outcomes`), of an
  undisturbed process (`StoreAlone`, which nobody interrupts between its steps) and of calls that
  meet nobody else (`S3Protocol.LonePublicationEnds`).
- `ManagedServer` runs any number of fills over the writer's own step function, the shared
  publication function and the coordinator's own admission function.
- 64-bit arithmetic is explicit where it matters: checked addition in `Admission`, `ValidPolicy` and
  `BlobBytes`, wrapping addition (as release builds add) and saturating subtraction in gc, the
  32-bit part number.

## Model

| member | source | states |
|---|---|---|
| ContentChecks.CheckReader | src/check.rs:124-218 | the streaming reader, with its early exits and bounded buffer, passes exactly the bodies the tree accepts |
| ContentChecks.CheckMagic | src/check.rs:158-184 | skipping whitespace byte by byte and reading no more than the longest signature decides "some nonempty signature starts the (trimmed) body", and an unusable signature list always fails |
| ContentChecks.ReadSubject | src/check.rs:166-178 | the buffer holds exactly the first bytes of the body after the skipped whitespace, up to the longest signature |
| ContentChecks.EarlyRejectionIsSound | src/check.rs:72-104 | a body the whole check accepts is never rejected on its first 8192 bytes, also where they end inside the whitespace or inside a signature |
| ContentChecks.UnmatchableStartsNothing | src/check.rs:166-184 | a trimmed signature that itself starts with whitespace starts no body |
| ContentChecks.EarlyRejectionIsComplete | src/check.rs:75-95 | for every list of signatures: the heads that pass are exactly those some continuation of which is accepted, if and only if no signature is empty and at least one is matchable, or there is none at all |
| ContentChecks.FullHeadsAreJudged | src/check.rs:72-104 | with signature lists that are complete in that sense, a whole tree lets a full head through exactly when each test in it that looks at the start of the body, however deep, can still be met by some continuation |
| Pins.PinSplittingPreservesMeaning | src/store/mod.rs:686-700 | matching every collected pin against the stream digest and running the tree with its Sha256 nodes erased accepts exactly what the tree accepts |
| Pins.ValidationIsGenuine | src/store/mod.rs:655-682 | for bytes hashed while streaming, validation passes exactly when the size pin and the whole check hold |
| Pins.GenuineMetadataAgrees | src/server.rs:100-115 | the metadata of a validated body always passes the server's metadata test |
| Pins.MetadataAgreesExactly | src/server.rs:100-115 | the test passes exactly the metadata the manifest allows: the expected size, no digest but the pinned ones anywhere in the tree, no length below any minimum |
| Receiving.Receiver.WriteChunk | src/store/mod.rs:769-798 | one write charges first, then judges the head once it is full, then writes and hashes; every outcome and the whole new state |
| Receiving.Receiver.CheckHead | src/store/mod.rs:745-752 | the head is judged once and its verdict remembered |
| Receiving.Receive | src/store/mod.rs:581-620 | the result is that of the run, the limit taking precedence over the producer's word, and the budget is left as the run left it |
| TransferLaws.ChunkingIsIrrelevant | src/store/mod.rs:745-798 | for every body and every way to cut it into writes: the outcome of validating the body at once, rejected exactly when its first 8192 bytes are |
| TransferLaws.StoppingEarlyIsIrrelevant | src/fetch.rs:178-193 | a producer that stops at its first refused write and reports it gets that same outcome |
| TransferLaws.OutcomeIsOfTheBody | src/store/mod.rs:581-620 | within the limit every producer gets an answer told by all it tried to write and how it ended: found nothing, its own error, the rejection of its head, or the body; the cuts and the fate of its writes do not matter |
| TransferLaws.LimitIsExact | src/store/mod.rs:590-600 | a limited transfer ends in TransferLimit exactly when its writes exceed the limit in total, swallowed errors included; the file never holds more than was charged |
| TransferLaws.BudgetLedger | src/store/mod.rs:770-780 | over any writes the budget falls by exactly what was attempted until it would be crossed, and the file grows by no more |
| TransferLaws.ArrivalIsHonestExactly | src/store/mod.rs:769-798 | digest and length of an arrived body are those of its file exactly when no write failure that left bytes behind was swallowed |
| TransferLaws.SwallowedFailureCorrupts | src/store/mod.rs:795-797 | a concrete producer for which they are not |
| TransferLaws.ArrivalIsHonest | src/store/mod.rs:616-620 | they always are when producers report such failures |
| Catalog.PublishGrowth | src/store/layout.rs:155-169 | publishing keeps every blob, puts one at the address, and adds at most the published bytes |
| Catalog.EvictionIsDetermined | src/store/mod.rs:440-464 | at most one list of keys is the shortest prefix of the (fetched_at, key) order that meets the budget |
| Resolution.HitIsGenuine | src/store/mod.rs:499-535 | a hit is served exactly when the held bytes hash to the entry's digest, have its length and satisfy the artifact's size pin and whole check |
| Resolution.ReportingIsHonest | src/store/mod.rs:581-620 | what arrives from a reporting producer carries its own digest and length, under any budget |
| Resolution.PublicationGrows | src/store/mod.rs:626-649 | a publication, wherever it fails, keeps every blob and every other entry, leaves nothing dangling, adds at most the body, and on success has validated it and written its entry |
| Resolution.CorruptionBlocksResolution | src/store/mod.rs:622-647 | while the address an artifact is pinned to holds a corrupt blob, no mirror and no source can resolve it, whatever they serve, and the blob stays as it is |
| Resolution.PublicationIsSound | src/store/mod.rs:626-649 | for an honest body no fault leaves a damaged entry, and success makes the key ready, also when an equal blob was already there |
| Resolution.TransferIsSound | src/store/mod.rs:537-579 | the same for a whole transfer from any reporting mirror, source or local file |
| Resolution.TransferIsRecorded | src/store/mod.rs:537-579 | the sidecar names the layer, time, source, ETag and identity of the transfer that served the body |
| Resolution.TransferIsCovered | src/store/mod.rs:581-620 | a transfer stores no more than it charges |
| Resolution.TransferReportsTheLimit | src/store/mod.rs:590-600 | a transfer ends in TransferLimit exactly when it tried to write more than was left or the producer reports that error itself, swallowed write errors included |
| Resolution.ResolutionGrows | src/store/mod.rs:249-316 | however a resolution ends, every blob keeps its bytes, no other entry changes and no key dangles; offline contacts nobody, and without permission no source is contacted |
| Resolution.ResolvedIsReady | src/store/mod.rs:249-316 | whatever is returned is ready to be served again, and no resolution, also a failing one, leaves a damaged entry of its own |
| Resolution.ResolvedIsPresentable | src/server.rs:66-80 | whatever a resolution from reporting contacts returns has a sidecar that names it and passes the server's metadata test, for any hash |
| Resolution.ReadyKeyContactsNobody | src/store/mod.rs:258-265 | a ready key is answered without a contact and without a change, and the local layer answers only ready keys |
| Resolution.ResolutionIsCovered | src/store/mod.rs:244-316 | over mirror and sources the blobs grow by at most what the budget lost, and nothing is refunded |
| Resolution.WritesStayWithinLimit | src/store/mod.rs:249-315 | in one limited resolution the bytes put into temp files by the mirror attempt and every source attempt, rejected and torn ones included, and what is left of the budget sum to at most the limit |
| Resolution.LimitIsCumulative | src/store/mod.rs:270-315 | for all producers: a resolution that contacted anyone ends in TransferLimit exactly when the contacts it made wrote more than the limit together, or the last of them reports that error itself |
| Resolution.OutcomesAreTelling | src/store/mod.rs:266-315 | a body is recorded under the last contact made; each error says which contacts were made and why no more; a miss is OfflineMiss exactly offline |
| Outcomes.PublicationEndsExactly | src/store/mod.rs:626-649 | a publication succeeds exactly when the body is genuine, its address free or holding bytes that hash to it, and the disk does not fail; it is a rejection exactly when the body is not genuine or its address is reached and corrupt |
| Outcomes.TransferEndsExactly | src/store/mod.rs:537-620 | a reporting mirror, source or file within its limit is answered exactly so: delivered, nothing found, rejected, its own error, or a disk error |
| Outcomes.TransferStoresExactly | src/store/mod.rs:581-649 | it leaves nothing on disk unless it served a genuine body within the limit, and then exactly the blob and the entry, as far as the disk let it |
| Outcomes.LocalEndsExactly | src/store/mod.rs:258-265 | the local layer passes on exactly a missing key, a missing blob or a moved pin, answers exactly a ready key that fits the limit, and makes errors of a damaged sidecar and of corruption |
| Outcomes.MissIsDecided | src/store/mod.rs:266-315 | a miss online is decided by the first contact that does not pass the matter on, each kind of failure of mirrors and sources told apart, with its body or its error; if all pass it on, by the configuration |
| Outcomes.ResolvesExactly | src/store/mod.rs:249-316 | a resolution returns a digest after no contact exactly if the key is ready and fits, after n + 1 exactly if contact n delivers it within the limit after only contacts that passed the matter on |
| Stores.Store.Publish | src/store/mod.rs:626-649 | the method reaches the disk and result of the publication function, which `Outcomes.PublicationEndsExactly` characterises |
| Stores.Store.Fetch | src/store/mod.rs:537-579 | one transfer reaches the result, disk and budget of the transfer function |
| Stores.Store.FetchUpstream | src/store/mod.rs:297-315 | the loop over sources reaches result, disk, budget and number of contacts of the recursive chain |
| Stores.Store.GetWithBudget | src/store/mod.rs:249-316 | the whole resolution reaches those of the resolution function |
| Stores.Store.Lookup | src/store/mod.rs:258-265 | the local layer answers as the resolution function's does |
| Stores.Store.Import | src/store/mod.rs:325-337 | a seeded file is treated exactly as an unlimited transfer, recorded as imported |
| Stores.Store.Keys | src/store/layout.rs:144-153 | every key once, in sorted order |
| Stores.Store.EvictionOrder | src/store/mod.rs:440 | the stable sort of the sorted scan orders by fetch time, ties by key |
| Stores.Store.Remove | src/store/mod.rs:359-370 | drops the entry, and its blob exactly when no other entry refers to it; a damaged sidecar makes the reference scan an error and the blob stays |
| Stores.Store.Gc | src/store/mod.rs:424-465 | removes exactly the shortest prefix in (fetched_at, key) order that brings the unique bytes within the budget, and every blob nothing refers to; any damaged sidecar stops it before it touches anything |
| Stores.Store.EvictOne | src/store/mod.rs:447-463 | one turn keeps the blobs equal to the referenced ones and the running total equal to their bytes, aliases included |
| Stores.Store.Sweep | src/store/mod.rs:425-439 | leaves exactly the referenced blobs and records their sizes |
| Stores.Store.WrappingSum | src/store/mod.rs:441 | the unchecked sum is the true total modulo 2^64 |
| Stores.Store.BlobBytes | src/store/mod.rs:470-480 | the checked sum is the true total of unique bytes, orphans included, or an error exactly beyond 64 bits |
| Stores.Store.Verify | src/store/mod.rs:386-416 | reports exactly the keys whose blob is missing, hashes elsewhere or has another length |
| StoreProtocol.StepKeepsInv | src/store/mod.rs:249-465 | every step of every get, import, remove and gc, every crash and every corruption keeps locks and entries consistent, whatever the hash |
| StoreProtocol.NoKeyEverDangles | src/store/mod.rs:622-649 | in every reachable state of every run every entry's blob exists, for any hash; crashes leave only orphans |
| StoreServing.NothingUnbackedIsEverServed | src/store/mod.rs:499-535 | in every run, corruption included and for any hash, every path handed out rests on bytes found to hash to its digest and on a validated body of that digest, or on matching pins and size and one approving read per part of the check |
| StoreServing.NothingWrongIsEverServed | src/store/mod.rs:499-535 | in every run a path handed out by a fill held bytes that hash to its digest and satisfy the size pin and the whole check; one handed out by a hit did unless its blob was corrupted between the first and the last read of that very hit |
| StoreServing.UndisturbedHitIsGenuine | src/store/mod.rs:505-533 | the same for a single hit, if its blob is not corrupted between its first and its last read, whatever happened before |
| StoreServing.SteadyAnswersAreGenuine | src/store/mod.rs:517-533 | separate reads for length, digest and every check that saw the same bytes add up to the size pin and the whole check |
| StoreServing.FilledAnswersAreGenuine | src/store/layout.rs:158-162 | a fill hands out its validated body, also where an equal blob was kept |
| StoreServing.ServableHitsExactly | src/store/mod.rs:505-533 | over all runs, the hits that can be handed out are exactly those whose length, digest and check reads each approved what they saw |
| StoreServing.CorruptionBetweenReadsIsServed | src/store/mod.rs:517-533 | for every artifact whose pins name bytes that fail its check while each part of it is satisfied by some bytes: a run hands out the path although the blob never satisfied both at one moment |
| StoreProtocol.BlobsAreNeverRewritten | src/store/layout.rs:158-162 | no operation changes a blob in place, so a corrupt one is never silently replaced |
| StoreProtocol.KeyLockIsStable | src/store/layout.rs:87-99 | while a process holds a key's lock nobody else changes that entry or deletes or rewrites its blob |
| StoreServing.FillMakesReady | src/store/mod.rs:626-649 | the step that writes a sidecar over an uncorrupted blob makes the key ready, in any interleaving |
| StoreServing.ReadyThroughout | src/store/mod.rs:249-265 | a ready key stays ready until its entry goes or its blob is corrupted, for any hash |
| StoreServing.LaterGetsContactNobody | src/store/mod.rs:256-265 | after one fill every get of the artifact that takes the key lock stays on its way to the stored blob until it ends: in no state of the run does it start a transfer |
| StoreProtocol.NeverDeadlocked | src/store/layout.rs:87-99 | whenever an operation is in progress some process can step: key lock before store lock, nothing requested under the store lock |
| StoreProtocol.EveryStepUsesUpWork | src/store/mod.rs:249-465 | every step of every process shrinks the work left, so no schedule runs for ever without new operations |
| StoreProtocol.EveryOperationCanComplete | src/store/mod.rs:249-465 | from every consistent state process steps alone bring every operation to its end, if only by giving up; that it need not give up is `StoreAlone.UndisturbedFillServes` |
| StoreAlone.UndisturbedTurnDropsTheEntry | src/store/mod.rs:359-370 | run without interference, the lock and file steps of `remove` and of a gc turn do to index and blobs what the sequential store does |
| StoreAlone.UndisturbedRemoveDropsTheKey | src/store/mod.rs:359-370 | a `remove` drops the entry whatever its digest, and the blob with its last reference |
| StoreAlone.UndisturbedSweepDropsTheOrphans | src/store/mod.rs:425-439 | the first section of gc leaves exactly the referenced blobs |
| StoreAlone.UndisturbedFillServes | src/store/mod.rs:249-337 | a get that meets a miss (no entry, no blob, a moved pin) and every import hand out any genuine body whose address is not corrupt, at any of their contacts, after failures of all those before |
| StoreAlone.UndisturbedAnswersExactly | src/store/mod.rs:249-337 | an undisturbed get or import can answer exactly this: the blob of a ready key and then nothing else; on a miss, or for an import, any genuine body whose address is free or holds it; with a damaged sidecar or a failing blob nothing |
| StoreAlone.EveryGenuineBodyIsServed | src/store/mod.rs:266-337 | from an empty store one get, and one import, of every artifact hands out every body that is genuine for it |
| StoreAlone.ServableExactly | src/store/mod.rs:499-649 | over all runs, the answers that can be handed out, fills and hits, are exactly the backed ones |
| Coordination.HeadroomNeverOverflows | src/server/cache.rs:96-100 | a validated policy makes the headroom overflow branch of admission unreachable |
| Coordination.ValidPoliciesAdmit | src/config.rs:75-94 | a policy is valid exactly when an idle cache can take an artifact of the largest, nonzero size and neither sum exceeds 64 bits |
| Coordination.AdmitsExactly | src/server/cache.rs:69-110 | any gate admits exactly when the artifact fits, the mutex is free, it neither failed nor drains, a place is free, and the reservations of the whole batch with this one fit the in-flight budget and the disk beyond its reserve |
| Coordination.RefusalsNameTheObstacle | src/server/cache.rs:69-103 | each refusal says what would have to differ for the request to be admitted: an idle gate, nothing reserved, more space |
| Coordination.IdleAdmitsAnythingThatFits | src/config.rs:75-94 | from idle an artifact is admitted exactly when it fits the artifact limit, the mutex is free and the disk has room |
| Coordination.Coordinator.Admit | src/server/cache.rs:69-110 | admits exactly under those conditions and with the declared or the largest limit; every refusal, and the new state of every admission; a refusal changes nothing |
| Coordination.Coordinator.Maintain | src/server/cache.rs:112-121 | succeeds exactly when all sidecars are readable and the bytes fit 64 bits, so the over-budget branch never fires; evicts the shortest prefix |
| Coordination.Coordinator.Finish | src/server/cache.rs:123-146 | earlier guards only close admission; the last one runs maintenance, then reopens with nothing reserved or stays failed |
| Coordination.TemporaryBytes | src/server/cache.rs:47-55 | the checked sum over leftover temp files is the true one or an overflow |
| Coordination.Open | src/server/cache.rs:37-67 | a coordinator exists exactly with a valid policy, exclusive ownership, countable leftovers and successful first maintenance, and starts within its budget |
| ManagedServer.StepKeepsInv | src/server/cache.rs:69-146 | admission, writes, retries, publications, returned paths, guard drops and the single deletions of maintenance keep accounting, payload and protection |
| ManagedServer.MaintenanceIsExclusive | src/server/cache.rs:123-146 | from the drop of the last guard until maintenance has ended nobody is admitted, no guard is live and no path is held |
| ManagedServer.PayloadEnvelope | src/server/cache.rs:69-146 | in every reachable state blob bytes plus temp bytes of all fills are at most max_bytes + max_inflight_bytes, which fits 64 bits |
| ManagedServer.HeldPathsAreProtected | src/server/cache.rs:123-146 | the path a fill was given keeps its bytes until that fill's guard drops, shared blobs included |
| ManagedServer.AccountingIsExact | src/server/cache.rs:69-146 | `active` is the number of live guards and never underflows when one drops, `reserved` the sum of all limits admitted since the last successful maintenance, batches stay within the concurrency limit |
| ManagedServer.AdmissionIsExact | src/server/cache.rs:69-110 | in every run a request is admitted exactly when fewer fills are live than allowed and the limits of the whole batch with its own fit the in-flight budget and leave the disk its reserve, no drain, failure or contention intervening; the fill then has its whole limit to spend |
| ManagedServer.FillCanPublish | src/store/mod.rs:581-649 | a live fill can start over and publish any genuine body no longer than what it has left to spend, unless its address is corrupt |
| ManagedServer.FailureLasts | src/server/cache.rs:133-145 | once maintenance has failed the server's state never changes again |
| S3Writes.PutWithRetry | src/s3.rs:305-343 | one to three requests, all but the last answered 409; Stored exactly if the last was accepted, AlreadyPresent exactly if a publication lost to an equal object; requests and result are those of a call of the concurrent protocol |
| S3Writes.PartSizeSuffices | src/s3.rs:388 | the part size is at least the minimum and ten thousand parts of it cover any length |
| S3Writes.PartCountIsBounded | src/s3.rs:388-404 | a part that starts inside the file is among the first ten thousand |
| S3Writes.TilesJoin | src/s3.rs:388-434 | numbered, contiguous, disjoint, full-sized parts concatenate to the file |
| S3Writes.UploadParts | src/s3.rs:388-434 | the loop uploads such parts, at most ten thousand, and the part number always fits 32 bits |
| S3Writes.Multipart | src/s3.rs:358-481 | completion is requested exactly for the whole file and concludes as a call of the concurrent protocol; the upload is aborted exactly when no completion was accepted |
| S3Writes.WriteObject | src/s3.rs:280-343 | a body that is not what the metadata says is refused, a publication looks first and stops at any object, and Stored is reported exactly if the last request was accepted |
| S3Protocol.StepKeepsInv | src/s3.rs:280-356 | every step of every writer, with lost and repeated replies, keeps each version its author's true content under its precondition |
| S3Protocol.PublishedObjectNeverChanges | src/s3.rs:260-264 | without repairs an object once present never changes |
| S3Protocol.AtMostOneStored | src/s3.rs:260-264 | at most one publication reports Stored, and the first version is its content |
| S3Protocol.SuccessfulCallsAgree | src/s3.rs:347-356 | without repairs every call that returned Ok had the digest and length of the one object |
| S3Protocol.RepairReplacesItsETag | src/s3.rs:105-141 | for any ETags: every version a repair wrote replaced one carrying the ETag it had observed, at or after the observed version; it replaced the observed version itself exactly when that ETag had not come back in between |
| S3Protocol.SecondRepairReplacesTheFirst | src/s3.rs:267-278 | the run where it does: two repairs of damaged metadata write the same bytes under the same ETag, both report success, and the second replaced the first's version |
| S3Protocol.RepairReplacesWhatItObserved | src/s3.rs:267-278 | corollary: no update is lost where ETags identify versions |
| S3Protocol.RetriesAreBounded | src/s3.rs:330-332 | in no run does a call retry a conflict more than twice |
| S3Protocol.CallsFollowTheLoop | src/s3.rs:305-356 | in every run every call stands where the retry loop stands after the replies it got, and ends as the loop does unless it failed on its own before |
| S3Protocol.AtMostOneLoopStores | src/s3.rs:260-264 | of all retry loops and completions whose requests were answered in one run at most one publication reports Stored, and the first version is its content |
| S3Protocol.LonePublicationEnds | src/s3.rs:292-356 | a publication that meets nobody else stores where there was nothing, finds its own content, or reports that the content differs |
| S3Protocol.LoneRepairStores | src/s3.rs:267-278 | a repair that meets nobody else replaces whatever object there is |
| Manifests.ChecksRoundTrip | src/manifest.rs:264-404 | an encoded check decodes to itself exactly when its nesting fits depth 32, and is refused otherwise |
| Manifests.DecodedChecksEncode | src/manifest.rs:264-349 | every check the parser accepts can be encoded again and is within the depth bound |
| Manifests.ValuesDecodeExactly | src/manifest.rs:264-404 | a value decodes to a check exactly when its canonical spelling (named checks as tables, trim flag present, byte lists as text where they are text) is the encoding of that check within the depth bound |
| Manifests.ChecksEncodeExactly | src/manifest.rs:351-404 | a check can be encoded exactly when each of its leaves can: no custom predicate, usable signatures, well-formed digests, minima within 64-bit integers |
| Manifests.SplittingKeepsTheLanguage | src/manifest.rs:217-236 | splitting off the pin and putting it back accepts exactly the same bodies, and is stable |
| Manifests.PinningIntersects | src/manifest.rs:193-199 | pinning accepts exactly the old bodies that have the digest, and is idempotent |
| Manifests.CompatibleExactly | src/manifest.rs:202-215 | a pin is refused exactly when some digest pinned anywhere in the tree differs |
| ManifestDocuments.FromDocument | src/manifest.rs:77-122 | returns the decoding of every entry in order, and fails exactly when there is none (duplicate keys, freshness, URLs, pins, checks) |
| ManifestDocuments.ToDocument | src/manifest.rs:130-166 | returns the encoding of every artifact in order, and fails exactly when there is none |
| ManifestDocuments.DecodedEntryMeans | src/manifest.rs:77-122 | an entry decodes exactly when key, freshness, URLs, digest and check are well formed; it then accepts the bodies with its digest that pass its check, or without one those that are no HTML and at least 1024 bytes; only sources it marks are trusted on redirects |
| ManifestDocuments.ArtifactsEncodeExactly | src/manifest.rs:130-166 | an artifact can be written exactly when its URLs and every leaf of its check can |
| ManifestDocuments.EntryRoundTrip | src/manifest.rs:130-167 | an encoded artifact decodes exactly when its check fits the depth bound; then only the shape of the check may differ and it encodes to the same entry |
| ManifestDocuments.EncodedManifestDecodesExactly | src/manifest.rs:60-167 | an encoded manifest decodes exactly when every check fits the depth bound |
| ManifestDocuments.ManifestRoundTrip | src/manifest.rs:60-167 | keys, order, sources, sizes and provenance come back, every check accepts the same bodies, and encoding again gives the same document |
| ManifestDocuments.DeepChecksDoNotDecode | src/manifest.rs:264-267 | a check nested 33 deep encodes but does not decode |
| ManifestDocuments.Manifest.Merge | src/manifest.rs:174-182 | at every key the last entry of the other manifest wins, old keys keep their places, and distinct keys stay distinct |
| ManifestDocuments.Manifest.PinSha256 | src/manifest.rs:185-200 | succeeds exactly for a well-formed digest, a known key and no conflicting pin, and changes that one check |
| Netrc.Lex | src/credential.rs:139-183 | the character loop computes the token list of the text, or refuses it |
| Netrc.EveryLayoutIsRead | src/credential.rs:145-183 | however bare, escaped and quoted spelling, gaps and remarks are mixed, the nonempty words are read |
| Netrc.OpenQuotingIsRefused | src/credential.rs:177-180 | a text that stops inside a quotation or after a backslash is an error |
| Netrc.LexerUndoesPrinter | src/credential.rs:139-183 | the lexer undoes a quoting and escaping printer exactly on lists of nonempty tokens |
| Netrc.ParseNetrc | src/credential.rs:139-224 | the index loop computes the answer of the section machine |
| Netrc.FirstSectionAnswers | src/credential.rs:184-224 | the first section of the host alone decides, by its last login and password; never another section, `default`, or fields before any section |
| Netrc.MalformedFilesAreRefused | src/credential.rs:201-216 | an unknown or unfinished field is an error unless a closed section of the host came first |
| Netrc.PrintedFileAnswers | src/credential.rs:139-224 | end to end: a printed file with nonempty values gives each host its own section |
| Netrc.EmptyPasswordIsReplaced | src/credential.rs:168-175 | for every host and user an empty password printed before a default section is read back as the password "default" |
| Netrc.ClosedSectionsAnswer | src/credential.rs:184-224 | a host whose section is closed before the first empty value is answered as meant |
| Netrc.EmptyLastValueBreaksTheFile | src/credential.rs:201-216 | with only the last value empty, exactly the hosts with a section closed before the last are still answered, all others get an error |
| Netrc.EmptyValueCanBeHarmless | src/credential.rs:168-175 | a file with an empty value that every host still reads as meant: nonempty values are not necessary |
| Fetching.Perform | src/fetch.rs:84-155 | every request made and the result are those of a run |
| Fetching.RunsAreDetermined | src/fetch.rs:84-155 | what completes the contract of `Perform`: being a run leaves no freedom, so its requests and result are fixed by the world and the source |
| Fetching.RequestsAreBounded | src/fetch.rs:94 | at most ten requests, each to an http(s) URL without userinfo |
| Fetching.RedirectsAreFollowed | src/fetch.rs:109-123 | every request but the first asks for the target the reply before it named |
| Fetching.RunsStopForAReason | src/fetch.rs:89-124 | a run stops at a redirect only if it leads nowhere that may be asked or ten requests were made, and before the first only if the source may not be asked |
| Fetching.RunsEndAsAnswered | src/fetch.rs:107-150 | the last reply alone decides: a body exactly when delivered under a success status, nothing exactly for 404, 401 and 403 by whether a credential was sent |
| Fetching.IdentityIsOfTheLastCredential | src/fetch.rs:96-105 | a download is recorded under the identity of the last credential sent, wherever the redirects went, and under none if none was sent |
| Fetching.NeverBackToPlaintext | src/fetch.rs:220-230 | once on https a run never returns to http |
| Fetching.NoCredentialInPlaintext | src/fetch.rs:217-230 | a run from an https source makes no plaintext request at all |
| Fetching.CredentialsFollowTheirHosts | src/fetch.rs:94-106 | each hop carries exactly the credential held for its host; the origin's only on a trusted redirect to a host without one |
| Fetching.WithoutProviderNothingIsSent | src/fetch.rs:157-162 | the mirror client sends no credential and records no identity |
| Fetching.NetrcHopsCarryTheirOwnSection | src/fetch.rs:94-106 | with netrc credentials and untrusted redirects each hop carries what the first section of its own host says |
| Serving.ReadyMetadataAgrees | src/server.rs:100-115 | the sidecar of a ready key is metadata the server accepts |
| Serving.FillLocally | src/server.rs:66-71 | the fill is the resolution within its limit; a cached artifact within the limit is found without a change, a filled one is ready, and a limited fill adds at most its limit to the store |
| Serving.AcceptedUploadIsInTheMirror | src/server.rs:84 | with uploads answered by a run of the S3 protocol without repairs, an accepted upload's digest and length are those of the one object there is |
| Serving.ResolveMiss | src/server.rs:61-88 | what the store resolves is reported exactly when its upload is accepted, and what it cannot resolve fails for the same reason; what is reported passes the later metadata test, for any hash, and is that of a genuine local blob; a limited fill adds at most its limit |
| Serving.Redirect | src/server.rs:90-115 | metadata is let through exactly when the manifest allows it |
| Serving.AnswerMiss | src/server.rs:61-98 | a redirect goes to no digest but the pinned ones and to no length the manifest excludes; nothing else is refused, a fill of our own from reporting contacts never; whatever the store resolves is redirected to exactly when its upload is accepted |
| Repair.Inspect | src/bin/starfield-datastore.rs:282-293 | collects exactly the artifacts the local layer cannot serve |
| Repair.RemoveAll | src/bin/starfield-datastore.rs:321-325 | drops every failed entry, and blobs exactly when their last reference went |
| Repair.ClearingLeavesOnlySoundEntries | src/bin/starfield-datastore.rs:297-325 | after the removal phase every remaining entry is sound, shared aliases included, and no address a removed entry named holds a corrupt blob |
| Repair.RefetchAll | src/bin/starfield-datastore.rs:326-331 | fetching again keeps sound entries sound and makes every failed artifact servable; with all of them removed it succeeds exactly when each has a contact that delivers |
| Repair.VerifyLocal | src/bin/starfield-datastore.rs:282-332 | checking alone changes nothing; damage outside the manifest stops a repair before it starts; a repair that changed anything leaves no damaged entry, even if a fetch then fails; success leaves every artifact servable, and comes exactly when every failed artifact can be obtained, only corrupt orphans on disk standing in the way |

## What the proofs found

- The encoder has no depth bound, the parser has one of 32: a manifest can be written that cannot
  be read back. `ManifestDocuments.EncodedManifestDecodesExactly` says exactly when.
- The writer hashes only writes that succeed in full. A producer that ignores a torn write and still
  reports success gets a file that is not what was hashed
  (`TransferLaws.ArrivalIsHonestExactly`). `Fetcher::stream` and the local import propagate such
  errors.
- A hit reads its blob several times. If the blob is corrupted between the digest read and a check
  read, the path can be handed out although the file never satisfied both at one moment
  (`StoreServing.CorruptionBetweenReadsIsServed`); without corruption in between it cannot.
- A trimmed signature that itself starts with whitespace matches no body
  (`ContentChecks.UnmatchableStartsNothing`). Beside a matchable one it does no harm; a list of such
  signatures alone lets heads through that nothing can complete.
- The netrc lexer drops empty quoted tokens, so an empty password takes the next word for its value
  (`Netrc.EmptyPasswordIsReplaced`). Not every empty value does harm, and a section closed before it
  is safe.
- If-Match on an ETag does not always protect the observed version: a repair of damaged metadata
  writes the same bytes, the ETag can come back, and a second repair that observed the damaged
  version then overwrites the mended one (`S3Protocol.SecondRepairReplacesTheFirst`).
- `src/store/layout.rs:95-96` says that the store lock only ever nests inside a key lock. gc's
  first section and the byte count take it alone. Deadlock freedom only needs that nothing is
  requested while holding it, and that is what is proved.

## Left out

- StoreServing.NothingUnbackedIsEverServed: one read of a blob, for its length, its digest or one check, is atomic; corruption in the middle of a single read is not modelled.
- Directory walking and path strings: the index is a map, so a key `a` and a key under `a.json/` do not clash, and two keys never share a lock file.
- Power loss: `remove_file` is not synced, so the crash steps of the protocol are process crashes; a write that was synced and renamed is there.
- Sidecar damage during a run: malformed sidecars may exist at the start of a sequential operation or a run, but only blobs are corrupted by the environment of the protocol.
- The sequential gc re-reads each entry under its locks; that this skips refetched keys is modelled in `StoreProtocol` (`Victim.expected`), not in `Stores.Store.Gc`, where nothing runs in between.
- ManagedServer.StepKeepsInv: maintenance may delete anything in its steps; what it does delete is the matter of `Coordination.Coordinator.Maintain`. The server's runs have no disk corruption; together with corruption the store's own guarantees are those of `StoreProtocol`.
- ManagedServer.PayloadEnvelope: counts temp files of live attempts; temp files left by an earlier crash, which start-up only reports, are outside it, as are other users of a directory the server owns.
- S3Protocol.RepairReplacesWhatItObserved: asks for ETags that never recur; S3 may answer equal bytes with equal ETags, and `S3Protocol.RepairReplacesItsETag` says what holds then.
- S3Writes.Multipart: an upload that never got an id is not an upload here; the part minimum is the production constant, not the one used under test.
- S3 object deletion by third parties, presigning, and reading metadata back from headers.
- Manifest text: TOML and JSON parsing, error positions, and the range of the `bytes` field as a TOML integer; documents are value trees. Key shape and URL syntax are predicates (`Rules`).
- Texts of `CheckFailure`, error messages, expiry hints and redaction; errors carry their variant and the name of the check.
- Netrc.ParseNetrc: finding the file and refusing one that others can read come before the text and are not modelled.
- Fetching.Perform: cookies, header syntax and body streaming are part of the reply; a provider answers one host the same way throughout a run, and the URL of a redirect target parses back to itself.
- Serving.ResolveMiss: the mirror's answers are inputs, the upload's a function of the metadata; `Serving.AcceptedUploadIsInTheMirror` ties the latter to `S3Protocol`.
- Repair.VerifyLocal: no concurrent users, as the command expects; when a repair succeeds is said for a store that is online and contacts that report failed writes.
- StoreAlone.UndisturbedAnswersExactly: about a get or import nobody disturbs; with others in between the same may be answered or given up, and what can be answered at all is `StoreAlone.ServableExactly`.
- `credential_config.rs`, environment and profile precedence, secret redaction, the CLI, signals and progress bars: case analysis without a property that spans operations.
- Axum, tokio, reqwest and AWS SDK plumbing, and the semaphores of the server without a managed cache.
