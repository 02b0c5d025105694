# kdive state-store model

kdive runs a server, workers and a reconciler around one Postgres state store. This project models the parts of it where
correctness depends on more than one statement at a time, and proves what they promise:

- **PCIe matching** (`PcieSpec`, `PcieMatching`, `PcieMatcher`). Kuhn's augmenting paths over two dictionaries and a shared
  visited set. A result is an assignment of specs to distinct free devices. No result comes with a Hall violator: a group of
  specs larger than the set of devices it can reach. So the answer is exact and does not depend on any order.
- **Durable job queue** (`JobModel`, `JobProtocol`, `JobRuns`, `JobStore`, `JobWorker`). The table operations are class
  methods. Their effects are also steps of a protocol in which workers, a two-phase sweep, cancellation and a clock
  interleave freely, and the theorems hold of every run.
- **Inventory reconcile** (`ResourceModel`, `ResourceRefusals`, `ResourceNaming`, `ResourceReconcile`, `ImageModel`,
  `ImageWrites`, `ImageReconcile`). Exactly when a pass completes, converges and is idle the second time, stated on the table
  it starts from, and a frame that says what no pass may touch.
- **Build-id extraction** (`GnuNote`, `ElfWalk`, `ElfImage`). The byte format follows the System V ABI, chapter 5 "Note
  Section" and chapter 4 "ELF Header" and "Sections"; an encoder of whole files gives the reader its round trip.
- **Smaller protocols** (`StepLedger`, `BuildHosts`, `SingleFlight`, `ChunkKeys`, `Reassembly`, `LeaseWindow`).

A database transaction or a single SQL statement is one atomic step. Where the code reads in one transaction and writes in
another, these are two steps and anything may happen in between. Classes hold the tables that the code updates in place.
Functions over table values specify their methods, and the protocols are built from the same functions. What these functions
mean is stated apart from them: in the words of the request, the document or the file format, or over whole runs.

Wherever the code and its documentation disagree the model follows the code. These promises do not hold as stated; each has
a failing case, and a theorem beside it says exactly when the promise does hold:

- A match spec outside the grammar is refused: false for a valid text followed by one newline (`ParseAcceptsOutsideGrammar`).
- The sweep fails only lapsed leases: false exactly when the last fenced heartbeat between its two halves reaches the time of
  the write (`SweepCanFailLiveLease`, `SweepHitsLiveExactly`).
- A resource pass completes: false when two local hosts exchange names, when two discovered hosts clean up to one name, or
  when an idle departed row is still referenced (`SwappedNamesRefused`, `NamesCanCollide`, `ReconcileResources`).
- Declared local hosts converge: false when a host is named by two declarations (`ClashingLocalsNeverConverge`), or has two
  rows, which registering one at run time can produce. A completed pass converges exactly when every local row that
  outlives it is the one its only declaration selects (`HeldAfterPass`, `ReconcileResources`, `SettleWhateverSelected`).
- A repeated resource pass is idle: false when a host has two rows, for the SELECT may return the other one and the pass is
  then refused. It is idle whatever the SELECTs return exactly when the first pass converged (`TwoRowsOfOneHost`,
  `IdleWhateverSelected`, `ReconcileTwice`).
- A declared private image is created: false, the insert leaves its owner null (`ChecksExactly`, `ReconcileImages`).
- A repeated image pass writes nothing: false when an identity has several config rows, which no constraint forbids and the
  migration that introduced ownership can produce (`DuplicateRowsDisagree`, `PassOutcome`, `IdleInEveryOrderExactly`,
  `SparesInEveryOrderExactly`).
- Step replays agree: false exactly when the bare `run_step`, whose read ignores the state, met a running claim and a result
  other than JSON null was handed out as well (`BareReplaysCanDisagree`, `AnswersAgreeExactly`).
- A bare `run_step` that met a row finds it: false exactly when the row was given up or deleted as stale in between
  (`ConflictCanRaise`, `ConflictRaisesExactly`).
- One claimant per step: false exactly when the row of an outstanding claim is deleted as stale and another client wins the
  step before that claim ends (`LateOwnerOverlaps`, `TwoClaimantsExactly`, `ExclusiveExactly`).
- A renewal adds nothing only at the cap: false for a lapsed lease and a short extension (`LapsedShortRenewalAddsNothing`,
  `NothingAddedExactly`).
- A lease window is clamped to the maximum: false for an omitted window when the default is larger (`WindowsWithinMax`).
- A single-flight caller shares a result in flight: false after every earlier caller was cancelled
  (`CancelledCallerLeavesStaleResult`, `NewcomerGets`).

## Model

| member | source | states |
|---|---|---|
| PcieSpec.ParseRoundTrip | src/kdive/domain/pcie.py:111-144 | every text of the documented grammar is accepted, and rendering the parsed spec gives the text back |
| PcieSpec.GrammarExactly | src/kdive/domain/pcie.py:111-144 | a text is in the grammar exactly when it is four lowercase hex digits, a colon and four more, or `class=` and two or four of them |
| PcieSpec.ParseAcceptsOutsideGrammar | src/kdive/domain/pcie.py:111-144 | a text outside the grammar is accepted exactly when it is a grammar text followed by one newline |
| PcieSpec.MatchesExactly | src/kdive/domain/pcie.py:134-154 | for every accepted text and every device: the parsed spec matches exactly when the text is the vendor and device ids joined by a colon, or `class=` and that many leading characters of the class code |
| PcieSpec.NewlineVendorDeviceNeverMatches | src/kdive/domain/pcie.py:134-182 | an accepted vendor:device text with the stray newline matches no well-formed device and is denied as a configuration error |
| PcieSpec.CandidatesInOrder | src/kdive/domain/pcie.py:175 | the matching descriptors are listed in order, each exactly as often as it is listed and matches |
| PcieSpec.UnclaimedInOrder | src/kdive/domain/pcie.py:178-179 | the free descriptors are listed in order, each exactly as often as it is listed and unclaimed |
| PcieSpec.ResolveSpecExactly | src/kdive/domain/pcie.py:157-182 | the candidates are exactly the descriptors the text asks for that no claim holds, in descriptor order; a configuration denial means it asks for none, a match that some are free |
| PcieSpec.UnclaimedMultiplicity | src/kdive/domain/pcie.py:216-217 | subtracting claims keeps the multiplicity of every descriptor whose device is free |
| PcieMatching.ParseAll | src/kdive/domain/pcie.py:213 | a list of specs parses exactly when each does, position by position |
| PcieMatching.VerdictOnText | src/kdive/domain/pcie.py:185-221 | the verdict read off the texts and the device columns, without parsing: malformed, configuration denial, match and capacity denial each hold exactly when they should |
| PcieMatching.HallBlocks | src/kdive/domain/pcie.py:234-246 | a group of specs larger than the set of devices it reaches rules out every assignment |
| PcieMatching.AssignableAlong | src/kdive/domain/pcie.py:185-221 | an assignment is carried along any embedding of fewer specs into the old ones and of the old devices into more |
| PcieMatching.MatchedNeverWorsens | src/kdive/domain/pcie.py:185-221 | a match survives dropping specs, dropping claims and adding descriptors |
| PcieMatching.ConfigOrderFree | src/kdive/domain/pcie.py:185-221 | a configuration denial is the same for all orders of specs and descriptors and any claims |
| PcieMatching.VerdictOrderFree | src/kdive/domain/pcie.py:185-221 | the verdict, errors included, is unchanged by permuting specs, descriptors and claims |
| PcieMatching.SingleSpecAgrees | src/kdive/domain/pcie.py:157-221 | on one spec the multiset verdict, errors included, is the single-spec resolver's |
| PcieMatcher.Matching.Augment | src/kdive/domain/pcie.py:249-261 | success keeps the two dictionaries inverse and matching, keeps every matched spec matched and moves no visited device; failure changes neither dictionary and leaves the visited devices closed under alternating paths |
| PcieMatcher.Matching.TryDevice | src/kdive/domain/pcie.py:252-260 | one candidate device is taken if it is free or its owner can move, with the guarantees of the whole search |
| PcieMatcher.Matching.MatchNext | src/kdive/domain/pcie.py:243-245 | one more spec is matched and all earlier ones stay matched, or a Hall violator exists |
| PcieMatcher.TakeOver | src/kdive/domain/pcie.py:255-260 | once the owner of a device has moved along the path, taking the device over restores the inverse dictionaries |
| PcieMatcher.FailedSearchViolatesHall | src/kdive/domain/pcie.py:249-261 | the visited set of a failed top-level search and the specs on it form a Hall violator |
| PcieMatcher.MaxBipartiteMatch | src/kdive/domain/pcie.py:234-246 | an assignment is returned exactly when one exists; otherwise a Hall violator is exhibited |
| PcieMatcher.ResolveMultiset | src/kdive/domain/pcie.py:185-221 | the outcome is the due verdict for every input, malformed specs included; on a match the devices serve the specs in order from distinct available positions, and each is listed, free and asked for by its text |
| PcieMatcher.ServedDevicesDistinct | src/kdive/domain/pcie.py:213-221 | the devices of a match are listed, unclaimed and each asked for by its text, and pairwise distinct on a host that lists each device once |
| JobProtocol.FenceHolds | src/kdive/jobs/queue.py:141-229 | a write that passes the fence acts on the very attempt its worker claimed |
| JobProtocol.StaleHolderWritesNothing | src/kdive/jobs/queue.py:141-229 | the heartbeat, completion and failure of a worker whose attempt is over leave the table unchanged |
| JobProtocol.StepKeepsInv | src/kdive/jobs/queue.py:36-229 | every step of every process keeps the invariant on rows, claim history, in-flight snapshots, sightings and results |
| JobRuns.FenceTheorem | src/kdive/jobs/worker.py:187-216 | in every run the fence, which looks only at worker and state, lets a holder through exactly while the row runs on the attempt it claimed; a fenced write is for the latest claimant and stale writes change nothing |
| JobRuns.SucceededFromLatestClaim | src/kdive/jobs/queue.py:161-184 | in every run the result of a succeeded job was handed in by its latest claimant for its latest attempt |
| JobRuns.NoStrandedJob | src/kdive/jobs/queue.py:97-108 | in every run a queued job is claimable, a running one has a lease and an owner, and a lapsed one is eligible for exactly one of reclaim and sweep |
| JobRuns.HoldsExactly | src/kdive/jobs/worker.py:187-216 | a worker holds a job exactly from the dequeue that gave it one until it completes, fails or loses it |
| JobRuns.StepRefines | src/kdive/domain/state.py:195-233 | every step is, on every row, a legal lifecycle edge or a stutter; terminal rows are untouched and progress costs fuel |
| JobRuns.MovesOnly | src/kdive/domain/state.py:195-203 | a job changes state only by the step that stands for its edge: dequeue, fenced completion, fenced failure, sweep or cancellation |
| JobRuns.EveryEdgeTaken | src/kdive/domain/state.py:195-203 | every legal edge of the lifecycle is taken by some run |
| JobRuns.BoundedRetries | src/kdive/jobs/queue.py:97-229 | in every run a job is dispatched exactly as often as attempts are charged, at most its maximum, and moves at most twice as often |
| JobRuns.RowsLast | src/kdive/jobs/queue.py:36-229 | from any point of a run to its end a row stays, keeps its request and, once terminal, is never rewritten |
| JobRuns.EnqueueInserts | src/kdive/jobs/queue.py:59-73 | an enqueue under a new key adds one row: the request, queued, uncharged and claimable; under a known key it adds nothing |
| JobRuns.RequestKept | src/kdive/jobs/queue.py:59-77 | in every run the row an enqueue inserted holds that request, whatever happens later |
| JobRuns.CanceledForGood | src/kdive/mcp/tools/catalog/jobs.py:178-192 | in every run a cancellation ends a queued or running job for good, leaves a finished one alone and touches nothing else |
| JobRuns.DedupForever | src/kdive/jobs/queue.py:59-77 | a dedup key names one job id forever |
| JobRuns.AttemptLease | src/kdive/jobs/queue.py:97-158 | in every run a row that still runs on an attempt ran throughout, under one worker, and its lease is the one it had or the one its last fenced heartbeat gave it |
| JobRuns.ClaimProtects | src/kdive/jobs/queue.py:97-108 | in every run, while a claimed row runs on the claim's attempt, it is up for neither another claim nor the sweep exactly until the claim's lease, as extended by its last fenced heartbeat, is over |
| JobRuns.GivenUp | src/kdive/jobs/queue.py:206-229 | in every run a job back in the queue on the attempt it was running on was sent back by a failure of the worker that held it |
| JobRuns.NextClaimWaits | src/kdive/jobs/queue.py:80-229 | in every run, when a claimed job is next handed out, the lease of the claim, as extended by its heartbeats, is over, or its holder gave the job back in between |
| JobRuns.SweepHitsSightedClaim | src/kdive/reconciler/jobs.py:25-49 | whatever happens between the sweep's read and write, a row still running is the exhausted claim it saw, and any other row is terminal and not written |
| JobRuns.SweepHitsLiveExactly | src/kdive/reconciler/jobs.py:25-49 | in every run the row a sweep is about to fail has a live lease exactly when the last heartbeat that passed the fence since the SELECT reaches the present |
| JobRuns.SweptForGood | src/kdive/reconciler/jobs.py:25-74 | in every run, whatever is interleaved, a row that a sweep selected and has written to is terminal from then on |
| JobRuns.SweepCanFailLiveLease | src/kdive/reconciler/jobs.py:35-49 | a run in which a heartbeat between the two halves lets the sweep dead-letter a job with a live lease |
| JobStore.JobStore.Enqueue | src/kdive/jobs/queue.py:36-77 | refuses a maximum below one, inserts the request once per dedup key, queued and uncharged, and returns the job that owns the key |
| JobStore.JobStore.Dequeue | src/kdive/jobs/queue.py:80-119 | claims an oldest unlocked claimable job, charges it and leases it to the caller until now plus the lease, or finds nothing exactly when there is none; what the claim then protects is JobRuns.ClaimProtects |
| JobStore.JobStore.CountClaimable | src/kdive/jobs/queue.py:122-138 | the depth is zero exactly when an unobstructed dequeue would find nothing |
| JobStore.JobStore.Heartbeat | src/kdive/jobs/queue.py:141-158 | renews the lease exactly when the caller still owns the running job |
| JobStore.JobStore.Complete | src/kdive/jobs/queue.py:161-184 | succeeds exactly when the fence matches; otherwise nothing changes |
| JobStore.JobStore.Fail | src/kdive/jobs/queue.py:187-229 | dead-letters a terminal or exhausted attempt and requeues any other, exactly when the fence matches |
| JobStore.JobStore.SweepOne | src/kdive/reconciler/jobs.py:36-72 | dead-letters a row that still runs and fails its unfinished run, with the category of both |
| JobStore.JobStore.RepairAbandonedJobs | src/kdive/reconciler/jobs.py:25-74 | undisturbed, exactly the zombies are dead-lettered, each counted once, no zombie is left, no run of a swept job is left created or running, and every other run is untouched |
| JobStore.OneMoreSwept | src/kdive/reconciler/jobs.py:36-72 | sweeping rows one after another is sweeping the set of them; a run is compensated once |
| JobStore.SweepSettles | src/kdive/reconciler/jobs.py:36-72 | the sweep fails exactly the jobs out of time, for an expired lease; their created or running runs are failed with that category and no other run changes |
| JobWorker.Worker.HeartbeatLoop | src/kdive/jobs/worker.py:218-240 | any number of beats keeps the claim and changes no column but the two times |
| JobWorker.Worker.RunOnce | src/kdive/jobs/worker.py:108-136 | idle exactly when not ready, paused or out of claimable jobs; otherwise the oldest claimable job goes through one whole attempt, by any handler outcome, and no other row changes |
| JobWorker.AttemptSpendsFuel | src/kdive/jobs/worker.py:197-216 | an attempt ends in a terminal row or a requeued one with strictly less fuel, and a returned result is the one stored |
| JobWorker.Worker.DrainQueue | src/kdive/jobs/worker.py:175-185 | the claim loop of one worker left alone comes to rest whatever the handlers do; then every job that was queued is terminal and nothing is claimable |
| ResourceModel.DeclaredRowUnique | src/kdive/inventory/reconcile_resources.py:87-187 | once its declarations are satisfied a declared identity has exactly one row: config-owned, with the declared cost, host and capabilities and no runtime lease or affinity |
| ResourceModel.SatisfiedMeans | src/kdive/inventory/reconcile_resources.py:99-128 | after every pass each fault-inject and each remote instance of the document has exactly one row of its kind and name, config-owned, with its own cost class, host, cap and, for fault-inject, vcpus and memory |
| ResourceModel.ConvergedMeans | src/kdive/inventory/reconcile_resources.py:65-84 | a converged table in the document's own words: the above, every row of a declared local host bears its name, cost class and cap, every other config row is in use and cordoned, and a discovered row is unnamed only while its host is declared |
| ResourceModel.NewRowCreated | src/kdive/inventory/reconcile_resources.py:156-164 | an inserted row is available, uncordoned, in the default pool, and holds the declared capabilities and no others |
| ResourceModel.ClashingLocalsNeverConverge | src/kdive/inventory/reconcile_resources.py:213-254 | a discovered host that two disagreeing declarations name can satisfy at most one of them |
| ResourceModel.NameSpellsHost | src/kdive/inventory/reconcile_resources.py:311-314 | a given name spells the host from its first letter or digit to its last with a dash for every other character, and a host with neither is "discovered-host" |
| ResourceModel.NamesCanCollide | src/kdive/inventory/reconcile_resources.py:311-314 | two different hosts can be given one deterministic name |
| ResourceModel.UpsertRound | src/kdive/inventory/reconcile_resources.py:131-187 | one upsert satisfies its declaration, keeps the earlier ones satisfied, names unique and the frame, and is idle when already satisfied |
| ResourceModel.OverlayRound | src/kdive/inventory/reconcile_resources.py:229-254 | one overlay keeps the frame, unique names and hosts and all upserted declarations |
| ResourceModel.PruneEffect | src/kdive/inventory/reconcile_resources.py:275-294 | pruning or cordoning one departed row keeps everything the earlier phases established |
| ResourceRefusals.OverlayVerdict | src/kdive/inventory/reconcile_resources.py:229-254 | for every table and parsed document, whether the unique index lets a local declaration through is settled by the names in the starting table and the rows the SELECTs return |
| ResourceRefusals.OverlaidHeldExactly | src/kdive/inventory/reconcile_resources.py:213-254 | after the overlay a row agrees with all declarations of its host exactly when there is none, or just one and that one selected it |
| ResourceRefusals.SwappedNamesRefused | src/kdive/inventory/reconcile_resources.py:213-254 | any document that exchanges the names of two discovered local hosts is refused, whatever rows are selected |
| ResourceRefusals.SecondRowRefused | src/kdive/inventory/reconcile_resources.py:229-254 | once a row bears its declared name, a SELECT that returns another row of the host is refused |
| ResourceRefusals.ClashStays | src/kdive/inventory/reconcile_resources.py:257-272 | a name clash among the rows named so far is a clash once all are named, so the order of naming does not matter |
| ResourceNaming.UpsertDue | src/kdive/inventory/reconcile_resources.py:131-210 | an upsert takes one unnamed row of its host from those due a name exactly when it adopts and one is left |
| ResourceNaming.UpsertTracked | src/kdive/inventory/reconcile_resources.py:87-187 | after any number of declarations the names borne, the number of rows due a name per host and the departed rows are functions of the starting table and the document |
| ResourceNaming.AdoptionIsAChoice | src/kdive/inventory/reconcile_resources.py:190-210 | with unnamed rows of two owners at one host, which row is adopted, and so how many names are given, would be up to the database |
| ResourceNaming.OverlayBears | src/kdive/inventory/reconcile_resources.py:213-254 | the names borne after the overlay: of the last declaration that selected a row, or its own |
| ResourceNaming.NamingExactly | src/kdive/inventory/reconcile_resources.py:257-272 | for every table and selection, the naming phase goes through exactly when, in the starting table, no host has two rows left to be named, no given name will stand already and no two hosts get one name |
| ResourceNaming.HeldAfterPass | src/kdive/inventory/reconcile_resources.py:65-84 | after a completed pass all declared local hosts are held exactly when every local row that outlives it is the one its only declaration selects |
| ResourceNaming.SettleWhateverSelected | src/kdive/inventory/reconcile_resources.py:229-235 | that holds whatever the SELECTs return exactly when no outliving row is named by two declarations and none of a declared host shares it with another row |
| ResourceNaming.IdleWhateverSelected | src/kdive/inventory/reconcile_resources.py:65-84 | a pass is idle whatever the SELECTs return exactly when the table is converged |
| ResourceNaming.TwoRowsOfOneHost | src/kdive/inventory/reconcile_resources.py:229-254 | a table that run-time registration can produce on which one pass is let through and, on the table it leaves, another selection is refused |
| ResourceNaming.FrameKeepsNamed | src/kdive/inventory/reconcile_resources.py:65-84 | a pass keeps every row that discovery does not own named |
| ResourceReconcile.DepartedUntilPrune | src/kdive/inventory/reconcile_resources.py:65-84 | the rows whose deletion the database would refuse are the same at the start of the pass and at its last phase |
| ResourceReconcile.Inventory.FindExisting | src/kdive/inventory/reconcile_resources.py:190-210 | finds a row by kind and name, or for an adopting kind an unnamed row of the host when no name matches, and nothing only when there is neither |
| ResourceReconcile.Inventory.UpsertConfigResource | src/kdive/inventory/reconcile_resources.py:131-187 | one row is created or brought to the declared state; a creation is reported once and an update only on a real change |
| ResourceReconcile.Inventory.CreateConfigResources | src/kdive/inventory/reconcile_resources.py:87-128 | every declared fault-inject and remote resource is satisfied, local rows are untouched, names and rows due a name are as the starting table says, and a satisfied table is not written |
| ResourceReconcile.Inventory.OverlayOneLocal | src/kdive/inventory/reconcile_resources.py:229-254 | binds the selected row of the host or warns that there is none, reports a real change once, and is refused exactly when another local row bears the name |
| ResourceReconcile.Inventory.OverlayLocalLibvirt | src/kdive/inventory/reconcile_resources.py:213-226 | for every table and selection: it goes through exactly when the declared names are free, each row is then as the last declaration that selected it says, it reports nothing exactly when the selected rows are as declared, and a refusal rolls it back |
| ResourceReconcile.Inventory.NameUnconfiguredDiscovered | src/kdive/inventory/reconcile_resources.py:257-272 | every unconfigured discovered row is named, or the phase is rolled back; it goes through exactly when all given names are unique |
| ResourceReconcile.Inventory.PruneOrCordonResource | src/kdive/inventory/reconcile.py:162-203 | a live row is cordoned and kept, an idle one deleted unless an allocation still references it, a row config does not own skipped |
| ResourceReconcile.Inventory.PruneDeparted | src/kdive/inventory/reconcile_resources.py:275-294 | it goes through exactly when no idle departed row is referenced; then every departed row is deleted or cordoned, and the reports are the identities of exactly the deleted and the spared rows, each once |
| ResourceReconcile.Inventory.ReconcileResources | src/kdive/inventory/reconcile_resources.py:65-84 | for every table and selection: the frame and every declared fault-inject and remote instance hold whether or not the pass completes; a completed pass converges exactly when every outliving local row settles, and then the table says what the document says; it is idle exactly when all it looks at is as declared; with discovery alone leaving rows unnamed, it completes exactly when declared names are free, given names fit and nothing is blocked |
| ResourceReconcile.Inventory.ReconcileTwice | src/kdive/inventory/reconcile_resources.py:65-84 | after a completed first pass, a second with the same document and liveness is idle whatever rows it selects exactly when every local row that outlived the first settled; and for the rows it does select, exactly when those are as declared |
| ImageModel.ConstraintsExactly | src/kdive/db/schema/0023_image_catalog.sql:33-48 | the constraints, with the image check as 0030_systems_inventory.sql:21-27 replaces it, hold exactly when each identity has at most one public registered and one public defined row, each owner, provider and name at most one private registered row, and every row the columns its state and visibility allow |
| ImageModel.RealizeOnce | src/kdive/inventory/reconcile_images.py:277-360 | realizing a row again with the same answers changes nothing |
| ImageModel.WriteShows | src/kdive/inventory/reconcile_images.py:204-360 | a written row has the entry's columns; it is registered exactly when it was, or its source is staged, or s3 with a digest and a present object, and then key, volume and digest are the source's or the ones it had; otherwise it is defined, without an image, and warned about |
| ImageModel.ShowsDetermines | src/kdive/inventory/reconcile_images.py:204-360 | that description determines the written row, for updates and inserts |
| ImageModel.NeverDowngraded | src/kdive/inventory/reconcile_images.py:277-360 | a registered row stays registered under every source and answer, and build and s3 sources keep its image |
| ImageModel.NewlyRegistered | src/kdive/inventory/reconcile_images.py:317-360 | a row that becomes registered has its source behind it: from s3 a confirmed object and its digest |
| ImageModel.NewRegistrationsBacked | src/kdive/inventory/reconcile_images.py:187-274 | over a whole pass every newly registered row is backed by the declared source of its identity |
| ImageWrites.LoadedFromLoads | src/kdive/inventory/reconcile_images.py:172-184 | whatever order the config rows are listed in, every config identity is loaded with one of its rows |
| ImageWrites.AcceptedExactly | src/kdive/inventory/reconcile_images.py:187-274 | for every table, whether the constraints accept the write of an image is settled by the starting table and the rows loaded |
| ImageWrites.ChecksExactly | src/kdive/inventory/reconcile_images.py:204-274 | an image's row passes its checks exactly when it is private and its loaded row is owned, or neither; so a private image without a row never does |
| ImageWrites.PublicAccepted | src/kdive/inventory/reconcile_images.py:187-274 | a document of public images is always accepted when each declared identity has at most one row, an ownerless config row |
| ImageWrites.PassOutcome | src/kdive/inventory/reconcile_images.py:117-145 | a completed pass leaves a converged table exactly when the config rows it did not load needed nothing, and changes nothing exactly when those it loaded needed nothing |
| ImageWrites.PassShows | src/kdive/inventory/reconcile_images.py:117-145 | after a completed pass every declared image is shown by its row in that sense, a departed row is gone unless in use, rows not loaded are as they were, and every new row is a declared image's |
| ImageWrites.IdleInEveryOrderExactly | src/kdive/inventory/reconcile_images.py:172-184 | a pass is idle in whatever order the rows are listed exactly when the table is converged |
| ImageWrites.SparesInEveryOrderExactly | src/kdive/inventory/reconcile_images.py:172-184 | a completed pass converges in whatever order the rows are listed exactly when every row that shares its identity with another needs nothing |
| ImageWrites.DuplicateRowsDisagree | src/kdive/inventory/reconcile_images.py:172-184 | a table the constraints allow on which a pass writes or not depending on which of two rows of one identity is listed last |
| ImageReconcile.ImageCatalog.LoadConfigRows | src/kdive/inventory/reconcile_images.py:172-184 | every config identity is loaded, with the last of its rows in the order listed |
| ImageReconcile.ImageCatalog.ApplyEntry | src/kdive/inventory/reconcile_images.py:204-274 | one row is inserted or brought to the declared state, reported on a real change and warned about when unrealized, and refused exactly when a constraint fails |
| ImageReconcile.ImageCatalog.UpsertEntries | src/kdive/inventory/reconcile_images.py:187-201 | all images are written and nothing else, or nothing is; and all are exactly when each is accepted, for every table |
| ImageReconcile.ImageCatalog.PruneOrCordonImage | src/kdive/inventory/reconcile.py:131-159 | an idle config row is deleted; a live one, or one config does not own, is kept |
| ImageReconcile.ImageCatalog.PruneDeparted | src/kdive/inventory/reconcile_images.py:363-384 | exactly the departed idle rows go, and each departed identity is reported once, as pruned or as cordoned |
| ImageReconcile.ImageCatalog.ReconcileImages | src/kdive/inventory/reconcile_images.py:117-145 | for every table and listing: the frame holds, the pass completes exactly when every image is accepted, a refused pass changes nothing; a completed one shows every declared image, registered exactly when it was or its source is backed, converges exactly when the rows it did not load needed nothing, and writes nothing exactly when those it loaded needed nothing |
| ImageReconcile.ImageCatalog.ReconcileTwice | src/kdive/inventory/reconcile_images.py:117-145 | a completed first pass makes a second, under any listing, complete, change nothing and report nothing, unless a row that shares its identity with another needed something |
| ImageReconcile.ImageCatalog.RunPasses | src/kdive/inventory/reconcile_images.py:117-145 | over any sequence of documents and store answers a registered config image that stays declared stays registered |
| GnuNote.HexRoundTrip | src/kdive/provider_components/build_validation.py:53 | the hexadecimal text determines the descriptor bytes |
| GnuNote.FrontOfEncoded | src/kdive/provider_components/build_validation.py:41-54 | reading the front note undoes encoding it, whatever follows |
| GnuNote.ParseGnuBuildId | src/kdive/provider_components/build_validation.py:37-61 | on arbitrary bytes the loop finds what the recursive scan finds, always moving forward and never reading past the end |
| GnuNote.ScanEncoded | src/kdive/provider_components/build_validation.py:37-61 | on every sequence of encoded notes with a tail too short for a note, the first GNU build-id is found, or none if there is none |
| GnuNote.FirstBuildIdIsFirst | src/kdive/provider_components/build_validation.py:51-53 | the first build-id is that of the least note with the GNU name and type 3 |
| GnuNote.BuildIdExactly | src/kdive/provider_components/build_validation.py:51-53 | a build-id note is one of type 3 whose name is GNU followed by any number of NULs |
| ElfWalk.ReadSection | src/kdive/provider_components/build_validation.py:301-313 | returns the section's bytes exactly when its header is in range, and every read is within the object size and the cap |
| ElfWalk.FindBuildIdNote | src/kdive/provider_components/build_validation.py:278-298 | the section read is the first note section with the build-id name, and without one nothing is found |
| ElfWalk.FirstIsUnique | src/kdive/provider_components/build_validation.py:278-298 | at most one section comes first |
| ElfWalk.ExtractBuildIdRanged | src/kdive/provider_components/build_validation.py:188-213 | succeeds exactly when the object carries a build-id, returns that one, and after the header reads only within the object size and the cap |
| ElfWalk.CarriesEncodedNotes | src/kdive/provider_components/build_validation.py:188-213 | an object whose build-id section holds encoded notes carries exactly the first GNU build-id among them |
| ElfWalk.OnlyElfCarries | src/kdive/provider_components/build_validation.py:190-201 | only an object with a whole 64-bit little-endian ELF header and a section header table carries a build-id |
| ElfImage.HeaderBack | src/kdive/provider_components/build_validation.py:190-199 | from a file header laid out field by field in ABI order the reader gets the place, entry size, count and string-table index of the section headers back |
| ElfImage.SectionBack | src/kdive/provider_components/build_validation.py:290-306 | from a section header laid out field by field the reader gets name offset, type, offset and size back |
| ElfImage.FirstNotesBack | src/kdive/provider_components/build_validation.py:288-298 | the reader stops at a section of an encoded file exactly when it is the first of type SHT_NOTE named .note.gnu.build-id |
| ElfImage.NotesBack | src/kdive/provider_components/build_validation.py:188-213 | of any encoded file within the caps the reader takes for notes exactly the body of that section, if it is within the cap |
| ElfImage.EncodedFileCarries | src/kdive/provider_components/build_validation.py:188-213 | the round trip: an encoded file with any sections, whose first build-id section holds encoded notes, carries exactly the first GNU build-id among them |
| ElfImage.NoNotesNoBuildId | src/kdive/provider_components/build_validation.py:278-308 | an encoded file without a build-id section, or with a first one over the cap, carries none |
| ElfImage.EveryBuildIdShips | src/kdive/provider_components/build_validation.py:188-213 | for any notes within the cap there is such a file, and the reader gets their build-id back from it |
| StepLedger.Ledger.ClaimTurn | src/kdive/db/idempotency.py:99-132 | wins exactly when the step is absent or its claim stale, replays exactly a succeeded row, otherwise waits and writes nothing; its effect is a stale deletion followed by an insert |
| StepLedger.Ledger.CompleteRunStep | src/kdive/db/idempotency.py:135-149 | records the result exactly when the step is running and raises otherwise |
| StepLedger.Ledger.AbandonRunStep | src/kdive/db/idempotency.py:152-158 | removes a running claim and nothing else |
| StepLedger.Ledger.RunStep | src/kdive/db/idempotency.py:50-96 | undisturbed, inserts the result once and returns what the row holds, which is null exactly for another caller's running claim or a stored JSON null |
| LedgerRuns.StepKeepsInv | src/kdive/db/idempotency.py:50-158 | every statement of every client keeps succeeded rows as they are and completions unique |
| LedgerRuns.SucceededForever | src/kdive/db/idempotency.py:73-158 | from any point of a run to its end a succeeded row never changes or disappears |
| LedgerRuns.ClaimsExactly | src/kdive/db/idempotency.py:99-158 | a claim is outstanding exactly from the insert that won it until its holder completes, abandons or dies |
| LedgerRuns.AnswersExactly | src/kdive/db/idempotency.py:50-149 | a result is handed out exactly by a step that reads the row of its key or stores that result |
| LedgerRuns.FinishedExactly | src/kdive/db/idempotency.py:81-149 | a row is finished with a result exactly by the completion of a running row, or the bare insert of an absent one, with that result |
| LedgerRuns.ResultOnce | src/kdive/db/idempotency.py:73-158 | in every run at most one write finishes a step and all results other than null handed out for it are equal |
| LedgerRuns.NullExactly | src/kdive/db/idempotency.py:73-96 | in every run null is handed out for a step exactly when some bare read met a running claim or the stored result is JSON null |
| LedgerRuns.AnswersAgreeExactly | src/kdive/db/idempotency.py:73-96 | in every run all answers for a step agree exactly when no bare read met a running claim or no result but JSON null was handed out |
| LedgerRuns.NullResultReplays | src/kdive/db/idempotency.py:73-96 | a run in which a step that returned nothing is replayed as null, though no claim was running |
| LedgerRuns.BareReplaysCanDisagree | src/kdive/db/idempotency.py:73-96 | a run in which one caller is told null and another the result |
| LedgerRuns.GoneExactly | src/kdive/db/idempotency.py:99-158 | in every run a row that was there is gone exactly when it was given up or deleted as stale and not inserted again |
| LedgerRuns.ConflictRaisesExactly | src/kdive/db/idempotency.py:81-96 | in every run a bare call whose insert met a row raises exactly when that row vanished before the call read it, and never if it was finished |
| LedgerRuns.ConflictCanRaise | src/kdive/db/idempotency.py:90-96 | a run in which a claim is abandoned between the conflict and the read |
| LedgerRuns.ExclusiveExactly | src/kdive/db/idempotency.py:99-132 | claims are exclusive throughout a run exactly when no step deletes the row of an outstanding claim |
| LedgerRuns.TwoClaimantsExactly | src/kdive/db/idempotency.py:99-132 | a step gets two outstanding claimants in a run exactly when the row of an outstanding claim is deleted as stale and another client wins the step before that claim ends |
| LedgerRuns.OneClaimant | src/kdive/db/idempotency.py:99-132 | in particular, if no claim outlives the stale interval, no outstanding row is ever deleted and a step has at most one claimant |
| LedgerRuns.LateOwnerOverlaps | src/kdive/db/idempotency.py:99-132 | a run in which a late claim is taken over while its owner still works |
| BuildHosts.LeaseTable.TryAcquireLease | src/kdive/db/build_hosts.py:192-243 | exactly when a lease is granted, refused for capacity or raised on, and that the host stays within its cap |
| BuildHosts.ReleaseFreesSlot | src/kdive/db/build_hosts.py:246-265 | a release lowers the count of its own host by one and of no other, so that a full host takes another run |
| BuildHosts.AdmissionAgrees | src/kdive/db/build_hosts.py:192-243 | the steps of an undisturbed admission answer and write what TryAcquireLease does |
| BuildHosts.LeaseTable.ReclaimOrphanLeases | src/kdive/reconciler/build_hosts.py:17-41 | exactly the leases without a live build job go, and are counted |
| BuildHosts.StepKeepsInv | src/kdive/db/build_hosts.py:176-265 | every step of locking, counting, inserting, committing, releasing, reclaiming and pruning keeps the capacity invariant |
| BuildHosts.CapacityHolds | src/kdive/db/build_hosts.py:192-243 | in every run no host is above its cap and no lease is on a deleted host |
| BuildHosts.LockHeldExactly | src/kdive/db/build_hosts.py:192-243 | an admission is in flight exactly from its lock until it commits, aborts or violates a constraint |
| BuildHosts.LeaseChangesExactly | src/kdive/db/build_hosts.py:192-265 | a lease appears exactly by the commit of the admission that inserted it and goes exactly by its release or a reclaim without a live build; a host goes exactly when pruned with no lease left |
| BuildHosts.LiveLeaseSurvives | src/kdive/reconciler/build_hosts.py:17-51 | while a run's build job is live, no step but its own release takes its lease away |
| BuildHosts.LiveLeaseLasts | src/kdive/reconciler/build_hosts.py:17-51 | in every run a lease whose build job stays live lasts, on the same host, until the run itself releases it |
| SingleFlight.Coalescer.Join | src/kdive/diagnostics/egress_probe.py:200-204 | joins what is registered under the key, or registers a new one |
| SingleFlight.Coalescer.Leave | src/kdive/diagnostics/egress_probe.py:207-210 | drops the entry only if it is still the caller's own and is done |
| SingleFlight.StepKeepsInv | src/kdive/diagnostics/egress_probe.py:192-210 | every step of every caller keeps this: a flight is registered until one of its callers cleans up after it is done, and not afterwards |
| SingleFlight.CallerMoves | src/kdive/diagnostics/egress_probe.py:192-210 | a caller stays with one flight, is woken exactly by its result or its cancellation, and is gone exactly once it has cleaned up |
| SingleFlight.OneTaskPerKey | src/kdive/diagnostics/egress_probe.py:192-210 | in every schedule, cancelled callers included, at most one unfinished flight exists per key |
| SingleFlight.NewcomerGets | src/kdive/diagnostics/egress_probe.py:196-210 | a newcomer joins the unfinished flight of its key, and a finished one exactly when none of its callers cleaned up since |
| SingleFlight.CancelledCallerLeavesStaleResult | src/kdive/diagnostics/egress_probe.py:205-210 | a schedule in which a later caller is handed a flight that was already over |
| ChunkKeys.ChunkKeyInjective | src/kdive/provider_components/artifacts.py:58-75 | under one prefix no two chunks share a key, whatever their names and part numbers |
| ChunkKeys.ChunkKeyFormat | src/kdive/provider_components/artifacts.py:58-75 | a key is the prefix, the name and .part with the part number in at least four digits, exactly four up to 9999; a part below one is refused |
| ChunkKeys.DigitsRoundTrip | src/kdive/provider_components/artifacts.py:75 | the decimal digits of a part number write that number |
| ChunkKeys.ZeroPadKeepsNumber | src/kdive/provider_components/artifacts.py:75 | zero padding keeps the number written |
| Reassembly.Store.VerifyChunks | src/kdive/provider_components/build_validation.py:216-243 | accepts exactly when every chunk is present with the declared size and checksum; otherwise reports the first chunk at fault and how |
| Reassembly.Store.CopyAndComplete | src/kdive/provider_components/reassembly.py:51-61 | publishes the chunks joined in declared order, or publishes nothing and leaves every other upload alone |
| Reassembly.Store.ReassembleChunked | src/kdive/provider_components/reassembly.py:30-64 | success means the final object is the verified chunks joined in order and no upload is left; failure changes no object and leaves an upload open only if the abort failed |
| Reassembly.JoinedSize | src/kdive/provider_components/build_validation.py:256-264 | the joined object has exactly the sum of the declared chunk sizes |
| Reassembly.KeyNamesPart | src/kdive/provider_components/build_validation.py:229-230 | the chunk at each index is looked up under its part number, counted from one |
| LeaseWindow.WindowsWithinMax | src/kdive/domain/lease.py:57-83 | every granted window is within the maximum exactly when the default is, and positive when both bounds are |
| LeaseWindow.WindowGranted | src/kdive/domain/lease.py:57-83 | a number is granted up to the maximum exactly when it is positive, an omitted window is the default, and anything else is refused |
| LeaseWindow.SpanExactly | src/kdive/domain/lease.py:125-126 | a span is its hours in microseconds less a fraction of a second, in whole seconds, toward zero |
| LeaseWindow.NothingAddedExactly | src/kdive/domain/lease.py:86-132 | a renewal adds nothing exactly at the cap, for a span below a second, or for a lease that lapsed at least the requested span ago |
| LeaseWindow.GrantedExactly | src/kdive/domain/lease.py:124-132 | an effective renewal reaches neither past the request nor past the cap, reaches the request whenever it is short of the cap, and charges the hours from the later of now and the old expiry |
| LeaseWindow.LapsedShortRenewalAddsNothing | src/kdive/domain/lease.py:86-132 | a lapsed lease far from the cap that cannot be renewed by one hour |
| LeaseWindow.OneRenewal | src/kdive/domain/lease.py:124-132 | one renewal never moves the expiry back and bills from the later of now and the old expiry to the new one, within the cap |
| LeaseWindow.BillsDisjoint | src/kdive/domain/lease.py:86-132 | over any sequence of renewals no instant is billed twice and the expiry never moves back |
| LeaseWindow.BillingConserved | src/kdive/domain/lease.py:86-132 | over any sequence of renewals the billed time, in hours as charged, is the growth of the expiry less the lapsed gaps |
| LeaseWindow.ExtensionsWithinCap | src/kdive/domain/lease.py:124-132 | every extension in any sequence ends no later than its own renewal time plus the maximum |

## Left out

- JobWorker.Worker.RunOnce: nobody else writes between its claim and its final write; what the final write does among others is stated by JobRuns.FenceTheorem.
- JobWorker.Worker.DrainQueue: the claim loop of the source runs until stopped and survives errors of an iteration; the model stops at the first idle turn.
- JobStore.JobStore.RepairAbandonedJobs: states the sweep undisturbed; what it does among others is stated by JobRuns.SweepHitsLiveExactly and JobRuns.SweptForGood.
- JobWorker.Worker.HeartbeatLoop: nobody else writes while it beats; a beat that loses the fence is a step of JobProtocol.
- The job protocol takes worker ids to be distinct and a worker to hold one claim at a time, which is how run_once works.
- Whether failing a created run is a legal run transition: the sweep writes the state directly.
- Telemetry, readiness gates, liveness tickers and redaction of failure contexts.
- ResourceModel.NameSpellsHost: letters and digits are the ASCII ones; the source also keeps other alphabets.
- ResourceReconcile.Inventory.ReconcileResources: the rows the unordered SELECTs of the local declarations return are inputs. The completion condition is for tables in which only discovery's rows lack a name, as every INSERT ensures (services/resources/discovery.py:133-150, mcp/tools/ops/resources/register.py:328-357) and every pass keeps; otherwise AdoptionIsAChoice shows that no condition on the table is exact. Liveness and references are fixed during a pass.
- ResourceReconcile.Inventory.PruneDeparted: the order of the reports, which follows the unordered SELECT; a live departed row is reported again by every pass.
- ImageReconcile.ImageCatalog.ReconcileImages: the order in which the database lists the rows is an input, and object-store answers and liveness are fixed during a pass.
- ImageReconcile.ImageCatalog.RunPasses: assumes no other writer of image rows between passes.
- The build-host part of the inventory reconcile beyond pruning, and the parsing of the inventory document.
- ElfImage.EncodedFileCarries: the encoder lays section bodies out one after another, unaligned, with the section header table after them; the reader itself is proved for any layout.
- ElfWalk.ExtractBuildIdRanged: a ranged read is a slice that stops at the end of the object; a failing store and the HTTP range syntax of empty reads are not modelled.
- Magic-number, patch and effective-config checks of uploaded artifacts: each is one comparison of a short read with a constant.
- StepLedger.Ledger.ClaimTurn: one turn of the polling loop; the sleep between turns is not modelled.
- StepLedger.Ledger.RunStep: undisturbed; the conflict and the read after it are steps of LedgerRuns.
- LedgerRuns.ResultOnce: the code fences on the state of a row and not on its owner, so a late owner may complete a later claimant's step; the result is still written once.
- BuildHosts.CapacityHolds: the cap of a host is fixed during a run; that a run has at most one lease is the primary key of the lease table.
- BuildHosts.LeaseTable.TryAcquireLease: lock keys are abstract and distinct; hashing them is not modelled.
- SingleFlight.OneTaskPerKey: one process and one coalescer; the database fence between processes is not modelled.
- Reassembly.Store.ReassembleChunked: nobody overwrites a chunk between its check and its copy, and a failed store call has changed nothing.
- LeaseWindow.BillingConserved: hours are exact rationals; rounding of decimals to 28 digits is not modelled.
- The ledger, admission, promotion and release services, the command line, rendering and provider composition.
