# Verified model of the Anchor State Machine

The Anchor State Machine (ASM) follows Bitcoin: it checks headers and block
bodies, runs a state transition function (STF) on every block, and keeps an
anchor state, a manifest and auxiliary data per block together with a
height-indexed Merkle mountain range (MMR) of manifest hashes. This project
models the parts of it where being right is hard, and proves what they promise.

`dafny verify dfyconfig.toml` checks the whole project. Every lemma carries
`{:induction false}`: the induction hypothesis that Dafny 4.11 otherwise adds by
itself applies functions to values outside their types, which can make a proof
vacuous, so every induction here is written out.

## The parts

**Block bodies** (`Bitcoin`, `Merkle`, `InclusionProof`, `BlockBody`, with
`Sorting`). Double SHA-256 is a free constructor, so two digests are equal
exactly when they were made the same way. The Merkle tree repeats the last node
of an odd level; `Slot` says which leaf each place of the padded row holds, and a
root is shown to carry exactly that row. From this follow how far a root
determines a duplicate-free list, the exactness of inclusion proofs, the
rejection of every body mutated in the manner of CVE-2012-2459, and the main
results: which blocks are accepted, said without the checks themselves, and that an
accepted header binds one body, witnesses included, whether it was accepted on the
legacy path, the BIP 141 path, or one on each.

**Headers** (`Timestamps`, `HeaderChain`). The ring buffer of eleven timestamps
is a sliding window; its median never falls along an accepted run and rises over
any six headers. The state kept while following headers stays equal to what
start-up validation derives from the chain, for every retarget interval, and a run
of headers is accepted exactly when each has the bits of the difficulty rule, its
parent, its proof of work, and a time above six of the eleven before it.

**The worker** (`Sync`, `Registry`, `Worker`, `WorkerSafety`, `WorkerHistory`,
`WorkerEmission`, `WorkerMmr`, `WorkerAgreement`, `WorkerProgress`, `WorkerReach`,
`WorkerStale`, `WorkerService`). `Worker` is a state machine over single store writes, with a crash
possible before any of them. Executing a block reads the MMR store: what the block asks for
is resolved from it and must verify against the parent's accumulator. `Fold` is
the reference and reads no store: the STF folded from genesis along a block's
parent links, upgrades included, with requests resolved from the accumulator
itself. `WorkerHistory` says without the transition when a block folds, what it then
holds, and that its child runs under the first update of the nearest ancestor or self
that announced one. Over every run of the machine: stored anchors are folds, with all
their ancestors and records; a single manifest recovers the predicate of the whole
history; restarts always go through; subscribers hear of durable blocks only, of
each at most once, and of exactly those at which no crash fell between anchor and
announcement; leaves never have gaps. A block executes exactly when it folds and
the store serves what it asks for. The main result on progress is `AnchoredIff`: in
every reachable state with anything anchored, some continuation anchors a block known
to L1 if and only if its chain folds and, in every mountain that a block above its
nearest anchored ancestor asks into, the leaves at or below that ancestor are those
of its own chain. Submitting the block then suffices; otherwise nothing helps, since
a leaf that is wrong for an anchored block stays wrong for ever. This, like every
statement that tells branches apart by their leaves, takes manifest hashes to name
the block among those of its height (`HashNamesBlock`).
`WorkerService` is the code in its own form, with mutable stores and a write that
may fail at any point; each write is recorded as a step of the machine, so all of
this holds of it too. A sync fails only when a write fails, the block is unknown to
L1, or it was out of reach by the condition above before the call; a prefix of its
path is then anchored and announced. Leaves are to blame only in a run that left the
last written branch.

**Auxiliary data and stages** (`Mountains`, `AuxData`, `Subprotocols`). The MMR is
a row of perfect Merkle trees, one for each binary digit 1 of the leaf count; a proof
read from a store verifies exactly when the store has the leaf's whole tree right. Requests are collected, resolved, verified
and indexed over any store, which succeeds exactly when it serves them, and then
every range reads back the accumulator's leaves. The stages of a block deliver
every message once, in order, and only after all processing.

**Stores, collections and tools** (`Identifiers`, `StorageKeys`, `StoreOrder`,
`Tables`, `DbtoolText`). Byte order on keys is order by height, so range pruning
and the latest lookup are exact and find the worker's latest anchor; table merging
is right-biased map override; printed commitments, ranges and proof ids read back.

## What turned out not to hold

- The comment at `crates/worker/src/traits.rs:112-118` says a stale leaf never
  outlives the chain it belonged to. `StaleLeafOutlivesItsBranch` gives a run in
  which one does, for every fork of a certain shape (`ForkExists` has one): after
  a reorg to a shorter branch, extending the old branch again starts above the
  leaf that the shorter branch replaced. `LeafWriteKeepsAgreementIff` says exactly
  when a leaf write keeps the MMR in agreement: when the block being extended is on
  the branch of the last written leaf. `RunKeepsAgreement` carries this over whole
  runs.
- A block whose chain is valid can therefore be refused, and a refusal takes the
  worker down. `AnchoredIff` is the exact condition for any store and any block.
  `StaleLeafStopsExactly` reads it off for one stale leaf: a block above it can
  still be brought in, in whatever continuation, if and only if no block on the path
  asks into the mountain of the stale leaf. `FoldingBlockRefused` is a run that ends
  idle before a block that folds and that, with all blocks above it, no continuation
  brings in.
- A crash between a block's anchor write and its announcement loses the
  announcement for good, since an anchored block is never planned again
  (`AnnouncedIff`).
- A header binds its body only with the coinbase proof at position 0, which is
  where the worker makes it. `Verify` itself accepts any position below the
  count, and `OtherPositionAdmitsTwoBodies` gives two accepted bodies under one
  header. `BodyBoundByCoinbase` is the exact condition.
- Merkle roots alone do not fix the number of leaves: `InnerNodePosesAsLeaf`.
  `RootDeterminesIff` is the exact condition for duplicate-free lists: equal depths,
  or first leaves that look equally deep. A coinbase txid is no inner node, so
  `RootInjective` applies to block bodies.
- The collector does not check the lower end of a request. What it keeps is found
  if and only if each request starts above genesis, or at genesis when its height
  is even, where seeding leaves that one leaf readable (`CollectedFoundIff`).
- The tool reads more spellings than it prints (`SignedHeightAccepted`); what was
  read prints back as written exactly when it was in the printed form.

## Model

| member | source | states |
|---|---|---|
| `Bitcoin.TxidBindsStripped` | crates/btc-verification/src/utils_btc.rs:70-79 | transactions with one txid agree on everything but their witnesses |
| `Bitcoin.TxidIff` | crates/btc-verification/src/utils_btc.rs:70-79 | two transactions share a txid if and only if they differ in their witnesses alone |
| `Bitcoin.WtxidBinds` | crates/btc-verification/src/utils_btc.rs:88-93 | transactions with one wtxid are equal, witnesses included |
| `Bitcoin.WtxidIsTxidIff` | crates/btc-verification/src/utils_btc.rs:81-93 | a wtxid is the txid if and only if the transaction has an input and no witness |
| `Merkle.MerkleRootR` | crates/btc-verification/src/utils_btc.rs:138-152 | overwriting the slice level by level in place yields the root of its original contents |
| `Merkle.CalculateRoot` | crates/btc-verification/src/utils_btc.rs:112-133 | the first level hashed while copying and the rest in place give the level-by-level root; none for no leaves |
| `Merkle.DepthIsLeast` | crates/btc-verification/src/inclusion_proof.rs:155-160 | the bit-count formula is the least depth whose full row has room for all leaves |
| `Merkle.SlotOfRealLeaf` | crates/btc-verification/src/utils_btc.rs:138-152 | in the padded row every real leaf keeps its own place |
| `Merkle.RootIffPaddedRow` | crates/btc-verification/src/utils_btc.rs:112-152 | at one depth, equal roots are the same thing as equal padded rows |
| `Merkle.RootShowsDepth` | crates/btc-verification/src/utils_btc.rs:112-152 | the left edge of a root gives the depth of the tree and its first leaf |
| `Merkle.RootDeterminesIff` | crates/btc-verification/src/body_verification.rs:147-166 | two duplicate-free leaf lists under one root are equal if and only if their trees are equally deep, and if and only if their first leaves descend equally far through pairs |
| `Merkle.RootInjective` | crates/btc-verification/src/body_verification.rs:147-166 | so a root identifies the list when neither starts with an inner node, as no body does |
| `Merkle.RootInjectiveAtLength` | crates/btc-verification/src/utils_btc.rs:112-152 | lists of one length under one root are equal, repeated leaves or not |
| `Merkle.InnerNodePosesAsLeaf` | crates/btc-verification/src/inclusion_proof.rs:127-141 | without that condition a one-leaf list poses as any longer list |
| `Merkle.LeafScanCoversLevels` | crates/btc-verification/src/body_verification.rs:147-174 | equal nodes at any level mean equal leaves, so scanning the leaves alone detects every repetition |
| `Merkle.MutationWidthIff` | crates/btc-verification/src/body_verification.rs:359-376 | a subtree that can be repeated unseen exists exactly when the count is no power of two |
| `Merkle.MutationKeepsRoot` | crates/btc-verification/src/body_verification.rs:359-385 | repeating the last subtree of the lowest odd level leaves the root as it was, for every count |
| `Merkle.MutationKeepsDepth` | crates/btc-verification/src/body_verification.rs:359-385 | and leaves the depth, so the depth check of a proof does not notice it |
| `InclusionProof.Generate` | crates/btc-verification/src/inclusion_proof.rs:56-103 | the loop collects the siblings of the leaf on each level; none for an index past the end |
| `InclusionProof.SiblingAt` | crates/btc-verification/src/inclusion_proof.rs:56-103 | the siblings are the nodes beside the way to the root, lowest level first, the node itself at an odd end |
| `InclusionProof.ComputeRoot` | crates/btc-verification/src/inclusion_proof.rs:108-125 | the loop climbs the stored siblings by the bits of the position |
| `InclusionProof.GeneratedProofVerifies` | crates/btc-verification/src/inclusion_proof.rs:56-125 | climbing from any leaf with its generated siblings ends at the root, one sibling per level |
| `InclusionProof.AcceptedPathIsGenerated` | crates/btc-verification/src/inclusion_proof.rs:142-150 | a path of the right length that reaches the root is for the leaf at its position and is the generated one |
| `InclusionProof.VerifyIffGenerated` | crates/btc-verification/src/inclusion_proof.rs:142-150 | verification accepts exactly the generated proof for that txid at that position |
| `InclusionProof.FullPathIff` | crates/btc-verification/src/inclusion_proof.rs:127-150 | at any position, also past the count, a path of full depth to the root exists if and only if it starts from the leaf in that slot, so the position check is what excludes the repeated ones |
| `BlockBody.CalculateRootNoDups` | crates/btc-verification/src/body_verification.rs:175-190 | sorting a copy and comparing neighbours refuses exactly the lists with a repeated hash, and otherwise returns the root in block order |
| `BlockBody.WitnessCommitmentIff` | crates/btc-verification/src/body_verification.rs:220-248 | of several outputs with the magic bytes the last one is taken, and there is a commitment if and only if there is one |
| `BlockBody.AcceptedIff` | crates/btc-verification/src/body_verification.rs:69-145 | with any proof or none, a block is accepted if and only if a coinbase heads it and its witnesses are committed to under a proof of the coinbase, or there are none and the header has its txid root |
| `BlockBody.WorkerAcceptsIff` | crates/worker/src/state.rs:193-208 | with the proof the worker generates, if and only if a coinbase heads it, the header has its txid root, and its witnesses are committed to or absent; the result is the witness root or the txid root |
| `BlockBody.BodyBoundByCoinbase` | crates/btc-verification/src/body_verification.rs:69-145 | two accepted bodies under one Merkle root are equal if and only if their coinbases share a txid |
| `BlockBody.HeaderBindsBody` | crates/btc-verification/src/body_verification.rs:9-18 | with coinbase proofs at position 0, a header binds one body with all its witnesses and one result, on either path or across both |
| `BlockBody.HeaderShowsCoinbase` | crates/btc-verification/src/body_verification.rs:69-145 | under an accepted header the leftmost leaf of the root is the coinbase txid, on either path |
| `BlockBody.WorkerProofTiesTxids` | crates/worker/src/state.rs:193-208 | with the proof the worker generates, an accepted block's header root is the root of all its txids |
| `BlockBody.MutatedBodyRejected` | crates/btc-verification/src/body_verification.rs:364-385 | every accepted body, once mutated, still has its root and its proof still verifies, and is refused as a duplicate |
| `BlockBody.OtherPositionAdmitsTwoBodies` | crates/btc-verification/src/inclusion_proof.rs:142-150 | with a proof at position 1 two different bodies are accepted under one header |
| `Timestamps.TimestampStore.constructor` | crates/btc-verification/src/timestamp_store.rs:41-46 | the window starts as the given timestamps, oldest first |
| `Timestamps.TimestampStore.Insert` | crates/btc-verification/src/timestamp_store.rs:65-68 | overwriting the slot at the head slides the window: the oldest goes, the new one is last |
| `Timestamps.TimestampStore.Median` | crates/btc-verification/src/timestamp_store.rs:74-78 | sorting the buffer as it lies gives the median of the window, wherever the head is |
| `Timestamps.MedianByCount` | crates/btc-verification/src/timestamp_store.rs:70-78 | the median is the least value with six of the eleven timestamps at or below it |
| `Timestamps.AboveMedianIff` | crates/btc-verification/src/timestamp_store.rs:70-78 | a time is above the median if and only if six of the eleven timestamps lie strictly below it |
| `Timestamps.SlideAllIsLastEleven` | crates/btc-verification/src/timestamp_store.rs:65-68 | after any number of insertions the window is exactly the most recent eleven |
| `Timestamps.MedianNeverFalls` | crates/btc-verification/src/header_verification.rs:219-242 | along every accepted run the median never falls, and every accepted time exceeds it |
| `Timestamps.SixHeadersRaiseMedian` | crates/btc-verification/src/header_verification.rs:219-242 | six accepted headers raise the median strictly |
| `HeaderChain.HeaderVerificationState.UpdateTimestamps` | crates/btc-verification/src/header_verification.rs:180-189 | the window slides and an epoch's first header sets the epoch start |
| `HeaderChain.HeaderVerificationState.CheckAndUpdate` | crates/btc-verification/src/header_verification.rs:200-251 | each error exactly when its check is the first to fail, the time check by counting; an accepted header updates every field, and a rejected one changes nothing |
| `HeaderChain.StepKeepsValidation` | crates/worker/src/state.rs:289-356 | a state that start-up validation accepts at one height is one it accepts at the next, after the chain's next header is accepted |
| `HeaderChain.NextTargetIsRequiredBits` | crates/btc-verification/src/header_verification.rs:156-176 | the saturated timespan gives the same target as the signed and limited one of the difficulty rule |
| `HeaderChain.EpochStartAt` | crates/btc-verification/src/header_verification.rs:312-323 | epoch arithmetic gives the last multiple of the interval at or below the height, and the later ones an interval apart |
| `HeaderChain.ValidateAnchorIff` | crates/worker/src/state.rs:289-356 | start-up accepts a state if and only if the network is L1's, the block is the one at that height, the epoch start is the first header's time, and the next target is that of the difficulty rule |
| `HeaderChain.AcceptedRun` | crates/btc-verification/src/header_verification.rs:200-251 | after any accepted run the state validates, its work is the sum, its window slid over the times, and every header had the required bits, parent and proof of work |
| `HeaderChain.AcceptedRunIff` | crates/btc-verification/src/header_verification.rs:200-251 | from a validated state, the next headers are all accepted if and only if each has the required bits, parent and proof of work and is later than six of the eleven before it |
| `HeaderChain.AcceptedRunRaisesMedian` | crates/btc-verification/src/header_verification.rs:219-242 | over any accepted run the median does not fall, six headers raise it, and eleven headers make up the window |
| `Sync.PlanSync` | crates/worker/src/sync.rs:62-90 | the cursor loop ends and computes the walk down the parent links |
| `Sync.WalkExact` | crates/worker/src/sync.rs:62-90 | the base is the nearest ancestor-or-self with state, the pending blocks are exactly the links above it, and the floor or an error is reported only when nothing nearer had state |
| `Sync.OffAncestryIrrelevant` | crates/worker/src/sync.rs:62-90 | what is stored off the tip's ancestry or below the floor never changes the plan |
| `Registry.ExecutionRegistry.Register` | crates/worker/src/registry.rs:70-87 | a target is refused exactly when its predicate or its spec is taken, with the error that says which, so the registry stays one-to-one |
| `Registry.LookupsInverse` | crates/worker/src/registry.rs:111-126 | in a one-to-one registry, predicate to spec and spec to predicate undo each other |
| `WorkerSafety.FoldShape` | crates/stf/src/transition.rs:27-110 | every folded anchor names its own block and its accumulator has one leaf per height |
| `WorkerHistory.FoldIff` | crates/worker/src/state.rs:160-208 | a block folds on its parent if and only if a spec registered for the parent's predicate accepts its header, can read where its requests start, and executes it |
| `WorkerHistory.FoldCarriesEffects` | crates/stf/src/transition.rs:59-110 | its manifest, anchor and aux data are those of that execution, under its own name and on its parent's accumulator |
| `WorkerHistory.TransitionErrorIff` | crates/worker/src/state.rs:160-208 | the errors in their order: unknown predicate, header, unreadable request, and only then the rest |
| `WorkerSafety.HeightAssertionNeverFires` | crates/stf/src/transition.rs:59-110 | the accumulator height assertion never fires on any block of any chain |
| `WorkerSafety.AccumulatorIsAncestry` | crates/state/src/mmr.rs:22-53 | a block's accumulator is, height by height, the manifest hashes of its own ancestors above genesis |
| `WorkerSafety.RecoverRefinesHistory` | crates/worker/src/state.rs:255-272 | one anchor and its manifest give the predicate of folding every upgrade log since genesis |
| `WorkerHistory.FirstUpdateWins` | crates/logs/src/asm_stf.rs:51-57 | of several updates in one block the first counts, and there is none if and only if no log is an update |
| `WorkerHistory.PredicateIsLastUpdate` | crates/worker/src/state.rs:212-237 | the predicate for a block's child is the first update of the nearest ancestor or self that announced any, and otherwise the genesis predicate |
| `WorkerHistory.RecoverIff` | crates/worker/src/state.rs:255-272 | what is recovered from any anchor and any manifests, if anything: genesis predicate, first update of its own manifest, or the predicate registered for its spec |
| `WorkerSafety.TransitionIff` | crates/worker/src/state.rs:160-208 | over any store with leaves enough, a block executes if and only if it would over the accumulator's own leaves and the store serves what it asks for; the outcome is then the same, and otherwise the refusal is an STF error |
| `WorkerSafety.ExecuteIff` | crates/worker/src/state.rs:160-208 | in every store the worker keeps, the next block executes if and only if its chain folds and the store serves it, and yields the fold's anchor, record and predicate |
| `WorkerSafety.PlanIsPath` | crates/worker/src/service.rs:213-243 | a plan starts at a stored block and lists the unanchored parent-linked path up to the target |
| `WorkerSafety.StepKeepsInv` | crates/worker/src/service.rs:117-289 | every single write, boot stage, submission and crash keeps the invariant of the stores, memory and subscribers |
| `WorkerSafety.StoredAnchorIsComplete` | crates/worker/src/service.rs:258-289 | in every reachable state a stored anchor is the fold from genesis along its own links, all its ancestors are stored, and its manifest and aux data are there |
| `WorkerSafety.EmittedOnceAndDurable` | crates/worker/src/service.rs:258-289 | over every run, every announced block is already durable and none is announced twice, restarts included |
| `WorkerEmission.RunKeepsAccount` | crates/worker/src/service.rs:258-289 | over every run, each anchored block but genesis is exactly one of announced, lost to a crash right after its anchor write, or about to be announced |
| `WorkerEmission.AnnouncedIff` | crates/worker/src/service.rs:258-289 | an anchored block is announced if and only if no crash fell in that gap and it is not there now; after such a crash no continuation announces it |
| `WorkerSafety.PredicateFollowsHistory` | crates/worker/src/state.rs:212-237 | in every running state the predicate in memory is that of the tip's whole history, and the tip's manifest recovers it |
| `WorkerSafety.NoGapInLeaves` | crates/worker/src/traits.rs:101-119 | in every reachable state the leaves reach past every anchor and the next leaf write is an append or an overwrite above genesis |
| `WorkerSafety.BootNeverRefused` | crates/worker/src/state.rs:57-150 | no start-up stage ever meets a store it refuses |
| `WorkerSafety.RestartNeverWedges` | crates/worker/src/state.rs:57-150 | from the store of any run, crashes inside start-up included, a restart goes through and resumes at the latest anchor |
| `WorkerMmr.AgreementMeansAncestry` | crates/worker/src/traits.rs:101-119 | agreement means that each leaf above genesis is the manifest hash of the last written block's ancestor at that height |
| `WorkerMmr.RunKeepsAgreement` | crates/worker/src/service.rs:182-197 | agreement holds throughout every run whose syncs start on the branch of the last written leaf, over crashes and reorgs to shorter branches |
| `WorkerMmr.SingleBranchServes` | crates/worker/src/state.rs:177-188 | in such runs the store starts with the accumulator whenever a block is about to execute, so every block that folds is served and executes |
| `WorkerAgreement.AccumulatorNamesBlock` | crates/state/src/mmr.rs:22-53 | equal accumulators at one height belong to one block, if manifest hashes name their block |
| `WorkerAgreement.LeafWriteKeepsAgreementIff` | crates/worker/src/traits.rs:112-118 | from agreement, a leaf write keeps it if and only if the block extended is on the branch of the last written leaf |
| `WorkerProgress.SyncCompletes` | crates/worker/src/service.rs:182-201 | from anywhere inside a sync whose target folds, if up to the tip the leaves are right for every block left, the rest can be applied; no anchor is lost, only its blocks are added, and the leaves of its heights, and no others, become those of its chain |
| `WorkerProgress.SubmitAccepted` | crates/worker/src/service.rs:117-201 | planning and restoring succeed for a block whose chain folds, and start work exactly when it is not anchored yet |
| `WorkerProgress.SubmitReachesTarget` | crates/worker/src/service.rs:117-201 | from an idle state, submitting a block that meets the condition of `AnchoredIff` leads to its anchor, anchors only its ancestry, and makes the leaves above the base, and no others, those of its chain |
| `WorkerProgress.LastBranchIsClear` | crates/worker/src/service.rs:182-197 | in agreement, a sync that starts on the branch of the last written leaf meets that condition |
| `WorkerProgress.ServedIffRight` | crates/worker/src/state.rs:177-188 | a block that folds is served if and only if, in every mountain it asks into, all leaves are those of its own chain |
| `WorkerReach.StepKeepsWrong` | crates/worker/src/traits.rs:101-119 | a leaf that is wrong for the chain of an anchored block stays wrong under every step, as the block it belongs to is never planned again |
| `WorkerReach.RunKeepsServed` | crates/worker/src/service.rs:258-289 | in every reachable state, until its anchor is written, the leaves still serve the block being applied |
| `WorkerReach.SpoiltForEver` | crates/worker/src/service.rs:117-201 | a block that asks into a mountain with such a leaf is anchored in no continuation, and neither is any block above it, whatever is submitted and restarted |
| `WorkerReach.ComeBack` | crates/worker/src/state.rs:57-150 | from any reachable state with anything anchored, a crash and a restart lead to idle over the same stores |
| `WorkerReach.AnchoredIff` | crates/worker/src/service.rs:117-201 | in every reachable state with anything anchored, some continuation anchors a block known to L1 if and only if its chain folds and the leaves up to its nearest anchored ancestor are right for every block above that one |
| `WorkerStale.SyncableIff` | crates/worker/src/state.rs:177-188 | some continuation brings in a block that folds on an anchored parent if and only if the store serves what it asks for now |
| `WorkerStale.StaleLeafOutlivesItsBranch` | crates/worker/src/traits.rs:112-118 | wherever L1 has a branch of three blocks and a sibling of its first one, some run ends idle on the third with the sibling's leaf still in place below it and every other leaf right |
| `WorkerStale.StaleLeafStopsExactly` | crates/worker/src/state.rs:177-188 | with one stale leaf below an anchored block, a block at any distance above it can be brought in, in some continuation, if and only if no block on the path asks into the stale leaf's mountain |
| `WorkerStale.ForkExists` | crates/worker/src/traits.rs:112-118 | there is a configuration with such a fork and a folding block on it that asks for the stale height |
| `WorkerStale.FoldingBlockRefused` | crates/worker/src/state.rs:177-188 | some run leaves the worker idle before a block that folds on an anchored one and that no continuation brings in, nor any block above it |
| `WorkerService.WorkerContext.PutLeafAt` | crates/worker/src/traits.rs:101-119 | a leaf is accepted exactly at the end or above genesis; it then stands at its height, every other leaf is as before, and a refusal changes nothing |
| `WorkerService.WorkerContext.RecordManifest` | crates/worker/src/traits.rs:142-147 | manifest first, leaf second; it fails only when a write fails |
| `WorkerService.WorkerContext.Persist` | crates/worker/src/service.rs:267-280 | the record is written in the machine's order with the anchor as commit point; a failure leaves the anchors as they were |
| `WorkerService.WorkerContext.GetLatestAnchorState` | crates/worker/src/traits.rs:64-77 | the stored anchor that no other exceeds by height and then block id |
| `WorkerService.AsmWorkerServiceState.RestoreAnchor` | crates/worker/src/state.rs:212-229 | the base becomes the tip, its predicate recovered unless it is the tip already; on an error memory stays as it was |
| `WorkerService.AsmWorkerServiceState.AcceptOutput` | crates/worker/src/state.rs:232-237 | memory moves to the block and the first update it logged, if any, takes effect from its child on |
| `WorkerService.AsmWorkerServiceState.ExecuteBlock` | crates/worker/src/state.rs:160-208 | checking the header, collecting, resolving from the live MMR, verifying and executing is the machine's transition over the current leaves, each error in its place |
| `WorkerService.AsmWorkerServiceState.ApplyBlock` | crates/worker/src/service.rs:258-289 | a block is anchored with its leaf at its height, then accepted, then announced; it fails only for want of a write, because it does not fold, or because the leaves do not serve it after a sync off the last written branch, and then anchors and announces nothing |
| `WorkerService.AsmWorkerServiceState.BeginSync` | crates/worker/src/service.rs:134-180 | planning and restoring succeed for every block whose chain folds, and hand over the path that ends in the target |
| `WorkerService.AsmWorkerServiceState.SyncToBlock` | crates/worker/src/service.rs:117-201 | the blocks anchored and announced, in order, are the planned path, or on an error a prefix of it; nothing happens exactly for anchored or pre-genesis blocks; it fails only for want of a write, for an unknown block, or for one that no continuation could anchor, because it does not fold or the leaves do not serve a block of its path, the last only after a sync off the last written branch |
| `WorkerService.New` | crates/worker/src/state.rs:57-150 | start-up resumes at the latest stored anchor, or at genesis in an empty store, and stops only for its configuration, a failed write or a refused store |
| `WorkerService.ConfigErrorIff` | crates/worker/src/state.rs:57-150 | which configurations start-up refuses, on their fields: no target for the genesis predicate, one that runs another spec, or an anchor that does not match L1 |
| `WorkerService.BootNeverRefuses` | crates/worker/src/state.rs:57-150 | no store left by this code is refused, so the last of those never happens |
| `Mountains.VerifyIffOwn` | crates/state/src/mmr.rs:45-48 | a proof is accepted if and only if it is the accumulator's own proof of the leaf at its index |
| `Mountains.MountainLayout` | crates/storage/src/sled/manifest_mmr.rs:137-149 | a mountain's size is a power of two whose binary digit in the leaf count is 1, and it starts where the larger digits end |
| `Mountains.ProofLength` | crates/storage/src/sled/manifest_mmr.rs:137-149 | a proof has as many siblings as its mountain is high |
| `Mountains.StoredProofVerifiesIff` | crates/storage/src/sled/manifest_mmr.rs:137-149 | a proof read from the store as of the accumulator's leaf count verifies if and only if the store has every leaf of that mountain as the accumulator does |
| `Mountains.MountainShared` | crates/storage/src/sled/manifest_mmr.rs:137-149 | mountains do not overlap: each leaf of a mountain has that mountain as its own |
| `Mountains.OneWrongLeaf` | crates/storage/src/sled/manifest_mmr.rs:137-149 | one wrong leaf spoils the proofs of its own mountain and of no other |
| `AuxData.AuxRequestCollector.RequestManifestHashes` | crates/common/src/aux_input/collector.rs:54-68 | a request is kept as it is, or dropped when inverted or past the bound, so all kept ones are admitted |
| `AuxData.CollectedAreAdmitted` | crates/common/src/aux_input/collector.rs:54-68 | of any sequence of requests the collector keeps exactly those that are not inverted and end at or below the bound |
| `AuxData.CollectedInOrder` | crates/common/src/aux_input/collector.rs:54-68 | and keeps them in order, each as often as it was made |
| `AuxData.ReadableIff` | crates/storage/src/sled/manifest_mmr.rs:124-131 | a leaf can be read if and only if it is above genesis or by itself a peak of the seeded leaves |
| `AuxData.CollectedFoundIff` | crates/stf/src/stage.rs:53-58 | with the bound at the accumulator's last height, the kept requests are all found if and only if each starts above genesis, or at a readable genesis leaf |
| `AuxData.ResolveManifestHashes` | crates/worker/src/aux_resolver.rs:174-226 | the loop with its seen-set resolves each requested height once, in order of first request, or returns the first failure |
| `AuxData.WantedCovers` | crates/worker/src/aux_resolver.rs:174-226 | the heights to resolve are exactly the union of the ranges, each once |
| `AuxData.DistinctInOrder` | crates/worker/src/aux_resolver.rs:174-226 | and they are in the order in which they are first requested |
| `AuxData.ResolutionUnique` | crates/worker/src/aux_resolver.rs:174-226 | a list of heights has one resolution: all entries in order, or its first failure |
| `AuxData.ServableIff` | crates/worker/src/aux_resolver.rs:174-226 | a height is found and its proof accepted if and only if it can be read and the store has its whole mountain right |
| `AuxData.StaleLeafServesIff` | crates/common/src/aux_input/provider.rs:112-133 | with one stale leaf, requests that are found are served if and only if none is for a height of its mountain |
| `AuxData.VerifyAndIndexManifestHashes` | crates/common/src/aux_input/provider.rs:112-133 | accepted exactly when every proof verifies; the index then holds accumulator leaves under their heights |
| `AuxData.GetManifestHashes` | crates/common/src/aux_input/provider.rs:186-193 | a range is answered in order exactly when every height of it is indexed |
| `AuxData.ServeRequests` | crates/worker/src/state.rs:177-188 | over any store, resolving, verifying and indexing succeeds if and only if the store serves every height asked for; the index then covers exactly those heights with the accumulator's leaves, and a failure is one of the proofs exactly when all was found |
| `AuxData.ReadBack` | crates/common/src/aux_input/provider.rs:186-193 | every requested range reads back the accumulator's leaves, in order |
| `AuxData.AnswerRequests` | crates/worker/src/state.rs:177-188 | from requests to answers: every request within the accumulator's heights, the last one included, is answered with its leaves in order, if and only if the store serves what was kept; over a store in step, if and only if every kept request starts at a readable leaf |
| `Subprotocols.SubprotoManager.InvokeProcessTxs` | crates/stf/src/manager.rs:119-134 | it runs through exactly when the subprotocol is loaded and messages only loaded others; then only its state and the receivers' buffers change |
| `Subprotocols.SubprotoManager.ExportSectionsAndLogs` | crates/stf/src/manager.rs:191-208 | one section per handler, by ascending id, with the handler's state, and the logs as emitted |
| `Subprotocols.RunStages` | crates/stf/src/transition.rs:61-80 | a block's stages run through if and only if each subprotocol is loaded once and messages only loaded others; each then finishes with every message sent to it, once, in order, after all processing |
| `Subprotocols.EffectPlace` | crates/stf/src/manager.rs:119-134 | a message comes after those relayed to the same receiver before it, and a log after those emitted before it |
| `Subprotocols.MsgOrigin` | crates/stf/src/manager.rs:119-134 | and every message delivered is one that was relayed, at its place |
| `Subprotocols.EffectsInOrder` | crates/stf/src/transition.rs:61-80 | the effects of a block are those of its subprotocols one after the other in the order of the spec |
| `StorageKeys.KeysInvertible` | crates/storage/src/sled/mod.rs:33-51 | decoding undoes encoding, and encoding undoes decoding of any 36 bytes |
| `StorageKeys.KeyOrder` | crates/storage/src/sled/mod.rs:22-27 | byte order on keys is order by height and then by block id |
| `StorageKeys.HeightBound` | crates/storage/src/sled/state.rs:76-83 | a bare four-byte height separates the keys exactly at that height |
| `StorageKeys.SledAsmStateDb.Put` | crates/storage/src/sled/state.rs:46-51 | the state is found under its own block, and every other block's entry is untouched |
| `StorageKeys.SledAsmStateDb.GetLatest` | crates/storage/src/sled/state.rs:66-73 | the entry found last is of a stored block that no stored block is later than |
| `StoreOrder.NamedOrder` | crates/storage/src/sled/mod.rs:22-27 | a block id read as a number names its block uniquely, and the store's order is the worker's |
| `StoreOrder.LatestIsLatest` | crates/worker/src/traits.rs:64-77 | the entry the byte-keyed store finds last is the latest anchor that start-up resumes from |
| `StorageKeys.SledAsmStateDb.PruneBefore` | crates/storage/src/sled/state.rs:76-83 | removes the blocks below the height and no others |
| `StorageKeys.SledAsmStateDb.PruneAfter` | crates/storage/src/sled/state.rs:86-96 | removes the blocks above the height and no others, also at the greatest height |
| `StorageKeys.SledAsmStateDb.Delete` | crates/storage/src/sled/state.rs:101-106 | removes that block alone and says whether it was there |
| `Tables.SortedVec.Merge` | crates/common/src/sorted_vec.rs:134-156 | the merge is sorted and holds each element as often as both together |
| `Tables.FlatTable.FindIndex` | crates/common/src/sorted_vec.rs:303-306 | the place of the key, or the one place where it can go |
| `Tables.FlatTable.Insert` | crates/common/src/sorted_vec.rs:320-337 | sets the entry in the map, keeps strict order and returns what it replaced |
| `Tables.FlatTable.Remove` | crates/common/src/sorted_vec.rs:340-342 | takes the key out of the map, keeps strict order and returns what it removed |
| `Tables.FlatTable.Merge` | crates/common/src/sorted_vec.rs:354-398 | strict key order is kept and the contents are this map overridden by the other |
| `Tables.TableDetermined` | crates/common/src/sorted_vec.rs:246-250 | a strictly ordered table is determined by its map |
| `Tables.CheckTableVec` | crates/common/src/sorted_vec.rs:225-244 | comparing neighbours decides exactly: strictly ordered, ordered with a repeated key, or unordered |
| `Tables.TryFromUnsorted` | crates/common/src/sorted_vec.rs:273-280 | sorting first succeeds exactly when no key repeats, with the same entries in strict order |
| `DbtoolText.CommitmentReadsBack` | bin/dbtool/src/output.rs:15-21 | every printed commitment parses to itself |
| `DbtoolText.CommitmentPrintsBackIff` | bin/dbtool/src/utils.rs:11-19 | a parsed commitment prints as it was written if and only if the height had no sign or leading zero and the id was lower-case hex without prefix |
| `DbtoolText.SignedHeightAccepted` | bin/dbtool/src/utils.rs:11-19 | a plus sign before any printed commitment is accepted and lost |
| `DbtoolText.CommitmentReadIff` | bin/dbtool/src/utils.rs:11-19 | exactly these texts read as a commitment: an optional plus sign, zeros, the height, a colon, an optional `0x`, and the id in hex of any case |
| `DbtoolText.RangeReadsBack` | bin/dbtool/src/output.rs:38-46 | every printed range parses to itself, single blocks included |
| `DbtoolText.RangePrintsBackIff` | bin/dbtool/src/utils.rs:26-36 | a parsed range is a valid one, and prints as it was written if and only if it was one printed commitment or two different ones around `..=` |
| `DbtoolText.RangeReadIff` | bin/dbtool/src/utils.rs:26-36 | exactly these texts read as a range: one commitment, or two in height order around two dots and an optional equals sign |
| `DbtoolText.ProofIdReadsBack` | bin/dbtool/src/output.rs:60-65 | every printed proof id parses to itself, though it uses `:` twice |
| `DbtoolText.ProofIdPrintsBackIff` | bin/dbtool/src/utils.rs:47-56 | a parsed proof id is a valid one, and prints as it was written if and only if what follows its kind was in printed form |
| `DbtoolText.ProofIdReadIff` | bin/dbtool/src/utils.rs:47-56 | exactly these texts read as a proof id: its kind, a colon, and a range or a commitment |

## Left out

- SHA-256 and consensus encoding: hashes are free constructors, so collisions do not exist in the model; block integrity is proved under that idealisation.
- Compact targets, work and the retarget multiplication: parameters of `Consensus`; only which bits and timespan go in is modelled.
- Integer widths of heights, counts and timestamps: unbounded, except in keys and printed heights, where `u32` matters.
- The MMR node store: the MMR is its leaf sequence, from which peaks and paths are computed; seeding and replacing a leaf are single writes.
- What a spec computes for a block: a parameter of `Config` and `Spec`; subprotocol logic would only add parameters.
- Bitcoin transactions as auxiliary data: they come from L1, looked up and checked one by one; what they do is part of executing the block.
- The pre-processing stage beyond its header check and request bound: it changes no state.
- Deleting or pruning states under a running worker: breaks the store invariants by design; `StorageKeys` proves what pruning itself does.
- The service framework, subscriptions, RPC, the Moho and prover extensions, and configuration loading: I/O around the modelled logic.
- SSZ encoding of stored values: the stores hold values, and only keys are bytes.
- Tables.FlatTable.FindIndex: key orders are given by an integer per entry, so orders that do not embed in the integers are not covered.
- BlockBody.CalculateRootNoDups: takes the numeric order of digests as a parameter and asks only that it tells digests apart.
- WorkerService.New: the anchor check against L1 is one flag of the configuration, modelled in full by `HeaderChain.ValidateAnchor`; refused stores are named as a possible cause, which `WorkerService.BootNeverRefuses` rules out.
- Subprotocols.SubprotoManager.ExportSectionsAndLogs: encoding a section cannot fail, because section states are values.
- Subprotocols.RunStages: one state and message type for all subprotocols; a message of the wrong type for its receiver is not modelled.
