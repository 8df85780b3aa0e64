# A verified model of the LS SDK and its trading adapter

Dafny models of the parts of the repository whose correctness is not visible in one function,
with proofs of what they promise. `dafny verify dfyconfig.toml` checks everything.

| module | what it models |
|---|---|
| `OrderDedup`, `OrderProtocol`, `OrderSafety`, `OrderOutcome`, `OrderRace`, `OrderResend`, `OrderPreemption` | order dispatch: a TTL cache, in-flight reservations, a sweep gated by compare-exchange and a kill switch, shared by any number of calls |
| `TickRules` | KRX tick ladders, rounding onto the grid, the marketable limit price |
| `Projection`, `ProjectionOutcome`, `ProjectionSafety`, `ProjectionRecovery`, `ProjectionCrash`, `ProjectionWitness` | manifest-last generation of an artifact set: interruption, crash, retry, what is left on disk |
| `Framing`, `SourceTree`, `Fingerprint`, `FingerprintStream`, `FingerprintLayout` | length-prefixed digest framing, the tree walk, inventory validation and the build fingerprint |
| `Numerals`, `Preflight`, `PreflightVariants`, `VariantsOutcome` | request validation against a schema, and the generator of invalid variants |
| `Auth`, `AuthProtocol`, `AuthOutcome` | the bearer-token cache behind a reader-writer lock |
| `Holdings`, `Book` | cursor-continued holdings read, the expected-book comparison and the book gate |
| `Teardown`, `TeardownProtocol` | draining dispatch tasks, then cancelling what rests |
| `Reconcile` | the migration ledger against the discovered inventory |
| `Scrub` | masking of account numbers and credentials |
| `Ordering`, `Sequences`, `Wrappers` | total orders and sorting, regrouping, option and result types |

Code that changes state step by step is a class or a method with loops, proved equal to a
specification function or against a declarative predicate; concurrent code is a step machine
whose runs are arbitrary interleavings. The main results are stated over every input or every
run.

## Where the code and its promises differ

For each of these the exact condition under which the promise holds is proved, and an input on
which it fails is given.

- At-most-once order dispatch rests on there being no await between the cache lookup and the
  reservation (`inner.rs:609-625`). Once an accepted order is cached, the same order can be sent
  again within the TTL exactly when, at that moment, the TTL has not already passed and another
  call stands between its lookup of that order and its reservation (`SecondSendIff`, over every
  interleaving, calls preempted anywhere included). Calls switched at awaits never stand there
  (`AwaitsPreventRaces`, hence `AtMostOncePerWindow`); `PreemptedLookupSendsTwice` is a run in
  which a preempted call does.
- Only a cached order, or one under way, is protected: the next call for an order, running alone,
  sends it exactly when orders are enabled, no call holds its guard and its last store is as old
  as the TTL (`ResubmitSendsIff`). So where calls are switched at awaits, a second send within the
  TTL means that the first call was over and had stored nothing (`EarlyResendMeans`);
  `AbandonedSendsTwice` is such a run, its first call abandoned on the wire.
- A projection set may contain an artifact named like another artifact's temporary file
  (`.a.repository-engineering.tmp` beside `a`). Generation then reports success and has deleted
  it: `GeneratedIsUpToDate` gives the exact condition, `SelfClobberingExists` the set.
- An interrupted generation cannot always be finished by running it again: where an obsolete
  path, or a temporary, is a directory above a new artifact, the retry is refused for ever
  (`InterruptionsRecoverable`; `UnrecoverableExists` and `RevisitedExists` give one input each).
  On the same inputs a crash inside a replacement is not healed either, nor any number of
  retries cut short (`TornReplacementsHealIff`, `AnyAttemptsHealIff`). A crash among the removals
  is healed unless the previous manifest lists itself, which that of a valid set never does
  (`RemovalCrashHealsIff`, `RemovalCrashHeals`, `RemovalCrashExists`).
- A manifest over 8 MiB is written without complaint and refused by the next generation
  (`RegenerationIsIdentity`, `OversizedManifestExists`).
- Files that no manifest lists are left alone except those bearing a temporary's name
  (`OtherFilesSurviveIff`, `TemporaryFileLost`).
- Held quantities are added in 64 bits without a check, so in a release build a total beyond 64
  bits can pass for a small holding (`ComparisonIsExactIff`, `OverflowPassesForFive`).
- The generator's variants are not always rejected (`VariantRejectedIff`). Its range violation is
  one past the bound, compared in floating point: beyond 2^53 it may be accepted
  (`RangeVariantRejectedIff`, `LargeBoundPasses`). A range rule without bounds, a format
  rule without a kind, and a date order naming one field twice produce variants that pass
  (`UnboundedRangePasses`, `KindlessFormatPasses`, `SelfOrderPasses`).
- The error of a rule's variant need not name that rule's pair: an earlier rule that shares a field
  may be blamed (`ErrorNamesOwnPairIff`, `AnotherPairNamed`).

## Model

| member | source | states |
|---|---|---|
| `OrderDedup.OrderDeduplicator.constructor` | crates/ls-core/src/order_dedup.rs:98-107 | an empty cache, reservation set and counter, agreeing with the never-evicting map |
| `OrderDedup.OrderDeduplicator.Get` | crates/ls-core/src/order_dedup.rs:166-188 | answers the last write for the key exactly while its age is below the TTL; a hit bumps the counter and touches nothing; a miss drops the entry only if it is still expired at the second phase |
| `OrderDedup.OrderDeduplicator.Insert` | crates/ls-core/src/order_dedup.rs:192-201 | the new entry is written after a due sweep that leaves live entries only; every later lookup agrees with the never-evicting map |
| `OrderDedup.OrderDeduplicator.SweepExpiredIfDue` | crates/ls-core/src/order_dedup.rs:208-227 | sweeps and moves the timestamp exactly when the interval has passed, and otherwise changes nothing |
| `OrderDedup.OrderDeduplicator.TryReserve` | crates/ls-core/src/order_dedup.rs:121-138 | granted exactly when the key is not in flight; a refusal is counted as a suppressed duplicate |
| `OrderDedup.OrderDeduplicator.Release` | crates/ls-core/src/order_dedup.rs:90-94 | dropping the guard frees that key and no other |
| `OrderDedup.OrderDeduplicator.HitCount` | crates/ls-core/src/order_dedup.rs:112-114 | the counter |
| `OrderDedup.AgreesAnswers` | crates/ls-core/src/order_dedup.rs:166-188 | a cache that agrees with the never-evicting map answers every lookup as that map does |
| `OrderDedup.AgreesLater` | crates/ls-core/src/order_dedup.rs:166-227 | agreement survives the passing of time |
| `OrderSafety.ReservationsExact` | crates/ls-core/src/order_dedup.rs:90-138 | in every interleaving: the reservation set is exactly the keys of the calls holding a guard, no key has two holders, and only holders dispatch |
| `OrderSafety.HitCounterExact` | crates/ls-core/src/order_dedup.rs:110-138 | in every interleaving the counter is the number of calls answered from the cache or refused as duplicates, modulo its 64 bits |
| `OrderSafety.CacheRefinesNeverEvicting` | crates/ls-core/src/order_dedup.rs:166-227 | in every interleaving of both lookup phases, inserts and sweeps, a lookup sees what a never-evicting map would answer, and no step removes a live entry |
| `OrderSafety.SweepsThirtySecondsApart` | crates/ls-core/src/order_dedup.rs:208-227 | successful compare-exchanges move the sweep time forward by at least the interval each, in every interleaving |
| `OrderSafety.OnlyAcknowledgedIsCached` | crates/ls-core/src/inner.rs:633-651 | whatever is cached was stored by a call that had received an accepting acknowledgement with that very value: rejected and ambiguous outcomes never are |
| `OrderSafety.KillSwitchHalts` | crates/ls-core/src/inner.rs:587-595 | a call that starts while orders are disabled is refused, stays refused in every later state and leaves no dispatch in the history, whatever happens later |
| `OrderOutcome.SwitchedOffSendsNothing` | crates/ls-core/src/inner.rs:587-595 | a call that starts after orders were last switched off sends nothing at any later point of the run |
| `OrderOutcome.ReplyDecides` | crates/ls-core/src/inner.rs:325-470 | over every interleaving a call whose reply has come in ends with one result, in literal codes: a clean rejection exactly for IGW40011 on a failing status or an unlisted code on success; an order that may rest exactly for any other failing status, or success with no code or 00000; an acceptance exactly with one of the six acknowledgement codes and a readable body; a transport or decoding error otherwise |
| `OrderOutcome.OneAnswer` | crates/ls-core/src/inner.rs:325-470 | no reply leads to two results |
| `OrderOutcome.EveryEndIsCaused` | crates/ls-core/src/inner.rs:572-651 | over every interleaving each way a call ends has its cause: the kill switch at its start, a store of that value younger than the TTL at its lookup, another holder at its reservation, its caller, or the reply |
| `OrderOutcome.HitIffYoung` | crates/ls-core/src/order_dedup.rs:166-188 | a lookup is a hit, with the value stored last, exactly when that store is younger than the TTL |
| `OrderOutcome.RefusedIffHeld` | crates/ls-core/src/order_dedup.rs:121-138 | a reservation is refused exactly when another call holds the guard of the key |
| `OrderOutcome.EveryCallGoesOn` | crates/ls-core/src/inner.rs:572-651 | no call waits for another: in every run a call that is not over has an event of its own to take |
| `OrderSafety.InFlightNeverLive` | crates/ls-core/src/inner.rs:587-651 | with calls switched only at awaits, a key in flight has no live cache entry |
| `OrderRace.LookupAfterStore` | crates/ls-core/src/inner.rs:599-651 | over every interleaving: a sender that looks its order up after the order was cached sends only once the TTL has passed since the insertion |
| `OrderRace.LookupBeforeStore` | crates/ls-core/src/inner.rs:609-651 | over every interleaving: a sender that looked its order up before another call cached it is granted the reservation only after that store |
| `OrderRace.EarlySendRaces` | crates/ls-core/src/inner.rs:587-651 | over every interleaving, preempted anywhere: an order sent within the TTL of an earlier store was looked up before that store and granted its reservation after it |
| `OrderRace.SecondSendIff` | crates/ls-core/src/inner.rs:587-651 | after any run that ends with a store, some continuation sends the order again within the TTL exactly when, in the state of the store, its stamp is younger than the TTL and some call has missed its lookup of that order and not yet asked for the reservation |
| `OrderRace.AwaitsPreventRaces` | crates/ls-core/src/inner.rs:609-625 | with calls switched only at awaits, no store falls between a lookup and its reservation |
| `OrderRace.AtMostOncePerWindow` | crates/ls-core/src/inner.rs:587-651 | with calls switched only at awaits, after an accepted order was cached the same order is not dispatched again until the TTL has passed since the insertion |
| `OrderResend.EarlyResendMeans` | crates/ls-core/src/inner.rs:587-651 | with calls switched only at awaits, where one order is sent twice within the TTL the first call was over before the second send, its guard gone, and had stored nothing |
| `OrderResend.ResubmitSendsIff` | crates/ls-core/src/inner.rs:587-627 | after any run, the next call for an order, running alone, sends it exactly when orders are enabled, no call holds that order's guard, and the last store of the order, if any, is as old as the TTL |
| `OrderResend.AbandonedSendsTwice` | crates/ls-core/src/inner.rs:627-651 | such a run: a call abandoned while its order is on the wire, and the same order sent again at the same instant |
| `OrderPreemption.PreemptedLookupSendsTwice` | crates/ls-core/src/inner.rs:609-625 | the await boundary is necessary: a reachable run, preempted between a lookup and its reservation, dispatches one key twice within the TTL |
| `TickRules.ShippedLaddersWellFormed` | adapters/nautilus/src/rules.rs:198-238 | the three shipped ladders are well formed, and 1 is on their grid |
| `TickRules.ShippedTicks` | adapters/nautilus/src/rules.rs:198-269 | the tick at every price of every market and regime, a negative price having none |
| `TickRules.RoundDownIsGreatest` | adapters/nautilus/src/rules.rs:277-284 | on any well-formed ladder, rounding down yields the greatest price on the grid at or below the input, the grid judged by the result's own band |
| `TickRules.RoundUpIsLeast` | adapters/nautilus/src/rules.rs:298-311 | rounding up yields the least price on the grid at or above the input, and overflows exactly when no 64-bit price is |
| `TickRules.OneCorrectionSuffices` | adapters/nautilus/src/rules.rs:298-311 | the second correction, after the band is resolved again, never changes the value |
| `TickRules.RoundUpFits` | adapters/nautilus/src/rules.rs:298-311 | rounding up succeeds exactly up to the greatest 64-bit price on the grid |
| `TickRules.RoundDownMonotoneIdempotent` | adapters/nautilus/src/rules.rs:277-284 | rounding down keeps order, is idempotent and fixes prices on the grid |
| `TickRules.RoundUpMonotoneIdempotent` | adapters/nautilus/src/rules.rs:298-311 | rounding up keeps order, is idempotent and fixes prices on the grid |
| `TickRules.MarketableLimitPrices` | adapters/nautilus/src/rules.rs:355-411 | exactly when a price comes back (the source's own guards, and no overflow past the grid), the non-positive refusal never fires, and the price is on the grid, not above `upper` for a buy, not below `lower` for a sell, and inside a band with on-grid edges |
| `TickRules.MarketableLimitIs` | adapters/nautilus/src/rules.rs:380-411 | the price itself: from the last price moved k of its ticks, a sell going no lower than 1, a buy takes the least grid price at or above, cut to the band, and then the greatest grid price at or below; a sell is the mirror; a price inside the band stays |
| `TickRules.StepOnGridIsThePrice` | adapters/nautilus/src/rules.rs:380-411 | a step that lands on the grid and inside the band is the price |
| `TickRules.MarketableLimitCrosses` | adapters/nautilus/src/rules.rs:380-411 | a buy prices at or above the last price exactly when the band holds a grid price there, and a sell mirrors it |
| `TickRules.MarketableLimitMonotone` | adapters/nautilus/src/rules.rs:380-411 | a wider offset never lowers a buy and never raises a sell, across bands, clamping and saturation |
| `Projection.NewProjectionSet` | crates/ls-repository-engineering/src/generate.rs:40-66 | accepts exactly the sets within the limits, with valid distinct paths and no reserved one, and sorts them without losing or adding an artifact; otherwise the error is the first fault of the first artifact that has one |
| `Projection.ValidPathIff` | crates/ls-repository-engineering/src/generate.rs:348-375 | a path is valid exactly when it fits 1024 bytes, holds no control character, direction mark, backslash or colon, and every component is filled and ends in neither a dot nor a space; so no component is empty, `.` or `..` |
| `Projection.CheckArtifact` | crates/ls-repository-engineering/src/generate.rs:46-62 | one artifact passes exactly when it keeps the set acceptable |
| `Projection.OneFault` | crates/ls-repository-engineering/src/generate.rs:46-62 | an artifact with an error does not keep the set acceptable, and has that error only |
| `Projection.OutputRoot.ReplaceArtifacts` | crates/ls-repository-engineering/src/generate.rs:108-116 | replaces the artifacts in order up to the interruption or the first failure |
| `Projection.OutputRoot.ValidateOutput` | crates/ls-repository-engineering/src/generate.rs:273-302 | reports the first artifact whose parents or leaf are unsafe, and changes nothing |
| `Projection.OutputRoot.RemoveObsoleteArtifacts` | crates/ls-repository-engineering/src/generate.rs:220-271 | the tree and error after removing what the previous manifest lists and the new set does not |
| `ProjectionOutcome.RemovalSucceedsIff` | crates/ls-repository-engineering/src/generate.rs:220-271 | the removal succeeds exactly when the manifest on disk is absent or readable (8 MiB, version v0, ten thousand entries) and each entry is a valid path that the set keeps or that has a path of the set in its directory and only a file in its place; it then removes the entries the set does not keep and nothing else |
| `ProjectionOutcome.NamesOf` | crates/ls-repository-engineering/src/generate.rs:304-326 | the directory of `dir/name` is `dir`, and it is replaced through `dir/.name.repository-engineering.tmp` |
| `ProjectionOutcome.AncestorIff` | crates/ls-repository-engineering/src/generate.rs:279-292 | the directories above a path are the filled prefixes of it that a slash follows |
| `ProjectionSafety.ReplaceEffect` | crates/ls-repository-engineering/src/generate.rs:304-335 | a replacement succeeds exactly when each existing parent is a directory, the temporary is a file if there and the destination is no directory; it then leaves the file, the parents made on the way and no temporary, and nothing else changes |
| `Projection.OutputRoot.GenerateProjectionSet` | crates/ls-repository-engineering/src/generate.rs:100-121 | the tree and error after a generation interrupted at any point |
| `Projection.OutputRoot.CheckArtifacts` | crates/ls-repository-engineering/src/generate.rs:136-150 | one finding for each missing or stale artifact, in order |
| `Projection.OutputRoot.CheckExtras` | crates/ls-repository-engineering/src/generate.rs:160-178 | one finding for each manifest entry the set lacks |
| `Projection.OutputRoot.CheckProjectionSet` | crates/ls-repository-engineering/src/generate.rs:123-184 | the sorted report, cut at 256 findings |
| `ProjectionOutcome.FindingExact` | crates/ls-repository-engineering/src/generate.rs:123-180 | a check finds, under the source's own codes, an artifact without a file, one with other bytes, a manifest that does not describe the set, and a listed path the set lacks, and nothing else |
| `ProjectionOutcome.ReportedExact` | crates/ls-repository-engineering/src/generate.rs:181-183 | the report is the first 256 findings in order of path and then code |
| `ProjectionSafety.CheckSilentIff` | crates/ls-repository-engineering/src/generate.rs:123-184 | the check is silent exactly when every artifact and the manifest are on disk as expected |
| `ProjectionSafety.ReplaceAllEffect` | crates/ls-repository-engineering/src/generate.rs:108-119 | a run of replacements leaves at each path its last effect there: file, directory made on the way, or removed temporary |
| `ProjectionSafety.SuccessAncestorFree` | crates/ls-repository-engineering/src/generate.rs:108-119 | a run that succeeds has no path that is a directory above another |
| `ProjectionSafety.ReplayConverges` | crates/ls-repository-engineering/src/generate.rs:108-119 | starting over after any number of replacements ends in the same tree |
| `ProjectionRecovery.InterruptionsRecoverable` | crates/ls-repository-engineering/src/generate.rs:100-121 | every interruption can be finished by running again, ending in the very tree of one uninterrupted run, exactly when no temporary of the set and no obsolete path met again is a directory above an artifact |
| `ProjectionRecovery.RegenerationIsIdentity` | crates/ls-repository-engineering/src/generate.rs:100-121 | running again after completion changes nothing exactly when the manifest is within the size the next run reads, and no temporary is a directory above an artifact |
| `ProjectionRecovery.GeneratedIsUpToDate` | crates/ls-repository-engineering/src/generate.rs:100-184 | a generation that reports success is up to date exactly when no artifact is the temporary of a path replaced after it |
| `ProjectionRecovery.OtherFilesSurviveIff` | crates/ls-repository-engineering/src/generate.rs:220-335 | no obsolete file survives; an unlisted file survives exactly when it is not a temporary of a replaced path |
| `ProjectionRecovery.RemovalKeepsConsistent` | crates/ls-repository-engineering/src/generate.rs:241-269 | a crash among the removals leaves no expected manifest over mismatching artifacts |
| `ProjectionRecovery.ManifestNeverEarly` | crates/ls-repository-engineering/src/generate.rs:100-121 | from a consistent tree, after every replacement the new manifest is on disk only if all artifacts match, exactly under the stated naming condition |
| `ProjectionWitness.SelfClobberingSet` | crates/ls-repository-engineering/src/generate.rs:304-335 | an artifact named as another's temporary is deleted by a generation that reports success |
| `ProjectionWitness.SelfClobberingExists` | crates/ls-repository-engineering/src/generate.rs:304-335 | a concrete such set on an empty tree |
| `ProjectionWitness.UnrecoverableExists` | crates/ls-repository-engineering/src/generate.rs:304-335 | a set that generates on an empty tree and whose interruption no rerun can finish: one artifact lies below the other's temporary |
| `ProjectionWitness.RevisitedExists` | crates/ls-repository-engineering/src/generate.rs:241-269 | a tree and a set that generates on it, where the rerun is refused because an obsolete path has become a directory |
| `ProjectionWitness.RemovalCrashExists` | crates/ls-repository-engineering/src/generate.rs:220-271 | where the previous manifest lists itself first, a crash just after its removal leaves an obsolete file that the next run does not remove |
| `ProjectionWitness.OversizedManifestExists` | crates/ls-repository-engineering/src/generate.rs:220-239 | under any codec that spells paths out, a valid set of ten thousand artifacts generates without error and leaves a manifest too large for the next generation, which fails |
| `ProjectionWitness.TemporaryFileLost` | crates/ls-repository-engineering/src/generate.rs:320-334 | a file that no manifest lists is lost, being named as a temporary |
| `ProjectionCrash.TornCompatible` | crates/ls-repository-engineering/src/generate.rs:320-334 | a torn tree admits every replacement the tree before it did |
| `ProjectionCrash.RetryRemovals` | crates/ls-repository-engineering/src/generate.rs:220-271 | of a torn tree the retry removes the obsolete paths met again, of which at most the temporary is there |
| `ProjectionCrash.RemovalCrashHealsIff` | crates/ls-repository-engineering/src/generate.rs:220-271 | a crash among the removals is healed by running again exactly when it left the previous manifest in place, or every obsolete file it left is swept away as a temporary |
| `ProjectionCrash.RemovalCrashHeals` | crates/ls-repository-engineering/src/generate.rs:220-271 | after the manifest of any valid set, every crash among the removals is healed by running again |
| `ProjectionCrash.TornReplacementsHealIff` | crates/ls-repository-engineering/src/generate.rs:304-335 | every crash inside a replacement, between making parents and the rename and whatever part of the temporary was written, is healed by running again (the very tree of one uninterrupted run) exactly when no temporary and no obsolete path met again is a directory above a path to be replaced |
| `ProjectionCrash.AnyAttemptsHealIff` | crates/ls-repository-engineering/src/generate.rs:100-121 | under exactly that condition any number of runs, each stopped or crashed anywhere in its replacements, followed by one run to the end reach the tree of one uninterrupted run |
| `Framing.BigEndianRoundTrip` | adapters/nautilus/lab/fingerprint_core.rs:395-397 | big-endian bytes decode back to the number that fits their width |
| `Framing.FrameCancels` | adapters/nautilus/lab/fingerprint_core.rs:390-397 | the frame at the head of a stream, and what follows it, are determined by the stream |
| `Framing.Hasher.HashU64` | adapters/nautilus/lab/fingerprint_core.rs:395-397 | appends the 64-bit length to the preimage |
| `Framing.Hasher.HashFrame` | adapters/nautilus/lab/fingerprint_core.rs:390-393 | appends one frame to the preimage |
| `Framing.ConcatCancels` | adapters/nautilus/lab/fingerprint_core.rs:283-289 | concatenated prefix-free items are determined by their concatenation |
| `Framing.CountedCancels` | adapters/nautilus/lab/fingerprint_core.rs:282-289 | a counted list and what follows it are determined by the stream |
| `Framing.HashMember` | crates/ls-repository-engineering/src/inventory.rs:464-469 | appends path and bytes, each with its length |
| `Framing.HashArtifactSet` | crates/ls-repository-engineering/src/inventory.rs:457-469 | the preimage of an artifact set: domain, count, members |
| `Framing.ArtifactSetInjective` | crates/ls-repository-engineering/src/inventory.rs:457-469 | two artifact sequences share a preimage, or one followed by something, exactly when they are the same sequence |
| `SourceTree.CollectTreeNodes` | adapters/nautilus/lab/fingerprint_core.rs:299-343 | appends the tree's nodes depth first, and fails exactly on a symlink or special node below it |
| `FingerprintLayout.CollectFailsIff` | adapters/nautilus/lab/fingerprint_core.rs:299-343 | collecting a tree fails exactly when some path of it is a symbolic link or special node, at any depth |
| `SourceTree.CollectChildren` | adapters/nautilus/lab/fingerprint_core.rs:312-341 | the loop over one directory's sorted entries |
| `SourceTree.CollectLists` | adapters/nautilus/lab/fingerprint_core.rs:299-343 | the collection holds each directory and file of the tree once, at its path, whatever the read order |
| `SourceTree.CanonicalLists` | adapters/nautilus/lab/fingerprint_core.rs:274-281 | the sorted list holds exactly the tree's nodes, each once, in path order |
| `SourceTree.CanonicalIff` | adapters/nautilus/lab/fingerprint_core.rs:274-281 | two trees have one canonical list exactly when they hold the same directories and files with the same contents |
| `SourceTree.ReadOrderFree` | adapters/nautilus/lab/fingerprint_core.rs:312-313 | reading a directory in another order reads the same tree |
| `SourceTree.JoinInjective` | adapters/nautilus/lab/fingerprint_core.rs:370-381 | portable paths lose nothing |
| `Fingerprint.NormalizeRelative` | adapters/nautilus/lab/fingerprint_core.rs:345-368 | drops current-directory components, and fails exactly on an escaping one |
| `Fingerprint.NormalizeNormal` | adapters/nautilus/lab/fingerprint_core.rs:345-368 | a path of plain names normalizes to itself |
| `Fingerprint.ValidateInput` | adapters/nautilus/lab/fingerprint_core.rs:214-253 | the verdict on one input, given the labels and paths before it |
| `Fingerprint.FindOverlap` | adapters/nautilus/lab/fingerprint_core.rs:256-270 | finds an overlapping pair exactly when there is one |
| `Fingerprint.ValidateInventory` | adapters/nautilus/lab/fingerprint_core.rs:198-272 | accepts exactly the valid inventories, returning their normalized entries, and otherwise reports the first problem in order, overlaps last |
| `Fingerprint.ValidIffCoveredOnce` | adapters/nautilus/lab/fingerprint_core.rs:50-59 | among present, distinctly labelled inputs, an inventory is valid exactly when no relative path is covered by two entries |
| `FingerprintStream.HashNode` | adapters/nautilus/lab/fingerprint_core.rs:283-289 | appends one tree node: kind, path, and contents for a file |
| `FingerprintStream.HashNodes` | adapters/nautilus/lab/fingerprint_core.rs:282-289 | appends a counted node list, failing exactly on a path that is not UTF-8 |
| `FingerprintStream.HashTree` | adapters/nautilus/lab/fingerprint_core.rs:274-291 | appends the canonical list of the tree, failing exactly on a symlink, special node or path that is not UTF-8 |
| `FingerprintStream.HashEntry` | adapters/nautilus/lab/fingerprint_core.rs:124-136 | appends one entry's frames and body |
| `FingerprintStream.HashEntries` | adapters/nautilus/lab/fingerprint_core.rs:122-137 | appends the counted entries |
| `FingerprintStream.ComputeFromInventory` | adapters/nautilus/lab/fingerprint_core.rs:108-146 | succeeds exactly on a valid, readable inventory, having hashed the stream of its sorted records |
| `FingerprintStream.StreamInjective` | adapters/nautilus/lab/fingerprint_core.rs:120-137 | equal streams come from equal record lists |
| `FingerprintLayout.StreamHead` | adapters/nautilus/lab/fingerprint_core.rs:117-122 | the stream starts with the version text and the number of entries, each as eight bytes, big-endian, and text |
| `FingerprintLayout.DomainText` | adapters/nautilus/lab/fingerprint_core.rs:118-118 | the version text, character by character |
| `FingerprintLayout.FileLayout` | adapters/nautilus/lab/fingerprint_core.rs:122-133 | a declared file is five frames: `input`, `file`, label, path and contents |
| `FingerprintLayout.TreeLayout` | adapters/nautilus/lab/fingerprint_core.rs:122-136 | a declared tree is four frames, the number of its nodes, and the nodes |
| `FingerprintLayout.NodeLayout` | adapters/nautilus/lab/fingerprint_core.rs:283-289 | a directory of a tree is two frames, a file three |
| `FingerprintLayout.LabelsAscend` | adapters/nautilus/lab/fingerprint_core.rs:112-118 | the entries of a valid inventory are hashed in strictly ascending order of their labels, compared byte by byte |
| `FingerprintLayout.NodesAscend` | adapters/nautilus/lab/fingerprint_core.rs:277-281 | the nodes of a tree are hashed in strictly ascending order of their paths, compared component by component, an enclosing directory first |
| `FingerprintStream.FingerprintIff` | adapters/nautilus/lab/fingerprint_core.rs:108-146 | two fingerprintable inventories have one stream exactly when they declare the same (kind, label, path) entries over the same files and trees: injective, and free of input and directory order |
| `FingerprintStream.WalksDisjoint` | adapters/nautilus/lab/fingerprint_core.rs:178-187 | two entries of a valid inventory walk no common path |
| `FingerprintStream.EntryNodes` | adapters/nautilus/lab/fingerprint_core.rs:179-186 | the nodes one entry watches |
| `FingerprintStream.WatchPaths` | adapters/nautilus/lab/fingerprint_core.rs:172-190 | the watches are exactly the files and directories the digest reads, each once, in path order |
| `Preflight.FieldVerdict` | crates/ls-core/src/preflight.rs:255-360 | a field passes exactly when its declared rules hold, and the reason given names a rule that is broken |
| `Preflight.ValidationExact` | crates/ls-core/src/preflight.rs:242-393 | accepts exactly the requests satisfying every declared rule, and otherwise blames the first broken one: fields in order, then cross-field rules |
| `Preflight.ScalarIff` | crates/ls-core/src/preflight.rs:219-240 | a field reads as a text exactly when it holds it as a string or as a number written so, and is filled in exactly when that text is not empty |
| `Preflight.NumbersReadAsText` | crates/ls-core/src/preflight.rs:219-393 | under every schema a number gets the verdict and error of the string it is written as |
| `Preflight.MissingIff` | crates/ls-core/src/preflight.rs:255-262 | a required field is missing exactly when it is absent, neither text nor number, or empty |
| `Preflight.Shapes` | crates/ls-core/src/preflight.rs:336-360 | a date is eight digits, a symbol some alphanumeric characters |
| `Preflight.RelaxingOnlyAdmits` | crates/ls-core/src/preflight.rs:305-384 | clearing any confirmed flag only enlarges the accepted set |
| `Preflight.FacetsIrrelevant` | crates/ls-core/src/preflight.rs:242-393 | the probe-only facets never change the verdict nor the error |
| `PreflightVariants.PushClass` | crates/ls-core/src/preflight.rs:427-479 | pushes the variant of one class of a field, if declared |
| `PreflightVariants.GenerateInvalidVariants` | crates/ls-core/src/preflight.rs:414-494 | one variant for each declared (field, class) and rule, in order, and nothing else |
| `VariantsOutcome.VariantIff` | crates/ls-core/src/preflight.rs:414-494 | the variants are exactly: for each class a field declares, the seed with that class's own text at the field (`not-a-number`, nothing, the joined values with `__invalid`, the number past the bound, `!!bad!!`, `notadate` or `??`), and for each rule, the seed with 99991231 at its start and 00010101 at its end |
| `PreflightVariants.VariantsDetermined` | crates/ls-core/src/preflight.rs:409-413 | generation is deterministic: schema and seed fix the list |
| `PreflightVariants.DiffersOnlyThere` | crates/ls-core/src/preflight.rs:419-425 | a variant differs from an object seed at the named keys only: there it holds text, and every other field keeps its whole value |
| `PreflightVariants.EnumTextOutside` | crates/ls-core/src/preflight.rs:444-447 | the enum violation is outside the declared set, whatever the set |
| `PreflightVariants.ViolationIff` | crates/ls-core/src/preflight.rs:414-494 | a variant breaks the constraint it came from exactly when that constraint bites: the bound separates under rounding, the format names a kind, the rule names two fields |
| `PreflightVariants.VariantRejectedIff` | crates/ls-core/src/preflight.rs:242-494 | a variant passes exactly when its own constraint does not bite, or is not confirmed, and the schema without that constraint accepts the request |
| `VariantsOutcome.WithoutIs` | crates/ls-core/src/preflight.rs:50-190 | taking a constraint out clears that facet of that field, or leaves that rule unconfirmed, and changes nothing else |
| `PreflightVariants.VariantOfAcceptedSeedIff` | crates/ls-core/src/preflight.rs:242-494 | for an accepted seed, the remaining fields and rules that matter are exactly those reading a key the variant writes |
| `PreflightVariants.EveryVariantRejected` | crates/ls-core/src/preflight.rs:242-494 | a generated variant that violates some constraint that is confirmed and bites is rejected, whatever the other constraints are |
| `PreflightVariants.ErrorNamesTheField` | crates/ls-core/src/preflight.rs:242-494 | for an accepted seed, the error of a field's variant names exactly that field |
| `PreflightVariants.ErrorNamesThePair` | crates/ls-core/src/preflight.rs:362-494 | for an accepted seed, the error of a rule's variant blames the first broken field, which the variant writes, or else the first broken rule, which reads a key the variant writes and comes no later than its own |
| `PreflightVariants.ErrorNamesOwnPairIff` | crates/ls-core/src/preflight.rs:362-494 | it names the rule's own pair exactly when no field the variant writes is broken and no earlier rule of another name is broken before one of the same name |
| `PreflightVariants.AnotherPairNamed` | crates/ls-core/src/preflight.rs:362-494 | of two rules that share a field, the variant of the second is reported under the pair of the first |
| `PreflightVariants.SmallBoundsSeparate` | crates/ls-core/src/preflight.rs:452-457 | every bound up to 2^53 separates |
| `PreflightVariants.BoundsInclusive` | crates/ls-core/src/preflight.rs:315-335 | bounds are inclusive: an integer is out of range exactly below the minimum or above the maximum, up to 2^53 |
| `PreflightVariants.WordsInRange` | crates/ls-core/src/preflight.rs:315-335 | a text reading as no number is in every range, one reading as an infinity beyond every finite bound |
| `Numerals.ParseI64Iff` | crates/ls-core/src/preflight.rs:279-285 | a text is an integer exactly when digits, alone or after a sign, denote one within 64 bits |
| `Numerals.PointValue` | crates/ls-core/src/preflight.rs:287-292 | a decimal point divides by ten for each digit after it |
| `Numerals.ExponentValue` | crates/ls-core/src/preflight.rs:287-292 | an exponent scales by its power of ten |
| `PreflightVariants.NoBoundNeverSeparates` | crates/ls-core/src/preflight.rs:456-456 | a range rule without bounds never rejects its variant |
| `PreflightVariants.RangeVariantRejectedIff` | crates/ls-core/src/preflight.rs:315-360 | for a field of any type, also with an enum or a format, the range variant passes exactly when the bound does not separate, or is not confirmed, and the text written is an allowed value of the right shape |
| `PreflightVariants.LargeBoundPasses` | crates/ls-core/src/preflight.rs:452-464 | where 2^53 + 1 rounds to 2^53, the variant of `min = 2^53 + 1` passes validation |
| `PreflightVariants.UnboundedRangePasses` | crates/ls-core/src/preflight.rs:452-464 | the variant of a range rule without bounds passes validation |
| `PreflightVariants.KindlessFormatPasses` | crates/ls-core/src/preflight.rs:466-479 | the variant of a format rule that names no kind passes validation |
| `PreflightVariants.SelfOrderPasses` | crates/ls-core/src/preflight.rs:481-494 | the variant of a date order that names one field twice passes validation |
| `Auth.Lifetime` | crates/ls-core/src/auth.rs:197-207 | a lifetime is positive, or the response fails closed: exactly where the reply names one that is not a positive number |
| `Auth.FetchOutcome` | crates/ls-core/src/auth.rs:156-217 | a token comes back exactly from an enveloped reply with an accepted code, a body, and no lifetime or a positive one; it is the body's token and expires in the future, by that lifetime or a day |
| `Auth.TokenManager.constructor` | crates/ls-core/src/auth.rs:62-66 | starts empty |
| `Auth.TokenManager.FastPath` | crates/ls-core/src/auth.rs:85-93 | hands out the cached token exactly when it has more than five minutes left |
| `Auth.TokenManager.SlowPath` | crates/ls-core/src/auth.rs:95-109 | fetches exactly when the re-check finds nothing usable; a failed fetch leaves the cache as it was |
| `Auth.TokenManager.Clear` | crates/ls-core/src/auth.rs:112-115 | empties the cache |
| `Auth.TokenManager.SeedToken` | crates/ls-core/src/auth.rs:128-131 | holds exactly the seeded token |
| `Auth.TokenManager.SnapshotToken` | crates/ls-core/src/auth.rs:135-138 | the cached token, however old |
| `AuthProtocol.OneFetchAtATime` | crates/ls-core/src/auth.rs:95-109 | over every interleaving at most one task is charging, fetching or storing, and no reader is inside |
| `AuthProtocol.LockReleased` | crates/ls-core/src/auth.rs:79-131 | once all tasks are done, cancelled ones included, nobody holds the lock |
| `AuthProtocol.SomeTaskGoesOn` | crates/ls-core/src/auth.rs:79-131 | no deadlock: in every run, until all tasks are done one of them can go on |
| `AuthProtocol.OnlyTheWriterChangesTheCache` | crates/ls-core/src/auth.rs:79-131 | the cache changes only when the one writer stores, clears or seeds: a failed or cancelled fetch leaves it unchanged |
| `AuthProtocol.NoEarlyRefetch` | crates/ls-core/src/auth.rs:79-109 | after a token is stored no fetch starts until five minutes before its expiry, unless the cache is cleared or reseeded |
| `AuthProtocol.ServedTokensAreFresh` | crates/ls-core/src/auth.rs:85-103 | a token served from the cache is the last one stored or seeded and has more than five minutes left |
| `AuthOutcome.EveryOutcomeIsCaused` | crates/ls-core/src/auth.rs:79-138 | over every interleaving a task gets a token only if that token was cached with more than five minutes left when it read, or came with its own fetch; it fails only on a reply without a usable token, and a snapshot shows what was cached |
| `AuthOutcome.ServedIffFresh` | crates/ls-core/src/auth.rs:79-103 | a task that reads the cache, first or again under the write lock, is served exactly a token with more than five minutes left |
| `AuthOutcome.StoresItsFetch` | crates/ls-core/src/auth.rs:95-109 | what a task stores is the token and lifetime its own fetch brought |
| `Holdings.RepeatNeverEnds` | adapters/nautilus/src/execution.rs:352-358 | a repeated cursor means the chain never ends |
| `Holdings.ChainStops` | adapters/nautilus/src/execution.rs:342-361 | a chain that ends or fails at a page reads no later one |
| `Holdings.TrimExact` | adapters/nautilus/src/execution.rs:352-358 | trimming removes exactly the white space at both ends |
| `Holdings.CollectHoldings` | adapters/nautilus/src/execution.rs:337-366 | succeeds exactly when the chain ends within 20 pages, with every page's rows in order; fails with a read error exactly when a page within the limit fails; a cursor is refused exactly on a repeat within the limit, and then the chain never ends |
| `Book.ReportNext` | adapters/nautilus/src/execution.rs:473-483 | adding a row keeps every reported total the 64-bit value of the true one, with a symbol present exactly when something positive is held |
| `Book.HeldQuantities` | adapters/nautilus/src/execution.rs:470-492 | fails exactly on unparseable balances, listing them; otherwise each held symbol with its 64-bit total |
| `Book.Subtract` | adapters/nautilus/src/execution.rs:398-410 | splits symbols into missing, differing and extra |
| `Book.CompareBook` | adapters/nautilus/src/execution.rs:395-439 | accepts exactly the matching books, and otherwise names exactly the symbols at fault |
| `Book.MatchesForgetsOrder` | adapters/nautilus/src/execution.rs:470-492 | the verdict does not depend on row order |
| `Book.ComparisonIsExactIff` | adapters/nautilus/src/execution.rs:395-492 | the comparison means equal totals, for every expected book, exactly when the rows do not mask a 64-bit overflow |
| `Book.SmallTotalsAreExact` | adapters/nautilus/src/execution.rs:395-492 | totals within 64 bits are compared exactly |
| `Book.OverflowPassesForFive` | adapters/nautilus/src/execution.rs:470-478 | rows whose total wraps to 5 pass for a holding of 5 |
| `Book.FromPairsExact` | adapters/nautilus/src/execution.rs:278-290 | the book holds, per trimmed symbol, the last positive pair |
| `Book.FromPairsProper` | adapters/nautilus/src/execution.rs:278-290 | an expected book has positive quantities only |
| `Book.CountRestingZeroIff` | adapters/nautilus/src/execution.rs:244-250 | no order counts as open exactly when each remaining quantity is a number that is not positive |
| `Book.CountRestingExact` | adapters/nautilus/src/execution.rs:244-250 | the number of open orders is that of the places whose remaining quantity is not a number at or below zero |
| `Book.VerifyBook` | adapters/nautilus/src/execution.rs:506-515 | succeeds exactly on an untruncated order page with nothing resting and a fully enumerated matching book, and hands back the expected book itself; a failed read, a continued page and the number of open orders are reported in that order |
| `Book.FlatIsTheEmptyBook` | adapters/nautilus/src/execution.rs:376-378 | the flat check is the empty book: every balance parses and none is positive |
| `Teardown.OrderDispatchTasks.constructor` | adapters/nautilus/src/execution.rs:169-173 | tracks nothing |
| `Teardown.OrderDispatchTasks.Track` | adapters/nautilus/src/execution.rs:175-179 | keeps the unfinished handles and the new one |
| `Teardown.OrderDispatchTasks.Pending` | adapters/nautilus/src/execution.rs:182-185 | the number of unfinished handles |
| `Teardown.OrderDispatchTasks.Quiesce` | adapters/nautilus/src/execution.rs:191-217 | takes every handle; each is counted drained or aborted, and exactly the late ones are aborted |
| `Teardown.CancelQuantity` | adapters/nautilus/src/execution.rs:635-641 | some positive quantity is always sent: the remaining one when it is readable, else the ordered one when that is positive, else one |
| `Teardown.TargetsExact` | adapters/nautilus/src/execution.rs:629-648 | exactly the rows that may rest are cancelled, each by its order number, its symbol with the market letter, and its quantity |
| `Teardown.CancelOne` | adapters/nautilus/src/execution.rs:651-680 | settled exactly when one of three attempts is acknowledged or rejected on its merits; attempts end at the first of these |
| `Teardown.CancelAllResting` | adapters/nautilus/src/execution.rs:613-692 | succeeds exactly on an untruncated page of whose resting orders each has one of three cancels acknowledged or rejected on its merits, counting those first acknowledged; otherwise names the first that has none |
| `TeardownProtocol.EarlyAreTheTracked` | adapters/nautilus/src/execution.rs:191-195 | the early tasks are those tracked when the handles are taken |
| `TeardownProtocol.TrackKeepsTheRunning` | adapters/nautilus/src/execution.rs:175-179 | tracking a task keeps the handles of those still running, drops the others and adds its own |
| `TeardownProtocol.NoDispatchAfterQuiesce` | adapters/nautilus/src/execution.rs:191-217 | in every run, after the quiesce returns no task tracked before it dispatches |
| `TeardownProtocol.AcksAreCounted` | adapters/nautilus/src/execution.rs:650-662 | the count is that of acknowledged cancel attempts |
| `TeardownProtocol.GivesUpAfterThree` | adapters/nautilus/src/execution.rs:658-694 | a teardown that gives up on an order has sent it three cancels, the last three of all, none acknowledged or rejected on its merits; the recorded attempts are the cancels sent |
| `TeardownProtocol.NeverStuck` | adapters/nautilus/src/execution.rs:1008-1011 | until it is over a teardown has a step of its own to take |
| `TeardownProtocol.ReportedCleanIsClean` | adapters/nautilus/src/execution.rs:1008-1011 | where the teardown reports success no early task's order rests, then or later; the number is that of acknowledged cancels; and no target took more than three attempts |
| `Reconcile.DiscoveredExact` | crates/ls-repository-engineering/src/inventory.rs:568-581 | the discovered map holds exactly the obligations' identifiers, each with an obligation that bears it |
| `Reconcile.NoDuplicateFindingIff` | crates/ls-repository-engineering/src/inventory.rs:568-581 | no identifier is reported as repeated exactly when the obligations' identifiers are distinct |
| `Reconcile.NoRowFindingIff` | crates/ls-repository-engineering/src/inventory.rs:582-664 | a row is without findings exactly when its identifier is new, also in ASCII lower case, it has its obligation's kind, locator and digest, legacy authority, and one of the two legal states spelled out |
| `Reconcile.RowFindingExact` | crates/ls-repository-engineering/src/inventory.rs:582-664 | which finding a row earns for what, an unported, a planned and a later state each its own |
| `Reconcile.FoldSame` | crates/ls-repository-engineering/src/inventory.rs:590-600 | two identifiers collide exactly when they differ at most in the case of ASCII letters |
| `Reconcile.MissingIff` | crates/ls-repository-engineering/src/inventory.rs:667-676 | no identifier is reported missing exactly when every obligation has a row |
| `Reconcile.ReconcileInventory` | crates/ls-repository-engineering/src/inventory.rs:562-692 | the whole report, empty exactly when ledger and inventory are reconciled |
| `Reconcile.NoFindingIff` | crates/ls-repository-engineering/src/inventory.rs:562-692 | no finding exactly when rows and obligations match by identifier with equal sources, row identifiers are distinct even in ASCII lower case, rows have legacy authority and a legal state, and no path is unclassified |
| `Reconcile.ReconciledIsABijection` | crates/ls-repository-engineering/src/inventory.rs:562-692 | a reconciled ledger lists the inventory's identifiers, each once |
| `Reconcile.ReportShape` | crates/ls-repository-engineering/src/inventory.rs:677-692 | a report is sorted and bounded, and complete below the bound |
| `Reconcile.ReportOrder` | crates/ls-repository-engineering/src/inventory.rs:689-692 | findings without a row come first, the others by identifier, those of one identifier by field, code and remediation |
| `Scrub.RunIsSensitive` | adapters/nautilus/src/scrub.rs:43-56 | true exactly for six consecutive digits or twenty alphanumeric characters |
| `Scrub.SensitiveIff` | adapters/nautilus/src/scrub.rs:43-56 | a token is sensitive exactly with six digits in a row or at least twenty letters and digits |
| `Scrub.ScrubSecrets` | adapters/nautilus/src/scrub.rs:18-39 | masks every maximal sensitive token and keeps everything else |
| `Scrub.NoSensitiveToken` | adapters/nautilus/src/scrub.rs:11-39 | no maximal token of a scrubbed text is sensitive |
| `Scrub.NoSixDigits` | adapters/nautilus/src/scrub.rs:11-39 | no six consecutive digits survive |
| `Scrub.NothingSurvives` | adapters/nautilus/src/scrub.rs:11-39 | of a scrubbed text every whole token has fewer than twenty letters and digits and nowhere six digits in a row |
| `Scrub.CleanKept` | adapters/nautilus/src/scrub.rs:11-39 | a text without sensitive tokens is unchanged |
| `Scrub.SeparatorsSplit` | adapters/nautilus/src/scrub.rs:30-37 | text is scrubbed piecewise around separators, which are kept |
| `Scrub.TokensWhole` | adapters/nautilus/src/scrub.rs:21-28 | a token is kept whole, or is replaced by three asterisks if it is sensitive |
| `Scrub.Idempotent` | adapters/nautilus/src/scrub.rs:18-39 | scrubbing twice scrubs once |

## Left out

- HTTP, WebSocket, tokio scheduling, tracing, git and the operating system: their answers are parameters or arbitrary events, and rate-limiter waits are delays.
- SHA-256: the theorems are about the byte streams that are hashed.
- JSON, YAML and TOML codecs: a manifest codec is any function pair whose decoding undoes its encoding; a JSON number is its text.
- Floating-point rounding is a parameter, exact on integers up to 2^53; Unicode alphanumeric is a parameter not containing `!`; UTF-8 validity is a parameter.
- Lengths written in 64 bits are assumed to fit, where the injectivity theorems say so.
- Order keys are opaque: how `OrderDeduplicator::key` derives them is not modelled.
- OrderSafety.CacheRefinesNeverEvicting: a sweep is any sequence of single-entry visits, which covers every order a concurrent map may visit its entries in.
- Projection.OutputRoot.GenerateProjectionSet: I/O errors of single file operations are not modelled; the output root itself is taken to be a real directory; a symbolic link above the immediate parent is refused here as unsafe, which output validation already does for artifacts.
- Fingerprint.ValidateInventory: a symbolic link on the way to a declared input is treated as absent; the operating system would follow it.
- FingerprintStream.ComputeFromInventory: the tree does not change while it is read.
- AuthProtocol.NoEarlyRefetch: the wall clock is taken to be monotone, and lifetimes large enough to overflow the date type are not modelled.
- TeardownProtocol.ReportedCleanIsClean: an aborted task is taken to be stopped when the quiesce returns, a dispatched order to be visible to a later complete inquiry, and an acknowledged or rejected cancel to leave nothing resting, as the source's own comments do.
- Book.CompareBook: the error text is not modelled, only the symbols it names.
- Reconcile.ReconcileInventory: the ledger's own path, the same in every finding, is left out of findings.
- Debug builds panic where release builds wrap; the wrap is modelled, except that a tick rounding past the 64-bit prices is an error of its own where a release build reports a missing band.
- Pagination (`collect_all`), the retry loop of reads, and the classification of read responses: easy beside the order path.
- lock.rs: exclusion of ingest and live sessions holds only if acquiring is taken to be atomic.
- The fill ledger, order chains, the poll drive and the error classifier of the adapter; the digest of source text, whose separator makes it ambiguous; identity schemas; planners, freshness, guards and document rendering, which would add easy members.
