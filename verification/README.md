# Foresift: protocols, codecs and aggregations, in Dafny

Foresift is fail-closed governance over database tables. This project models the parts of it whose
correctness spans many calls and proves what every run of them keeps. Each transaction is one atomic
step on tables; steps of several callers interleave; a caller that reads before its transaction reads
an earlier state of the same trace. `dafny verify dfyconfig.toml` checks everything.

| files | what they model |
|---|---|
| `ModuleRegistry`, `RegistryHistory`, `RegistryCases`, `RegistryEngine` | the append-only lifecycle chain per module and exact scope, its activation guards, containment and rollback |
| `RegistryEntry`, `RegistryOutcomes`, `RegistryReach` | when each registry write commits and what it leaves, on rows and inputs, and a trace into ACTIVE |
| `GateEvidence`, `ActivationLaws` | the total activation gate, its recorded evidence and the guard over it; what each kind demands, in terms of the evidence |
| `ShadowSafe` | in-place stable insertion sorts and de-duplication |
| `Quota`, `QuotaCharges`, `QuotaSessions` | the reserve, commit and release ledger over general pools and protected reserves |
| `Watermark`, `Fencing` | lease tokens, fenced partition and watermark writes, contiguous advance |
| `AlertUpdates`, `Fingerprints`, `Classification` | idempotent alert updates with a cooldown ledger, identity preimages, gate-checked classification |
| `ChainAccess`, `ChainAccessLaws`, `ChainAccessTraces` | declared bounds, consumption and tightening incidents, serial and interleaved |
| `Radix`, `Base58`, `Keccak` | Solana address decoding and the Keccak-256 sponge |
| `CanonicalJson`, `BatchCoalescer` | canonical batch keys and coalescing |
| `UniverseOverlap` | grouped overlap and yield counters against set definitions |
| `Backfill` | bounded gap tiling |

Code made of expressions is modelled by functions. Code that works by changing things is modelled by
methods with loops, arrays and classes, each proved against those functions; the laws are lemmas about
the functions and about traces of them. For every main operation one lemma says, on inputs and rows and
without the operation's own helpers, exactly when it succeeds, and another exactly what it writes.

## What the code does not keep

Each of these is the code as it stands, with a lemma that shows the failing input and one that says
exactly when the intended law holds.

- Two callers that both read an empty scope both insert a first state row, and the scope has two heads
  for ever after (`FirstRowRace`; `LinearIffNeverForked`). The head is read before the transaction.
- Containing a scope that is already DISABLED with a DISABLED action is refused and records no
  containment (`DisabledContainmentIsLost`; `ContainmentRefusedIff`), and a milder gate failure moves a
  DISABLED scope to a weaker stop (`DisabledContainmentRelaxes`; `ContainmentWeakensIff`). The comments
  promise that containment never de-escalates.
- An `estimate` between `admit` and `reserve` erases the admitted window, and the reservation holds no
  quota (`EstimateForgetsTheWindow`; `MeteredIffLastAdmitted`).
- Reserve routing by operation name and the table constraint disagree
  (`InteractiveAlertIsNeverReserved`; `AdmittedReserveCommitsIff`).
- Overlap keys join two source ids with `|`, and ids that contain it share keys (`SeparatorCollision`;
  `OverlapAgreesIff`). Watermark keys join three names with `:` (`ColonMoves`; `ShareRowIff`).
- `canonical([undefined])` is `canonical([])`, and `canonical(NaN)` is `canonical(null)`
  (`LoneUndefinedVanishes`, `NonFiniteIsNull`; `CanonicalIff`).
- The cooldown check reads milliseconds and the ledger guard microseconds, so a zero-cooldown update
  can meet the stale-ledger refusal (`StaleIsReachable`; `StaleIff`).
- A tolerance breach tightens nothing without an explicit forecast, under a clock behind the last
  incident, or under a known incident id (`UnforecastBreachTightensNothing`,
  `LateClockBreachTightensNothing`; `BreachTightensIff`).
- Consumption is recorded outside a transaction. Interleaved records can exceed the declaration
  (`StaleReadsOverrun`; `TotalsWithinIff`) and loosen bounds that others tightened (`StaleReadLoosens`;
  `NeverLooserIff`). Records that do not overlap do neither (`UndisturbedRunsStayWithin`,
  `UndisturbedNeverLoosens`).

## Reading of the source

- Texts are sequences of characters compared by character code, where the code compares UTF-16 code
  units; the two orders differ only between characters above and just below the surrogate range, and the
  laws use no more than that the order is total. Hashes (`sha256Text`, content
  addresses) are arbitrary functions; where an order-independence law needs it, the lemma says that
  scope hashes are injective or digests non-empty. Time is an integer.
- The lifecycle table and the canonical gate order are those of `packages/domain/src/prod.ts`. Table
  constraints of the migrations are modelled where they decide an outcome; triggers of the state tables,
  which read the database clock, are a boolean that can only refuse more.
- Amounts of quota, consumption ratios and the product behind the safe batch size are reals, where the
  code rounds floating-point numbers. The two inserts of a consumption record, the row and its incident,
  are one step. Fencing tokens come from one sequence other code
  may draw from as well. A gate result is whatever a caller presents; its provenance brand is not needed
  for any law here.

## Model

| member | source | states |
|---|---|---|
| `ModuleRegistry.Head` | `packages/capability-registry/src/module-states.ts:352-388` | the head a scope read returns is an unsuperseded row of exactly that module and scope; none is returned only if every row of the scope is superseded |
| `ModuleRegistry.StepShape` | `packages/capability-registry/src/module-states.ts:740-1003` | every committed step of any kind is either one guarded row insert, with its pointer and its log entry, or leaves states and transitions alone |
| `ModuleRegistry.HistoryPreserved` | `packages/capability-registry/src/module-states.ts:942-1003` | over any stretch of any interleaved trace no row, log entry, rollback or evaluation is rewritten or removed; only empty supersede pointers get set, once |
| `ModuleRegistry.AppendKeepsChain` | `packages/capability-registry/src/module-states.ts:942-1003` | an insert keeps: unique ids, one log entry per row, every pointer leads to a later row of the same scope whose log names the true predecessor state by a legal edge, no shared successor, and exactly the rows logged from NOT_IMPLEMENTED have no predecessor |
| `ModuleRegistry.AppendKeepsLaws` | `packages/capability-registry/src/module-states.ts:755-941` | an insert keeps: PROVEN and ACTIVE rows follow an AVAILABLE row, ACTIVE rows on requires-proven scopes follow a PROVEN row, no activation event backs two ACTIVE rows of a scope |
| `ModuleRegistry.AcceptedClaimsAvailable` | `packages/capability-registry/src/activation-gate.ts:1392-1582` | an evidence batch the guard accepts always holds a PASS for the AVAILABLE gate, so the dimension cross-check can never be skipped |
| `ModuleRegistry.GuardedEntry` | `packages/capability-registry/src/module-states.ts:755-941` | whatever claim a caller brings, entering PROVEN or ACTIVE needs the AVAILABLE dimension, and ACTIVE an uncontained scope, a fresh non-blank event and, if asked, PROVEN |
| `ModuleRegistry.ReachableIsLawful` | `packages/capability-registry/src/module-states.ts:552-1003` | the chain invariant and the activation laws hold in every state of every trace of advance, contain, clear, rollback and record steps by any number of callers reading stale heads |
| `RegistryHistory.FirstEstablishedIsAvailable` | `packages/capability-registry/src/module-states.ts:755-815` | in every trace the first row of a scope that is AVAILABLE, PROVEN or ACTIVE is AVAILABLE |
| `RegistryHistory.ActiveRowsAreEarned` | `packages/capability-registry/src/module-states.ts:820-941` | in every trace an ACTIVE row on a requires-proven scope has an earlier PROVEN row, and its event backs no other ACTIVE row of the scope |
| `RegistryHistory.NoActivationWhileContained` | `packages/capability-registry/src/module-states.ts:820-941` | no step of any trace inserts an ACTIVE row while a containment on its exact scope is open |
| `RegistryHistory.ContainedUntilCleared` | `packages/capability-registry/src/containment.ts:465-512` | once contained, a scope stays contained and gains no ACTIVE row until some step clears a containment, through any other steps |
| `RegistryHistory.OneSuccessorPerHead` | `packages/capability-registry/src/module-states.ts:964-981` | of all steps of a trace that read the same head at most one commits |
| `RegistryHistory.LinearUntilForked` | `packages/capability-registry/src/module-states.ts:580-602` | while no step forks it, the rows of a scope are one linear chain in commit order with exactly one head |
| `RegistryHistory.ForkIsForever` | `packages/capability-registry/src/module-states.ts:942-988` | after a fork the scope is never one linear chain again |
| `RegistryHistory.LinearIffNeverForked` | `packages/capability-registry/src/module-states.ts:580-602` | the chain law exactly: linear with one head if and only if no committed advance that read an empty scope found rows there when it wrote |
| `RegistryHistory.FreshReadsNeverFork` | `packages/capability-registry/src/containment.ts:372-426` | steps that read the head in their own transaction, as containment does, never fork a scope |
| `RegistryCases.FirstRowRace` | `packages/capability-registry/src/module-states.ts:580-602` | two callers that both read an empty scope both commit a root: the promised single chain fails |
| `RegistryHistory.ContainmentRefusedIff` | `packages/capability-registry/src/containment.ts:366-426` | a containment of a governed scope is refused exactly when the scope is already DISABLED and DISABLED is asked for; then no containment row exists either |
| `RegistryHistory.ContainmentWeakensIff` | `packages/capability-registry/src/containment.ts:372-400` | a committed containment leaves a weaker state than before exactly when the asked action is weaker than the stop in force |
| `RegistryHistory.EscalateIsMaximum` | `packages/capability-registry/src/containment.ts:106-112` | escalation is the maximum of two actions, commutative and never weaker than either |
| `RegistryEngine.CurrentStateRow` | `packages/capability-registry/src/module-states.ts:352-388` | the numeric walk over the ordered scope read returns the newest unsuperseded row |
| `RegistryEngine.StatesFor` | `packages/capability-registry/src/module-states.ts:409-460` | the three dimensions are established by history alone; a scope without rows is NOT_IMPLEMENTED with all three false |
| `RegistryEngine.Engine.SetPointer` | `packages/capability-registry/src/module-states.ts:966-976` | the guarded update sets one empty pointer or changes nothing |
| `RegistryEngine.Engine.AdvanceWith` | `packages/capability-registry/src/module-states.ts:740-1003` | the in-place transaction does what the specification says, and a refusal after the insert restores every table |
| `RegistryEngine.Engine.AdvanceState` | `packages/capability-registry/src/module-states.ts:552-1003` | checks on the caller's own earlier read, then the transaction; refusals leave all tables as they were |
| `RegistryEngine.Engine.ContainForFailedGate` | `packages/capability-registry/src/containment.ts:340-446` | head read, containment row and governed advance in one transaction; a refused advance takes the containment row back |
| `RegistryEngine.Engine.RollbackToApproved` | `packages/capability-registry/src/containment.ts:591-750` | restores only an artifact set that was ACTIVE under the named event, refuses under an open containment, lands in PAUSED or DISABLED |
| `RegistryEngine.Engine.ClearContainment` | `packages/capability-registry/src/containment.ts:468-500` | sets the clearing pointer of one open containment or refuses |
| `RegistryEngine.SmallestAffectedScope` | `packages/capability-registry/src/containment.ts:147-195` | the winner is a candidate no candidate is preferred to, hence of maximal specificity; none only for an empty list |
| `RegistryEngine.TargetForgetsOrder` | `packages/capability-registry/src/containment.ts:148-152` | the contained scope does not depend on the order of the candidates |
| `RegistryHistory.ContainmentRecordsApplied` | `packages/capability-registry/src/containment.ts:376-426` | a committed containment records exactly the state the scope moved to, never milder than the gate's own action |
| `RegistryHistory.RollbackRestoresApproved` | `packages/capability-registry/src/containment.ts:591-750` | a committed rollback restores an artifact set that was ACTIVE under the named event, on an uncontained scope, under the new event, and lands in PAUSED or DISABLED |
| `RegistryHistory.RollbackEventsAreNew` | `packages/capability-registry/src/containment.ts:711-730` | in every trace no activation event is introduced by two rollbacks |
| `RegistryHistory.RefusalBindsEveryLaterStep` | `packages/capability-registry/src/module-states.ts:760-941` | after a recorded REFUSE for a scope, kind and event, no later step of any trace inserts a PROVEN or ACTIVE row that rests on that evidence |
| `RegistryCases.DisabledContainmentIsLost` | `packages/capability-registry/src/containment.ts:366-426` | from empty tables: implemented, disabled, then a hard gate failure; the containment is refused and none is on record |
| `RegistryCases.DisabledContainmentRelaxes` | `packages/capability-registry/src/containment.ts:376-426` | the same with a pressure failure: it commits and the head moves from DISABLED to DEGRADED |
| `GateEvidence.PassIff` | `packages/capability-registry/src/activation-gate.ts:867-975` | an evaluation passes if and only if every required condition holds and every requested or consumed expiry lies ahead |
| `GateEvidence.PassNeverOutlivesEvidence` | `packages/capability-registry/src/activation-gate.ts:867-930` | a pass expires no later than the requested expiry and every parseable expiry it consumed |
| `GateEvidence.GuardAcceptsIff` | `packages/capability-registry/src/activation-gate.ts:1392-1582` | the guard accepts exactly when nothing was ever refused for the triple, the latest batch has one live row per gate with PASS exactly on required gates, and the reference re-derives from it |
| `GateEvidence.RecordedPassAcceptedIff` | `packages/capability-registry/src/activation-gate.ts:1171-1249` | a recorded pass is accepted before its derived expiry and at no later instant, for every row order, when it is all that was recorded for its triple |
| `GateEvidence.RecordedRefusalLeavesRow` | `packages/capability-registry/src/activation-gate.ts:1171-1249` | a refusal that can be recorded leaves a REFUSE row of its triple |
| `GateEvidence.RefusalIsPermanent` | `packages/capability-registry/src/activation-gate.ts:1427-1447` | after a REFUSE row exists for a triple no later table and no reference is ever accepted for it |
| `GateEvidence.ReferenceForgetsOrder` | `packages/capability-registry/src/activation-gate.ts:1099-1150` | with one row per gate the evidence-set reference is the same for every row order |
| `GateEvidence.GuardForgetsOrder` | `packages/capability-registry/src/activation-gate.ts:1392-1582` | the guard accepts for one row order exactly if it does for another |
| `GateEvidence.EvaluateActivationGate` | `packages/capability-registry/src/activation-gate.ts:867-975` | the loops with mutable accumulators compute the ordered evaluation that stops at the first refusal, with the earliest consumed expiry |
| `GateEvidence.RequirePersistedEvidence` | `packages/capability-registry/src/activation-gate.ts:1392-1582` | the row and gate walks compute the guard, refusal by refusal |
| `GateEvidence.LatestBatch` | `packages/capability-registry/src/activation-gate.ts:1448-1463` | the two walks return exactly the rows of the latest evaluation instant |
| `ShadowSafe.SortIsStable` | `packages/capability-registry/src/shadow-safe.ts:60-129` | the sorts return a sorted permutation that keeps the order of ties |
| `ShadowSafe.SortedIsUnique` | `packages/capability-registry/src/shadow-safe.ts:60-129` | without distinct ties there is only one sorted arrangement |
| `ShadowSafe.SortForgetsOrder` | `packages/capability-registry/src/shadow-safe.ts:60-129` | without distinct ties the result does not depend on the input order |
| `ShadowSafe.ShiftIn` | `packages/capability-registry/src/shadow-safe.ts:68-76` | the in-place shift inserts the current element into the sorted prefix and touches nothing behind it |
| `ShadowSafe.InsertionSort` | `packages/capability-registry/src/shadow-safe.ts:65-129` | the in-place insertion sort on an array computes the specified sort of its source |
| `ShadowSafe.ByNumberIsOrder` | `packages/capability-registry/src/shadow-safe.ts:65-83` | the numeric comparison is a total preorder, so the sorting theorems apply |
| `ShadowSafe.ByTextIsOrder` | `packages/capability-registry/src/shadow-safe.ts:85-129` | so is the text comparison, ascending and descending |
| `ShadowSafe.NumericUnique` | `packages/capability-registry/src/shadow-safe.ts:31-45` | keeps every value once, in the order of first occurrences |
| `Quota.LedgerIsExact` | `packages/cost-router/src/quota-adapter.ts:158-334` | in every interleaving from fresh buckets, reserved and committed totals equal the sums of the counters, remaining is never negative, counters and reservations agree, and no release can fail its guard |
| `Quota.NextKeepsInvariant` | `packages/cost-router/src/quota-adapter.ts:158-334` | each reserve, commit or release keeps the accounting invariant |
| `Quota.ReserveKeepsInvariant` | `packages/cost-router/src/quota-adapter.ts:158-228` | a reserve keeps the accounting identities of every bucket |
| `Quota.CommitKeepsInvariant` | `packages/cost-router/src/quota-adapter.ts:229-289` | a commit moves units from reserved to committed and keeps every identity |
| `Quota.ReleaseKeepsInvariant` | `packages/cost-router/src/quota-adapter.ts:290-334` | a release returns the units and keeps every identity |
| `Quota.ReleaseGuardHolds` | `packages/cost-router/src/quota-adapter.ts:305-325` | the reserved units of a live counter are still on its bucket, so the guarded update of release always hits |
| `Quota.TotalUpdate` | `packages/cost-router/src/quota-adapter.ts:158-334` | changing one counter moves a bucket total by exactly the difference of its weights |
| `Quota.SettledForever` | `packages/cost-router/src/quota-adapter.ts:229-334` | a settled reservation and its counter never change again in any interleaving |
| `Quota.SettlesOnce` | `packages/cost-router/src/quota-adapter.ts:229-334` | after a settlement every later commit and release is refused |
| `Quota.RepeatedReserveChangesNothing` | `packages/cost-router/src/quota-adapter.ts:158-180` | after a reserve, the same run and stage can be reserved at any later point under any payload without changing a row |
| `QuotaSessions.MeteredIffLastAdmitted` | `packages/cost-router/src/quota-adapter.ts:61-228` | over every sequence of adapter calls, with others writing in between: a new reservation holds quota if and only if the last call about its provider and operation was a metered admission that was allowed; otherwise no bucket or counter changes |
| `QuotaSessions.MemoryFollowsCalls` | `packages/cost-router/src/quota-adapter.ts:61-156` | what the adapter remembers for a key is told by the calls alone |
| `QuotaSessions.EstimateForgetsTheWindow` | `packages/cost-router/src/quota-adapter.ts:61-77` | admitted, estimated once more, reserved: for every ledger and admission the reservation commits and holds nothing |
| `Quota.AdmittedReserveCommitsIff` | `packages/cost-router/src/quota-adapter.ts:78-156` | reserving straight after admission commits exactly when the routed reserve may serve the workload |
| `Quota.InteractiveAlertIsNeverReserved` | `packages/cost-router/src/reserve-router.ts:28-37` | an interactive operation named after alerts is routed to a reserve the table constraint never lets it use |
| `Quota.Adapter.Estimate` | `packages/cost-router/src/quota-adapter.ts:61-76` | resets the context of its provider and operation and nothing else |
| `Quota.Adapter.AdmitFree` | `packages/cost-router/src/quota-adapter.ts:88-106` | the unmetered admission forgets any window, or is blocked and changes nothing |
| `Quota.Adapter.Admit` | `packages/cost-router/src/quota-adapter.ts:78-156` | on success leaves a context whose window is the latest open one with enough room; on refusal leaves the contexts alone |
| `Quota.Adapter.LatestOpen` | `packages/cost-router/src/quota-adapter.ts:105-130` | finds the latest open window of a bucket or none |
| `Quota.Adapter.Reserve` | `packages/cost-router/src/quota-adapter.ts:158-228` | writes reservation, balance and counter as specified, or returns the existing id, or changes nothing |
| `Quota.Adapter.CommitUnits` | `packages/cost-router/src/quota-adapter.ts:229-289` | settles in place as specified; a refusal changes nothing |
| `Quota.Adapter.ReleaseUnits` | `packages/cost-router/src/quota-adapter.ts:290-334` | releases in place as specified; a refusal changes nothing |
| `Base58.EncodeDecode` | `packages/domain/src/address.ts:248-277` | encoding undoes decoding on every valid string |
| `Base58.DecodeEncode` | `packages/domain/src/address.ts:248-277` | decoding undoes encoding on every byte array, leading zeros included |
| `Base58.AccountLength` | `packages/domain/src/address.ts:283-288` | the canonical text of every 32-byte account has 32 to 44 characters |
| `Base58.AcceptedIffAccount` | `packages/domain/src/address.ts:283-298` | a string is accepted exactly when it is the canonical text of some 32-byte account |
| `Base58.AcceptedAddressesAreIdentities` | `packages/domain/src/address.ts:283-298` | distinct accepted addresses denote distinct 32-byte accounts |
| `Base58.Base58Decode` | `packages/domain/src/address.ts:248-277` | the loops over digits, leading ones and bytes compute the positional decoding |
| `Base58.ToBytes` | `packages/domain/src/address.ts:268-273` | the byte loop produces the base-256 numeral without leading zeros |
| `Base58.NormalizeSolanaAddress` | `packages/domain/src/address.ts:283-298` | accepts exactly the canonical texts of 32-byte accounts |
| `Radix.ConvertBack` | `packages/domain/src/address.ts:248-277` | converting between bases with leading zeros kept apart is undone by converting back |
| `Radix.ConvertLength` | `packages/domain/src/address.ts:283-288` | how long a numeral can get in another base, from a comparison of two powers |
| `Keccak.Keccak256` | `packages/domain/src/address.ts:154-203` | for every message and permutation the absorb loop, final block and squeeze give the sponge digest of the padded message |
| `Keccak.PaddingIsPad10Star1` | `packages/domain/src/address.ts:181-191` | read as bits the padding is pad10*1 of section 5.1 of FIPS 202 for rate 1088, 0x81 byte included |
| `Keccak.PaddingIsInjective` | `packages/domain/src/address.ts:181-191` | no two messages have the same padded form |
| `Keccak.FinalBlock` | `packages/domain/src/address.ts:181-191` | the merged final block is the rest of the message followed by its padding, for every remainder |
| `Keccak.AbsorbWholeBlocks` | `packages/domain/src/address.ts:176-179` | the loop absorbs the longest prefix of whole blocks |
| `Keccak.AbsorbBlock` | `packages/domain/src/address.ts:165-174` | packing lanes and xoring them in place is xoring the block into the state bytes, then the permutation |
| `Keccak.PackLane` | `packages/domain/src/address.ts:167-170` | the shift-and-or loop is the little-endian reading of eight bytes |
| `Keccak.Squeeze` | `packages/domain/src/address.ts:194-201` | the digest is the first 32 state bytes |
| `Keccak.LanesOfBytes` | `packages/domain/src/address.ts:165-201` | reading lanes back from the bytes of lanes is the identity |
| `Keccak.BytesOfLanes` | `packages/domain/src/address.ts:165-201` | reading bytes back from the lanes of bytes is the identity |
| `Keccak.XorLanesIsXorBlock` | `packages/domain/src/address.ts:165-174` | xor on lanes and xor on bytes are the same under the byte view |
| `Watermark.WalkFindsFrontier` | `packages/collector-checkpoints/src/watermark-coordinator.ts:26-32` | whenever the walk over sorted evidence returns, it returns the greatest position reached without a hole |
| `Watermark.WalkRefusesIff` | `packages/collector-checkpoints/src/watermark-coordinator.ts:28-32` | a missing proof refuses exactly if the item lies within the frontier or is the first beyond it |
| `Watermark.TargetIsFrontier` | `packages/collector-checkpoints/src/watermark-coordinator.ts:26-34` | the target is the frontier of the evidence in any order with any duplicates, and rests on proven items only |
| `Watermark.ProvenEvidenceRefusedIff` | `packages/collector-checkpoints/src/watermark-coordinator.ts:26-34` | with proofs everywhere the call is refused exactly when nothing is gained although later evidence exists |
| `Watermark.TargetForgetsOrder` | `packages/collector-checkpoints/src/watermark-coordinator.ts:26-34` | proven evidence for the same positions gives the same answer |
| `Watermark.AdvanceIsMonotone` | `packages/collector-checkpoints/src/watermark-coordinator.ts:35-42` | an accepted write never lowers the stored (token, position) pair of any key |
| `Watermark.WatermarkIsEvidenced` | `packages/collector-checkpoints/src/watermark-coordinator.ts:20-45` | in runs whose callers start from covered positions every stored watermark is proven down to the baseline |
| `Watermark.ContinuingIsDisciplined` | `packages/collector-checkpoints/src/watermark-coordinator.ts:20-45` | starting from the stored watermark is such a start |
| `Watermark.WatermarkCoordinator.Advance` | `packages/collector-checkpoints/src/watermark-coordinator.ts:20-45` | sort, walk and guarded upsert in place; refusals change nothing, success returns the frontier |
| `Watermark.ShareRowIff` | `packages/collector-checkpoints/src/watermark-coordinator.ts:17-19` | two collectors share a watermark row exactly when their names agree or a colon moves between neighbouring names |
| `Watermark.PlainNamesNeverShare` | `packages/collector-checkpoints/src/watermark-coordinator.ts:17-19` | chain and program names without colons keep every shard to its own row |
| `Watermark.ColonMoves` | `packages/collector-checkpoints/src/watermark-coordinator.ts:17-19` | two collectors with a colon in a name on one row |
| `Fencing.TokensIncrease` | `apps/collector/src/leader-lease.ts:19-54` | over all acquisitions of a trace tokens strictly increase, whoever acquires whichever shard |
| `Fencing.TakeoverNeedsExpiry` | `apps/collector/src/leader-lease.ts:33-39` | a lease changes hands only after release or expiry at the acquirer's clock |
| `Fencing.PartitionFence` | `packages/collector-checkpoints/src/partition-state.ts:45-84` | after an accepted partition write no later write with a smaller token is accepted |
| `Fencing.WatermarkFence` | `packages/collector-checkpoints/src/watermark-coordinator.ts:35-42` | the same for watermark writes, and the pair is lexicographically nondecreasing over any trace |
| `Fencing.DeposedLeaderIsFenced` | `apps/collector/src/leader-lease.ts:19-54` | from the successor's first accepted write on, every partition write of a deposed leader is refused as stale |
| `Fencing.LogIsChain` | `packages/collector-checkpoints/src/partition-state.ts:66-82` | the transition log of a partition is a gap-free legal chain from its first state to its current one under nondecreasing tokens |
| `Fencing.LiveMeansReady` | `packages/collector-checkpoints/src/partition-state.ts:53-64` | a partition turns LIVE only from SYNCING and with all six readiness checks |
| `Fencing.PathRecovers` | `packages/collector-checkpoints/src/partition-state.ts:5-17` | every legal path from GAP_DETECTED to LIVE passes BACKFILLING or STARTING and then SYNCING |
| `Fencing.GapRecoversThroughSync` | `packages/collector-checkpoints/src/partition-state.ts:5-17` | the same between any two such moments of any interleaved trace |
| `Fencing.CollectorStore.AcquireFor` | `apps/collector/src/leader-lease.ts:19-54` | upserts the lease with a token beyond every earlier one, or refuses and changes nothing |
| `Fencing.CollectorStore.Transition` | `packages/collector-checkpoints/src/partition-state.ts:45-84` | updates row and log together, or refuses and changes nothing |
| `UniverseRegistry.Aggregate` | `packages/discovery-universe/src/universe-registry.ts:129-147` | the grouped one-pass counters equal the set definitions: unique yield per source, and per key the number of (asset, source, source) triples written under it |
| `UniverseRegistry.GroupByAsset` | `packages/discovery-universe/src/universe-registry.ts:131-136` | groups hold exactly the entries, each asset once |
| `UniverseRegistry.CountPairs` | `packages/discovery-universe/src/universe-registry.ts:137-146` | one asset adds one to the key of each ordered pair of its sources |
| `UniverseRegistry.OverlapAgreesIff` | `packages/discovery-universe/src/universe-registry.ts:142-144` | the value at a key is the overlap of its pair exactly when no other overlapping pair shares the key; it is never smaller |
| `UniverseRegistry.PlainSourcesNeverCollide` | `packages/discovery-universe/src/universe-registry.ts:142-144` | source ids without the separator never share a key |
| `UniverseRegistry.SeparatorCollision` | `packages/discovery-universe/src/universe-registry.ts:142-144` | ids with the separator can: two pairs are added up under one key |
| `CoverageMetrics.UniqueDiscoveryYield` | `packages/discovery-universe/src/coverage-metrics.ts:121-134` | counts the assets only this source saw |
| `CoverageMetrics.PairwiseOverlap` | `packages/discovery-universe/src/coverage-metrics.ts:136-156` | one entry per other source, the size of the intersection, zero included |
| `CoverageMetrics.OverlapIsSymmetric` | `packages/discovery-universe/src/coverage-metrics.ts:136-156` | overlap is symmetric |
| `CoverageMetrics.CompareAll` | `packages/discovery-universe/src/coverage-metrics.ts:121-156` | for every pair of sources the grouped record equals both metrics exactly when the key does not collide |
| `CanonicalJson.CanonicalIff` | `packages/cost-router/src/batch-coalescer.ts:16-24` | two values have the same canonical text if and only if they are equal up to property order, at every depth, up to the lone undefined array and up to non-finite numbers, which read as null |
| `CanonicalJson.WriteUnique` | `packages/cost-router/src/batch-coalescer.ts:16-24` | canonical texts are uniquely decodable: text and what follows it determine the value |
| `CanonicalJson.NormalKeeps` | `packages/cost-router/src/batch-coalescer.ts:16-24` | sorting properties at every depth keeps the meaning of a value |
| `CanonicalJson.QuoteUnique` | `packages/cost-router/src/batch-coalescer.ts:17-22` | quoted strings end where they should whatever characters they contain |
| `CanonicalJson.LoneUndefinedVanishes` | `packages/cost-router/src/batch-coalescer.ts:17-18` | an array of one undefined item has the text of the empty array, one of two does not |
| `CanonicalJson.NonFiniteIsNull` | `packages/cost-router/src/batch-coalescer.ts:17-17` | NaN and the infinities have the text of null |
| `BatchCoalescer.SameBatchKeyIff` | `packages/cost-router/src/batch-coalescer.ts:26-39` | batch keys are equal exactly when provider, operation and every key-field value are equal |
| `BatchCoalescer.Coalesce` | `packages/cost-router/src/batch-coalescer.ts:42-80` | the batches are a permutation of the requests, homogeneous, at most the safe size, per key in arrival order and all full except the last |
| `BatchCoalescer.BatchIsOneRoute` | `packages/cost-router/src/batch-coalescer.ts:65-76` | the items of a batch really share provider, operation and key fields |
| `BatchCoalescer.CoalescingPermutes` | `packages/cost-router/src/batch-coalescer.ts:42-80` | no request is lost, repeated or invented |
| `BatchCoalescer.GroupShape` | `packages/cost-router/src/batch-coalescer.ts:66-77` | the batches of a key concatenate to its requests in arrival order, all full but the last |
| `BatchCoalescer.PushChunks` | `packages/cost-router/src/batch-coalescer.ts:67-77` | the offset loop cuts a group into consecutive pieces of the safe size |
| `AlertUpdates.RunKeeps` | `packages/alerts/src/lifecycle.ts:625-799` | in every serial run there is one update row per idempotency key and exactly one notification per row |
| `AlertUpdates.CommitKeeps` | `packages/alerts/src/lifecycle.ts:625-799` | an outcome other than COMMITTED leaves every table unchanged; rows are only added |
| `AlertUpdates.ReplayIsDeduplicated` | `packages/alerts/src/lifecycle.ts:679-691` | a replay at any later point changes nothing and names the committed row and its outbox |
| `AlertUpdates.CommitsAreApart` | `packages/alerts/src/lifecycle.ts:692-704` | two committed updates under one prior fingerprint are at least the first one's cooldown apart |
| `AlertUpdates.StaleIff` | `packages/alerts/src/fingerprints.ts:378-407` | past the cooldown check the stale-ledger refusal occurs exactly for an earlier instant of the very millisecond of a zero-cooldown write |
| `AlertUpdates.NeverStaleOnMillisecondClock` | `packages/alerts/src/fingerprints.ts:378-407` | with whole-millisecond clocks the refusal is unreachable |
| `AlertUpdates.NeverStaleWithCooldown` | `packages/alerts/src/fingerprints.ts:412-429` | with positive cooldowns it is unreachable on any clock |
| `AlertUpdates.StaleIsReachable` | `packages/alerts/src/fingerprints.ts:316-334` | two calls within one millisecond, in reverse, under a zero cooldown reach it |
| `AlertUpdates.AlertStore.CommitAlertUpdate` | `packages/alerts/src/lifecycle.ts:625-799` | the in-place transaction with its rollback paths computes the specified tables and outcome |
| `AlertUpdates.AlertStore.FindByKey` | `packages/alerts/src/lifecycle.ts:582-586` | finds the row of a key or reports that there is none |
| `Fingerprints.FingerprintIsInjective` | `packages/domain/src/alert.ts:660-683` | distinct fingerprint inputs have distinct preimages, whatever separators their fields contain |
| `Fingerprints.PartUnique` | `packages/domain/src/alert.ts:643-647` | a length-prefixed part determines its value and its end |
| `Fingerprints.PartsUnique` | `packages/domain/src/alert.ts:643-683` | joined parts determine every value, for arbitrary contents and any field list |
| `Fingerprints.UpdateKeyIsInjective` | `packages/alerts/src/fingerprints.ts:108-117` | the update-key preimage determines prior alert, kind, content address and thesis version |
| `Fingerprints.DecimalIsInjective` | `packages/domain/src/alert.ts:643-647` | number texts determine the number |
| `Classification.MatchIffPermutation` | `packages/alerts/src/classification.ts:367-389` | the cross-check accepts exactly the permutations of the fresh evaluation |
| `Classification.AnsweredIff` | `packages/alerts/src/classification.ts:403-425` | a request is answered exactly when nothing prohibited is asked and its supplied results are absent, unauthenticated or a permutation of the fresh evaluation |
| `Classification.SuppliedResultsNeverMatter` | `packages/alerts/src/classification.ts:403-453` | two answered requests that differ only in supplied results have the same class and suppression reason |
| `Classification.ConfirmedIff` | `packages/alerts/src/classification.ts:299-360` | CONFIRMED_OPPORTUNITY is returned exactly when it is asked for, nothing earlier decides, and all fourteen fresh gates pass |
| `Classification.SuppressionNamesFirstRefusal` | `packages/alerts/src/gates.ts:499-504` | otherwise the suppression reason is that of the first refusing gate in canonical order |
| `Classification.SetCompleteIff` | `packages/domain/src/alert.ts:788-799` | the completeness check accepts exactly the orderings of the fourteen gates |
| `Classification.FreshIsEligibleIff` | `packages/alerts/src/gates.ts:478-490` | a fresh evaluation is always complete, so it is eligible exactly when every gate passes |
| `Classification.NeverIssuedWhen` | `packages/alerts/src/classification.ts:299-330` | declined decisions, elapsed validity and organic claims without coverage never get a class |
| `ChainAccessTraces.TotalsWithinIff` | `packages/discovery-universe/src/chain-access-gate.ts:226-286` | the consumption law exactly, over every interleaved run: totals are within the declaration at every moment if and only if no committed new record found that what was recorded since its read exceeds the room its read left |
| `ChainAccessTraces.OverrunIsForever` | `packages/discovery-universe/src/chain-access-gate.ts:226-286` | totals only grow, so after an overrun the run is never within the declaration again |
| `ChainAccessTraces.UndisturbedRunsStayWithin` | `packages/discovery-universe/src/chain-access-gate.ts:226-286` | enough for callers: no other record of the run and declaration commits between a record's read and its write |
| `ChainAccessTraces.TotalsStayWithinBounds` | `packages/discovery-universe/src/chain-access-gate.ts:226-286` | over every serial run the recorded slots, calls and candidates of a run never exceed the declaration, replays included |
| `ChainAccessTraces.StaleReadsOverrun` | `packages/discovery-universe/src/chain-access-gate.ts:237-256` | two records of one run that read the same totals both commit, and the second overruns |
| `ChainAccess.EffectiveAfterRecord` | `packages/discovery-universe/src/chain-access-gate.ts:288-365` | the bounds in force after a record that read one state and wrote onto another: its own derivation, capped by the declaration, exactly when its incident becomes the newest |
| `ChainAccessTraces.RecordLoosensIff` | `packages/discovery-universe/src/chain-access-gate.ts:288-365` | one record, whatever it read, loosens the bounds exactly when its incident becomes the newest and what it derived is not below the bounds in force; other declarations are untouched |
| `ChainAccessTraces.NeverLooserIff` | `packages/discovery-universe/src/chain-access-gate.ts:288-365` | the tightening law exactly, over every interleaved run: effective bounds never increase if and only if no such record commits |
| `ChainAccessTraces.SameTopNeverLoosens` | `packages/discovery-universe/src/chain-access-gate.ts:340-347` | a record that writes onto the newest incident it read never loosens |
| `ChainAccessTraces.UndisturbedNeverLoosens` | `packages/discovery-universe/src/chain-access-gate.ts:288-365` | enough for callers: no incident of the declaration is written between a breaching record's read and its write |
| `ChainAccessTraces.EffectiveNeverIncreases` | `packages/discovery-universe/src/chain-access-gate.ts:332-365` | over every serial run effective bounds only go down, whatever clock the incidents carry |
| `ChainAccessTraces.StaleReadLoosens` | `packages/discovery-universe/src/chain-access-gate.ts:288-321` | a record that read the bounds before another tightened them loosens them again |
| `ChainAccess.EffectiveInRange` | `packages/discovery-universe/src/chain-access-gate.ts:332-365` | effective bounds lie between one and the declared bounds in every interleaving |
| `ChainAccess.BreachTightensIff` | `packages/discovery-universe/src/chain-access-gate.ts:253-321` | an uninterrupted record tightens every bound above one exactly when it writes the newest incident of its declaration and some use overran an explicit forecast; any other record, breach or not, leaves every bound as it was |
| `ChainAccess.TightenedIff` | `packages/discovery-universe/src/chain-access-gate.ts:296-300` | a bound above one shrinks exactly for a ratio above one, and at least in proportion |
| `ChainAccessTraces.UnforecastBreachTightensNothing` | `packages/discovery-universe/src/chain-access-gate.ts:287-300` | a fivefold overrun without a forecast is recorded as the newest incident and tightens nothing |
| `ChainAccessTraces.LateClockBreachTightensNothing` | `packages/discovery-universe/src/chain-access-gate.ts:340-347` | an overrun of an explicit forecast under a clock behind the last incident tightens nothing either |
| `ChainAccess.ReplayAddsNothing` | `packages/discovery-universe/src/chain-access-gate.ts:271-286` | a replayed consumption id leaves every total as it was |
| `ChainAccess.ChainAccessGate.RecordUsage` | `packages/discovery-universe/src/chain-access-gate.ts:226-321` | the loads, checks and inserts compute the specified store and loosen no bound |
| `ChainAccess.ChainAccessGate.LoadEffective` | `packages/discovery-universe/src/chain-access-gate.ts:332-365` | caps the declared bounds by the newest incident |
| `ChainAccess.ChainAccessGate.SumRun` | `packages/discovery-universe/src/chain-access-gate.ts:237-246` | sums what a run recorded |
| `Backfill.Plan` | `packages/collector-gap-recovery/src/backfill-planner.ts:57-89` | exactly min(maximumJobs, sum of rounded-up quotients) jobs, the in-order prefix of the tiling, none too wide, covering exactly the gaps below the cap; each refusal names the first thing that stops the walk |
| `Backfill.PlanGap` | `packages/collector-gap-recovery/src/backfill-planner.ts:68-86` | the inner loop asks for admission before each job and stops at the cap or the first refusal |
| `Backfill.TilingTiles` | `packages/collector-gap-recovery/src/backfill-planner.ts:68-86` | the jobs of a gap abut, all but the last are as wide as allowed, and they run from its start to its end |
| `Backfill.TilingCovers` | `packages/collector-gap-recovery/src/backfill-planner.ts:68-86` | they cover the gap and nothing else |
| `Backfill.TilingCount` | `packages/collector-gap-recovery/src/backfill-planner.ts:68-86` | there are length over range, rounded up, of them |
| `Backfill.FullPlanCovers` | `packages/collector-gap-recovery/src/backfill-planner.ts:57-89` | all gaps together: the announced number of jobs and exactly the gaps covered |
| `RegistryEntry.ActiveCommitsIff` | `packages/capability-registry/src/module-states.ts:552-1003` | an advance commits into ACTIVE if and only if: well-formed and new ids, a legal edge from the head the caller read, a passed claim of this scope hash with readiness within its kind, an earlier PROVEN row exactly if the scope requires it, an AVAILABLE-establishing row, no open containment, a non-blank event on no ACTIVE row, live evidence rows that back the claimed reference, and the head still unsuperseded |
| `RegistryEntry.ProvenCommitsIff` | `packages/capability-registry/src/module-states.ts:552-815` | an advance commits into PROVEN if and only if: well posed, a legal edge, a content-addressed reference and a non-blank event whose recorded OPPORTUNITY rows back it, an AVAILABLE-establishing row, and the head still unsuperseded |
| `RegistryEntry.PlainCommitsIff` | `packages/capability-registry/src/module-states.ts:552-755` | an advance into any other state commits if and only if it is well posed, a legal edge, its event is not blank and its head is still the head |
| `RegistryEntry.CommitLeaves` | `packages/capability-registry/src/module-states.ts:942-1003` | a committed advance leaves one new row with the caller's values, one log entry from the true predecessor state, one pointer on that predecessor, and nothing else |
| `RegistryEntry.CommitCites` | `packages/capability-registry/src/module-states.ts:942-1003` | which event, activation kind and evidence reference a committed advance puts on record, per target state |
| `RegistryEntry.HeadIsNewest` | `packages/capability-registry/src/module-states.ts:352-388` | the head is the unsuperseded row of the scope created last, ties by greater id; there is none only if all rows are superseded |
| `RegistryEntry.LegalIffEntered` | `packages/domain/src/prod.ts:495-560` | the lifecycle table, read by the states each state is entered from |
| `RegistryEntry.TrimmedIff` | `packages/capability-registry/src/module-states.ts:868-880` | blank means made of the white space and line ends that trimming removes, character by character |
| `RegistryReach.ActiveWithoutProven` | `packages/capability-registry/src/module-states.ts:820-835` | for every scope that does not require PROVEN, with injective row ids: from empty tables, implement, make available, pause, record an OPERATIONAL pass, advance: the scope reaches ACTIVE with no PROVEN row in its history |
| `RegistryReach.StepsRun` | `packages/capability-registry/src/module-states.ts:552-1003` | those steps do have a trace from empty tables |
| `RegistryOutcomes.ActionIff` | `packages/capability-registry/src/containment.ts:73-105` | which stop each critical gate leads to, by name |
| `RegistryOutcomes.AskedIsStrongest` | `packages/capability-registry/src/containment.ts:106-112` | the asked stop is the gate's own or the caller's minimum, and not milder than either |
| `RegistryOutcomes.ContainCommitsIff` | `packages/capability-registry/src/containment.ts:340-446` | containment commits if and only if the scope is governed, the minimum is a stop, no id is blank or reused, and not both the state and the asked stop are DISABLED |
| `RegistryOutcomes.ContainLeaves` | `packages/capability-registry/src/containment.ts:372-446` | what it leaves: one open containment row with the state moved to, and one advance that keeps artifact and readiness |
| `RegistryOutcomes.ClearCommitsIff` | `packages/capability-registry/src/containment.ts:468-512` | clearing commits if and only if the event is not blank and an open containment has the id; it sets that one pointer to that event |
| `RegistryOutcomes.RollbackCommitsIff` | `packages/capability-registry/src/containment.ts:591-750` | rollback commits if and only if the artifact set was ACTIVE under the prior event, the scope is uncontained, ids and event are new, and the head read still is the head |
| `RegistryOutcomes.RollbackNested` | `packages/capability-registry/src/containment.ts:690-750` | the advance inside a rollback: to PAUSED where legal, else DISABLED, under the new event, with the restored artifact set |
| `ActivationLaws.RequiredByKind` | `packages/capability-registry/src/activation-gate.ts:110-165` | the gates of each activation kind by name; PROVEN exactly if the scope requires it |
| `ActivationLaws.PassesIff` | `packages/capability-registry/src/activation-gate.ts:547-975` | an evaluation passes if and only if the facts of its kind are in order: lifecycle facts, valid signed evidence, a lawful activatable contract, no containment, every expiry ahead; beyond OPERATIONAL exactly one record of the scope hash, unexpired, all four controls last passed without lift, clustered intervals, calibration mature without drift when ranking; for WORKSPACE and PUBLIC a distribution authorised for that kind |
| `ActivationLaws.AcceptsIffRowsBack` | `packages/capability-registry/src/activation-gate.ts:1392-1582` | the guard accepts if and only if no selected row refuses and the latest batch has one row per gate, each unexpired, of its kind, PASS exactly on the gates named for the kind, under the re-derived reference |
| `ActivationLaws.BackedGates` | `packages/capability-registry/src/activation-gate.ts:1392-1582` | what an accepted batch holds, gate by gate: an unexpired row of that triple, PASS exactly if the kind names the gate |
| `ActivationLaws.EvaluationRecordedIff` | `packages/capability-registry/src/activation-gate.ts:1171-1249` | an evaluation is recorded if and only if its derived expiry lies ahead of it and its row ids are new |
| `ActivationLaws.RecordedRow` | `packages/capability-registry/src/activation-gate.ts:1190-1235` | each evaluated gate leaves one row with gate, verdict, failing gate, event, contract, references, instant, expiry and kind of the evaluation |
| `ActivationLaws.ReferenceIsCanonical` | `packages/capability-registry/src/activation-gate.ts:1099-1150` | the evidence reference is the digest of the rows in canonical gate order |
| `QuotaCharges.CommitCharges` | `packages/cost-router/src/quota-adapter.ts:229-289` | a commit of a metered reservation adds exactly the actual units to committed, returns the reserved units, grows the free units by reserved minus actual, and records the actual units on counter and reservation; other buckets stay |
| `QuotaCharges.CommitSucceedsIff` | `packages/cost-router/src/quota-adapter.ts:229-289` | it goes through if and only if the actual units are not negative, the reservation is still RESERVED, and they fit its own reserved units plus what is free; which refusal it meets otherwise |
| `QuotaCharges.SpentIsCharged` | `packages/cost-router/src/quota-adapter.ts:229-289` | over every run, what a bucket has committed is what it had plus the sum of the actual units of the commit calls that settled on it |
| `QuotaCharges.FreeAfterRun` | `packages/cost-router/src/quota-adapter.ts:158-334` | from fresh buckets every run leaves cap minus those units minus what open reservations hold, never below zero |
| `QuotaCharges.ReserveCommitsIff` | `packages/cost-router/src/quota-adapter.ts:158-228` | a first reserve goes through if and only if its columns are acceptable and, with a window, the named bucket has room and may serve the workload; exhausted exactly if no named bucket has room |
| `QuotaCharges.ReserveHolds` | `packages/cost-router/src/quota-adapter.ts:158-228` | it moves exactly the requested units of the named bucket from free to held |
| `QuotaCharges.ReserveRecords` | `packages/cost-router/src/quota-adapter.ts:195-213` | it records the request as made, and without a window touches no quota row |
| `QuotaCharges.ReleaseSucceedsIff` | `packages/cost-router/src/quota-adapter.ts:290-334` | a release goes through exactly while the reservation is RESERVED |
| `QuotaCharges.ReleaseReturns` | `packages/cost-router/src/quota-adapter.ts:290-334` | it returns all held units to its bucket and charges nothing |
| `QuotaCharges.RouteIff` | `packages/cost-router/src/reserve-router.ts:28-37` | which protected reserve serves a request, by workload class and by ALERT or EMERGENCY spelled in the operation name in any case |
| `QuotaCharges.AdmitsIff` | `packages/cost-router/src/quota-adapter.ts:107-156` | admission is by the general pool if its latest open window has room, else by the routed reserve if that has, else refused |
| `QuotaCharges.AdmissionIsUnique` | `packages/cost-router/src/quota-adapter.ts:107-156` | an admission can leave one context only |
| `Quota.RoutesAreApart` | `packages/cost-router/src/quota-adapter.ts:48-48` | contexts of different routes never share a key while provider names hold no NUL |
| `AlertUpdates.CooldownSuppressesIff` | `packages/alerts/src/lifecycle.ts:692-704` | in every run a timely call with an unused key is suppressed by cooldown if and only if the last committed call under its prior fingerprint, at its instant with its cooldown, has not run out in whole milliseconds |
| `AlertUpdates.CommitsIff` | `packages/alerts/src/lifecycle.ts:625-799` | in every run a call commits if and only if it is timely, accepted by the engine, parses, has valid ledger inputs, its key and id are new, and the last committed call under its fingerprint has run out and is not later |
| `AlertUpdates.LateOrKnownIff` | `packages/alerts/src/lifecycle.ts:640-691` | when a call is late and when it is a duplicate, told from the calls before it |
| `AlertUpdates.CommitWrites` | `packages/alerts/src/lifecycle.ts:705-799` | a commit appends one row with the caller's values, notifies once and writes the ledger row whose cooldown ends the given seconds after the whole millisecond |
| `AlertUpdates.LedgerFollows` | `packages/alerts/src/fingerprints.ts:378-429` | in every run the ledger row of a fingerprint is the one the last committed call under it wrote, and there is none before |
| `ChainAccessLaws.IncidentWrittenIff` | `packages/discovery-universe/src/chain-access-gate.ts:253-321` | a taken record writes an incident if and only if, for slots, calls or candidates, 100 times the use exceeds the announced units times 100 plus the tolerated percentage, and the incident is not known; its bounds are those in force cut by the overrun factor |
| `ChainAccessLaws.TightenedIsCut` | `packages/discovery-universe/src/chain-access-gate.ts:296-300` | the new bound is the greatest whole number the factor does not lift over the old bound, or one |
| `ChainAccessLaws.CutIsUnique` | `packages/discovery-universe/src/chain-access-gate.ts:296-300` | which is one number |
| `ChainAccessLaws.RatioIsOverrun` | `packages/discovery-universe/src/chain-access-gate.ts:288-295` | the factor is the least, one at least, by which every given forecast would have to grow to cover the use |
| `ChainAccessLaws.OverrunIsUnique` | `packages/discovery-universe/src/chain-access-gate.ts:288-295` | which is one factor |
| `ChainAccessLaws.IncidentsAreEarned` | `packages/discovery-universe/src/chain-access-gate.ts:253-321` | in every interleaving each incident stems from a step whose use exceeded what it announced beyond the tolerance of the declaration it read |
| `ChainAccessLaws.UsageWritten` | `packages/discovery-universe/src/chain-access-gate.ts:268-286` | a taken record with a new id leaves its use, with the incident id exactly if it exceeded, and declarations alone |
| `ChainAccessLaws.RecordCommitsIff` | `packages/discovery-universe/src/chain-access-gate.ts:226-256` | a record is taken if and only if its declaration covers the operation under the bounds in force, the total of its run still fits, and it used something |
| `ChainAccessLaws.TopIsNewest` | `packages/discovery-universe/src/chain-access-gate.ts:342-350` | the incident query returns the incident recorded last, ties by greater id, or none if there is none |
| `ChainAccessLaws.EffectiveIsCapped` | `packages/discovery-universe/src/chain-access-gate.ts:332-365` | in force is the declaration, capped in each dimension by such an incident if there is one |
| `ChainAccessLaws.RegisterIff` | `packages/discovery-universe/src/chain-access-gate.ts:152-195` | a declaration is taken if and only if it is well formed and either stored as it is or newer than every stored version; then it alone is stored |
| `Fencing.LeaseGrantedIff` | `apps/collector/src/leader-lease.ts:19-54` | a lease is granted if and only if the time is positive, the holder is named, and it is free, released, run out or the holder's own; what is stored, with its expiry |
| `Fencing.TakeoverIff` | `apps/collector/src/leader-lease.ts:19-54` | in every trace, after an undisturbed grant another holder is granted the shard if and only if the granted time is over |
| `Fencing.ReleasedIff` | `packages/tool-core/src/single-flight.ts:42-47` | giving back needs the current token and works once |
| `Fencing.MoveAcceptedIff` | `packages/collector-checkpoints/src/partition-state.ts:5-84` | a move is accepted if and only if the partition is known, the token is not older, the edge is in the table read by target, and into LIVE all six checks hold; what is written |
| `Classification.PriorClassIff` | `packages/alerts/src/classification.ts:263-297` | which class an update of a prior alert gets: expired in the last five minutes or when over, risk, weakening exactly when DECAYING, strengthening otherwise |
| `Classification.FirstClassIff` | `packages/alerts/src/classification.ts:299-360` | which class a first alert gets |
| `Classification.SuppressedIff` | `packages/alerts/src/classification.ts:299-360` | nothing is issued if and only if the request is not issuable or asks for a confirmed opportunity some gate refuses; with which reason |
| `Classification.AnswerCarries` | `packages/alerts/src/classification.ts:403-453` | what an answer carries besides its route |
| `Classification.GatePassesIff` | `packages/alerts/src/gates.ts:478-490` | a gate passes if and only if no field is unknown, its own is well formed and its function passes |
| `Base58.AlphabetIs` | `packages/domain/src/address.ts:24-24` | the alphabet is the letters and digits without 0, O, I and l |
| `Base58.ValidIff` | `packages/domain/src/address.ts:248-262` | decodable texts are exactly those over it |
| `Watermark.AdvanceAcceptedIff` | `packages/collector-checkpoints/src/watermark-coordinator.ts:20-45` | an advance is accepted if and only if the walk meets proofs only, the frontier moves or nothing lies beyond, position and token are in range and the stored row yields; it writes the frontier under the token |
| `Watermark.TargetIff` | `packages/collector-checkpoints/src/watermark-coordinator.ts:26-34` | when there is a target at all, for any evidence |
| `BatchCoalescer.SafeSize` | `packages/cost-router/src/batch-coalescer.ts:54-57` | the greatest whole share of the batch size, or one |
| `CanonicalJson.ObjectText` | `packages/cost-router/src/batch-coalescer.ts:16-24` | the text of an object: smaller name first whatever the creation order, colon, comma, braces |
| `CanonicalJson.ArrayText` | `packages/cost-router/src/batch-coalescer.ts:18-18` | the text of an array |
| `CanonicalJson.EscapeText` | `packages/cost-router/src/batch-coalescer.ts:17-17` | which characters of a string are escaped, and how |
| `Fingerprints.PreimageText` | `packages/domain/src/alert.ts:660-683` | the preimage lists nine fields by name with the length and text of each value, and nothing else |

## Left out

- HTTP and MCP wiring, configuration schemas, Solana transport, collector ports and CLI bridges: input and output.
- Zod parsing, signature and gate-evidence verification, `canonicalJson` of the persistence package: taken as already validated inputs or arbitrary functions.
- The inside of the Keccak permutation and the hexadecimal rendering of the digest: the permutation is a parameter of the sponge theorem.
- The bodies of the fourteen confirmed-opportunity gates and of the signed-evidence checks: one verdict per gate, since their laws are their branches.
- `evaluatePriorAlertUpdate`, `evaluateMaterialChange` and `repeatSuppressionDecision`: ordered refusals that a reading of the branches settles.
- The delivery engine behind `commitAlert`: it accepts, suppresses or throws, and never writes the cooldown ledger.
- `coalesceBatchRequests` and batch utilization figures: the same chunking under a shorter key, and floating-point ratios.
- Lone surrogates in canonical JSON strings, and number formatting: characters are Unicode scalar values and a number is its JSON text.
- IEEE rounding in `SafeSize` and in the tightening ratio: both are computed over reals.
- ChainAccessLaws.IncidentWrittenIff: over exact arithmetic; the floating product of forecast and tolerance can round to the other side when the use equals the tolerated limit.
- ActivationLaws.EvaluationRecordedIff: takes the scope hash as a content address, which the scope hash function always returns.
- QuotaCharges.RouteIff: upper-cases ASCII letters only; characters such as U+1E97, whose upper case begins with a plain T, are not matched.
- A crash between the two inserts of a consumption record: totals and bounds read different tables, so the laws of each stand, but a row without its incident is not modelled.
- The daily call check of `ChainAccessGate.admit` and the text comparison in `register`: the first only reads, the second is equality of declarations.
- Leases of other modes, checkpoint commits and gap registry rows: other writers of the same tables.
- Reads of `module_states` under a database collation other than code order: only the tie-break between rows created at one instant depends on it.
- Classification.ConfirmedIff: compares `now` and `valid_until` in whole milliseconds, because the tie-break within one millisecond orders instants by their spelling.
