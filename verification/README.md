# Verified model of the HLL++ DDoS detection system

A Dafny model of the HyperLogLog++ sketch at the centre of the repository and of the protocol pieces
that use it, with proofs of what they promise. Verify it with `dafny verify dfyconfig.toml`.

**The sketch.** A sketch is one abstract object, the largest rho per register over the hashes
inserted (`RegisterMap.SpecRegs`). It is stored as an unsorted set of packed words, a merged list of
packed words, or 6-bit packed bytes, and moves between these in the middle of a run. `Codec` and
`SparseWords` model the words, `PackedBits`, `PackedRegisters` and `Counters` the bytes and the
running counters, `SparseLists` and `SparseHll` the sparse set, `DenseHll` the dense one, `Hllpp` the
object that switches formats and is shipped. `Sketches` holds the value-level meaning of every
operation and the theorem over runs of any number of sketches. `Esp32` is the firmware's copy.

**Around it.** `Windows` rotates two sketches, `StateMachine` is the hysteresis machine,
`RateLimiting` the token bucket with its Count-Min Sketch, `Mitigation` the agent's coupling of the
two, `Aggregation` and `AggregatorServer` the aggregator, `Protocol` the interleaving of agents and
aggregator, `Welford` and `HalfSpaceTrees` the online statistics of the detectors.

Objects that the source updates in place are classes. Their methods are proved against functions on
values (`View()` afterwards is the specification function of `View()` before), and the properties
over whole runs are lemmas about those functions.

**Reading the model.** Hashes are arbitrary 64-bit numbers; xxhash, SHA-256 and address parsing
are not part of this model. Clock readings, random draws and the FNV column hash are parameters.
`Pow2(precision)` is the number m of registers. The sketch results need 2 <= p < 25: `EncodeHash`
panics from p = 25 on, and below 2 a rho of 64 would make `Registers.Set` panic.

**Where code and intent differ.**
- `sorted_list` need not be sorted, nor free of duplicate indices: the temporary words are sorted as
  raw numbers. `SparseLists.DuplicateIndexSurvives` gives three encodable words that show it.
  A flush leaves the list in index order exactly when it was and no two waiting words clash
  (`SparseLists.FlushOrderedIff`): flagged words that share an index, or a plain word l and a flagged
  word k with index(k) <= index(l) <= 64*index(k) + rho'(k). The register map does not depend on it,
  but `GetElements` uses the length of the list as a count of indices, which it is exactly when no
  index occurs twice (`SparseLists.LengthCountsIndices`); `Sketches.EstimateMeans` says what the
  surplus does to the estimate. Even one word can be there twice (`SparseLists.SameWordTwice`), so
  repeated hashes can bring on the conversion to dense; without a repeated index they cannot
  (`Sketches.FewHashesStaySparse`).
- The packed words have room for the dense entry exactly under `Codec.LossFree`, which always holds
  at p' = 25 and fails above it for the hash in `Codec.LossAbove25`, although `EncodeHash` accepts p'
  up to 32.
- The zero counter is a uint16 and shows the number of zero registers exactly when there are fewer
  than 65536 of them (`Counters.ZerosReadable`), so an empty sketch at p = 16 reads as full
  (`Counters.EmptyReadsAsFull`).
- The comment on `recoveryConfirm` promises a return to NORMAL after that many clean windows. The
  code keeps this on every history exactly when `recoveryConfirm` is at least 2
  (`StateMachine.DocumentedIff`); for 1 it needs two (`StateMachine.OneCleanVerdictIsNotEnough`).
- A per-address limit of 65535 never denies anything (`RateLimiting.LimitBindsIff`).

## Model

| member | source | states |
|---|---|---|
| Codec.RhoMeaning | general/helperfunctions.go:71-85 | Rho is r exactly when the window is all zeros (r = n+1) or its first set bit is the r-th |
| Codec.RhoSplit | general/helperfunctions.go:71-85 | Rho of two adjacent bit fields is decided by the upper one unless that is all zeros |
| Codec.CodecAgreesIff | general/helperfunctions.go:147-192 | over the whole parameter range that does not panic, decoding an encoded hash gives the dense path's index and rho if and only if nothing overflows the 32-bit word |
| Codec.LossAbove25 | general/helperfunctions.go:147-192 | at p = 24 and p' = 26 the hash 2^63 does not fit its word and decodes to register 0 instead of 2^23 |
| SparseWords.CodecAgrees | general/helperfunctions.go:147-192 | at p' = 25 the sparse and the dense path record the same register and rho for every hash |
| SparseWords.GenuineIffEncoded | general/helperfunctions.go:147-177 | the well-formed words are exactly the image of EncodeHash |
| SparseWords.DecodeGenuine | general/helperfunctions.go:179-192 | every encoded word names a register below 2^p and a rho of at most 65-p, so Registers.Set cannot panic on it |
| SparseWords.StorableIff | types/register/registers.go:43-49 | of all 32-bit words, exactly the flagged ones with rho' <= 38+p and the plain ones with an index below 2^25 decode to something Registers.Set takes without a panic |
| SparseWords.SameIndexOrder | types/sparse/sparse.go:26-39 | for words with one p'-index, comparing the rho' that decodeHashForMerge returns orders the decoded rho values, also for words without a stored rho |
| PackedBits.GetPutSame | types/register/registers.go:43-98 | a register reads back what was written, in bounds also at the last byte |
| PackedBits.GetPutOther | types/register/registers.go:43-98 | writing a register changes no other register, not even one sharing a byte |
| PackedBits.PutGet | types/register/registers.go:43-98 | writing back the current value changes no byte |
| PackedBits.UnpackPut | types/register/registers.go:43-81 | for every size the packed bytes refine a sequence: Set is a sequence update |
| PackedBits.UnpackInjective | types/register/registers.go:123-137 | for sizes divisible by four the registers determine the bytes |
| Counters.SumUpdate | dataclasses/sum.go:32-71 | changing one register changes the sum of 2^-reg and the number of zeros by exactly what ChangeSum, Inc and Dec add |
| Counters.WeightInverse | dataclasses/sum.go:66-71 | the weight of a register times 2^register is 1 |
| Counters.ZerosReadable | dataclasses/zerocounter.go:45-53 | the uint16 counter shows the number of zero registers exactly below 65536; always for p <= 15 |
| Counters.EmptyReadsAsFull | dataclasses/zerocounter.go:45-53 | a counter of 65536 zero registers, as in an empty sketch at p = 16, reads 0 |
| Counters.Sum.ChangeSum | dataclasses/sum.go:66-71 | moves the sum by the two exact weights |
| Counters.Sum.Reset | dataclasses/sum.go:53-57 | the sum of an all-zero register set of the configured precision |
| Counters.ZeroCounter.Inc | dataclasses/zerocounter.go:36-38 | one up modulo 2^16 as read, for the atomic 32-bit and the plain 16-bit counter |
| Counters.ZeroCounter.Dec | dataclasses/zerocounter.go:40-42 | one down modulo 2^16 as read, including the atomic wrap-around |
| PackedRegisters.Registers.constructor | types/register/registers.go:18-41 | all registers zero; counters exact if and only if the size is 2^precision |
| PackedRegisters.Registers.Set | types/register/registers.go:43-81 | updates one register of the sequence and the very bytes, and keeps exact counters exact |
| PackedRegisters.Registers.Get | types/register/registers.go:83-98 | the register value, at most 63 |
| PackedRegisters.Registers.Reset | types/register/registers.go:116-122 | all registers zero; counters exact if and only if the size is 2^precision |
| PackedRegisters.Registers.GetDataCopy | types/register/registers.go:123-130 | bytes that unpack to the registers |
| PackedRegisters.Registers.SetData | types/register/registers.go:131-137 | takes over the bytes if and only if their number fits, else changes nothing |
| PackedRegisters.Registers.Recalculate | types/register/registers.go:138-156 | makes both counters exact from any state, so import after export restores them |
| DenseHll.DenseSet.Insert | types/hll/HLL.go:22-38 | raises one register to the hash's rho; the bytes change as RecordEntry says |
| DenseHll.DenseSet.SetRegisterMax | types/hll/HLL.go:40-49 | raises one register to the given rho |
| DenseHll.DenseSet.GetElements | types/hll/HLL.go:61-128 | the estimate is a function of the precision, the exact harmonic sum of the registers and the number of zeros modulo 2^16 |
| DenseHll.DenseSet.Merge | types/hll/HLL.go:181-199 | pointwise maximum, also for a set merged with itself |
| DenseHll.DenseSet.GetRegisters | types/hll/HLL.go:201-203 | bytes that unpack to the registers |
| DenseHll.DenseSet.SetRegisters | types/hll/HLL.go:204-221 | loads bytes of the right length with exact counters, reports any other length without change |
| SparseLists.MergeKeeps | types/sparse/sparse.go:229-277 | without any order a merge invents no word and drops one only for a kept word with the same p'-index and no smaller rho' |
| SparseLists.MergePreservesMap | types/sparse/sparse.go:286-316 | a merge of genuine words keeps them genuine and gives the pointwise maximum of the two register maps |
| SparseLists.MergeSortedIff | types/sparse/sparse.go:247-273 | the result is strictly ordered by p'-index exactly when both inputs are |
| SparseLists.DuplicateIndexSurvives | types/sparse/sparse.go:241-275 | a flush of genuine words into a genuine list whose result holds one index twice |
| SparseLists.SameWordTwice | types/sparse/sparse.go:241-275 | two flushes of three different genuine words leave a list of four |
| SparseLists.SortedOrderIff | types/sparse/sparse.go:241 | sorting the waiting words as raw numbers puts them in index order exactly when no two of them clash |
| SparseLists.FlushOrderedIff | types/sparse/sparse.go:229-277 | a flush leaves the list in strict index order exactly when the list was and no two waiting words clash |
| SparseLists.LengthCountsIndices | types/sparse/sparse.go:143 | the length of a list is never below its number of indices and equals it exactly when no index occurs twice |
| SparseLists.FlushCounts | types/sparse/sparse.go:131-144 | without a clash, a flushed list in order is as long as there are indices in the list and the waiting words together |
| SparseLists.AscendingUnique | types/sparse/sparse.go:241 | sorting a set of words has one result |
| SparseHll.SortWords | types/sparse/sparse.go:233-241 | collects a set of words in increasing numerical order |
| SparseHll.MergeLoop | types/sparse/sparse.go:247-273 | the two-pointer loop computes MergeLists, the first argument's word winning a tie |
| SparseHll.SparseSet.Insert | types/sparse/sparse.go:58-74 | adds the encoded hash and flushes from m/8 waiting words on |
| SparseHll.SparseSet.MergeTempSet | types/sparse/sparse.go:229-277 | flushes the waiting words into the list |
| SparseHll.SparseSet.GetElements | types/sparse/sparse.go:131-144 | flushes without a conversion test; zero for an empty list, else linear counting from the length of the list |
| SparseHll.SparseSet.MergeSparse | types/sparse/sparse.go:286-316 | merges the lists, the receiver winning ties |
| SparseHll.SparseSet.MergeIntoDense | types/sparse/sparse.go:212-222 | raises the dense registers to the pointwise maximum with the list's register map, in any order, without a panic |
| SparseHll.SparseSet.SetSortedList | types/sparse/sparse.go:279-284 | takes over any list with nothing waiting; the set is valid exactly if its words are genuine |
| SparseHll.SparseSet.Reset | types/sparse/sparse.go:317-324 | empties the set |
| RegisterMap.MutuallyBelow | types/hll/hllpp_set.go:82-88 | entry sets that dominate each other stand for the same registers |
| RegisterMap.SpecRegsInsert | types/hll/HLL.go:22-38 | one more hash raises one register of the specification |
| RegisterMap.SpecRegsUnion | types/hll/HLL.go:181-199 | the register map of a union is the pointwise maximum |
| Sketches.InsertMeans | types/hll/hllpp_set.go:38-62 | in either format, and whether or not it flushes or converts, Insert raises exactly the register of the hash |
| Sketches.DensifyMeans | types/hll/hllpp_set.go:65-95 | conversion to dense keeps the register map |
| Sketches.FlushMeans | types/sparse/sparse.go:229-277 | flushing keeps the register map |
| Sketches.MergeMeans | types/hll/hllpp_set.go:154-237 | in all four format arms the receiver becomes the pointwise maximum and the argument keeps its map |
| Sketches.ResetMeans | types/hll/hllpp_set.go:239-259 | a reset sketch stands for no hashes, although a dense one stays dense |
| Sketches.InsertCompact | types/hll/hllpp_set.go:45-57 | a sketch still sparse after Insert has list plus waiting words below 6m/(p+11) + m/8, whatever flushes came before |
| Sketches.FlushCompact | types/sparse/sparse.go:131-144 | flushing without a conversion test stays within the bound |
| Sketches.MergeCompact | types/hll/hllpp_set.go:200-209 | a sketch still sparse after a merge is within the bound |
| Sketches.EstimateMeans | types/hll/hllpp_set.go:128-134 | the estimate of a dense sketch depends on its set of hashes alone; that of a sparse one is 0 without any hash, else linear counting in 2^25 buckets with the p'-indices of none of its hashes as the empty ones, less the surplus words, of which there are none exactly when no index occurs twice |
| Sketches.InsertConvertsIff | types/hll/hllpp_set.go:38-62 | Insert flushes from m/8 waiting words on, and converts exactly when the list then has at least 6m/(p+11) words |
| Sketches.MergeConvertsIff | types/hll/hllpp_set.go:154-237 | a merge leaves a dense receiver exactly when one of the two is dense or the merged list has at least 6m/(p+11) words; reset and flush keep the format |
| Sketches.LightStaysSparse | types/hll/hllpp_set.go:45-57 | over every run a sketch that was never given enough words to fill the dense registers, itself or through a partner, is still sparse with no more words than it was given |
| Sketches.FewHashesStaySparse | types/hll/hllpp_set.go:45-57 | if no index occurs twice in the list, fewer different hashes than that keep a sketch sparse, however often they repeat |
| Sketches.StepFaithful | types/hll/hllpp_set.go:38-324 | each operation on any of several sketches keeps all of them faithful to their hash sets, bounded, and while sparse with exactly the p'-indices of the hashes |
| Sketches.RunFaithful | types/hll/hllpp_set.go:38-324 | format transparency and memory bound over every run of Insert, GetElements, MergeSets, Reset and shipping |
| Sketches.SameHashesSameRegisters | types/hll/hllpp_set.go:154-237 | two runs that give a sketch the same hash set give it the same registers, so order, grouping and repetition of merges and inserts do not matter |
| Hllpp.HllppSet.constructor | types/hll/hllpp_set.go:27-36 | an empty sparse sketch |
| Hllpp.HllppSet.Insert | types/hll/hllpp_set.go:38-62 | moves the sketch as Sketches.Insert says, with the size test on the list only |
| Hllpp.HllppSet.ConvertToDense | types/hll/hllpp_set.go:65-95 | moves the sketch as Sketches.Densify says |
| Hllpp.HllppSet.GetElements | types/hll/hllpp_set.go:128-134 | flushes a sparse sketch, leaves a dense one, and returns the estimate of what is then stored |
| Hllpp.HllppSet.MergeSets | types/hll/hllpp_set.go:154-237 | merges in all four format arms; fails only on nil; a self-merge changes nothing; the argument keeps its storage |
| Hllpp.HllppSet.Reset | types/hll/hllpp_set.go:239-259 | clears in place in the current format |
| Hllpp.HllppSet.ExportSketch | types/hll/hllpp_set.go:261-295 | flushes and exports the list, or copies the packed registers, with both precisions |
| Hllpp.HllppSet.FromSketch | types/hll/hllpp_set.go:297-323 | succeeds exactly if the message has a body of the right length; the result holds exactly the list sent and is valid exactly if its words are genuine, and is then the sketch the message stands for |
| Hllpp.ImportUndoesExport | types/hll/hllpp_set.go:261-323 | every export can be imported and gives back exactly the sketch |
| Hllpp.DenseExportCanonical | types/hll/hllpp_set.go:285-295 | two dense sketches export the same bytes exactly when they have the same registers |
| Esp32.ByteIdentical | esp32/agent/hll.h:22-74 | for every sequence of hashes firmware and Go leave the same bytes |
| Esp32.EspDenotes | esp32/agent/hll.h:64-74 | the firmware's registers stand for exactly the hashes inserted |
| Esp32.Firmware.Get | esp32/agent/hll.h:22-31 | the value Go's Get reads from the same bytes |
| Esp32.Firmware.Set | esp32/agent/hll.h:33-48 | for every uint8, the bytes Go's Set would leave for its lower six bits |
| Esp32.Firmware.InsertIp | esp32/agent/hll.h:64-74 | one step of EspBytes, counting inserts modulo 2^32 |
| Esp32.Firmware.Reset | esp32/agent/hll.h:104-108 | an empty sketch, the next window id and no inserts |
| Windows.NextReflects | ddos/window/window.go:83-95 | every step keeps both sketches and both traffic records in agreement with the history |
| Windows.RunReflects | ddos/window/window.go:83-151 | after any run previous stands for exactly the hashes of the last completed window and current for those since the last rotation |
| Windows.TrafficConserved | ddos/capture/stats.go:13-23 | packets and bytes reported by rotations plus those still counted are all that were recorded |
| Windows.CompletedCount | ddos/window/window.go:165-173 | after any run, what counting the previous sketch returns is determined by the hashes of the last completed window, but for surplus words |
| Windows.TrafficStats.RecordPacket | ddos/capture/stats.go:13-16 | one packet and its bytes more, as uint64 |
| Windows.TrafficStats.Snapshot | ddos/capture/stats.go:19-23 | returns the counters and clears them |
| Windows.WindowManager.Insert | ddos/window/window.go:143-151 | inserts into the current sketch only |
| Windows.WindowManager.Rotate | ddos/window/window.go:83-95 | swaps the sketches, clears the new current one, snapshots the traffic |
| Windows.WindowManager.CurrentCount | ddos/window/window.go:154-162 | flushes the current sketch and returns its estimate |
| Windows.WindowManager.PreviousCount | ddos/window/window.go:165-173 | flushes the previous sketch and returns its estimate |
| Windows.WindowManager.ExportPreviousSketch | ddos/window/window.go:196-204 | exports the last completed window, with both precisions |
| StateMachine.AnomalyStateMachine.constructor | ddos/detector/statemachine.go:45-61 | starts NORMAL; settings out of range become 3, 5 and 0.6 |
| StateMachine.AnomalyStateMachine.Transition | ddos/detector/statemachine.go:64-106 | one step of Next on whether the score exceeds the threshold |
| StateMachine.AnomalyStateMachine.ForceState | ddos/detector/statemachine.go:116-122 | the state as given with both counters cleared |
| StateMachine.CountersAreSuffixes | ddos/detector/statemachine.go:70-103 | each counter is the length of the current run of anomalous or clean scores and below its limit |
| StateMachine.CountersRefineHistory | ddos/detector/statemachine.go:64-106 | the machine with counters is in the state a definition on the bare history gives |
| StateMachine.DocumentedIff | ddos/detector/statemachine.go:44-61 | the documented rule, NORMAL again after recoveryConfirm clean verdicts, is kept on every history if and only if recoveryConfirm >= 2 |
| StateMachine.OneCleanVerdictIsNotEnough | ddos/detector/statemachine.go:84-103 | with attackConfirm and recoveryConfirm 1, one anomalous and one clean score leave the machine in RECOVERY |
| StateMachine.DocumentedBroken | ddos/detector/statemachine.go:84-103 | the same for every attackConfirm, one clean score after the first confirmed attack |
| StateMachine.EntriesTakeTime | ddos/detector/statemachine.go:64-106 | k entries into UNDER_ATTACK take at least k*attackConfirm + (k-1)*max(2, recoveryConfirm) scores |
| StateMachine.BoundAttained | ddos/detector/statemachine.go:64-106 | for every k a history that enters k times in exactly that many scores |
| RateLimiting.PerAddressBound | ddos/mitigation/ratelimiter.go:92-131 | from any state an address passes at most L + d*ceil(L/2) times over d decays without a reset, for L < 65535 |
| RateLimiting.PerAddressBoundAttained | ddos/mitigation/ratelimiter.go:92-131 | for every L < 65535, number of decays and address a run from cleared counters in which exactly that many requests pass |
| RateLimiting.LimitBindsIff | ddos/mitigation/ratelimiter.go:78-111 | the per-address limit can deny a request with a token available exactly when it is below 65535 |
| RateLimiting.PassesIff | ddos/mitigation/ratelimiter.go:78-115 | a request passes exactly when the refilled bucket has a token and some row's counter of the address, counting this request, is within the limit; passing takes one token, denial none |
| RateLimiting.VerdictExact | ddos/mitigation/ratelimiter.go:78-131 | from cleared counters on, an address alone in some row passes exactly when it has a token and its own exact count, with this request, is within the limit |
| RateLimiting.EstimateBrackets | ddos/mitigation/ratelimiter.go:78-131 | an estimate dominates an exact counter with the same saturation and halvings and equals it when one row has no collision |
| RateLimiting.GlobalBound | ddos/mitigation/ratelimiter.go:56-67 | tokens stay within the bucket, and passes plus tokens left are paid by the initial tokens, the refill over elapsed time and one bucket per reset |
| RateLimiting.RefillLevel | ddos/mitigation/ratelimiter.go:56-67 | one refill adds rate times elapsed time up to the maximum; a clock that has not moved on adds nothing |
| RateLimiting.IdleLevel | ddos/mitigation/ratelimiter.go:56-67 | over any stretch in which no request passes the bucket is at min(maximum, tokens + rate * elapsed), however often it is refilled in between |
| RateLimiting.ResetMeans | ddos/mitigation/ratelimiter.go:134-144 | a reset leaves a full bucket, all counters zero and the drop count as it was |
| RateLimiting.PassedOrDropped | ddos/mitigation/ratelimiter.go:94-115 | the drop counter counts exactly the requests that did not pass |
| RateLimiting.RateLimiter.constructor | ddos/mitigation/ratelimiter.go:39-53 | half a bucket of tokens, cleared counters, defaults for a missing rate or limit |
| RateLimiting.RateLimiter.CmsIncrement | ddos/mitigation/ratelimiter.go:78-90 | adds one in every row, saturating, and returns the minimum over the rows |
| RateLimiting.RateLimiter.ShouldAllow | ddos/mitigation/ratelimiter.go:94-115 | one Decide step: token test first, then the per-address test on the incremented counts |
| RateLimiting.RateLimiter.DoRefill | ddos/mitigation/ratelimiter.go:56-67 | adds the earned tokens up to the maximum; a clock that stands still changes nothing |
| RateLimiting.RateLimiter.DecayCMS | ddos/mitigation/ratelimiter.go:123-131 | halves every counter and nothing else |
| RateLimiting.RateLimiter.Reset | ddos/mitigation/ratelimiter.go:134-144 | clears the counters, fills the bucket, keeps the drop count |
| Mitigation.PerformCoupled | cmd/agent/main.go:122-157 | every tick, command, arrival and decay keeps mitigation on exactly outside NORMAL and the counters zero while it is off |
| Mitigation.AlwaysCoupled | ddos/mitigation/controller.go:47-73 | the coupling over every run, so no count carries from one attack episode to the next |
| Mitigation.UpdateMeans | ddos/mitigation/controller.go:47-60 | from any state an update is on exactly outside NORMAL and restarts the limiter exactly when it switches off |
| Mitigation.TicksDriveMachine | cmd/agent/main.go:123-157 | over every run without a forced state the machine is the one the verdicts of the ticks lead to |
| Mitigation.ForcedSteps | cmd/agent/main.go:143-148 | a detector's attack leads to UNDER_ATTACK from everywhere, an active command from NORMAL only; an inactive one changes nothing |
| Mitigation.LimiterAgrees | cmd/agent/main.go:272-283 | over every run the limiter is the one that the arrivals outside NORMAL, the decays and the returns to NORMAL lead to |
| Mitigation.VerdictAgrees | ddos/mitigation/controller.go:64-73 | after every run an arrival passes exactly when the agent is NORMAL, which leaves the limiter alone, or that limiter lets it pass |
| Mitigation.NormalAdmitsAll | ddos/mitigation/controller.go:64-73 | while the agent stays in NORMAL every arrival passes and the limiter does not change |
| Mitigation.EpisodeBound | ddos/mitigation/controller.go:64-73 | while the agent stays outside NORMAL an address gets at most L + d*ceil(L/2) packets through over d decays |
| Mitigation.MitigationController.UpdateState | ddos/mitigation/controller.go:47-60 | switches on outside NORMAL; on return to NORMAL resets the limiter if it was on |
| Mitigation.MitigationController.ShouldAllow | ddos/mitigation/controller.go:64-73 | lets everything pass while off, else asks the limiter |
| Mitigation.AgentLoop.TickEnsemble | cmd/agent/main.go:125-136 | one ensemble tick is one EnsembleTick step |
| Mitigation.AgentLoop.TickDetector | cmd/agent/main.go:143-157 | one plain tick: attack forces the state, calm counts as score zero |
| Mitigation.AgentLoop.PollDefense | cmd/agent/main.go:396-411 | a command only escalates from NORMAL |
| Aggregation.VoteCorrect | cmd/aggregator/main.go:339-377 | after a correlation the table is exactly the latest report since the last reset of each node not stale, and defence is active iff not in grace, the table is non-empty and at least half of it is UNDER_ATTACK |
| Aggregation.CorrelateMeans | cmd/aggregator/main.go:339-377 | from any state a correlation keeps exactly the reports at most staleTimeout old and activates defence iff the grace period is over and at least half of a non-empty rest is UNDER_ATTACK |
| Aggregation.TableAgrees | cmd/aggregator/main.go:126-140 | between correlations a latest report is missing from the table only if it is stale |
| AggregatorServer.Server.constructor | cmd/aggregator/main.go:95-102 | no nodes, no defence, an empty sketch, 70 seconds of grace |
| AggregatorServer.Server.MergeSketch | cmd/aggregator/main.go:105-143 | a decodable sketch is absorbed and a named node's report recorded; a bad message changes nothing |
| AggregatorServer.Server.GetDefenseCommand | cmd/aggregator/main.go:146-154 | returns the current defence state |
| AggregatorServer.Server.HandleReset | cmd/aggregator/main.go:297-322 | a fresh sketch and table, no defence, and the start of the grace period |
| AggregatorServer.Server.RunCorrelation | cmd/aggregator/main.go:339-377 | one Correlate step; the score is the table's maximum and the reason matches the verdict |
| AggregatorServer.Server.DetectionTick | cmd/aggregator/main.go:468-471 | returns the estimate of the global sketch, clears it and leaves the vote alone |
| AggregatorServer.DropStale | cmd/aggregator/main.go:343-348 | keeps exactly the reports not older than the timeout |
| AggregatorServer.CountAttacked | cmd/aggregator/main.go:350-360 | counts the nodes under attack and finds the largest score |
| AggregatorServer.AbsorbFaithful | cmd/aggregator/main.go:109-118 | the global sketch stands for the union of its hashes and the incoming ones |
| AggregatorServer.ShippedWindowAbsorbed | cmd/agent/main.go:345-392 | what an agent ships after any run adds exactly the hashes of its last completed window to the global sketch |
| AggregatorServer.ShipmentHonest | cmd/agent/main.go:345-392 | what an agent ships after any run decodes to a sketch of exactly the hashes of its last completed window |
| AggregatorServer.GlobalFaithful | cmd/aggregator/main.go:105-143 | over every run of deliveries, detection ticks and resets the global sketch stands for exactly the hashes received since it was last cleared |
| AggregatorServer.RedeliveryIdle | cmd/aggregator/main.go:105-118 | delivering a message again changes no register of the global sketch |
| Protocol.Grounded | cmd/agent/main.go:123-142 | in any interleaving with delay, loss and duplication, no agent, message, table entry or defence state shows an alarm before some agent had attackConfirm anomalous scores in a row |
| Protocol.QuietStep | cmd/aggregator/main.go:126-154 | each single step keeps that, or confirms an agent |
| Protocol.BackedUntilActivation | cmd/agent/main.go:123-142 | in any interleaving before the first activation, every agent away from NORMAL, and every agent named by another report than NORMAL in flight or in the table, has itself had attackConfirm anomalous scores in a row |
| Protocol.FirstActivation | cmd/aggregator/main.go:339-377 | the first activation is a correlation over a non-empty fresh table at least half of which are agents that have each been confirmed |
| Protocol.ReportArrives | cmd/aggregator/main.go:126-140 | a report shipped and delivered is what the table holds for its node, and nothing else changes |
| Protocol.CommandArrives | cmd/agent/main.go:396-411 | a poll answered and delivered forces an agent in NORMAL exactly when defence is active, and touches no other |
| Protocol.AlarmActivates | cmd/aggregator/main.go:339-377 | an attacked agent's report that makes half of the fresh table attacked turns defence on at the next correlation outside a grace period |
| Welford.RefinesTwoPass | ddos/detector/loda.go:113-120 | over exact reals mean times count is the sum and m2 the sum of squared deviations from that mean |
| Welford.VarianceIsSampleVariance | ddos/detector/loda.go:67-74 | the variance is the non-negative sample variance, zero below two samples |
| Welford.LodaStatistics.Observe | ddos/detector/loda.go:113-120 | every feature takes one step of the recurrence |
| HalfSpaceTrees.InsertCounts | ddos/detector/hst.go:94-107 | inserting in place is counting one more sample at the nodes it is routed to |
| HalfSpaceTrees.SwapCounts | ddos/detector/hst.go:110-118 | swapping in place makes the current counts the reference counts |
| HalfSpaceTrees.RunCounts | ddos/detector/hst.go:73-91 | over every run each node's masses are the numbers of samples of the current and the last full window routed to it |
| HalfSpaceTrees.WindowsAreRecent | ddos/detector/hst.go:84-90 | those two windows are the most recent samples of the history |
| HalfSpaceTrees.MassConserved | ddos/detector/hst.go:73-91 | inner masses are sums over the children, roots hold samplesSeen < windowSize, trained references a full window |
| HalfSpaceTrees.ScoreBounded | ddos/detector/hst.go:141-166 | a score lies between 0 and the weights of the levels below |
| HalfSpaceTrees.ScoreIsCellScore | ddos/detector/hst.go:141-166 | a score is the sum over the levels k of 2^k times abs(c-r)/(c+r), where c and r count the samples of the two windows on the same side as the scored one at each of the first k splits it meets |
| HalfSpaceTrees.ScoreAtMost63 | ddos/detector/hst.go:141-166 | a tree of depth at most five scores between 0 and 63 |
| HalfSpaceTrees.CountHeight | ddos/detector/hst.go:94-118 | counting samples leaves the height of a tree as it is |
| HalfSpaceTrees.RunScoresAtMost63 | ddos/detector/hst.go:73-91 | after every run of updates each tree still scores between 0 and 63 |
| HalfSpaceTrees.RunForestScore | ddos/detector/hst.go:121-136 | after every run the detector's average is between 0 and 63, and zero before the first full window |
| HalfSpaceTrees.RunForestScoreIsCells | ddos/detector/hst.go:121-136 | after every run the detector's score is zero before the first full window and then the average of those sums over the trees for the two most recent windows |
| HalfSpaceTrees.Deviation | ddos/detector/hst.go:147-156 | the relative deviation is within [0, 1], zero exactly for equal masses, one exactly when one of them is empty |
| HalfSpaceTrees.HstNode.InsertSample | ddos/detector/hst.go:94-107 | the node objects change as Insert says |
| HalfSpaceTrees.HstNode.SwapMasses | ddos/detector/hst.go:110-118 | the node objects change as Swap says |
| HalfSpaceTrees.HstNode.ScoreSample | ddos/detector/hst.go:141-166 | the recursion over the node objects returns Score of the tree they form |
| HalfSpaceTrees.DrawnIsEmpty | ddos/detector/hst.go:60-70 | the tree of any draws has full depth, all masses zero and admissible split dimensions |
| HalfSpaceTrees.Build | ddos/detector/hst.go:60-70 | separate nodes forming exactly the tree whose splits are the given draws |
| HalfSpaceTrees.HstDetector.constructor | ddos/detector/hst.go:45-57 | five empty trees of depth five; windows below 20 become 50 |
| HalfSpaceTrees.HstDetector.UpdateWith | ddos/detector/hst.go:73-91 | one Update step on all trees |
| HalfSpaceTrees.HstDetector.ScoreWith | ddos/detector/hst.go:123-136 | the loop over the trees returns ForestScore of the detector's state |

## Left out

- Locks, atomics and goroutine races: each public method is one step. The sparse-sparse overflow path takes a mutex it already holds; that deadlock is outside the lock-erased model.
- Cardinality estimates: the floating-point formulas (raw estimate, bias correction, linear counting) are arbitrary functions (`Counters.Estimators`) of the values the code passes to them; their accuracy is left out.
- Float rounding in the harmonic sum, the token bucket, Welford and the trees: these are exact reals here.
- Hash functions and address parsing: hashes are arbitrary numbers, the FNV columns an arbitrary function.
- HTTP shipping (cmd/agent/main.go, handleHTTPMerge): it sends zero registers while the sketch is sparse, so the union theorem covers the gRPC route.
- Hllpp.HllppSet.FromSketch: the precision fields of the message are not a parameter, since the code does not read them.
- AggregatorServer.Server.MergeSketch: requires the words of a sparse message to be ones that EncodeHash produces. The code checks none, but it merges by the order of genuine words, and words outside SparseWords.StorableIff panic once they are decoded into dense registers.
- AggregatorServer.Server.HandleReset: clearing the history of a z-score detector is left out with that detector.
- AggregatorServer.Server.DetectionTick: returns the count and stops there; the detector it is handed to is not part of this model.
- Hllpp.HllppSet.MergeSets: the error returns for a missing inner set are not modelled, because the invariant of the object rules them out.
- SparseHll.SparseSet.MergeTempSet: stands for the source's MergeTempSet and mergeTempSetNoLock, which differ only in when they clear the set; MergeSparse likewise for its two copies.
- Int32 node masses: masses stay at most windowSize, so they only overflow for windows of 2^31 samples.
- LODA projections, histograms and scores, the square root in normalize, ensemble weights, sigmoid, z-score, EWMA and threshold detectors, classification, temporal buffer: numerics or single-branch rules.
- Protocol.Grounded: like the other Protocol theorems it covers agents in ensemble mode only; a plain detector or a foreign reporter can raise an alarm without confirmation.
- NSG calls, Prometheus metrics, packet capture, gRPC, JSON and base64 transport, firmware display and network code, benchmarks, plots and dataset scripts.
