# Korith: decoding, caching and scheduling, in Dafny

Models of the parts of Korith whose correctness is a statement about whole executions, with proofs.

* **Speculative decoding V2** (`Llama.dfy`, `DynK.dfy`, `SpecV2.dfy`): draft, verify, roll back, correct. Whatever the draft
  model proposes and whichever decode fails, the output is a prefix of plain greedy decoding of the target, and without failures
  all that was asked for. The draft length is a function of the rounds as they happened: so many proposals, the draft's own
  greedy choices, and as many of them accepted as the target agrees with.
* **Compressed slab pool** (`SlabLayer.dfy`, `PoolModel.dfy`, `PoolEviction.dfy`, `Compaction.dfy`, `SlabPool.dfy`):
  contiguous-span allocation, score-based eviction, rollback, byte-level slab writes and in-place compaction. Free list and live
  spans partition every layer exactly while nothing is lost to an insertion that raised, the outcome of every insertion is
  determined, what it evicts is one worst entry after another while the layer being filled has no room, and no operation
  changes a byte of a surviving entry.
* **Tiered router** (`LmCache.dfy`, `TieredRouter.dfy`): what a lookup may return after any stores, evictions, failed inserts
  and promotions, why it misses, over every sequence of operations, and the sums of its counters.
* **AMF store** (`Fnv.dfy`, `AmfModel.dfy`, `AmfStore.dfy`, `AmfLifetime.dfy`, `AmfPolicy.dfy`, `AmfFnv.dfy`): an index over an
  entry vector with byte accounting, tiered budget eviction, expiry, longest-prefix lookup, checksums, and writes that may fail
  half-way. How long what was stored is found again, which entry goes first, and when admissions close are stated over several
  operations.
* **Warm start** (`WarmStart.dfy`): prompt evaluation over that store. When a prompt succeeds is exact, and a prompt restored from
  an entry that is not suspect ends in the state of a cold decode of the whole prompt.
* **Scheduler step** (`Scheduler.dfy`, `SchedulerMoves.dfy`): the depth controller with its packed, wrapping counters: the moves of
  each lane, hysteresis, depth range, bounded escape from depth 1 and from starvation.
* **AMFK snapshot** (`Amfk.dfy`): the binary snapshot of a paged KV cache, its layout byte by byte, parse and scatter.

What is outside Korith is a parameter: a network is a function from the cells a token attends to, to a row of logits; the codec
of a KV state is a pair of functions that round-trip on the states prompts lead to, and such a pair exists for every network
(`WarmStart.SomeCodec`); tensor compression is a function that may refuse. Clocks, decode failures, failed writes and removals,
the disk guard and free disk space are not determined; ghost counters record the failures, so that success can be stated
exactly. Calls are atomic, as the locks make them. The AMF store is stated for every hash that folds a step over its input; FNV
is one of them, and what only holds of FNV is proved of FNV.

Where a promise fails for some input, a member shows the input and a contract says for which inputs it fails.

* A prefix with more layers than the pool raises after spans were taken, and nobody returns them
  (`SlabPool.LeakedBlock`). Free list and live spans still partition every layer exactly when nothing was lost
  (`SlabPool.CompressedVRAMPool.PartitionedIff`), which after an insertion into a whole pool means that the prefix has no more
  layers than the pool, or does not fit (`SlabPool.CompressedVRAMPool.PutIntoWhole`). Compaction frees what was lost.
* A write of a token or KV file that stops half-way can leave an entry whose token file names tokens its bytes were not offered
  for, and a lookup is then misled (`AmfFnv.MisledHit`, with an FNV collision). The store's `suspect` set holds exactly the keys
  of such entries: a hit is backed by its KV file if and only if its key is not in it (`AmfStorage.AmfStore.HitIsSound`).
* Replacing an entry by a larger one keeps a map iterator across the eviction loop. When that loop evicts anything, as it does
  whenever the critical mark is passed (`AmfStorage.CriticalCrowds`), and both files are then written, the behaviour is
  undefined (`Dangling`); `AmfStorage.AmfStore.StoreEntry` says exactly when the loop evicts.
* A checksum of zero is not checked (`AmfModel.OneByteCorruptionRejected`), and some blob has it (`AmfFnv.ZeroChecksum`).
* Under a policy that does not mirror every store, LMCache may hold an older KV of a hash, which a lookup then returns
  (`TieredRouter.TieredCacheRouter.StaleRead`) and promotes. A pool hit is the latest KV exactly when the KV its entry was made
  from is (`TieredRouter.TieredCacheRouter.Lookup`).
* The capacity test of a prompt sees only what is still to be decoded, so a stored prefix can let a prompt through that is too
  long to be decoded cold (`WarmStart.CapacityVerdicts`).
* The scheduler passes a zero depth through its hold branch (`Scheduler.ZeroDepthPassesThrough`, `Scheduler.DepthRange`), and a
  step that is not ready drops the depth without recording the change (`Scheduler.UnreadyEscapesHysteresis`).
* Better signals in the same lane never give a smaller depth, except from depth 1, where bad signals force the depth up to 2
  (`SchedulerMoves.PoorBeatsFair`, `SchedulerMoves.MonotoneIff`).
* The documentation of `_allocate` says it allocates one block per layer; the code allocates a span per layer, and so does the
  model.

## Model

| member | source | states |
|---|---|---|
| `Llama.RemoveTail` | core/spec_v2.cpp:370-378 | removing all positions from some point on leaves exactly the cache of the first tokens |
| `Llama.ArgMax` | core/spec_v2.cpp:31-42 | the lowest index of the largest logit |
| `Llama.Greedy` | core/spec_v2.cpp:31-42 | the null token exactly for a null pointer or an empty vocabulary |
| `Llama.GreedySample` | core/spec_v2.cpp:31-42 | the one-pass scan finds the first maximum |
| `DynamicK.KBounds` | core/spec_v2.cpp:82-125 | k stays in 2..12 over every history, and is 2 until the window is full |
| `DynamicK.KStep` | core/spec_v2.cpp:114-123 | one round moves k by at most one |
| `DynamicK.KFollows` | core/spec_v2.cpp:109-123 | after the warm-up one round moves k up exactly when more than 85 in 100 of the last 24 rounds' proposals were accepted, down when fewer than 55, within 2..12 |
| `DynamicK.FullAcceptanceReachesMax` | core/spec_v2.cpp:96-124 | whatever came before, rounds that accept all of two or more proposals raise k by one each after the first 23, up to 12 |
| `DynamicK.NoAcceptanceReachesMin` | core/spec_v2.cpp:96-124 | whatever came before, rounds that accept nothing lower k by one each after the first 31, down to 2 |
| `DynamicK.HoldsWrite` | core/spec_v2.cpp:98-101 | overwriting the oldest slot keeps the ring equal to the last rounds, rotated |
| `DynamicK.RotatedSums` | core/spec_v2.cpp:108-112 | the sums over the ring are those over the last 24 rounds, wherever the index stands |
| `DynamicK.DynK.constructor` | core/spec_v2.cpp:82-94 | an empty history |
| `DynamicK.DynK.Push` | core/spec_v2.cpp:98-101 | the ring buffers hold the extended history |
| `DynamicK.DynK.WindowRate` | core/spec_v2.cpp:108-113 | the rate of the last 24 rounds |
| `DynamicK.DynK.Record` | core/spec_v2.cpp:95-125 | appends a round to the history and keeps k equal to the function of the history |
| `SpecDecode.Target.GreedyIsPlain` | core/spec_v2.cpp:187-196 | a token list each of whose tokens is the target's greedy choice is what plain greedy decoding emits |
| `SpecDecode.Target.PlainGrows` | core/spec_v2.cpp:187-196 | plain decoding with a larger budget extends the smaller one's output |
| `SpecDecode.Target.PlainEnds` | core/spec_v2.cpp:188-191 | once the greedy choice ends generation, plain decoding emits nothing more at any budget |
| `SpecDecode.BatchRows` | core/spec_v2.cpp:256-306 | row i of the verification batch is the target's row after the text and the first i drafted tokens |
| `SpecDecode.CountAgreeing` | core/spec_v2.cpp:310-323 | the accepted count is the longest prefix of the draft the target agrees with, and the correction is the target's choice at the first disagreement |
| `SpecDecode.LongestOnce` | core/spec_v2.cpp:310-323 | at most one count is that of the longest agreeing prefix |
| `SpecDecode.SpecV2.constructor` | core/spec_v2.cpp:147-177 | a synchronised, unfinished session with no output |
| `SpecDecode.SpecV2.Emit` | core/spec_v2.cpp:193-195 | only the target's greedy choice is appended to the output, and a failed write appends nothing |
| `SpecDecode.SpecV2.TargetOnly` | core/spec_v2.cpp:203-222 | the fallback decode of one token resynchronises the target, or finishes on failure |
| `SpecDecode.SpecV2.FeedDraft` | core/spec_v2.cpp:202-215 | the draft cache follows the text unless a draft decode failed, and the draft is unusable only after a failure of the draft |
| `SpecDecode.SpecV2.Propose` | core/spec_v2.cpp:226-240 | the draft network's own greedy text from here, k tokens of it or up to where it ends generation, unless the draft fails; the draft cache is text plus proposal |
| `SpecDecode.SpecV2.Verify` | core/spec_v2.cpp:256-323 | after a successful batch the target cache holds text plus proposal, and the accepted count is that of the longest prefix the target agrees with |
| `SpecDecode.SpecV2.PrintAccepted` | core/spec_v2.cpp:327-336 | emits exactly the accepted tokens in order, never past the budget |
| `SpecDecode.SpecV2.Rollback` | core/spec_v2.cpp:367-379 | both caches hold exactly the text again: no rejected token survives |
| `SpecDecode.SpecV2.DecodeCorrection` | core/spec_v2.cpp:380-397 | the correction follows in both caches, or the session finishes on a target failure |
| `SpecDecode.SpecV2.Reject` | core/spec_v2.cpp:350-402 | after a mismatch: rolled back, the correction emitted unless it ends generation, synchronised unless finished |
| `SpecDecode.SpecV2.Accept` | core/spec_v2.cpp:338-348 | after full agreement the session is synchronised with the last row of the batch |
| `SpecDecode.SpecV2.Settle` | core/spec_v2.cpp:256-402 | verification and its outcome keep the output greedy; a round that is recorded has the longest agreeing count and adds exactly the accepted proposals and the target's correction; one that is not was cut short by a failure or the budget |
| `SpecDecode.SpecV2.Conclude` | core/spec_v2.cpp:338-402 | commit or roll back: the text grows by exactly the accepted proposals and the correction |
| `SpecDecode.SpecV2.Feed` | core/spec_v2.cpp:198-254 | draft and fallback paths: synchronised with nothing pending, or the draft's greedy choices, as many as k asks for, pending on synchronised caches |
| `SpecDecode.SpecV2.Lead` | core/spec_v2.cpp:183-254 | the guaranteed token is emitted first and is the target's greedy choice; then the draft proposes its greedy choices |
| `SpecDecode.SpecV2.Iterate` | core/spec_v2.cpp:179-407 | one turn emits a token or finishes, at most 13 tokens; it records exactly one round, the number proposed and the longest agreeing count, or none when nothing was proposed or the loop was left early; what it proposes is the draft's greedy text of length k |
| `SpecDecode.SpecV2.Step` | core/spec_v2.cpp:147-407 | the output after a call is plain greedy decoding of the same length; budgets hold, the call overshoots by at most 12; finishing with budget left and no failure means plain decoding is over too; the history grows by exactly the rounds decoded, each at its point of the text, and each turn proposes as much of the draft's greedy text as the history before it asks for |
| `SpecDecode.Session` | core/spec_v2.cpp:147-407 | every sequence of calls ends with a prefix of plain greedy decoding within the token budget; without failures it is as long as the calls ask, or ends at the budget or where plain decoding does |
| `SpecDecode.LoggedNext` | core/spec_v2.cpp:404-405 | a further round extends the log of rounds at a later point of the text |
| `SpecDecode.DraftedNext` | core/spec_v2.cpp:224-238 | a further turn drafted by the history before it extends the run |
| `Fnv.UnmixMix` | core/amf_store.cpp:118-129 | one hash step can be undone modulo 2^64 |
| `Fnv.MixIsLossless` | core/amf_store.cpp:118-129 | one hash step is injective in either argument |
| `Fnv.FoldInjective` | core/amf_store.cpp:118-123 | different running hashes stay different over any common continuation |
| `Fnv.OneByte` | core/amf_store.cpp:118-123 | blobs of equal length that differ in one byte have different checksums |
| `Fnv.OneToken` | core/amf_store.cpp:125-129 | prompts of equal length that differ in one token have different prefix hashes |
| `Fnv.RunningHash` | core/amf_store.cpp:118-123 | the byte or token loop computes the fold of the hash step |
| `Fnv.PrefixHashes` | core/amf_store.cpp:1356-1362 | the rolling hash of every prefix equals hashing that prefix from scratch |
| `AmfModel.SumRemove` | core/amf_store.cpp:1212-1217 | removing an entry lowers the byte total by exactly its bytes |
| `AmfModel.SumUpdate` | core/amf_store.cpp:1627-1634 | replacing an entry changes the byte total by the difference |
| `AmfModel.TrustedElsewhere` | core/amf_store.cpp:803-857 | whatever becomes of one key's files and offers, every other entry is trusted exactly as before |
| `AmfModel.TokenOf` | core/amf_store.cpp:125-129 | every 32-bit pattern is hashed for some 32-bit token |
| `AmfModel.OneByteCorruptionRejected` | core/amf_store.cpp:1435-1447 | a blob with one byte changed is loaded if and only if its stored checksum is zero |
| `AmfModel.UnexpiredExactly` | core/amf_store.cpp:1822-1850 | what the expiry sweep keeps is exactly the entries with no lease or a lease not passed, and no age limit or a last hit within it |
| `AmfStorage.EvictionRunShrinks` | core/amf_store.cpp:1322-1337 | a sequence of evictions removes one entry each and adds none |
| `AmfStorage.RemoveOne` | core/amf_store.cpp:1225-1234 | removing an entry removes that key and nothing else |
| `AmfStorage.FiledOnce` | core/amf_store.cpp:1365-1376 | at most one entry is filed under a prefix, the one the index names |
| `AmfStorage.RemoveMarked` | core/amf_store.cpp:1200-1234 | after an eviction, whether or not the files could be removed, the marks of the remaining entries are exact |
| `AmfStorage.RemarkKeeps` | core/amf_store.cpp:803-857 | whatever becomes of one key's files and offers, setting that key's mark anew makes all marks exact: marked if and only if a lookup would be misled |
| `AmfStorage.HarmlessLess` | core/amf_store.cpp:1616-1625 | a fault that can mark no key cannot after other entries went |
| `AmfStorage.CriticalCrowds` | core/amf_store.cpp:1607-1611 | past the critical mark every replacement that grows evicts under the kept iterator, whatever the clock shows |
| `AmfStorage.AmfStore.constructor` | core/amf_store.h:281-290 | an empty, valid store |
| `AmfStorage.AmfStore.Rebuild` | core/amf_store.cpp:1231-1234 | the refilled index is exactly the inverse of the entry vector |
| `AmfStorage.AmfStore.Erase` | core/amf_store.cpp:1205-1230 | the entry and its bytes go together, its files if they can be removed; the byte total is reduced by exactly the entry's bytes and never saturates, and no mark of another entry changes |
| `AmfStorage.AmfStore.EvictAt` | core/amf_store.cpp:1200-1246 | the whole new state of an eviction, a failing file removal included, the index again the inverse of the entries; an index out of range changes nothing |
| `AmfStorage.AmfStore.Pick` | core/amf_store.cpp:1248-1301 | the first entry of a tier than which none of the tier is a better victim, None exactly when the tier is empty |
| `AmfStorage.AmfStore.Victim` | core/amf_store.cpp:1325-1333 | cold before warm before hot, hot only past the critical mark; a victim exactly when one of these exists |
| `AmfStorage.AmfStore.EvictOnce` | core/amf_store.cpp:1325-1337 | one round: a justified victim goes, exactly when there is one, or there is room below the critical mark |
| `AmfStorage.AmfStore.EvictIfNeeded` | core/amf_store.cpp:1303-1340 | every eviction was justified when it happened, total plus incoming bytes end within budget, and something is evicted exactly when the bytes overflow the watermark and a victim exists at the first clock reading |
| `AmfStorage.AmfStore.EvictLoop` | core/amf_store.cpp:1322-1338 | the loop ends within budget, having evicted exactly when there was a victim at first |
| `AmfStorage.AmfStore.Discard` | core/amf_store.cpp:1383-1396 | a mid-lookup eviction takes one key and leaves every other entry and its files |
| `AmfStorage.AmfStore.TryLength` | core/amf_store.cpp:1364-1430 | one length: a verdict from a live entry filed under exactly these tokens, or every entry filed there belonged to another model or was past its lease, and is gone |
| `AmfStorage.AmfStore.FindLongestPrefix` | core/amf_store.cpp:1342-1433 | the result is what the store as it was answers, whatever stale entries go on the way; every entry filed under a prefix longer than where the scan stopped was stale and is gone, nothing else is; the early misses change nothing |
| `AmfStorage.AmfStore.ScanLengths` | core/amf_store.cpp:1364-1432 | the loop over ever shorter prefixes decides as the same scan on the store before it |
| `AmfStorage.AmfStore.AnswersAsBefore` | core/amf_store.cpp:1364-1430 | a verdict reached after stale entries went is the verdict of the store before |
| `AmfStorage.AmfStore.HitIsSound` | core/amf_store.cpp:1417-1429 | a hit's tokens are literally the query's first tokens and its lease has not passed; its bytes load and were offered for exactly these tokens if and only if its key is not suspect |
| `AmfStorage.AmfStore.MissIsExplained` | core/amf_store.cpp:1417-1429 | a live entry is a load failure exactly when it has no token file, a token mismatch exactly when the file names other tokens, else a hit |
| `AmfStorage.AmfStore.LoadKv` | core/amf_store.cpp:1435-1447 | the bytes of the KV file exactly when it is readable and its checksum is zero or agrees |
| `AmfStorage.AmfStore.EvictExpired` | core/amf_store.cpp:1817-1851 | keeps exactly the entries neither expired nor too old, in order |
| `AmfStorage.AmfStore.NoteHit` | core/amf_store.cpp:1669-1735 | the hit entry with its new lease, averages and streak, or its removal after too many low-ROI hits; admissions close after five declines in a row |
| `AmfStorage.AmfStore.Admit` | core/amf_store.cpp:1492-1575 | admission exactly when the disk guard and all the rules allow it |
| `AmfStorage.AmfStore.TearTokens` | core/amf_store.cpp:1616-1619 | the token file cut short, gone or untouched; the key is marked exactly when the entry under it would be taken for the tokens left in the file and its bytes were not offered for them |
| `AmfStorage.AmfStore.TearKv` | core/amf_store.cpp:1620-1625 | the KV file cut short or untouched, the token file removed or not; the key is marked exactly when the token file could not be removed and misleads |
| `AmfStorage.AmfStore.WriteFiles` | core/amf_store.cpp:1616-1625 | both files written exactly when no write fails, or a torn state in which exactly the misleading key is marked |
| `AmfStorage.AmfStore.Replace` | core/amf_store.cpp:1627-1649 | the entry is overwritten and the byte total moves by the difference |
| `AmfStorage.AmfStore.Append` | core/amf_store.cpp:1650-1654 | the entry is added last and indexed there |
| `AmfStorage.AmfStore.MakeRoom` | core/amf_store.cpp:1612-1614 | room for a new key, which stays new |
| `AmfStorage.AmfStore.Commit` | core/amf_store.cpp:1577-1654 | the new or renewed entry describes the files just written |
| `AmfStorage.AmfStore.WriteThrough` | core/amf_store.cpp:1616-1654 | it succeeds exactly when no write fails; a failed write changes neither entries, index nor byte total |
| `AmfStorage.AmfStore.HarmlessMarks` | core/amf_store.cpp:1616-1625 | a failed write marks a key only if a token file was torn and the prompt collides with its own prefix, or a KV file was torn and the token file stayed |
| `AmfStorage.AmfStore.GrowInPlace` | core/amf_store.cpp:1607-1611 | a larger replacement evicts exactly when the growth overflows and a victim exists |
| `AmfStorage.AmfStore.WriteDangling` | core/amf_store.cpp:1616-1628 | after an eviction under a kept iterator, a failed write is still defined and changes no entry |
| `AmfStorage.AmfStore.StoreExisting` | core/amf_store.cpp:1607-1649 | a replacement that evicts nothing stores these bytes within budget exactly when no write fails; one that evicts is undefined or a failed write |
| `AmfStorage.AmfStore.StoreNew` | core/amf_store.cpp:1612-1654 | a new key ends within budget after justified evictions only, and is stored exactly when no write fails |
| `AmfStorage.AmfStore.StoreEntry` | core/amf_store.cpp:1487-1667 | a defined store succeeds exactly when the disk guard and the admission rules allow it and no write fails; the whole new entry vector; success stores exactly these tokens and bytes; the budget is kept; refusal changes nothing; undefined behaviour only when a replacement evicts, and no defined success then; marks only by the two torn writes that can mislead |
| `AmfStorage.AmfStore.StoreAdmitted` | core/amf_store.cpp:1606-1667 | the same after the checks |
| `AmfLifetime.ScanShortens` | core/amf_store.cpp:1364-1430 | a hit of the scan from a length down is no longer than that |
| `AmfLifetime.FindWhole` | core/amf_store.cpp:1342-1433 | a whole prompt with its token file is found, or removed when stale |
| `AmfLifetime.StoreFresh` | core/amf_store.cpp:1487-1667 | a successful store under a new key leaves one new entry for the whole prompt |
| `AmfLifetime.StoreThenFind` | core/amf_store.cpp:1342-1667 | a prompt stored under a new key is found whole at every time up to the time of the store plus its TTL, and forever without a TTL; after that it is not found, and the lookup removes it |
| `AmfLifetime.Sweep` | core/amf_store.cpp:1817-1851 | the sweep keeps an entry exactly while its lease and the age limit allow |
| `AmfLifetime.StoreThenSweep` | core/amf_store.cpp:1487-1851 | a prompt stored under a new key survives the sweep exactly up to that deadline and the age limit |
| `AmfLifetime.HitThenSweep` | core/amf_store.cpp:1669-1851 | a hit renews the lease by the TTL of one more access, counted from the hit |
| `AmfPolicy.TierByAge` | core/amf_store.cpp:963-981 | hot exactly up to the hot TTL after the last access, warm after that exactly up to the warm TTL |
| `AmfPolicy.UnknownIsCold` | core/amf_store.cpp:963-972 | an entry never accessed, or accessed in the future, is cold |
| `AmfPolicy.OlderIsColder` | core/amf_store.cpp:963-981 | the entry touched earlier is never in a warmer tier |
| `AmfPolicy.VictimOfTier` | core/amf_store.cpp:1251-1300 | the victim of a tier is the least recently used, least often used or least valued there, as the policy says |
| `AmfPolicy.TiesOfTier` | core/amf_store.cpp:1263-1290 | equals go by access count or last access, and what is still equal goes in entry order |
| `AmfPolicy.LruTakesOldest` | core/amf_store.cpp:1248-1337 | under LRU every budget eviction takes the least recently used entry of the whole store |
| `AmfPolicy.HitTouches` | core/amf_store.cpp:1685-1702 | a hit makes the entry the most recently touched, counts once and keeps what identifies it |
| `AmfPolicy.HotOnlyCritical` | core/amf_store.cpp:1319-1333 | a hot entry is evicted only when more than 98 percent of the budget is to be held |
| `AmfPolicy.StoreTouches` | core/amf_store.cpp:1577-1649 | a new entry is touched when stored and never hit; a renewed one keeps its counts, times and averages and gets a new lease |
| `AmfPolicy.FirstAdmission` | core/amf_store.cpp:1492-1538 | a prompt not stored is admitted exactly when long enough, within budget and admissions are open |
| `AmfPolicy.UnprovenStaysOut` | core/amf_store.cpp:1539-1575 | under an ROI threshold a prompt stored and never restored since is not admitted again |
| `AmfPolicy.StoredIsAdmitted` | core/amf_store.cpp:1492-1546 | without a threshold a stored prompt is admitted again, even when admissions are closed |
| `AmfPolicy.RoiIsRatio` | core/amf_store.cpp:1678-1680 | ROI times the restore time is the time saved |
| `AmfPolicy.ScoreIsRatio` | core/amf_store.cpp:1251-1261 | an entry without an average ROI is scored by the ratio of its average times |
| `AmfPolicy.LowHitsCount` | core/amf_store.cpp:1718-1731 | low-ROI hits are counted in a row, and one at the threshold starts the count again |
| `AmfPolicy.SteadyAverage` | core/amf_store.cpp:174-182 | equal samples leave an average at that sample |
| `AmfPolicy.AverageMoves` | core/amf_store.cpp:174-182 | a sample moves an average a fifth of the way towards it |
| `AmfPolicy.StreakCounts` | core/amf_store.cpp:1703-1709 | the decline streak counts the hits in a row below the average |
| `AmfPolicy.Decline` | core/amf_store.cpp:1685-1716 | a hit below the average lowers it, and lengthens the streak |
| `AmfPolicy.FallingCloses` | core/amf_store.cpp:1669-1735 | five hits in a row of falling ROI close admissions |
| `AmfFnv.Collision` | core/amf_store.cpp:125-129 | two prompts, and a longer one that starts with the second, with one FNV hash |
| `AmfFnv.MisledHit` | core/amf_store.cpp:1405-1447 | stored first, torn third, looked up second: the lookup hits, the checksum agrees, and the bytes are those of another prompt |
| `AmfFnv.ZeroChecksum` | core/amf_store.cpp:118-123 | a blob of eight bytes whose checksum is zero |
| `WarmStart.ChunkAppend` | korith_c_api/korith.cpp:94-114 | decoding a chunk after a prefix is decoding the longer prefix |
| `WarmStart.SomeCodec` | korith_c_api/korith.cpp:367-381 | for every network there is a codec that reads back every state a prompt leads to |
| `WarmStart.CapacityVerdicts` | korith_c_api/korith.cpp:83-86 | loading a prefix never makes a prompt refused, and the cold and warm verdicts differ exactly when only the rest fits, or there is no rest and no batch size |
| `WarmStart.Korith.constructor` | korith_c_api/korith.cpp:27-30 | nothing evaluated yet |
| `WarmStart.Korith.FillBatch` | korith_c_api/korith.cpp:97-106 | the batch holds the chunk at consecutive positions and only the very last token asks for logits |
| `WarmStart.Korith.DecodeChunk` | korith_c_api/korith.cpp:95-114 | one chunk of at most the batch size appended at the current position, or nothing changed and a failed decode counted |
| `WarmStart.Korith.EnsureCapacityAndDecode` | korith_c_api/korith.cpp:78-118 | however chunked, success appends exactly the tokens and leaves the logits after the last; it fails exactly when the tokens are refused, changing nothing, or a decode failed |
| `WarmStart.Korith.Restore` | korith_c_api/korith.cpp:311-330 | the state is taken up exactly when the KV file loads as a state and no state load fails; then it succeeds exactly when the rest is not refused and no decode fails; loading the cold state of a prefix ends as a cold decode of the whole prompt |
| `WarmStart.Korith.Find` | korith_c_api/korith.cpp:304-309 | what is found is exactly the store's answer at that time; under a key that is not suspect it loads as the cold state of exactly the prompt's first tokens |
| `WarmStart.Korith.FromStore` | korith_c_api/korith.cpp:303-356 | an answer that can be loaded is loaded unless a state load fails, and then the prompt ends warm exactly when the rest is not refused and no decode fails; as if cold unless the key was suspect, and the hit is credited; misses leave the decoder empty |
| `WarmStart.Korith.Credit` | korith_c_api/korith.cpp:336-339 | the entry restored counts one more hit and access, or was dropped for low ROI |
| `WarmStart.Korith.OfferState` | korith_c_api/korith.cpp:367-381 | the cold state of the tokens is offered exactly when it is not empty and no read of it fails; only its own key can become suspect |
| `WarmStart.Korith.PromptTokens` | korith_c_api/korith.cpp:294-301 | the prompt's tokens, or the begin-of-sequence token for an empty one; none exactly when there is neither |
| `WarmStart.Korith.FromScratch` | korith_c_api/korith.cpp:358-387 | the cold path succeeds exactly when the prompt is not refused and no decode fails, and ends in the cold state; then it offers that state exactly when the store is ready and the prompt long enough |
| `WarmStart.Korith.DecodeCold` | korith_c_api/korith.cpp:361-364 | decodes exactly when not refused and no decode fails, to the cold state |
| `WarmStart.Korith.Tokenize` | korith_c_api/korith.cpp:278-392 | the prompt succeeds exactly when a model is loaded, it has tokens, they (or what a hit leaves of them) pass the capacity test and no decode fails; an answer of the store that can be loaded is the hit unless a state load fails; success, warm or cold, ends with the cache, position and logits of a cold decode of the whole prompt unless the entry restored was suspect; a cold prompt's state is offered exactly when the store is ready and it is long enough, and a hit is credited; only a failed write can make a key suspect, and only its own |
| `WarmStart.Korith.Evaluate` | korith_c_api/korith.cpp:303-392 | the same for the tokens of the prompt |
| `WarmStart.Korith.KeptServes` | korith_c_api/korith.cpp:303-314 | a whole prompt stored, unexpired and of this model is the store's answer, can be loaded and is not suspect |
| `WarmStart.Korith.TokenizeKept` | korith_c_api/korith.cpp:278-350 | such a prompt succeeds warm, whatever its length, in the state of a cold decode |
| `SlabLayer.TakeKeeps` | korith_vllm_ext/compressed_vram_pool.py:698-726 | taking a free span keeps free list and spans a partition of the layer |
| `SlabLayer.GiveBackKeeps` | korith_vllm_ext/compressed_vram_pool.py:728-729 | giving a whole span back keeps the partition |
| `SlabLayer.FreeCount` | korith_vllm_ext/compressed_vram_pool.py:786-819 | partitions with the same span lengths have equally many free blocks |
| `SlabLayer.FindRun` | korith_vllm_ext/compressed_vram_pool.py:711-726 | the lowest contiguous run of the requested length, None exactly when there is none |
| `PoolModel.NeededBounds` | korith_vllm_ext/compressed_vram_pool.py:657-661 | the block count covers the bytes and is the least that does |
| `PoolModel.ReleaseKeeps` | korith_vllm_ext/compressed_vram_pool.py:759-764 | releasing an entry keeps the partition on every layer: what is freed is what was allocated |
| `PoolModel.ReserveKeeps` | korith_vllm_ext/compressed_vram_pool.py:681-695 | a span reserved for an unfinished allocation keeps the partition |
| `PoolModel.CancelKeeps` | korith_vllm_ext/compressed_vram_pool.py:685-689 | rolling back a partial allocation restores the partition |
| `PoolModel.PartitionIff` | korith_vllm_ext/compressed_vram_pool.py:663-726 | free list and live spans partition a layer if and only if nothing was lost on it |
| `PoolModel.LoseKeeps` | korith_vllm_ext/compressed_vram_pool.py:698-704 | an allocation that raises keeps its spans: they are in no free list and nobody owns them |
| `PoolModel.CapacityExactly` | korith_vllm_ext/compressed_vram_pool.py:711-726 | a span can avoid what is lost exactly when it is within the capacity |
| `PoolModel.EmptyLayerFits` | korith_vllm_ext/compressed_vram_pool.py:663-726 | a layer without entries has a free run of a length exactly when that is within its capacity |
| `PoolModel.AdoptKeeps` | korith_vllm_ext/compressed_vram_pool.py:341-373 | an entry built from the allocation owns exactly its spans |
| `PoolModel.WriteApart` | korith_vllm_ext/compressed_vram_pool.py:731-757 | a write inside one span changes no byte of a blob in another |
| `PoolModel.SurvivesWrite` | korith_vllm_ext/compressed_vram_pool.py:731-757 | writing a new allocation stays inside its span and slab and preserves every stored blob |
| `PoolEviction.AgeRaises` | korith_vllm_ext/compressed_vram_pool.py:612-624 | the longer an entry went without a hit, the higher its score |
| `PoolEviction.HitsLower` | korith_vllm_ext/compressed_vram_pool.py:612-624 | the more it was hit, the lower |
| `PoolEviction.SizeRaises` | korith_vllm_ext/compressed_vram_pool.py:612-624 | the larger it is, the higher |
| `PoolEviction.SavingsLower` | korith_vllm_ext/compressed_vram_pool.py:612-624 | the more time it saves, the lower |
| `PoolEviction.AgeAndSizeCount` | korith_vllm_ext/compressed_vram_pool.py:615-624 | a second of age adds alpha and a mebibyte of size adds gamma |
| `PoolEviction.SavingsAndHitsCount` | korith_vllm_ext/compressed_vram_pool.py:616-624 | a millisecond saved takes delta off, and doubling the hits halves what beta adds |
| `PoolEviction.RoomIsGap` | korith_vllm_ext/compressed_vram_pool.py:698-726 | a layer has a free run exactly when some blocks belong to no entry and are not lost |
| `PoolEviction.EvictionRunJoins` | korith_vllm_ext/compressed_vram_pool.py:675-695 | the evictions for one layer and those for a later one are one run |
| `PoolEviction.EvictionRunShrinks` | korith_vllm_ext/compressed_vram_pool.py:642-645 | a run takes one entry each and leaves the others as they are |
| `PoolEviction.NoneForced` | korith_vllm_ext/compressed_vram_pool.py:679-690 | when every layer has room at first, a forced run is empty |
| `Compaction.SortOrders` | korith_vllm_ext/compressed_vram_pool.py:799-799 | the live blocks in order of position, none lost |
| `Compaction.SlideIsApart` | korith_vllm_ext/compressed_vram_pool.py:801-815 | a block slides only into space no block still to be moved occupies |
| `Compaction.SlideOneBytes` | korith_vllm_ext/compressed_vram_pool.py:804-815 | moving one block preserves its bytes at the new offsets and the bytes of every other block |
| `Compaction.SlideProgress` | korith_vllm_ext/compressed_vram_pool.py:800-815 | after any number of moves every live blob is intact where its entry says |
| `Compaction.CompactedLayer` | korith_vllm_ext/compressed_vram_pool.py:817-819 | live blocks tile the front, the rest of the layer is free, and the free count is unchanged |
| `Compaction.Reclaim` | korith_vllm_ext/compressed_vram_pool.py:817-819 | with everything lost put back, free list and owners partition the layer, with more free blocks exactly when something was lost |
| `Compaction.CompactWhole` | korith_vllm_ext/compressed_vram_pool.py:786-819 | with nothing lost, the free tail has the old size |
| `Compaction.CompactValues` | korith_vllm_ext/compressed_vram_pool.py:786-819 | compacting a layer keeps the pool consistent and every entry stored, leaving a contiguous free tail, larger than the old free list exactly when something was lost |
| `SlabPool.CompressedVRAMPool.constructor` | korith_vllm_ext/compressed_vram_pool.py:142-208 | an empty, valid pool |
| `SlabPool.CompressedVRAMPool.PartitionedIff` | korith_vllm_ext/compressed_vram_pool.py:663-726 | free lists and live spans partition every layer if and only if nothing is missing |
| `SlabPool.CompressedVRAMPool.AllocSpan` | korith_vllm_ext/compressed_vram_pool.py:698-726 | takes exactly the lowest free span of the requested length, or changes no membership when there is none |
| `SlabPool.CompressedVRAMPool.ReleaseEntry` | korith_vllm_ext/compressed_vram_pool.py:759-764 | every span of the entry goes back to its layer |
| `SlabPool.CompressedVRAMPool.EvictOne` | korith_vllm_ext/compressed_vram_pool.py:626-653 | evicts the first entry of highest score in insertion order, each score taken at its own clock reading, and nothing else; fails exactly when the pool is empty |
| `SlabPool.CompressedVRAMPool.EvictFor` | korith_vllm_ext/compressed_vram_pool.py:679-690 | an eviction for a layer without room takes the worst entry; with none left the layer cannot have room |
| `SlabPool.CompressedVRAMPool.Retry` | korith_vllm_ext/compressed_vram_pool.py:679-690 | one eviction, of the worst entry, then one more attempt at the layer |
| `SlabPool.CompressedVRAMPool.AllocateLayer` | korith_vllm_ext/compressed_vram_pool.py:679-690 | evicting one worst entry after another, each only while the layer has no room, a span is found exactly when it fits the layer around what was lost |
| `SlabPool.CompressedVRAMPool.RollBack` | korith_vllm_ext/compressed_vram_pool.py:685-689 | a failed allocation returns every span it took |
| `SlabPool.CompressedVRAMPool.Abandon` | korith_vllm_ext/compressed_vram_pool.py:698-704 | when the list of a missing layer is indexed, every span taken is lost and the pool is otherwise consistent |
| `SlabPool.CompressedVRAMPool.FillLayers` | korith_vllm_ext/compressed_vram_pool.py:675-695 | spans for the blobs of all layers there are, exactly when each fits around what was lost; what goes is a run of forced evictions, layer after layer |
| `SlabPool.CompressedVRAMPool.Allocate` | korith_vllm_ext/compressed_vram_pool.py:663-696 | no room exactly when some blob fits no run around what was lost, and then no entry is left; raises exactly when there are more blobs than layers and the others fit, losing what it took; everything that goes was the worst entry at its clock readings while the layer being filled had no room |
| `SlabPool.CompressedVRAMPool.WriteSlabs` | korith_vllm_ext/compressed_vram_pool.py:731-757 | each slab is overwritten by its blob's bytes at its offset and nowhere else |
| `SlabPool.CompressedVRAMPool.WriteAllocation` | korith_vllm_ext/compressed_vram_pool.py:731-757 | the new blobs are in the slabs and every surviving entry's bytes still are |
| `SlabPool.CompressedVRAMPool.Commit` | korith_vllm_ext/compressed_vram_pool.py:341-373 | the new entry joins the index and nothing else changes there |
| `SlabPool.CompressedVRAMPool.Insert` | korith_vllm_ext/compressed_vram_pool.py:327-384 | insertion of a new prefix: the exact condition of each outcome, stored bytes, the run of forced evictions and no other loss, survivors unchanged |
| `SlabPool.CompressedVRAMPool.Put` | korith_vllm_ext/compressed_vram_pool.py:255-384 | insertion or replacement: refused exactly when a blob fits no run around what was lost, leaving the pool empty; raised exactly when it fits with more layers than the pool, losing one span per layer; else kept last in order with its bytes in the slabs; the others go only by a run of evictions, each of the worst entry while the layer being filled had no room once the replaced entry is gone, and all of them stay when every layer has room then |
| `SlabPool.CompressedVRAMPool.PutIntoWhole` | korith_vllm_ext/compressed_vram_pool.py:308-384 | into a pool that lost nothing: kept exactly when every blob fits an empty slab and there are no more than layers; the partition survives exactly when that number holds, there is no layer, or a blob does not fit |
| `SlabPool.CompressedVRAMPool.ReadBack` | korith_vllm_ext/compressed_vram_pool.py:341-373 | payload and scales of every entry are in the slab at the offsets its block records |
| `SlabPool.LeakedBlock` | korith_vllm_ext/compressed_vram_pool.py:698-704 | two blobs put into a pool of one layer: the insertion raises and the partition is broken |
| `SlabPool.CompressedVRAMPool.Get` | korith_vllm_ext/compressed_vram_pool.py:243-253 | a hit refreshes the entry's statistics only |
| `SlabPool.CompressedVRAMPool.Delete` | korith_vllm_ext/compressed_vram_pool.py:406-412 | exactly the named entry goes |
| `SlabPool.CompressedVRAMPool.Clear` | korith_vllm_ext/compressed_vram_pool.py:414-418 | no entries, and every block that was not lost is free |
| `SlabPool.CompressedVRAMPool.CompactLayer` | korith_vllm_ext/compressed_vram_pool.py:793-819 | one layer compacted in place: contents preserved, free blocks a contiguous tail that regains what was lost, other layers untouched |
| `SlabPool.CompressedVRAMPool.CompactSlabs` | korith_vllm_ext/compressed_vram_pool.py:786-819 | the same on every layer; nothing is lost afterwards, and free lists and live spans partition every layer |
| `SlabPool.CompressedVRAMPool.AllocateWithCompaction` | korith_vllm_ext/compressed_vram_pool.py:768-784 | no room exactly when some blob does not fit an empty slab; the same verdict as allocation without compaction when nothing was lost |
| `SlabPool.SlideLayer` | korith_vllm_ext/compressed_vram_pool.py:799-815 | the in-place loop is the fold of single moves, every blob intact |
| `SlabPool.CopyWithin` | korith_vllm_ext/compressed_vram_pool.py:806-811 | an overlapping copy with value semantics |
| `LmCache.LMCacheAdapter.Lookup` | korith_vllm_ext/lmcache_adapter.py:110-130 | the tensor last stored, or a counted miss; a disabled adapter always misses |
| `LmCache.LMCacheAdapter.Store` | korith_vllm_ext/lmcache_adapter.py:132-141 | stores and counts exactly when enabled |
| `LmCache.LMCacheAdapter.Evict` | korith_vllm_ext/lmcache_adapter.py:143-150 | removes exactly the named tensor |
| `TieredRouter.TouchCoherent` | korith_vllm_ext/tiered_router.py:151-163 | refreshing an entry keeps the tiers coherent, and it encodes the KV it was made from |
| `TieredRouter.ShrinkCoherent` | korith_vllm_ext/tiered_router.py:138-190 | dropping pool entries keeps the tiers coherent |
| `TieredRouter.PromoteCoherent` | korith_vllm_ext/tiered_router.py:329-334 | promotion keeps them coherent, the promoted copy being what the entry is made from, whatever the pool evicts for it |
| `TieredRouter.StoreCoherent` | korith_vllm_ext/tiered_router.py:222-251 | so does a store, mirrored or not |
| `TieredRouter.TieredCacheRouter.constructor` | korith_vllm_ext/tiered_router.py:104-134 | all counts zero, nothing stored |
| `TieredRouter.TieredCacheRouter.PutFromRaw` | korith_vllm_ext/compressed_vram_pool.py:255-384 | the exact outcome: raised when the tensor cannot be compressed, the pool as it was, or when it fits with more layers than the pool; refused when it does not fit; else the entry encodes the tensor |
| `TieredRouter.TieredCacheRouter.Miss` | korith_vllm_ext/tiered_router.py:192-218 | the refined reason, and one more in exactly that count and the cold count |
| `TieredRouter.TieredCacheRouter.FromPool` | korith_vllm_ext/tiered_router.py:150-163 | a pool hit encodes the KV its entry was made from, and counts one hit on it; a miss changes nothing in the pool |
| `TieredRouter.TieredCacheRouter.Promote` | korith_vllm_ext/tiered_router.py:329-334 | the LMCache copy enters the pool exactly when it can be compressed and fits, and is then what the entry is made from |
| `TieredRouter.TieredCacheRouter.FromLmCache` | korith_vllm_ext/tiered_router.py:165-190 | a hit returns what LMCache holds, which is in the pool afterwards exactly when it can be compressed and fits; a miss is counted and leaves the pool |
| `TieredRouter.TieredCacheRouter.Lookup` | korith_vllm_ext/tiered_router.py:138-190 | a pool hit encodes the KV its entry was made from and refreshes that entry alone; an LMCache hit is what LMCache holds and is in the pool afterwards exactly when it fits; both are the latest stored unless LMCache holds an older one; warm exactly when in the pool, cold exactly when too short or in neither tier, the pool then unchanged; the reason is a short prefix, else eviction for a hash seen before, else a first request; with every store mirrored a stored hash is never cold; tier counts sum to lookups and reasons to the cold count |
| `TieredRouter.TieredCacheRouter.MirrorPrefill` | korith_vllm_ext/tiered_router.py:245-268 | mirrors as the policy says and keeps all invariants |
| `TieredRouter.TieredCacheRouter.StoreAfterPrefill` | korith_vllm_ext/tiered_router.py:222-251 | true exactly when the pool keeps the prefix, false exactly when it does not fit; the KV becomes the latest one and goes to LMCache exactly when that is enabled and the policy is ALWAYS, or LARGE_ONLY with at least the threshold of tokens, unless put_from_raw raises, in which case neither happens |
| `TieredRouter.TieredCacheRouter.StaleRead` | korith_vllm_ext/tiered_router.py:165-190 | a mirrored store, an unmirrored one of the same hash, and a lookup after the pool entry went: the first KV is returned though the second is latest |
| `TieredRouter.TieredCacheRouter.Perform` | korith_vllm_ext/tiered_router.py:138-268 | one store or lookup: the hash is seen afterwards exactly when it was, or was stored or hit |
| `TieredRouter.TieredCacheRouter.Serve` | korith_vllm_ext/tiered_router.py:138-268 | over every sequence of stores and lookups a miss is a first request exactly when nothing before stored or hit its hash, and under NEVER and ON_EVICTION nothing reaches LMCache |
| `Scheduler.UnpackPack` | controller/scheduler.rs:79-91 | packing and unpacking the counters are inverse on all 32-bit words |
| `Scheduler.StepUnfolds` | controller/scheduler.rs:154-290 | a step on the packed state is the step on the unpacked one |
| `Scheduler.SchedulerState.ScheduleStep` | controller/scheduler.rs:154-290 | the caller's state is updated to the step of the old one; stability is in 0..1, and the throttle is 1, 2 or 3 by the lane |
| `Scheduler.StabilityIs` | controller/scheduler.rs:272-272 | stability is acceptance times one minus entropy: for signals in 0..1 the clamp does nothing |
| `Scheduler.DepthRange` | controller/scheduler.rs:180-270 | a ready step ends in 1..16 if and only if it started there or is not held |
| `Scheduler.ZeroDepthPassesThrough` | controller/scheduler.rs:260-267 | a zero depth survives the hold branch |
| `Scheduler.DepthRangeOverRuns` | controller/scheduler.rs:154-290 | from 1..16 the depth stays there over every sequence of steps, ready or not |
| `Scheduler.MissIsCapped` | controller/scheduler.rs:224-246 | a step in the MISS lane returns at most 3 |
| `Scheduler.SpecHitNeverForcedDown` | controller/scheduler.rs:197-211 | a step in the SPEC_HIT lane never lowers the depth |
| `Scheduler.CountersAdvance` | controller/scheduler.rs:181-270 | the step counter advances modulo 2^16, and the change mark moves exactly with the depth |
| `Scheduler.RunUnfolds` | controller/scheduler.rs:154-290 | packed and unpacked states agree over every sequence of ready steps |
| `Scheduler.Hysteresis` | controller/scheduler.rs:260-270 | from any packed state, after any change the next one that is neither a probe nor forced comes at least 32 ready steps later, across wrap-around |
| `Scheduler.UnreadyEscapesHysteresis` | controller/scheduler.rs:159-167 | a step that is not ready drops the depth unrecorded, and the very next step changes it freely |
| `Scheduler.NoPermanentCollapse` | controller/scheduler.rs:248-270 | from depth 1, any 128 ready steps with non-negative tps delta contain one that returns at least 2 |
| `Scheduler.CollapseBoundIsTight` | controller/scheduler.rs:248-270 | 127 steps from a packed state are not enough |
| `SchedulerMoves.LaneMonotone` | controller/scheduler.rs:132-143 | better signals and no less reuse never give a worse lane |
| `SchedulerMoves.LanesApart` | controller/scheduler.rs:132-143 | exactly when a step is on the miss lane, and exactly when on the speculative one |
| `SchedulerMoves.SpecHitMoves` | controller/scheduler.rs:197-211 | on SPEC_HIT the depth goes up by two, by one or stays, and only when the last change is 32 steps old |
| `SchedulerMoves.HitMoves` | controller/scheduler.rs:212-223 | on HIT bad signals lower the depth by exactly one, or to 12, at once and never below 2; good ones raise it by one up to 12 when the last change is 32 steps old |
| `SchedulerMoves.MissMoves` | controller/scheduler.rs:224-243 | on MISS the depth is 3 when starved, with the streak reset; else 2 on bad signals, else at most 3, with the streak one longer |
| `SchedulerMoves.MissProbe` | controller/scheduler.rs:235-241 | from depth 2 a MISS step gives 3 exactly when starved |
| `SchedulerMoves.ForceNeverRaises` | controller/scheduler.rs:196-270 | a step that overrides hysteresis by force raises no depth above 2, save at starvation |
| `SchedulerMoves.BetterNoSmaller` | controller/scheduler.rs:196-270 | from depth 2 on, better signals in the same lane never give a smaller depth |
| `SchedulerMoves.PoorBeatsFair` | controller/scheduler.rs:218-219 | at depth 1 bad signals on HIT give 2 and fair ones 1 |
| `SchedulerMoves.MonotoneIff` | controller/scheduler.rs:196-270 | for depths 1..16 the step is monotone in the signals if and only if the depth is not 1 |
| `SchedulerMoves.MissStreak` | controller/scheduler.rs:185-189 | the streak grows by one a step up to 255, and starvation ends it |
| `SchedulerMoves.StarvationEnds` | controller/scheduler.rs:224-243 | any 96 ready steps on MISS with recovered signals contain one that returns depth 3 with the streak at 0 |
| `SchedulerMoves.AgeIsDistance` | controller/scheduler.rs:260-270 | while the depth stays, the 8-bit age is the true distance to the last change, until it wraps |
| `SchedulerMoves.Released` | controller/scheduler.rs:260-270 | from 32 up to 255 steps after the last change, the step takes exactly the depth decided |
| `Amfk.LeRoundTrip` | korith_vllm_ext/amf_kv_manager.py:47-57 | a little-endian field reads back as its value if it fits |
| `Amfk.UnpackPack` | korith_vllm_ext/amf_kv_manager.py:340-359 | unpacking packed fields gives their values, whatever follows |
| `Amfk.InfosTile` | korith_vllm_ext/amf_kv_manager.py:327-333 | the layer table tiles the payload without gap or overlap |
| `Amfk.PayloadAt` | korith_vllm_ext/amf_kv_manager.py:365-371 | the payload at a layer's ranges is that layer's bytes |
| `Amfk.ParseBlob` | korith_vllm_ext/amf_kv_manager.py:435-485 | parsing a written blob recovers every header field, every table row and the payload |
| `Amfk.LeByte` | korith_vllm_ext/amf_kv_manager.py:47-57 | byte i of a little-endian field is its i-th base-256 digit |
| `Amfk.HeaderLayout` | korith_vllm_ext/amf_kv_manager.py:47-49 | each header field at its offset: magic 0, version 4, layers 8, tokens 12, heads 16, head size 20, dtype 24, reserved 28, payload bytes 32, model 40, prefix 48 |
| `Amfk.InfoLayout` | korith_vllm_ext/amf_kv_manager.py:51-53 | a table row holds the key offset and size and the value offset and size, eight bytes each |
| `Amfk.RowLayout` | korith_vllm_ext/amf_kv_manager.py:356-359 | the row of layer l starts at 56 + 32 l of the blob |
| `Amfk.ScatterExact` | korith_vllm_ext/amf_kv_manager.py:518-523 | into distinct blocks, each source block lands in its own and no other block changes |
| `Amfk.LayerRoundTrip` | korith_vllm_ext/amf_kv_manager.py:298-523 | restoring a saved layer where its blocks fit puts saved block i into the i-th listed block and leaves all others unchanged |
| `Amfk.CacheRestores` | korith_vllm_ext/amf_kv_manager.py:281-523 | a saved cache is readable and no layer raises when it is restored into a cache of the same shape where it fits |
| `Amfk.CacheRoundTrip` | korith_vllm_ext/amf_kv_manager.py:281-523 | once all layers are restored, every block of every layer of the saved cache has been moved |
| `Amfk.Transplant` | korith_vllm_ext/amf_kv_manager.py:281-523 | saving from one cache and restoring into another gives back the token count and moves every block of every layer, exactly when the snapshot can be packed |
| `Amfk.LayOut` | korith_vllm_ext/amf_kv_manager.py:327-333 | the running total gives the tiling table and the payload size |
| `Amfk.PackTable` | korith_vllm_ext/amf_kv_manager.py:356-359 | the packed table, or an exception exactly when a field exceeds 64 bits |
| `Amfk.FillPayload` | korith_vllm_ext/amf_kv_manager.py:361-371 | the buffer filled by slice assignment is the concatenation of all layers |
| `Amfk.AmfKvManager.GatherParts` | korith_vllm_ext/amf_kv_manager.py:298-321 | the listed blocks of every layer, or an exception exactly when one does not exist |
| `Amfk.AmfKvManager.Save` | korith_vllm_ext/amf_kv_manager.py:281-373 | the blob of the gathered blocks, or none exactly when there is no layer, a block is missing or a field overflows |
| `Amfk.AmfKvManager.RestoreLayers` | korith_vllm_ext/amf_kv_manager.py:487-523 | every layer restored, or the layers before the raising one restored and it and all later ones untouched |
| `Amfk.AmfKvManager.Restore` | korith_vllm_ext/amf_kv_manager.py:435-523 | a miss exactly when the blob is not readable, and then nothing changes; success exactly when no layer raises, and then every layer is restored from its ranges; otherwise the layers before the first raising one are restored and the rest untouched |

## Left out

- Batch execution and the V3 path, the engine, prefix extraction, thermal and memory-field control, the Python package, backend, frontend and deployment.
- Prewarm and prefetch threads, the native and NVMe LMCache backends and their exceptions (so the LMCACHE_ERROR reason is never counted), loading and saving the AMF index file, disk-space arithmetic, statistics other than the counters named above, logging.
- The vLLM views of the pool (`put_from_vllm`, `restore_to_vllm`, `map_into_vllm`) and the split layout of the snapshot: thin variants of what is modelled.
- `note_failure`, `note_block`, `note_miss` and `load_kv_into`: counters, and `load_kv` with another buffer.
- Floating point: scores, rates, watermarks and averages are reals, a NaN average is an absent one, and rounding is not modelled; non-finite logits and scores are not modelled.
- The growth of a TTL with the access count is a function of the settings, positive exactly when there is a default TTL; its logarithm is not modelled.
- 64-bit counters, clocks and byte totals of the AMF store do not wrap; the prefix length is truncated to 32 bits as in the code.
- AmfStorage.AmfStore.StoreEntry: promises nothing of the store once a replacement has evicted and written both files, because the code then uses an invalid iterator and has no defined behaviour.
- AmfStorage.AmfStore.StoreExisting: the same.
- WarmStart.Korith.Tokenize: promises nothing of a prompt whose state was offered to the store with that outcome.
- WarmStart.Korith.SetData: a failed state load leaves the cleared cache empty; what llama.cpp leaves there is not part of this model.
- SpecDecode.SpecV2.Emit: a failed write to standard output emits nothing; partially written tokens are not modelled, nor are the proposed and accepted totals of the result.
- SlabPool.CompressedVRAMPool.Put: entries are values, so a caller's alias of a returned entry does not see later changes.
- TieredRouter.TieredCacheRouter.PutFromRaw: compression, shape inference and codecs are one function that may refuse.
- Amfk.AmfKvManager.Restore: blocks are compared by bytes, so the element type of a cache is its block size; block lists hold no negative indices, and with repeated ones the last write wins.
