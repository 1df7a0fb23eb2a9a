# Solana pool state: parsing, attribution, caching and their guarantees

This project models six small state machines and codecs of the repository, and proves what each promises on every
input, every state or every interleaving. A loop that updates variables is a method proved against a function, an
object with fields is a class, and the laws are lemmas about those functions. Each file holds one module of the same
name; `dafny verify dfyconfig.toml` checks them all.

- **Log attribution** (`Logs`, `LogWalk`, `CallForest`, `CutForest`, `AnyStream`, `Attribution`, `ForestParents`,
  `FixtureReplay`, `WalkCounters`). A transaction is a forest of calls. The wire gives it as a flat pre-order
  instruction list with heights, and as a log stream of invokes, lines and terminators. `LogWalk` is the attribution
  walk as a function; `CallForest` defines the flattening and shows that the walk undoes it; `CutForest` does the same
  for every stream cut short; `AnyStream` says what holds when neither list can be trusted. `Attribution` holds the
  loops over the mutable instruction list. `ForestParents` shows that parents found by height are the frames the log
  has open. `FixtureReplay` is the re-indexing in front of the same walk. `WalkCounters` interleaves concurrent walks.
- **Account layouts** (`AccountLayout`, `AccountRoundTrip`). The generated parser and builders are read as an
  interpreter of a schema: required slots, optional slots with the program id as sentinel, a conditional prefix or
  accounts found by derivation, and the rest.
- **Dependency ingest** (`Ingest`, `DrainReach`, `IngestProtocol`, `IngestTurns`). A bounded, lossy queue and a resolver
  that re-enters dispatch: sequentially as a worklist over a finite universe, and as two actors interleaved one send at
  a time, of which the sequential code is one interleaving.
- **Slot-versioned cache and quotes** (`VersionedMap`, `QuoteState`, `CacheDrop`). A bounded history per key against
  the list of all writes ever attempted; many-account reads on top of it; and the last-handle save protocol.
- **Codecs** (`Base64`, `OptionBool`, `FieldCodec`, `InstructionCodec`, `AccountVersions`). The bit-buffer base64
  decoder against section 4 of RFC 4648; discriminator dispatch with strict arguments and a remainder-consuming last
  field; account layouts whose later fields arrived in groups.
- **Balance pairing** (`BalancePairing`). A nested-loop join with a consumed array, and exact conservation.

`Filters` says what filtering a list means by positions, so that the lists several of these produce are pinned in order
and number; `Wrappers` holds the shared result types.

Where a promise is wider than what the code does, the code is kept, an input shows the difference and a condition says
when the promise holds:

- The `complete` counter is documented as "every instruction received its own invoke"
  (`crates/solana/protocols/src/parsing/instruction.rs:357`). A stream that ends early takes that exit with
  instructions unopened: `AnyStream.CompleteWithUnopened`, `AnyStream.CompleteIff`.
- A drain is not plain reachability, even with nothing dropped and nothing failing: a key already seen is not expanded
  again. `DrainReach.SeenHidesReports` has the input, from a fresh resolver through one earlier failed fetch;
  `DrainReach.DrainIsReachability` the exact set; `DrainReach.DrainIsPlainIff` the exact condition under which the two
  agree, and `DrainReach.SettledDrain` the case of a settled resolver.
- A quote's declared accounts are documented as what must be live for assembly to succeed
  (`crates/solana/protocols-macros/src/quote_state.rs:281`). Singletons are read and not declared:
  `QuoteState.SingletonUndeclared`, `QuoteState.AssembleIff`.
- Decoding a trailing argument is documented to refuse unobserved byte strings
  (`crates/solana/protocols/src/protocols/option_bool.rs:223-226`). The code keeps any of up to sixteen bytes, and a
  value built by hand can spell a named form a second way: `OptionBool.UnobservedKept`, `OptionBool.FromBytesExact`,
  `OptionBool.ToBytesRoundTrip`.
- Encoding an instruction is documented as serializing it back
  (`crates/solana/protocols-macros/src/protocol_instruction.rs:294`). A params type without a discriminator of its own
  loses it: `InstructionCodec.NoParamsLosesDiscriminator`, `InstructionCodec.DataOfParsed`.
- The account derive is documented to keep an explicit length threshold for version groups
  (`crates/solana/protocols/src/parsing/state.rs:78-80`). The generated code has none, so an older version in front of
  padding reads as a newer one or is refused: `AccountVersions.PaddingReadAsGroup`, `AccountVersions.PaddingRefused`,
  `AccountVersions.PaddedReadsNewer`, `AccountVersions.PaddingIff`.
- A save on drop needs drops that do not overlap: `CacheDrop.OverlappingDropsLose`, `CacheDrop.SavedIff`.
- A save is not every accepted insert. All fields but one are runtime-only and stay out of the snapshot
  (`crates/storage/cache/src/cache.rs:99-101`), and the saved one keeps a bounded history:
  `CacheDrop.OrderlySaveLoses`, `CacheDrop.SavedWriteIff`, `CacheDrop.CompleteIff`.
- A read at a slot is repeatable only below the current slot: `VersionedMap.RepeatableIff`. So is a quote, except where
  no other root could assemble: `QuoteState.CurrentReadBreaks`, `QuoteState.RepeatableQuoteIff`.

A pubkey is an identity (a natural number). Slots, heights, depths and amounts are unbounded naturals: the source only
compares and copies them, or widens before subtracting. The base64 buffer is arithmetic modulo 2^32, with shift-and-or
written as multiplication and addition. A fixture's unparsable program is reported by its position, and a truncated
version group by its position, where the source carries their names.

## Model

| member | source | states |
|---|---|---|
| CallForest.CompleteWalk | crates/solana/protocols/src/parsing/instruction.rs:455-530 | for every call forest, flattened to a pre-order instruction list and a bracketed log stream, the walk takes the complete exit, opens every instruction and gives each exactly its own lines in order, none of its callees'; every slice audits `Ok` |
| CallForest.RunTrace | crates/solana/protocols/src/parsing/instruction.rs:470-527 | a whole sub-forest walked from any state leaves the frame stack as it was, adds exactly its instructions' slices, and gives the enclosing frame exactly the lines it logged itself |
| CallForest.SlicesAuditOk | crates/solana/protocols/src/parsing/log_fixture.rs:197-247 | the slices of a well-formed forest satisfy the bracket invariant at every height, whatever the program order |
| Logs.AuditMeans | crates/solana/protocols/src/parsing/log_fixture.rs:204-247 | a slice audits `Ok` exactly when it is uncut, opens with its own program's invoke at its own height, holds no other invoke and ends with a success or failure of that program; each other verdict names exactly the first thing wrong |
| CutForest.TruncatedWalk | crates/solana/protocols/src/parsing/instruction.rs:472-487 | for every prefix of a well-formed stream, a cut, and any tail at all: a frame closed before the cut keeps exactly its own lines and audits `Ok`; an open one keeps exactly its own lines among that prefix, and one never opened nothing, each followed by one mark, and audits `Truncated` |
| CutForest.RunPrefix | crates/solana/protocols/src/parsing/instruction.rs:470-527 | at every position inside a well-formed stream, the opened instructions are exactly those whose invoke has come, each with exactly its own lines so far, and the open frames exactly those whose terminator has not |
| CutForest.Fates | crates/solana/protocols/src/parsing/instruction.rs:470-527 | an instruction whose terminator is among the first entries is final and closed; any other opened one is open, with a prefix of its final slice |
| AnyStream.ReachableVerdicts | crates/solana/protocols/src/parsing/log_fixture.rs:204-247 | for any stream and any instruction list: a never-opened instruction audits `Empty`, a still open one `Unterminated`, and both `Truncated` if the stream was cut; a closed one ends in the line that closed it and audits `Ok` exactly when that line names its own program, else `Unterminated` |
| AnyStream.FourVerdicts | crates/solana/protocols/src/parsing/log_fixture.rs:204-228 | `ForeignOpen`, `NotOpened`, `DepthMismatch` and `InteriorInvoke` cannot come out of this walk, on any input |
| AnyStream.WalkClassified | crates/solana/protocols/src/parsing/instruction.rs:470-529 | the opened count is the length of the longest common prefix of the instruction list and the invokes before the first cut; that prefix, the two lengths and the presence of a cut decide the single exit taken |
| AnyStream.CompleteIff | crates/solana/protocols/src/parsing/instruction.rs:357-358 | the complete exit is taken exactly when the invokes are a prefix of the instruction list and there is no cut; it means every instruction was opened exactly when the two lists are equal |
| AnyStream.CompleteWithUnopened | crates/solana/protocols/src/parsing/instruction.rs:357-358 | the counter's documented meaning, that every instruction received its own invoke, fails on one instruction and no log lines |
| LogWalk.RunAppend | crates/solana/protocols/src/parsing/instruction.rs:470-527 | walking two stretches of log one after the other is walking their concatenation, and an exit in the first is final |
| LogWalk.RunCounts | crates/solana/protocols/src/parsing/instruction.rs:488-513 | the instructions opened and those still pending are together always the original list: none is skipped, repeated or reordered |
| LogWalk.StepByEntry | crates/solana/protocols/src/parsing/instruction.rs:420-431 | kind by kind: only an invoke opens, only a success or failure closes, and exactly one frame, only a cut cuts, and a data, return, message, consumed or unknown line goes to the innermost open slice and changes nothing else |
| Attribution.AttachLogs | crates/solana/protocols/src/parsing/instruction.rs:455-530 | the loop over the mutable list ends with exactly the slices of the specified walk and nothing else changed, counts the list length and the opened count, and bumps one exit counter by one |
| Attribution.Attribute | crates/solana/protocols/src/parsing/instruction.rs:510-527 | one entry that does not end the walk changes the list, the frame stack and the cursor exactly as the specified step does |
| Attribution.MarkTruncated | crates/solana/protocols/src/parsing/instruction.rs:478-483 | every open frame and every instruction still waiting for its invoke gets exactly one mark at the end of its slice, and no other slice changes |
| Attribution.Counters.Finish | crates/solana/protocols/src/parsing/instruction.rs:465-468 | the opened count is added and exactly one of the four exit counters moves |
| Attribution.LinkParents | crates/solana/protocols/src/parsing/instruction.rs:302-326 | each parent is the nearest earlier instruction of strictly smaller height, or none when there is none; an unknown program index reads as the default key and an unreported height as 1 |
| Attribution.AccountsInOrder | crates/solana/protocols/src/parsing/instruction.rs:313-316 | an instruction's accounts are the keys its indices name, in their order, less the indices past the key list |
| Attribution.PopTo | crates/solana/protocols/src/parsing/instruction.rs:318-320 | popping everything at least as deep leaves a top that is strictly shallower, with nothing shallower than the new instruction in between |
| Attribution.NearestShallowerUnique | crates/solana/protocols/src/parsing/instruction.rs:318-323 | the nearest-shallower relation determines the parent |
| Attribution.ParseInstructions | crates/solana/protocols/src/parsing/instruction.rs:291-330 | both passes together: parents and identities from the instruction list, slices from the log stream |
| ForestParents.StacksAgree | crates/solana/protocols/src/parsing/instruction.rs:303-326 | on a well-formed stream the nearest shallower instruction, the innermost frame open when the invoke arrives, and the caller in the forest are one and the same for every instruction, so the height stack and the frame stack agree |
| ForestParents.CallersAreNearest | crates/solana/protocols/src/parsing/instruction.rs:318-323 | in a flattened forest the caller of each instruction is its nearest earlier shallower one |
| ForestParents.OpenedUnderTrace | crates/solana/protocols/src/parsing/instruction.rs:510-512 | while a well-formed stream is walked, each invoke arrives with its caller's frame innermost |
| FixtureReplay.Reindex | crates/solana/protocols/src/parsing/log_fixture.rs:78-93 | accepted exactly when every program parses and at most 256 are distinct; each index then addresses that instruction's own program, and a refusal names the first obstacle |
| FixtureReplay.Replay | crates/solana/protocols/src/parsing/log_fixture.rs:77-110 | a replayed fixture gets the parents, indices, slices and counter movements its own programs and heights call for: the synthetic key table is invisible; a refused one touches no counter |
| WalkCounters.CountersBalance | crates/solana/protocols/src/parsing/instruction.rs:336-341 | at every moment of every interleaving of walks the opened counter is within the instruction counter and the exits do not outnumber the walks; once every walk is done there is one exit each |
| WalkCounters.NextKeepsInv | crates/solana/protocols/src/parsing/instruction.rs:461-468 | each atomic addition of a walk keeps the counters equal to what the walks have added so far |
| AccountLayout.FromPubkeys | crates/solana/protocols-macros/src/account_metas.rs:637-655 | the drained cursor, the tail search and the unclaimed check compute the specified parse, for every layout and key list |
| AccountLayout.DrainConditionals | crates/solana/protocols-macros/src/account_metas.rs:405-423 | a cursor that runs dry stays dry: what is present is a prefix, and what is left is what follows it |
| AccountLayout.SearchTail | crates/solana/protocols-macros/src/account_metas.rs:459-485 | each derived address takes its first occurrence out of the tail, in declaration order, and is absent when there is none |
| AccountLayout.ToAccountMetas | crates/solana/protocols-macros/src/account_metas.rs:594-603 | the pushed list is the declared slots, then what is present of the conditionals and the resolved, then the rest, each with its privileges: an absent one occupies nothing |
| AccountLayout.MetaKeys | crates/solana/protocols-macros/src/account_metas.rs:596-601 | the keys of the metas are exactly the emitted keys in order, so whatever is proved of those holds of the built instruction |
| AccountLayout.MetaAccess | crates/solana/protocols-macros/src/account_metas.rs:347-388 | every meta has the privileges declared for a field of the value holding that key; it signs only if a declared slot or resolved field says so |
| AccountLayout.MetaAt | crates/solana/protocols-macros/src/account_metas.rs:352-388 | position by position: a declared slot's own privileges, none for a sentinel, then the conditionals writable and unsigned, the resolved as declared, and the rest unsigned and all writable or all not |
| AccountLayout.TryToAccountMetas | crates/solana/protocols-macros/src/account_metas.rs:403-457 | succeeds exactly when the present conditionals are a prefix and the rest is behind all of them; a refusal names the first present conditional behind a hole together with that first hole, or the rest and the last conditional |
| AccountRoundTrip.ParseOfEmit | crates/solana/protocols-macros/src/account_metas.rs:594-655 | for every layout and typed value: parsing the built list returns that value exactly when no optional holds the sentinel, the conditionals are a prefix before the rest, and each resolved field is what its derivation finds |
| AccountRoundTrip.PrefixIffParsesBack | crates/solana/protocols-macros/src/account_metas.rs:617-625 | without resolved fields and with no sentinel held, the checked builder succeeds exactly on the values that parse back to themselves |
| AccountRoundTrip.ParsedIsFaithful | crates/solana/protocols-macros/src/account_metas.rs:637-655 | whatever parses is typed, holds no sentinel, has no hole and carries only derived addresses |
| AccountRoundTrip.EmitOfParse | crates/solana/protocols-macros/src/account_metas.rs:594-655 | what parses rebuilds to a permutation of itself that keeps the declared slots in place, and to exactly itself when there are no resolved fields |
| AccountRoundTrip.ParseEmitParse | crates/solana/protocols-macros/src/account_metas.rs:594-655 | rebuilding and parsing again returns the same value, resolved fields included |
| AccountRoundTrip.TailOrderIrrelevant | crates/solana/protocols-macros/src/account_metas.rs:471-485 | without conditionals, permuting the accounts past the declared slots changes no resolved field, nor the multiset of the rest, nor whether and with which counts the list is refused |
| AccountRoundTrip.ResolveConserves | crates/solana/protocols-macros/src/account_metas.rs:477-481 | searching the tail loses no account: the found and the left over are the tail, as multisets |
| AccountRoundTrip.RestInOrder | crates/solana/protocols-macros/src/account_metas.rs:477-481 | the rest is what the search leaves of the accounts past the declared slots, in the order they came |
| AccountRoundTrip.AcceptedCounts | crates/solana/protocols-macros/src/account_metas.rs:499-534 | exactly which account counts a layout without resolved fields accepts, and what the refusal of a longer list reports |
| AccountRoundTrip.RefusalsReport | crates/solana/protocols-macros/src/account_metas.rs:499-534 | what a refusal reports for every layout: how many accounts the declared slots need and how many came; or how many were claimed, how many came, and the first that nobody claimed |
| Ingest.FetchTargetsMember | crates/storage/ingest/src/ingest.rs:216-223 | a key is fetched exactly when the fetch or the subscribe list names it as infrequent; the pending list and the other classes never lead to a fetch |
| Ingest.TargetsInOrder | crates/storage/ingest/src/ingest.rs:216-223 | the targets are the keys of the infrequent entries at rising positions of the fetch list followed by the subscribe list, each entry once and no other |
| Ingest.TargetsCount | crates/storage/ingest/src/ingest.rs:216-223 | a key is targeted exactly as often as the two lists name it infrequent |
| Ingest.ReportsEach | crates/storage/ingest/src/ingest.rs:182-187 | every account a fetch returns is dispatched, in order: a missing one or a failed dispatch adds nothing and ends nothing |
| Ingest.SendAllExact | crates/storage/ingest/src/ingest.rs:129-135 | of the targets sent, the first ones are queued in order up to capacity, and exactly the others are dropped and counted |
| Ingest.IngestCore.TrySend | crates/storage/ingest/src/ingest.rs:132 | a send is refused exactly at capacity, and then changes nothing |
| Ingest.IngestCore.Apply | crates/storage/ingest/src/ingest.rs:121-137 | a dispatch returns its own result; its targets are sent in order, as many sends tried as there are infrequent entries, each refused one counted once; a failed dispatch sends nothing |
| Ingest.DepResolver.ResolveKey | crates/storage/ingest/src/ingest.rs:176-196 | a key already seen is not fetched; a failed fetch un-sees the key; a successful one applies every account it returned |
| Ingest.Drain | crates/storage/ingest/src/ingest.rs:170-174 | over any finite universe closed under reports the drain terminates with an empty queue, whatever fails or is dropped, and never un-sees a key |
| Ingest.DepResolver.DrainQueue | crates/storage/ingest/src/ingest.rs:170-174 | the loop over the shared queue, re-entered by what it resolves, computes the specified drain |
| DrainReach.DrainIsReachability | crates/storage/ingest/src/ingest.rs:166-196 | only keys reachable from the queue through unseen reporting keys are ever seen, and with no drop and no failed fetch all of them are |
| DrainReach.DrainIsPlainIff | crates/storage/ingest/src/ingest.rs:166-196 | with no drop and no failed fetch, the drain sees exactly what is reachable at all if and only if no seen and reachable key reports a key that is neither seen nor reachable around the seen ones |
| DrainReach.SettledKept | crates/storage/ingest/src/ingest.rs:129-195 | a fresh resolver is settled, every seen key having its reports seen or queued, and dispatches and resolved keys that drop nothing and fail nothing keep it so |
| DrainReach.SettledDrain | crates/storage/ingest/src/ingest.rs:147-196 | from a settled state the drain sees everything reachable at all, and is settled again |
| DrainReach.SeenHidesReports | crates/storage/ingest/src/ingest.rs:177-194 | from a fresh resolver: an update names a config, a drain fetches it and fails to fetch what it names; the update applied again drains with nothing dropped and nothing failing, and misses that key, though it is reachable |
| IngestProtocol.EveryInterleaving | crates/storage/ingest/src/ingest.rs:121-196 | in every interleaving of stream applies and resolver steps: the queue is within capacity, keys are received in the order they were queued, sends attempted equal queued plus received plus dropped, no key is fetched successfully twice, only reported keys are fetched, and a reported key is seen, on its way, or was let go of |
| IngestProtocol.ReportedByDispatch | crates/storage/ingest/src/ingest.rs:216-223 | every reported key comes from an earlier dispatch that named it infrequent in its fetch or subscribe list |
| IngestProtocol.QuietMeansFetched | crates/storage/ingest/src/ingest.rs:199-204 | once nothing is in flight, a reported key has been fetched successfully exactly once, or never and it is lost |
| IngestProtocol.LostSince | crates/storage/ingest/src/ingest.rs:34-37 | a lost key was refused by a full queue or failed to be fetched, and no dispatch has reported it since |
| IngestProtocol.ReportedAgainIsFetched | crates/storage/ingest/src/ingest.rs:190-192 | losing a key is never for good: reported again and not let go of since that report, it has been fetched successfully exactly once when nothing is in flight |
| IngestTurns.ResolverTurn | crates/storage/ingest/src/ingest.rs:176-196 | one received key, whatever its fetch does, is a run of protocol events with exactly the queue, drops, seen keys and successful fetches of the sequential resolver, so what holds of every interleaving holds of the code alone |
| IngestTurns.StreamTurn | crates/storage/ingest/src/ingest.rs:121-137 | one uninterrupted apply of a stream is a run of protocol events with exactly the sends of the sequential apply |
| VersionedMap.LookupRefinesHistory | crates/storage/cache/src/versioned_map.rs:144-154 | against the full list of write attempts, a read at a slot returns the last value accepted at the greatest accepted slot up to it, exactly while at most depth distinct accepted slots are newer, and nothing otherwise |
| VersionedMap.LookupBeforeHistory | crates/storage/cache/src/versioned_map.rs:134-136 | a read before every accepted slot returns nothing |
| VersionedMap.HistoryShape | crates/storage/cache/src/versioned_map.rs:92-118 | the history is strictly descending, below the current slot and within depth, and the current slot is the greatest ever offered |
| VersionedMap.FoldIsNewest | crates/storage/cache/src/versioned_map.rs:92-118 | what is retained is the newest depth + 1 entries of the unbounded timeline of accepted writes |
| VersionedMap.TimelineRecords | crates/storage/cache/src/versioned_map.rs:99-104 | the timeline holds each accepted slot once, descending, with the last value accepted there |
| VersionedMap.KeptIff | crates/storage/cache/src/versioned_map.rs:92-118 | an entry holds exactly the observations that are the last value accepted at a slot with at most depth accepted slots above it |
| VersionedMap.AllKeptIff | crates/storage/cache/src/versioned_map.rs:106-113 | an entry holds everything it ever accepted exactly when that is at most depth + 1 slots and no slot was rewritten with another value |
| VersionedMap.PastReadRepeats | crates/storage/cache/src/versioned_map.rs:92-154 | a slot below the current one reads the same after any insertion, or is evicted |
| VersionedMap.RepeatableIff | crates/storage/cache/src/versioned_map.rs:102-103 | a read is repeatable under every insertion exactly when its slot is below the current one; at the current slot an equal-slot write changes it |
| VersionedMap.PutEntry | crates/storage/cache/src/versioned_map.rs:98-115 | the in-place update of an occupied entry, eviction loop included, and the outcome it reports |
| VersionedMap.VersionedStateMap.Insert | crates/storage/cache/src/versioned_map.rs:92-118 | the map stays the fold of its attempts, other keys are untouched, and the outcome says stale exactly when a newer slot has been offered before |
| VersionedMap.VersionedStateMap.GetAtSlot | crates/storage/cache/src/versioned_map.rs:144-154 | the map's read answers from the whole history of attempts on its key |
| VersionedMap.VersionedStateMap.Remove | crates/storage/cache/src/versioned_map.rs:156-159 | the key's current value is returned and its history is gone, and no other key changes |
| VersionedMap.VersionedStateMap.Clear | crates/storage/cache/src/versioned_map.rs:161-163 | every key and its history are gone |
| QuoteState.AssembleFrom | crates/solana/protocols-macros/src/quote_state.rs:269-279 | the straight line of reads with early return computes the specified assembly |
| QuoteState.AssembleIff | crates/solana/protocols-macros/src/quote_state.rs:263-279 | a quote assembles at a slot exactly when its root, every account it declares for that root and every singleton can be read there |
| QuoteState.AssembledIff | crates/solana/protocols-macros/src/quote_state.rs:211-231 | which bundle it is, exactly: the root as read, and behind it in field order each keyed account as read at the slot, each singleton as cached, and each computed field as its expression of everything before it |
| QuoteState.DeclaresWhatItReads | crates/solana/protocols-macros/src/quote_state.rs:281-298 | the declared keys are exactly those of the accounts read beyond the root, each declared with the delivery class of every field that reads it and no other |
| QuoteState.DeclaredInOrder | crates/solana/protocols-macros/src/quote_state.rs:235-243 | the declaration is one dependency for each keyed field, in field order |
| QuoteState.DeclaredSuffices | crates/solana/protocols-macros/src/quote_state.rs:281-284 | two caches that agree on the root, the declared accounts as they are read and the singletons assemble the same bundle or refuse alike, whatever else they hold |
| QuoteState.SingletonUndeclared | crates/solana/protocols-macros/src/quote_state.rs:281-284 | with every declared account readable, a quote still refuses for want of a singleton |
| QuoteState.RepeatableQuote | crates/solana/protocols-macros/src/quote_state.rs:211-231 | a quote assembled at a slot below the current slot of everything it read is, after any sequence of inserts, the same bundle or refused, and never a different one |
| QuoteState.RepeatableQuoteIff | crates/solana/protocols-macros/src/quote_state.rs:211-231 | an assembled quote is stable under every sequence of inserts exactly when everything it read beyond the root is below its current slot, and so is the root or no other root could assemble |
| QuoteState.CurrentReadBreaks | crates/solana/protocols-macros/src/quote_state.rs:220-224 | an account beyond the root read at its current slot: writing another value there assembles a different bundle |
| QuoteState.CurrentRootBreaks | crates/solana/protocols-macros/src/quote_state.rs:215-219 | a root read at its current slot: inserts exist that assemble a different bundle, unless everything another root names cannot be made readable |
| QuoteState.InsertsKeepPast | crates/storage/cache/src/versioned_map.rs:92-154 | that condition on a slot survives any sequence of inserts into any accounts, and so does the answer, unless evicted |
| CacheDrop.AtMostOneSave | crates/storage/cache/src/cache.rs:372-392 | in every interleaving of clone, insert, set and the steps of drops, at most one drop saves, what it saves is the snapshot of the cache as it stays from then on, and without a path none does |
| CacheDrop.SavedIff | crates/storage/cache/src/cache.rs:364-391 | once every handle is gone, a save happened exactly when a path is set and the last drop to begin began after every other handle had been released |
| CacheDrop.FlagIsUnset | crates/storage/cache/src/cache.rs:385-387 | a drop that found itself last always finds the persisted flag unset, and sets it |
| CacheDrop.OrderlyDropsSave | crates/storage/cache/src/cache.rs:374-378 | when drops do not overlap and a path is set, exactly one save happens, of the cache as it ended |
| CacheDrop.SavedWriteIff | crates/storage/cache/src/cache.rs:105-109 | an observation comes back from a save exactly when it was written to the one saved field and is the last value accepted at one of the newest depth + 1 accepted slots of its key |
| CacheDrop.CompleteIff | crates/storage/cache/src/cache.rs:95-104 | a save brings back everything ever accepted exactly when only the saved field was written, no key of it at more than depth + 1 slots, no slot of it rewritten, and no singleton set |
| CacheDrop.OrderlySaveLoses | crates/storage/cache/src/cache.rs:107-110 | one handle, a singleton, three inserts and an orderly drop: the save lacks the singleton and the write to a runtime-only field, and at depth zero the older of two accepted slots |
| CacheDrop.ReloadReads | crates/storage/cache/src/cache.rs:313-326 | a reload answers every read of the saved field as the cache did, and every other read with nothing |
| CacheDrop.ReloadContinues | crates/storage/cache/src/cache.rs:309-326 | a reload written to in the saved field holds, account by account, what the cache would hold after that write: the saved depth comes back with the snapshot, whatever the configuration asks for |
| CacheDrop.LoneDrop | crates/storage/cache/src/cache.rs:373-391 | from any state, a handle that is the only one saves the snapshot when it is dropped |
| CacheDrop.OverlappingDropsLose | crates/storage/cache/src/cache.rs:374-378 | two overlapping drops each see the other and nothing is saved |
| Base64.DecodeBase64 | crates/solana/protocols-macros/src/log_parser.rs:172-210 | the loop over table, buffer and bit count, with 32-bit wrap-around, computes the specified decoder |
| Base64.BuildTable | crates/solana/protocols-macros/src/log_parser.rs:178-181 | the table holds each alphabet letter's index and 255 everywhere else |
| Base64.StandardAlphabet | crates/solana/protocols-macros/src/log_parser.rs:176 | the letters are A-Z, a-z, 0-9, + and / in that order, and the pad is the equals sign |
| Base64.KnownEncodings | crates/solana/protocols-macros/src/log_parser.rs:171-210 | the one-, two- and three-byte examples of section 10 of RFC 4648 |
| Base64.FeedHeld | crates/solana/protocols-macros/src/log_parser.rs:199-206 | between digits fewer than eight bits are held and the buffer is below two to their number, so the 32-bit shift loses nothing |
| Base64.FeedAt | crates/solana/protocols-macros/src/log_parser.rs:199-206 | at each of the four reachable bit counts, a digit either only extends the held bits or pushes exactly their top eight and keeps exactly the others |
| Base64.DecodeMeaning | crates/solana/protocols-macros/src/log_parser.rs:189-207 | for every text, padded, malformed or neither: the output is the one byte string that is the leading whole bytes of its digits read as a number in base 64 |
| Base64.DecodeInvertsEncode | crates/solana/protocols-macros/src/log_parser.rs:171-210 | decoding the encoding of section 4 of RFC 4648 returns the bytes, for every byte string, with or without padding |
| Base64.ForeignBytesInvisible | crates/solana/protocols-macros/src/log_parser.rs:194-197 | inserting a byte outside the alphabet other than the pad changes nothing, wherever it is inserted |
| Base64.PadEndsText | crates/solana/protocols-macros/src/log_parser.rs:190-192 | everything from the first pad on is ignored |
| OptionBool.FromBytesExact | crates/solana/protocols/src/protocols/option_bool.rs:231-243 | decoding accepts exactly the byte strings of at most sixteen bytes and keeps every one of them byte for byte |
| OptionBool.ToBytesRoundTrip | crates/solana/protocols/src/protocols/option_bool.rs:209-219 | of all the values the type can hold, exactly these can be encoded and decode back to themselves: the named forms, and trailers as bytes make them that spell no named form |
| OptionBool.DeserializedTrailers | crates/solana/protocols/src/protocols/option_bool.rs:126-130 | the derived deserializer can build a trailer whose length cannot be sliced, and one whose spare bytes do not survive the wire |
| OptionBool.UnobservedKept | crates/solana/protocols/src/protocols/option_bool.rs:223-242 | the byte 2, of no observed form, is accepted; and an unattributed trailer spelling the byte 1 decodes to another variant |
| OptionBool.DecodeInjective | crates/solana/protocols/src/protocols/option_bool.rs:63-66 | among trailers that fit, each decoded form comes from exactly one byte string |
| OptionBool.NewTrailer | crates/solana/protocols/src/protocols/option_bool.rs:138-150 | the filled buffer holds the bytes and zeros after them; empty and oversized inputs are refused |
| FieldCodec.DecodeAllOfEncodeAll | crates/solana/protocols/src/parsing/traits.rs:67-76 | encoded fields, with options and lists nested to any depth, decode to themselves and leave exactly what follows them |
| FieldCodec.EncodeAllOfDecodeAll | crates/solana/protocols/src/parsing/traits.rs:67-76 | whatever decodes was the one encoding of what it decoded to, followed by what is left |
| FieldCodec.KnownBytes | crates/solana/protocols/src/parsing/traits.rs:67-76 | little-endian integers, two's complement, four-byte lengths, one byte for a boolean or a presence |
| InstructionCodec.DataOfParsed | crates/solana/protocols-macros/src/protocol_instruction.rs:282-302 | every accepted instruction re-encodes to its own bytes exactly when its params type emits the discriminator it was dispatched on; a params type that emits none loses it |
| InstructionCodec.NoParamsLosesDiscriminator | crates/solana/protocols/src/parsing/traits.rs:178-188 | an argument-less variant parses, encodes to nothing, and its encoding is refused as too short |
| InstructionCodec.ParseOfData | crates/solana/protocols-macros/src/protocol_instruction.rs:191-250 | an instruction whose params carry their own discriminator parses back exactly when no earlier variant has the same discriminator and its trailing argument is not a second spelling |
| InstructionCodec.EncodeArgsOfDecodeArgs | crates/solana/protocols/src/parsing/traits.rs:45-65 | the strict argument decode accepts only the one encoding of what it returns, with a byte left over refused unless the final field takes the remainder |
| InstructionCodec.TryFromSlice | crates/solana/protocols-macros/src/protocol_instruction.rs:239-248 | the dispatch chain computes the specified parse; too short exactly below the discriminator size, unknown exactly when no variant matches, so a matching variant whose arguments fail is never retried under another |
| InstructionCodec.RefusalsReport | crates/solana/protocols-macros/src/protocol_instruction.rs:217-248 | each refusal exactly: too short below the discriminator size; undecodable when the first variant that matches cannot read its arguments; unknown when none matches, reporting the bytes padded with zeros on the right to eight |
| AccountVersions.AcceptedIsReleased | crates/solana/protocols-macros/src/onchain_state.rs:351-361 | every accepted account is a released version: all required fields, the first k groups whole and all later ones absent, from that version's own bytes, with padding only after the newest |
| AccountVersions.ReleasedIsAccepted | crates/solana/protocols-macros/src/onchain_state.rs:258-279 | every released version's bytes read back as that version, and padding after the newest changes nothing |
| AccountVersions.PaddingIff | crates/solana/protocols/src/parsing/state.rs:69-93 | a version followed by padding reads back as itself exactly when it is the newest or there is no padding |
| AccountVersions.PaddedReadsNewer | crates/solana/protocols/src/parsing/state.rs:69-93 | an older version in front of padding is refused, or reads as a strictly newer version that keeps its own fields and takes further ones out of the padding |
| AccountVersions.PaddingReadAsGroup | crates/solana/protocols/src/parsing/state.rs:73-76 | one byte of padding is read as a one-byte group the account does not have |
| AccountVersions.PaddingRefused | crates/solana/protocols-macros/src/onchain_state.rs:264-276 | the same byte in front of a group of two such fields is refused as half a group |
| AccountVersions.ChecksPassOnBoundary | crates/solana/protocols-macros/src/onchain_state.rs:264-276 | the group checks accept a run of present fields exactly when it ends on a group boundary |
| AccountVersions.RefusalsReport | crates/solana/protocols-macros/src/onchain_state.rs:264-295 | what a refusal reports: the length and the eight bytes needed; a differing discriminator; bytes that are not the fields; or the group there in part, how many of its fields there are, and how many it has |
| BalancePairing.Pair | crates/solana/protocols/src/chain/types.rs:205-270 | the nested loops with their consumed array pair the k-th post entry at an index with the k-th pre entry there, and emit post entries in arrival order and then the unmet pre entries in arrival order |
| BalancePairing.PartnerUnique | crates/solana/protocols/src/chain/types.rs:211-215 | no two pre entries meet the same post entry |
| BalancePairing.PreSidesConserved | crates/solana/protocols/src/chain/types.rs:205-270 | as multisets, with any duplicate indices, the pre sides of the output are the pre entries, each once: one that met its own account is joined, and any other stands alone with its owner, mint, program, amount and decimals |
| BalancePairing.PostSidesInOrder | crates/solana/protocols/src/chain/types.rs:202-203 | the post sides of the output are the post entries, each once, in arrival order |
| BalancePairing.DeltasConserve | crates/solana/protocols/src/chain/types.rs:275-277 | for any choice of holders, the summed deltas are the post total less the pre total |
| BalancePairing.TwoSidedAgree | crates/solana/protocols/src/chain/types.rs:216-226 | a two-sided change joins one pre and one post entry of the same index, owner and mint |

## Left out

- FixtureReplay.Replay: reading and writing fixture files, and the capture and deep-audit counters, are not modelled.
- WalkCounters.CountersBalance: speaks of the counters themselves and not of `attribution_stats`, which loads them one at a time; 64-bit wrap-around of the counters is not modelled.
- Ingest.Drain: a key's fetch response is fixed and only failures vary by attempt; over an infinite universe of reports nothing is said about termination. `IngestProtocol` leaves every response arbitrary.
- Ingest.IngestCore.Apply: dispatch is a fixed function of the update; the handlers, their effect on the cache, the network and the async runtime are absent.
- CacheDrop.AtMostOneSave: a save is taken to succeed and to be one step; I/O failure, the bytes of the file, explicit `save` calls and runs that begin from a loaded cache are not modelled.
- VersionedMap.VersionedStateMap.Insert: concurrent access to the map is one operation at a time per key, as its entry lock makes it; `get`, `len` and serialization only restate fields.
- QuoteState.AssembleIff: a computed field is a total function of the fields before it, and one value type stands for all account types. A keyed field's address uses the root alone, because the same expression is emitted where nothing else is in scope.
- AccountLayout.FromPubkeys: derived addresses are arbitrary functions of the fields bound earlier; program-derived address computation is not modelled.
- FieldCodec.DecodeAllOfEncodeAll: stands for borsh with little-endian signed and unsigned integers, booleans, fixed and length-prefixed bytes, options and lists; a nested struct is its field list, and UTF-8 strings, enums other than options, and maps are not modelled.
- FieldCodec.EncodeAllOfDecodeAll: covers the same field types as its inverse.
- InstructionCodec.ParseOfData: is stated for params that carry their own discriminator; the accounts enum, the event structs and the decode error text are not modelled.
- AccountVersions.AcceptedIsReleased: version groups are contiguous and in shipping order after the required fields, and no field type is empty; interleaved groups are not modelled.
- OptionBool.FromBytesExact: the interpretation of a form as a request, and its display, are not modelled.
- Parsing log text (regular expressions, base58, UTF-8): the walk starts from parsed entries.
- The macro crates' token handling and compile errors: layouts are assumed in the order the macros enforce, with conditionals and resolved accounts never mixed.
- The claim that the resolver task ends when the last ingest handle is dropped: the resolver itself holds one.
- `advance_slot`, the observed-slot counter: a single atomic maximum.
- Event log matching and field parsing around the base64 decoder, and the trimming of its input.
- Swap and bin arithmetic, floating-point prices, per-protocol parsers, platform tables and slippage helpers.
