# Wisp relay: a model and its proofs

Wisp is a Nostr relay for a microcontroller (`main/*.c`). Its state lives in a few fixed-size
tables that are changed in place under mutexes: an index of stored events over a flash file
system, subscription slots, connection slots and rate buckets. This project models those
tables, the operations on them and their whole runs, crashes included, and proves what a
client or a maintainer relies on.

How the model is laid out:

- `Bytes`, `Events`, `Index`: fixed-width integers and hexadecimal text; events, filters and
  NIP-01 matching; the 52-byte index entry, its expiry, its file name, and the lossy test on it.
- `StoreSpec`: the storage engine as a state machine on values (index, next file index, files,
  durable snapshot), with its invariant `Inv`. What a client can observe is the list `Shown`:
  live, unexpired, file loads, in save order.
- `NvsLayout`, `StorageEngine`: the chunked snapshot, and the class `Engine` with the index
  array, the loops and the early exits of `main/storage_engine.c`. Every method is proved to
  perform the `StoreSpec` step of its name.
- `Runs`, `Refinement`, `Lifetimes`, `Duplicates`: arbitrary interleavings of the operations
  with crashes between them and inside them; a plain list machine that the engine refines; no
  resurrection, time to live, bounded reclamation; which live entries have their file, and
  which saves are refused as duplicates.
- `Answers`: what a query answers, told without the functions that compute it.
- `DeletionSpec`, `Deletion`, `DeletionReach`, `DeletionRuns`: NIP-09 requests over the engine;
  which visible events they delete and which they spare, exactly; and requests inside runs.
- `RateLimiter`, `RateBound`: the bucket table and the bound over any trace.
- `SubTable`, `FilterCopy`, `SlotHeap`: the subscription table as a map, the deep copy of its
  filters over an explicit heap, and the table over that heap: at every moment the heap is
  exactly what the active slots own.
- `Connections`, `Relay`, `Server`: the connection table, the three tables as one state machine,
  and the objects that perform its steps.
- `Delivery`, `Handlers`: REQ replay, fan-out, and the EVENT handler, over all of the above.

## What the proofs found

The code is modelled as it is. Where it falls short of its documentation or of the obvious
reading, a lemma gives the exact condition.

- `README.md:15` of the relay promises that data disappears after 21 days. An entry lives for
  ever exactly when its `expires_at` is 0 or 2^32 - 1, and `NeverExpiresIff` gives the causes of
  each: a NIP-40 value that is a positive multiple of 2^32, or a wrapped now + TTL, among them.
  `ExpiryHonouredIff` says which NIP-40 values of 2^32 and more are honoured by luck.
- The index test truncates `until` to 32 bits. A time filter loses an in-range event exactly
  when `UntilMisread` holds; truncating `since` never loses one (`TimeBoundsCompleteIff`).
- The index test needs 64-digit ids and at least 8 digits of an author, while the full filter
  takes any prefix: a filter of shortened ids returns nothing (`ShortIdsPassNothing`, `PassesIff`).
- A REQ limit is cut to 16 bits, so a positive multiple of 65536 returns nothing
  (`LimitHonouredIff`).
- A save can be refused as a duplicate of an event nobody can see. Over whole runs that happens
  exactly when an expired entry of the id has not been swept, or an unexpired one is live though
  a delete of the id lost power, with no accepted save and no completed delete of it since
  (`DuplicateIff`; an unexpired live entry has lost its file in no other case). It needs no crash
  (`ExpiredStillDuplicate`); a plain crash can bring a swept entry back without its file
  (`CrashUndoesSweep`); right after a crash inside a delete, `InterruptedDeleteRefusesResave`
  gives the condition.
- Ten cleanup cycles reclaim what has expired only if the cleanup task is not restarted among
  them: each boot counts from zero. `ReclaimedIff` is the exact condition, and
  `RestartDelaysReclaim` a run of eighteen purges that leaves every expired entry in the index.
- A snapshot longer than the capacity is read back only if the capacity is a multiple of the
  chunk size 50, as 5000 and 1000 are; otherwise the whole index is dropped (`LoadInvertsSave`).
- A subscription id above 64 characters would be stored cut and can collide
  (`LongIdCollides`); the router's cut and check keep such ids out.
- The address and kind queries of a deletion event spare what is newer than the event exactly
  when its `created_at` is positive (`TimeBoundIff`): a filter reads an `until` of 0 or less as
  absent. Deletion by id has no time bound at all (`main/deletion.c:15-36`). `UntimedRequestTakesNewer`
  is the failing family, `UntimedRequestExample` one input. The age check of
  `main/validator.c:35-50`, with the 21 days of `main/main.c:113`, lets such an event through
  only while the clock is within 21 days of the epoch, that is before the time has been set.
- `main/validator.c:67-74` checks no duplicate although the handler asks for it; a duplicate is
  found by the save, accepted and fanned out again (`HandleEvent`).

## Model

| member | source | states |
|---|---|---|
| Bytes.DecodeEncode | main/storage_engine.c:404-412 | the decoder used on filter ids and authors inverts the hexadecimal spelling of any byte string, whatever text follows |
| Bytes.EncodeDecode | main/storage_engine.c:404-412 | whatever text decodes to some bytes spells them, up to the case of its letters |
| Index.ExpiryHonouredIff | main/storage_engine.c:316-322 | while now + TTL does not wrap, `expires_at` is the minimum of now + TTL and a positive NIP-40 value if and only if that value is below 2^32 or its low 32 bits are not below now + TTL; it is then positive and at most now + TTL |
| Index.SeenUntilExpiry | main/storage_engine.c:316-322 | for NIP-40 values below 2^32 a saved event can be seen at t exactly if t is at most now + TTL and at most that value, if there is one |
| Index.NeverExpiresIff | main/storage_engine.c:316-322 | no reading of the 32-bit clock finds a saved entry expired exactly when its field is 0 or 2^32 - 1; it is 0 for a wrapped-to-zero sum or a positive NIP-40 multiple of 2^32, and 2^32 - 1 for an all-ones sum with no NIP-40 value, or one whose low half is all ones too |
| Index.PathTextInjective | main/storage_engine.c:18-25 | two printed file names are equal exactly when the 16-byte id prefixes and the file indices are |
| Index.IndexTestComplete | main/storage_engine.c:387-436 | the index test rejects no in-range event that the full filter accepts, for full-length ids and authors and an `until` that is not misread |
| Index.TimeBoundsCompleteIff | main/storage_engine.c:390-391 | for a filter of time bounds alone, some in-range accepted event is lost if and only if `until` is misread; `since` is never the cause |
| Index.PassesIff | main/storage_engine.c:387-436 | exactly which accepted events survive the index test: truncated `until`, an id spelt in full, an author spelt for four bytes |
| Index.ShortIdsPassNothing | main/storage_engine.c:404-433 | a filter naming only shortened ids, or only authors of fewer than 8 digits, passes no event |
| Index.SpellsIff | main/storage_engine.c:407-412 | a text decodes to given bytes if and only if it starts with their digits in either case |
| Events.RejectsIff | test/native/test_filter.c:29-48 | a filter rejects an event exactly for a condition it has: no listed kind, author prefix or id prefix fits, a time bound is passed, or some tag condition has no tag of the event to meet it |
| StoreSpec.BuryInv | main/storage_engine.c:438-444 | tombstoning any set of positions and unlinking their files keeps the storage invariant, for the index and for the snapshot |
| StoreSpec.BuryShowsRest | main/storage_engine.c:438-444 | unlinking one entry's file never takes away another entry's: exactly the buried positions stop showing |
| StoreSpec.BuryThins | main/storage_engine.c:438-444 | burying takes exactly the buried serials off the visible list, in order |
| StoreSpec.BuryStaleUnseen | main/storage_engine.c:471-474 | tombstoning entries that have expired changes nothing visible then or later |
| StoreSpec.DeleteThins | main/storage_engine.c:569-590 | a delete removes its id from the visible list, at every time, and nothing else |
| StoreSpec.DeleteInv | main/storage_engine.c:569-590 | a delete keeps the storage invariant |
| StoreSpec.SaveInv | main/storage_engine.c:249-335 | every outcome of a save keeps the invariant: live ids distinct, file indices rising below the next, and no entry has a file but its own event's; `Duplicates` says which entries have one |
| StoreSpec.SaveShows | main/storage_engine.c:249-335 | a save that returns OK adds its event at the end of the visible list until it expires; any other outcome changes nothing visible |
| StoreSpec.SaveAnswers | main/storage_engine.c:249-334 | a save is answered OK if and only if no live entry has its id, the index has room and the file is written whole; and the exact condition of each of the five failures |
| StoreSpec.FreshPath | main/storage_engine.c:280-313 | a file written or removed at the next file index belongs to no entry, even when that index had been used before a crash |
| StoreSpec.CompactInv | main/storage_engine.c:537-567 | compaction keeps the storage invariant |
| StoreSpec.LiveMembers | main/storage_engine.c:546-556 | what compaction keeps are exactly the live entries |
| StoreSpec.LiveShown | main/storage_engine.c:546-556 | compaction changes neither what is visible nor its order |
| NvsLayout.LoadInvertsSave | main/storage_engine.c:39-158 | loading what a save wrote restores count, next file index and every entry, for every count up to 5000; with a smaller capacity, the first entries exactly if the capacity is a multiple of 50, and otherwise nothing |
| StorageEngine.Engine.constructor | main/storage_engine.c:160-222 | a boot restores the snapshot into the index over the files as they are, or starts with an empty index and file index 0 |
| StorageEngine.Engine.LoadIndex | main/storage_engine.c:101-158 | the chunk loop fills the array with exactly what the snapshot keys mean, and fails exactly when a key is missing or a chunk has the wrong size |
| StorageEngine.Engine.SaveIndex | main/storage_engine.c:39-99 | afterwards the snapshot keys are exactly those of the current index: ceil(count/50) chunks and no stale one |
| StorageEngine.Engine.EraseFrom | main/storage_engine.c:80-88 | stopping at the first missing key erases every stale chunk, when the keys were contiguous |
| StorageEngine.Engine.FindIndexEntry | main/storage_engine.c:27-37 | the loop returns the first live entry of the id, or none when no live entry has it |
| StorageEngine.Engine.EventExists | main/storage_engine.c:337-346 | true exactly when a live entry has the id |
| StorageEngine.Engine.GetEvent | main/storage_engine.c:592-610 | the loaded file of the live entry; `GetShown` says what that means |
| StorageEngine.Engine.SaveEvent | main/storage_engine.c:249-335 | the error order (duplicate, full, memory, serialization, file) and the new state are those of the abstract save, snapshot on every tenth entry included |
| StorageEngine.Engine.IndexMatches | main/storage_engine.c:387-436 | the loops decide the index condition: some listed kind, some listed id, some listed author prefix, and the truncated bounds |
| StorageEngine.Engine.MarkEntryExpired | main/storage_engine.c:438-444 | one position is tombstoned, one file unlinked, nothing else |
| StorageEngine.Engine.QueryEvents | main/storage_engine.c:446-495 | the results equal the naive scan: the first min(limit, 500) visible events that pass, newest save first, although the loop tombstones as it goes; it stopped as early as that allows and tombstoned exactly the expired entries it passed |
| StorageEngine.Engine.PurgeExpired | main/storage_engine.c:508-535 | every live expired entry is tombstoned, their number returned, and the snapshot written if there was one |
| StorageEngine.Engine.CompactIndex | main/storage_engine.c:537-567 | the in-place two-position loop leaves exactly the live entries in their old order and returns the number dropped |
| StorageEngine.Engine.DeleteEvent | main/storage_engine.c:569-590 | not found, or the entry tombstoned, its file unlinked and the snapshot written |
| StorageEngine.Engine.Destroy | main/storage_engine.c:224-236 | an orderly shutdown leaves the snapshot equal to the index |
| StorageEngine.ScanDone | main/storage_engine.c:466-488 | a backwards scan that ran out of entries or reached its limit has answered the query |
| Answers.QueryAnswers | main/storage_engine.c:446-495 | every query on a sound store: at most 500 events and at most the limit, all visible and passing, the newest saves first; one that is left out means a full answer of newer ones |
| Runs.StepKeeps | main/storage_engine.c:249-590 | every step, and every crash between or inside steps, keeps the storage invariant and the bond between index and snapshot |
| Runs.RunKeeps | main/storage_engine.c:249-590 | crash consistency over whole runs: the snapshot is an index prefix in the same block of ten, its next file index trails by the difference, and the entries differ only by tombstones on entries already expired |
| Runs.CrashLosesAtMostNine | main/storage_engine.c:327-329 | a restart loses at most the last nine saves, and shows exactly the old list restricted to the serials of the snapshot |
| Runs.SavesAwaitTenth | main/storage_engine.c:327-329 | within a block of ten the snapshot stays as it was, and the accepted save that completes the block writes all of it |
| Runs.FirstNineAreLost | main/storage_engine.c:327-329 | the nine are reached: a loss of power after the first one to nine saves leaves nothing, after the tenth all ten |
| Refinement.StepRefines | main/storage_engine.c:249-590 | one step of the engine is one step of a plain list: save appends, delete filters by id, crash cuts the newest serials, all else leaves the list alone |
| Refinement.RunRefines | main/storage_engine.c:249-590 | whole-run refinement: after any interleaving, crashes included, the engine shows at every later instant what the list shows |
| Refinement.RunQuery | main/storage_engine.c:446-495 | every query after any run from the empty store is answered by the list alone |
| Refinement.WrittenSaveShows | main/storage_engine.c:249-335 | availability: after any run, a save is OK exactly when its id has no live entry, the index has room and the file is written; its event is then visible, as the newest, up to now + TTL and its NIP-40 value, and in every other case nothing visible changes |
| Refinement.GetShown | main/storage_engine.c:592-610 | a get returns an event exactly when it would be visible if nothing expired |
| Refinement.CrashShows | main/storage_engine.c:581-586 | what a boot shows after an operation was interrupted, the unlink of a delete included |
| Refinement.VisibleIsDuplicate | main/storage_engine.c:255-258 | an event that can be seen is refused as a duplicate |
| Refinement.InterruptedDeleteRefusesResave | main/storage_engine.c:581-586 | right after a crash inside a delete the id is visible at no time, yet a save is refused exactly when the snapshot still lists it as live |
| Duplicates.StepComplete | main/storage_engine.c:249-590 | without loss of power every step keeps a file for every live entry, so each live entry's path maps to its event |
| Duplicates.RunComplete | main/storage_engine.c:249-590 | the same over whole runs without loss of power, restarts included |
| Duplicates.StepAccounted | main/storage_engine.c:249-590 | every step, crashes included: a live entry without a file, in RAM or in the snapshot, has expired or is of an id whose delete lost power |
| Duplicates.RunAccounted | main/storage_engine.c:249-590 | the same over whole runs; an id is forgotten by its next save or completed delete |
| Duplicates.DuplicateIff | main/storage_engine.c:255-258 | after any run with crashes a save is refused as a duplicate if and only if the event is visible, or an expired entry of it is unswept, or an unexpired entry is live and the id is among those whose delete lost power with no accepted save and no completed delete since; and an unexpired live entry is without its file exactly in that last case |
| Duplicates.ExpiredStillDuplicate | main/storage_engine.c:255-258 | a run without a crash in which an invisible event is refused |
| Duplicates.CrashUndoesSweep | main/storage_engine.c:471-474 | a run with a plain crash and no delete in which an event visible at no time is refused |
| Lifetimes.NoResurrection | main/storage_engine.c:569-590 | after a delete, even one cut by a crash, no later query or get in any run with crashes returns the id, as long as no save of it is answered OK; refused saves may be among the steps |
| Lifetimes.ExpiredStaysHidden | main/storage_engine.c:316-322 | an event saved with expiry x is shown at no time after x, whatever purges, compactions, queries, restarts, crashes and refused saves happen between, as long as no later save of its id is answered OK |
| Lifetimes.CyclesBounded | main/storage_engine.c:647-669 | after any run, crashes and restarts included, a compaction follows the tenth purge at the latest |
| Lifetimes.ReclaimedIff | main/storage_engine.c:647-669 | when some entry has expired as the cleaner purges, all such are out of the index after any crash-free acts if and only if the cleaner compacts in them, that is gets its calls in from one boot; clients may step between the purge and the compaction |
| Lifetimes.ReclaimedWithinTenCycles | main/storage_engine.c:647-669 | what has expired when the cleaner purges is out of the index after at most nine more purges and a compaction, if the cleaner is not restarted among them; whatever clients do meanwhile and whatever came before |
| Lifetimes.ReclaimedDespiteRestarts | main/storage_engine.c:647-669 | with restarts in between, ten purges and a compaction from one boot reclaim it |
| Lifetimes.RestartDelaysReclaim | main/storage_engine.c:650-663 | a purge, eight more, a restart and nine more leave every entry of the index, each expired one included, at its place |
| Lifetimes.FullOfLiveEntries | main/storage_engine.c:260-264 | after a compaction a save is refused as full only when live entries alone fill the index |
| DeletionSpec.DeletedInv | main/deletion.c:10-155 | deletions and the queries between them keep the storage invariant |
| DeletionSpec.IdsDelete | main/deletion.c:10-39 | deletion by id tombstones exactly the live events that are listed and written by the requester, and counts them |
| DeletionSpec.SelectorClears | main/deletion.c:76-93 | one query and its deletes remove only events of the asked author and kind with a fitting d-tag, and leave none when the cap was enough |
| DeletionSpec.SelectorThins | main/deletion.c:76-89 | one query and its deletes take off the visible list exactly the passing events whose d-tag fits and that have fewer than the cap of newer passing ones, and nothing else |
| DeletionSpec.SelectorLeaves | main/deletion.c:76-89 | deletion up to the cap: of the visible passing events, newest save first, exactly those among the first 100 (addresses) or 500 (kinds) whose d-tag fits disappear, and the rest stay in order |
| DeletionSpec.SelectorLeavesAccepted | main/deletion.c:76-89 | the same of the events the NIP-01 filter accepts, for in-range events and a `created_at` below 2^32 |
| DeletionSpec.AllClear | main/deletion.c:46-97 | for a list of addresses or kinds, one after another: only events some of them select are deleted, and none is left where a cap was enough |
| DeletionSpec.AllThin | main/deletion.c:46-97 | and exactly, up to the caps: the visible list is thinned once for each, in order |
| DeletionSpec.RequestThins | main/deletion.c:157-178 | the whole request on the visible list, exactly: the listed own events go, then each address and kind takes what it selects up to its cap |
| DeletionSpec.StopUnique | main/storage_engine.c:466-488 | a query's result and effect are determined: there is one place its scan can stop |
| DeletionSpec.RequestProcessed | main/deletion.c:157-178 | the whole request: exactly the listed own events by id, only and (within the caps) all selected events by address and kind, and the count is the number of entries tombstoned by deletion, not by expiry |
| DeletionSpec.ChosenIsOwn | main/deletion.c:55-74 | an event selected by address or kind has the full public key of the requester, not just its four indexed bytes, has the kind and d-tag of one of its addresses or the kind of one of its first 32 "k" tags, and, if the request's `created_at` is positive, is not newer than the request |
| DeletionSpec.AuthorKindAcceptsIff | main/deletion.c:62-74 | the query of an address or of a kind asks for exactly the requester's events of the kind, no newer than a positive `created_at`; anything older included |
| DeletionSpec.TimeBoundIff | main/deletion.c:72-74 | the query of a deletion spares every newer event if and only if the request's `created_at` is positive (or the kind is one no event can have) |
| DeletionSpec.UntimedRequestTakesNewer | main/deletion.c:128-149 | with a `created_at` of 0 or less, every visible own event of a tagged kind goes, however new, up to the cap |
| DeletionSpec.UntimedRequestExample | main/deletion.c:128-149 | an event of second 100 deleted by a request of second 0 |
| DeletionSpec.OnlyOwnEvents | main/deletion.c:157-178 | deletion frame: every newly tombstoned entry had expired, or holds an event of the requester that the request names by id, or by address or kind and, if the request's `created_at` is positive, is not newer than the request |
| DeletionSpec.AfterRequestKeeps | main/deletion.c:157-178 | a request keeps the storage invariant and the next file index |
| DeletionReach.AtoiInvertsDecimal | main/deletion.c:111 | the kind read from a "k" tag is the number written in it |
| DeletionReach.KindListedIff | main/deletion.c:108-113 | the kinds worked through are exactly those of the tags with fewer than 32 "k" tags before them |
| DeletionReach.FirstDTag | main/deletion.c:82-86 | the d-tag of an event is that of its first "d" tag, or empty |
| DeletionReach.KindReach | main/deletion.c:123-149 | of a kind in one of the first 32 "k" tags, every visible event of the requester no newer than a dated request goes, if there are at most 500 |
| DeletionReach.AddressReach | main/deletion.c:41-100 | of an address that names the requester, every such event of its kind and d-tag goes, if there are at most 100 of the kind |
| DeletionReach.IdReach | main/deletion.c:10-39 | every visible event of the requester whose id is listed goes, whatever its date, and a request makes nothing visible |
| DeletionReach.RequestSpares | main/deletion.c:157-178 | what was visible and is not named by the request still is |
| DeletionReach.DeletesExactly | main/deletion.c:157-178 | where the caps of 100 and 500 suffice, a visible event is gone after the request if and only if it is the requester's and listed by id, or named by an address or kind and no newer than a dated request |
| DeletionReach.ThinIff | main/deletion.c:62-93 | of a visible list, one query and its deletes take an event exactly when it passes, its d-tag fits and fewer than the cap of the passing ones are newer |
| DeletionReach.SoleAddress | main/deletion.c:62-93 | the cap of an address, exactly: an event goes if its d-tag is the address's and fewer than 100 of the requester's events of the kind are newer |
| DeletionReach.SoleKind | main/deletion.c:123-149 | the cap of a kind, exactly: an event goes if fewer than 500 are newer |
| Deletion.DeleteByEventIds | main/deletion.c:10-39 | the loop's state and count are those of the listed ids taken one by one |
| Deletion.DeleteListed | main/deletion.c:15-36 | deletes and counts exactly when the text decodes, the event loads and its author asks |
| Deletion.DeleteMatching | main/deletion.c:76-89 | one query, then a delete of each result whose d-tag fits; the state and count `SelectorLeaves` and `SelectorClears` speak about |
| Deletion.DeleteByAddresses | main/deletion.c:41-100 | skips addresses that do not split or are another author's, and works through the others in order |
| Deletion.CollectKinds | main/deletion.c:105-114 | the kinds of the first 32 "k" tags, in order |
| Deletion.DeleteByKinds | main/deletion.c:102-155 | works through those kinds in order, with the author and time of the deletion event |
| Deletion.DeletionProcess | main/deletion.c:157-178 | nothing for another kind or an unreadable request; otherwise ids, addresses and kinds in that order, with the sum of the counts |
| DeletionRuns.DeletedTrack | main/deletion.c:157-178 | a deletion request keeps the bond between index and snapshot |
| DeletionRuns.DeletedForGood | main/deletion.c:157-178 | what a request deleted is returned by nothing later, through any run with crashes and refused saves, until a save of it is answered OK |
| DeletionRuns.RequestIsRun | main/deletion.c:157-178 | a request is a run of queries and deletes at one instant, so the whole-run theorems cover runs with requests in them |
| RateLimiter.Limiter.GetBucket | main/rate_limiter.c:29-47 | the fd's own bucket, else the first free one started afresh, else none |
| RateLimiter.Limiter.Check | main/rate_limiter.c:49-86 | the answer and the new table are those of the abstract check; one bucket per fd is kept |
| RateLimiter.Limiter.Reset | main/rate_limiter.c:88-98 | the fd's bucket is deactivated; one bucket per fd is kept |
| RateLimiter.CheckKeeps | main/rate_limiter.c:49-86 | isolation: a check changes no other fd's bucket, depends on no other fd's bucket when a slot is available, and without a slot is refused and changes nothing |
| RateLimiter.ResetKeeps | main/rate_limiter.c:88-98 | a reset forgets its fd and changes no other fd's bucket |
| RateBound.WrappedAge | main/rate_limiter.c:59-61 | a wrapped age is at most the real age, so a window found a minute old is a minute old |
| RateBound.RateBounded | main/rate_limiter.c:49-86 | in any d seconds one fd that is not reset is allowed at most (ceil(d/60)+1) times the limit, over any trace with other fds, across clock wraps, given when its current window really began |
| RateBound.RateBoundedAfter | main/rate_limiter.c:49-98 | the same with nothing given: after any history, resets included, from a table that did not know the fd |
| RateBound.AtMostTwiceAMinute | main/rate_limiter.c:49-86 | at most twice the limit in any sixty seconds |
| RateBound.History | main/rate_limiter.c:49-86 | after any trace a bucket's counts are the checks allowed since its window began, none above the limit, and the window began at a reading of a check of that fd |
| RateBound.RefusedIff | main/rate_limiter.c:59-82 | after any trace, a check with a slot, its own or a free one, is refused exactly when the limit was already granted in its bucket's window of wrapped age below sixty seconds, or the limit is 0 |
| RateBound.EventsBounded | main/rate_limiter.c:66-74 | EVENTs are held to (ceil(d/60)+1) times the configured events a minute in any d seconds, after any history |
| RateBound.ReqsBounded | main/rate_limiter.c:75-82 | REQs are held to the configured requests a minute likewise |
| RateBound.EventRefusedIff | main/rate_limiter.c:66-74 | an EVENT with a bucket is refused exactly when the configured number of EVENTs was allowed in a window of wrapped age below sixty seconds, or that number is 0; REQs do not count |
| RateBound.ReqRefusedIff | main/rate_limiter.c:75-82 | a REQ likewise, by the configured number of requests; EVENTs do not count |
| SubTable.SubManager.constructor | main/sub_manager.c:106-113 | the table starts as the empty map |
| SubTable.SubManager.Find | main/sub_manager.c:129-139 | the first active slot of the key, or none |
| SubTable.SubManager.CountOf | main/sub_manager.c:188-193 | the number of active slots of the connection |
| SubTable.SubManager.AddSub | main/sub_manager.c:164-225 | the error order and the new slots are those of the abstract add, and the counter equals the number of active slots |
| SubTable.SubManager.RemoveSub | main/sub_manager.c:227-243 | unknown exactly when the map lacks the key; counter kept |
| SubTable.SubManager.RemoveConn | main/sub_manager.c:245-263 | every slot of the connection cleared in place, no other; counter kept |
| SubTable.SubManager.MatchEvent | main/sub_manager.c:265-285 | at most 64 entries, in slot order; `MatchedOnce` says which |
| SubTable.AddRefines | main/sub_manager.c:164-225 | as a map from (connection, id) to filters: an add replaces or inserts one key, a failed insert changes nothing, a failed update leaves the key with no filters |
| SubTable.AddSound | main/sub_manager.c:188-216 | an add keeps keys distinct, at most 8 keys a connection, at most 4 filters a key, and changes the active count by the new key alone |
| SubTable.RemoveRefines | main/sub_manager.c:227-243 | a removal deletes one key of the map |
| SubTable.RemoveAllRefines | main/sub_manager.c:245-263 | removing a connection deletes exactly its keys |
| SubTable.LongIdCollides | main/sub_manager.c:207-208 | with an id of any length, keys stay distinct after an add if and only if the key was found or the cut id was not there |
| SubTable.MatchedOnce | main/sub_manager.c:265-285 | each subscription with a matching filter is matched once, every other not at all |
| FilterCopy.Memory.CopyStrings | main/sub_manager.c:8-23 | new blocks for the array and every string, spelling the same; it succeeds exactly when they can all be allocated, and otherwise gives everything back and returns NULL |
| FilterCopy.Memory.CopyGeneric | main/sub_manager.c:34-53 | the same for tag conditions and their values, freeing what earlier conditions took when a later one fails |
| FilterCopy.Memory.CopyInts | main/sub_manager.c:25-32 | an equal copy in a new block, or NULL exactly when its one allocation fails |
| FilterCopy.Memory.CopyFilter | main/sub_manager.c:55-92 | a deep copy: the heap grows by exactly the blocks the copy owns, none shared with the source down to the strings, and it spells the same filter; it succeeds exactly when memory suffices, and a failed one leaves the heap as it was and a cleared record |
| FilterCopy.Memory.CopyFilters | main/sub_manager.c:149-162 | all filters of a slot, up to four, in new blocks, or none and no block leaked; which one, is the `failAt` of the subscription table, computed from the sizes and the memory left |
| FilterCopy.Memory.FreeFilter | main/router.c:74-82 | every block the filter owns is freed, its strings included, and no other |
| FilterCopy.Memory.StoreThenFree | main/main.c:85-86 | after a REQ is stored and its message freed, the slot spells what the message's filters did, no block of the message is left, and none has leaked |
| SlotHeap.ClearedExact | main/sub_manager.c:92-104 | when the blocks of one slot are freed, the heap is still exactly what the slots and the parsed message own, each block once, and no other slot or message spells anything else |
| SlotHeap.FilledExact | main/sub_manager.c:149-162 | the same when filters in new blocks are stored in a slot that owned nothing |
| SlotHeap.FreedMessage | main/router.c:74-82 | once the message is freed, the heap is exactly what the active slots own: nothing has leaked and nothing in use was freed |
| SlotHeap.Subscriptions.AddSub | main/sub_manager.c:164-225 | over the heap, the table changes as on values, with `failAt` computed from the sizes and the memory left; a replaced subscription's blocks are freed, a failed copy leaves none, and the exactness above is kept |
| SlotHeap.Subscriptions.RemoveSub | main/sub_manager.c:227-243 | exactly the removed slot's blocks go, and the exactness is kept |
| SlotHeap.Subscriptions.RemoveConn | main/sub_manager.c:245-263 | the same for every slot of a connection |
| SlotHeap.Subscriptions.Request | main/main.c:85-86 | from parse to free: whatever the outcome of the REQ, afterwards the heap holds the blocks of the active slots and no others |
| Connections.ConnTable.OnOpen | main/ws_server.c:86-122 | refused at eight by the counter or for lack of a slot; otherwise one slot filled and the counter kept equal to the active slots |
| Connections.ConnTable.OnClose | main/ws_server.c:132-141 | the fd's slot cleared if there is one, and the counter kept |
| Relay.NextKeeps | main/ws_server.c:86-142 | every step of the three tables keeps: both counters exact, quotas, one bucket per fd, and every subscription and bucket owned by an open connection |
| Relay.RunKeeps | main/ws_server.c:86-142 | the same over every run |
| Relay.SubSlotFree | main/sub_manager.c:200-205 | pigeonhole over all three tables: a connection below its quota finds a free slot among the 64 |
| Relay.BucketFree | main/rate_limiter.c:36-46 | an open connection has a rate bucket or can get one |
| Relay.ConnSlotFree | main/ws_server.c:98-103 | a connection the counter admits finds a slot |
| Relay.NeverExhausted | main/sub_manager.c:200-205 | in every run from the empty relay, with its 8 connections, 64 slots and 16 buckets, the three "no free slot" branches are unreachable: an admitted REQ fails for memory only if copying its filters fails |
| Relay.OpenMeans | main/ws_server.c:86-122 | an open succeeds if and only if fewer than eight descriptors are open, and then opens its own; otherwise it is refused as one too many |
| Relay.ReqMeans | main/router.c:218-241 | a REQ is admitted by rate, an id of 1 to 64 characters and at most four filters; it is then stored if and only if its key is known or its connection has fewer than eight keys, and the filters can be copied; what the table says afterwards in every case |
| Relay.PublishMeans | main/router.c:197-216 | an EVENT touches no connection, no subscription and no other bucket |
| Relay.CloseSubMeans | main/handlers_stub.c:117-125 | a CLOSE takes exactly its key out of the table |
| Relay.CloseMeans | main/ws_server.c:124-142 | a closed connection takes along exactly its descriptor, its keys and its bucket |
| Server.Tables.OnOpen | main/ws_server.c:86-122 | the object performs the state machine's step |
| Server.Tables.OnWsDisconnect | main/main.c:65-69 | all subscriptions of the connection removed, then its bucket |
| Server.Tables.OnClose | main/ws_server.c:124-142 | the disconnect callback and then the slot together are the state machine's close, and keep its invariant |
| Server.Tables.CloseSubscription | main/handlers_stub.c:117-125 | performs the state machine's step, and is refused exactly for a key the map lacks |
| Delivery.LimitHonouredIff | main/handlers_stub.c:81 | a positive limit acts as min(limit, 500) if and only if it is below 65536 or its low 16 bits are at least 500; it acts as 0 exactly when it is a multiple of 65536 |
| Delivery.ResultsAnswer | main/handlers_stub.c:78-87 | one filter of a REQ is answered with the newest visible events that pass: at most 100 without a limit, else as many as the low 16 bits of the limit say, up to 500, and none left out while there is room |
| Delivery.ReplayedUnion | main/handlers_stub.c:89-105 | nothing recorded is sent again, everything sent is a result, every result is sent or shares an id with something sent or recorded |
| Delivery.EarlyIdsOnce | main/handlers_stub.c:101-103 | an id sent before the buffer filled up is never sent again |
| Delivery.ReplayDelivers | main/handlers_stub.c:70-112 | a REQ sends exactly the union of its per-filter results; an event sent twice was not among the first 64 sent |
| Delivery.SuppressedIff | main/handlers_stub.c:89-105 | a result is suppressed exactly when one of the first 64 events sent before it has its id |
| Delivery.ReplayOrder | main/handlers_stub.c:78-108 | of the first 64 events sent, those an earlier filter returns come first, and of one filter the newest saves |
| Delivery.StreamsOf | main/handlers_stub.c:89-114 | the messages of a REQ: an event is carried if and only if some filter's query returns it, all to that subscription, in replay order, and EOSE is the last message and the only one |
| StoreSpec.PassesIsAccepts | main/storage_engine.c:476-482 | for filters the index test reads correctly, the results are the newest visible events the NIP-01 filter accepts |
| Delivery.FanoutExact | main/broadcaster.c:16-31 | one send for each subscription with a matching filter, none for any other, at most 64 |
| Delivery.FansOut | main/broadcaster.c:16-31 | the messages of a fan-out: exactly one for each subscription of the table with a filter that accepts the event, and no other message |
| Handlers.SendNew | main/handlers_stub.c:89-105 | the inner loops with the capped buffer of sent ids compute the suppressed list of `Delivery` |
| Handlers.ReplayStored | main/handlers_stub.c:78-108 | the replay sends what `ReplayDelivers` speaks about, all results when the buffer could not be allocated, and changes nothing visible |
| Handlers.HandleReq | main/handlers_stub.c:53-115 | the subscription is stored first; then the stored events and one EOSE, or one CLOSED when it was refused |
| Handlers.ReqAnswers | main/handlers_stub.c:53-115 | a stored REQ is answered by those messages, a refused one by a single CLOSED |
| Handlers.DispatchReq | main/router.c:218-241 | the answer to a REQ: if its rate, id (1 to 64 characters), filters (at most four) and storing allow it, exactly the events its filters' queries return, in replay order, then EOSE; otherwise one CLOSED of that subscription; the tables take the state machine's step |
| Handlers.Fanout | main/broadcaster.c:10-34 | one send for each match, in order |
| Handlers.StoreEvent | main/handlers_stub.c:31-44 | a kind-5 event first deletes, then is itself saved; an ephemeral one is not saved |
| Handlers.KeptIff | main/handlers_stub.c:36-44 | storage lets an event through exactly when it is ephemeral (kinds 20000 to 29999), or its id is live, or there is room and its file is written, after its own deletion request |
| Handlers.HandleEvent | main/handlers_stub.c:16-51 | an invalid event changes nothing and is not sent; a failing store stops before the fan-out but after the deletion; a duplicate is accepted and sent again |
| Handlers.DispatchEvent | main/router.c:197-216 | the answer to an EVENT: the last message is OK true if and only if the rate allowed it, it is valid, and it is ephemeral, already live, or could be written; then exactly one message went to each subscription that wants it, otherwise none; the tables take the state machine's step |
| Handlers.AcceptedIsStored | main/handlers_stub.c:31-44 | an event the store answered OK or duplicate is live in the index; a new one is what a get returns and the newest visible event until it expires, after what its own deletion request left |
| Handlers.EventStored | main/handlers_stub.c:31-44 | what an EVENT changes of what can be seen, without the store's answers: a new storable one with room and a written file is added as the newest, up to its expiry; nothing else, but for its own deletion request |

## Left out

- StorageEngine.Engine.SaveEvent: promises the storage invariant afterwards only while the 32-bit file index does not wrap, that is for the first 2^32 - 1 saves; the runs of `Runs` and `Lifetimes` assume that room.
- StorageEngine.Engine.QueryEvents: needs and keeps the invariant on the abstract state (`BuryInv`) rather than repeating it as a postcondition; `StorageEngine.Engine.DeleteEvent` likewise (`DeleteInv`).
- FilterCopy.Memory.CopyFilter: an address is not given out again after it was freed, and the length of a list stands for the count kept beside its pointer. When an allocation fails, the code frees a record whose count is already set while the pointer is NULL (`main/sub_manager.c:58-60`, `78-80`, `87-88`); the model takes it that `nostr_filter_free`, which is not part of this repository, tolerates that.
- SlotHeap.Subscriptions.AddSub: performs the heap's part and then the table's; the code interleaves the two under one lock. `Relay` and `Server` use the table on values, with `failAt` as a parameter.
- Deletion.DeleteByAddresses: collects the selectors of the addresses first and then runs the queries; they do not depend on the store, so the order of effects is that of the code. Deletion by kind likewise. The address text split by `sscanf`, `nostr_deletion_parse` and out-of-range `atoi` are inputs or plain integers.
- Inner loops and some loop bodies are methods of their own (`ScanDown`, `MarkAllExpired`, `MoveLiveDown`, `WriteChunks`, `EraseFrom`, `DeleteSelected`, `DeleteNext`, `DeleteResult`, `SendNew`, `SendNext`, `WasSent`, `CopyTags`, `FreeIfOf`); the code has them inline.
- Files hold an event or unparsable bytes: parsing inverts serialization, and the 8192-byte limit appears only as the outcome "not serializable". Partial NVS commits and failing NVS writes are not modelled; a commit is atomic and succeeds.
- Running out of memory is modelled in the save, in the filter copies and for the buffer of sent ids; not for the result buffer of a query, the file buffer of a load or the filters inside a deletion.
- Each mutex-protected body is one atomic step. One REQ or one deletion request reads the clock once, and no other task runs between its queries and deletes.
- `Runs` keeps the capacity across restarts; the boot with a smaller capacity is covered by the constructor and `LoadInvertsSave`. A restart that loses the snapshot is not an operation of `Runs`.
- libnostr is not part of this repository. `nostr_filter_matches` follows the shape of `test/native/test_filter.c:29-48` with NIP-01's rule for tags; `nostr_hex_to_bytes` is taken to accept both cases; ephemeral kinds are NIP-01's 20000 to 29999; the author of a deletion request is the author of its event; signature, id and age checks are one input of the EVENT handler.
- Matching against an empty filter list is a parameter, because the repository's two test doubles disagree on it (`test/native/test_filter.c:51`, `test/native/test_sub_manager.c:93`).
- The clock never goes back in `Runs` and `Lifetimes`, not even over a loss of power; in fact `time()` restarts near 1970 until it is set again (`main/main.c:162-175`).
- The texts of OK messages, NOTICE messages, the last-activity stamps, and the client address.
- `storage_get_stats`, the flash monitor, Wi-Fi, SNTP, HTTP and WebSocket framing, NIP-11: I/O or one-branch code.
- `test/native/test_storage.c` describes a different engine (slot reuse, expiry from `created_at`, `<=`) and is not followed.
