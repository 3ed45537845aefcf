# Verified model of the concurrency protocols, containers and algorithms

The project models, in Dafny, the parts of the repository whose correctness is hard to see from reading one function,
and proves what they promise:

- the **cross-process directory lock** with heartbeats and its collector of stale locks (`LockProtocol`, `LockBound`,
  `LockHeartbeats`, `LockReclaim`, `LockFile`);
- the **asynchronous cache**, every interleaving of its segments between two awaits, and its collector
  (`OrderedMap`, `CacheModel`, `CacheSizes`, `CacheEviction`, `CacheOrder`, `CacheWaiters`, `CacheAnswers`, `Cache`),
  and the **rate limiter** on top of it (`RateLimit`, `RateLimiter`);
- the fixed-memory containers: the **intrusive list** (`NonOwningList`), the **ring buffer** (`RingBuffer`), views of
  **several spans** (`Spans`) and the **flat map** (`FlatMap`);
- the in-place algorithms: **heap sort** (`HeapSort`), **lower and upper bound** (`Bounds`) and the narrowing
  **prefix search** (`PrefixSearch`);
- the **bracket scanner** (`BracketScan`), **time series** (`SeriesModel`, `TimeSeries`), **routes** (`Router`), the
  **outlier loop** (`Outliers`, with `Binary64`) and **unit conversion** (`NamedType`).

`dafny verify dfyconfig.toml` checks everything.

## How it is built

Objects the source updates in place are classes with its fields, and each method says what the new fields are.
Where several activities interleave, the same segments are also functions on a state, a run is any sequence of enabled
steps, and the class methods are proved equal to those functions: `LockFile` to `LockProtocol`, `Cache` to
`CacheModel`, `RateLimiter` to `RateLimit`. A segment is a stretch of code without an await and is one step. In the
lock, time is a number of milliseconds that only a step of its own advances, mkdir is atomic, and `Config.statDelay`
is the longest time between the collector's clock read and the answer of its stat. In the cache, a collection is
named by its registration index and a fetch by the call that started it.

## What the code does beyond, or other than, what it says

- The lock is safe for all runs exactly when the oldest allowed heartbeat and the stat delay together stay within the
  threshold: getStatus reads the clock before it looks at the directory (`LockBound.ExclusionIffTimely`).
- An unlock that gives up on a running heartbeat still removes the directory, and the heartbeat can land on the next
  owner's directory and set it back in time, exactly when the timeout is no longer than the allowed age of a heartbeat
  (`LockHeartbeats.BeatsLandOwnIff`).
- `Cache2.set` with the type reserved for fetches fails only after it has deleted the entry, and leaves the sizes too
  large, exactly when that entry had a size (`CacheSizes.RunKeepsSizesIff`).
- A manual `set` of a key that is being fetched, or a collector run that crowds its marker out, and nothing else, allows a
  second fetch of it (`CacheWaiters.RunKeepsMarkersIff`, `CacheWaiters.InPlaceIffOneEach`).
- The collector can evict an entry whose time is not up although all such entries fit into the limit, because expired
  entries of the collections after it still count at its turn (`CacheEviction.SurvivesInNumbers`,
  `CacheEviction.ExpiredTakesRoom`).
- With a threshold of zero or less `isOverLimit` still answers false while no unexpired entry exists
  (`RateLimit.OverLimitExact`).
- Inserting a new greatest key in a full map does nothing and reports nothing, while any other new key fails an
  assertion (`FlatMap.Map.Insert`). The list constructor sorts with the keys' own order, not with the map's
  comparison, which is sound exactly when the comparison implies the keys' own order (`FlatMap.SoundIff`).
- `Spans::last` of more elements than there are is empty (`Spans.Last`).
- The documentation of `loadAndRepair` speaks of the longest valid object; the code considers maximal bracket regions
  only, so a valid object inside a larger invalid region is not found, unless its text occurs as a maximal region too
  (`BracketScan.LongestIff`, `BracketScan.InnerMissed`).
- With the default merge, inserting and repairing keep different values (`SeriesModel.DefaultMergeDiffers`).
- A route that consists of `{x:*}` alone loses the first character of its value, and is the only one that does. The path
  printed for an `i` value that is negative, not whole, or 10^21 and more does not match (`Router.RoundTripIff`,
  `Router.LargeNumberLost`).
- The outlier loop can fail to end at its default coefficient of 1, because the rounded threshold can lie above the
  outlier it was computed from; above 1 it always ends (`Outliers.FloatsEndIff`).
- `RingBuffer::assign` of a section of the own storage divides an element offset by the element size, and is right
  exactly when the section starts the storage or elements have size one (`RingBuffer.SectionKeptIff`).
- Erasing an element through another list than its own leaves both sizes wrong (`NonOwningList.List.Erase`).

## Model

| member | source | states |
|---|---|---|
| LockBound.ExclusionIffTimely | nodejs/core/lock_file.js:88-194 | main result: over all runs of any number of instances and one collector in which no live owner's heartbeat is older than `age`, two instances are never live at once -- if and only if `age` plus the longest delay between the collector's clock read and its stat is at most 2000 or at most three times the heartbeat interval |
| LockProtocol.SafeWhenTimely | apps/artifacts/backend/locks.js:53-59 | in every such run, crashes, failed first beats and timed-out unlocks included, at most one instance is live, and between an expired answer and the removal no instance is live |
| LockProtocol.RunKeepsInv | nodejs/core/lock_file.js:88-194 | the invariant over every run: a live instance made the directory, no timestamp is in the future, the remembered modification time is at most the stat delay later than when it was first observed, a doomed directory has no live owner |
| LockProtocol.StepKeepsInv | nodejs/core/lock_file.js:88-194 | each single step keeps that invariant when heartbeats are timely |
| LockProtocol.InstanceKeepsInv | nodejs/core/lock_file.js:124-175 | the steps of an instance keep it without any timing condition |
| LockProtocol.DirectoryChanges | nodejs/core/lock_file.js:44-61 | which steps touch the directory and how: mkdir makes it where there is none, a landing heartbeat dates it with the time it was sent, rmdir and the collector remove it, and nothing else does |
| LockProtocol.ExpiredIsOld | nodejs/core/lock_file.js:110-113 | an expired answer means the recorded heartbeat is older than the threshold less the stat delay |
| LockBound.UnsafeRun | nodejs/core/lock_file.js:88-122 | the counterexample beyond the bound: a run with only timely heartbeats in which two instances hold the lock, because the clock is read before the stat |
| LockBound.LateStat | nodejs/core/lock_file.js:90-102 | its first half: the collector dates a fresh directory with a clock value read while the previous owner still held the lock |
| LockProtocol.MemoryOfHistory | nodejs/core/lock_file.js:95-108 | `lastExpiryCheck` after any sequence of observations is the first observation of the present modification time, back-dated when the directory was already old at the very first look |
| LockProtocol.ExpiredIffUnchanged | nodejs/core/lock_file.js:110-113 | getStatus answers expired exactly when its own observations have seen one modification time for longer than the threshold, or it was that old when first looked at |
| LockReclaim.DanglingLockReclaimed | apps/artifacts/backend/locks.js:53-59 | in every run, of two looks of the collector at an unchanged directory, with clock readings more than two seconds and more than three intervals apart and any other steps but a restart between them, the second is followed by the removal |
| LockHeartbeats.RunKeepsOwnBeats | nodejs/core/lock_file.js:133-152 | without unlock timeouts a heartbeat in flight belongs to an instance inside its lock or to a crashed one, in every run |
| LockHeartbeats.BeatsLandOwnIff | nodejs/core/lock_file.js:69-83 | main result: over all runs with timely heartbeats whose allowed age is within the bound of two seconds or three intervals, a heartbeat that lands reaches the directory its instance made, crashed instances aside, if and only if unlock waits without a timeout or with one longer than that age |
| LockHeartbeats.BeatsReachOwnDirectory | nodejs/core/lock_file.js:133-152 | the sufficient half |
| LockHeartbeats.RunKeepsOwnBeatsTimely | nodejs/core/lock_file.js:69-83 | with such a timeout, in every run: a heartbeat in flight belongs to an instance inside its lock or to a crashed one, and an unlock that waits for one began after all heartbeats in flight and the one recorded |
| LockHeartbeats.StaleBeatLands | nodejs/core/lock_file.js:69-83 | the counterexample with a shorter timeout: a beat of the previous owner sets the next owner's directory back in time |
| LockFile.LockFile.GetStatus | nodejs/core/lock_file.js:88-122 | on the fields: a first look is expired exactly when the modification time is more than 2000 ms and more than three intervals back, a later look at the same time exactly when it was first seen that long ago, a look at a new time never; `lastExpiryCheck` remembers the first look, and an absent directory leaves it alone |
| LockFile.LockFile.HeartBeatBegin | nodejs/core/lock_file.js:133-140 | a beat does nothing while another is in flight, else it stamps the present time |
| LockFile.LockFile.HeartBeatEnd | nodejs/core/lock_file.js:141-151 | a failed beat clears a running interval and the memory of checks; either way no beat is in flight any more |
| LockFile.LockFile.BeginTryLock | nodejs/core/lock_file.js:131-140 | once mkdir has succeeded the memory of checks is cleared and the first beat starts, unless an earlier one is still in flight: then tryLock gives up |
| LockFile.LockFile.FinishTryLock | nodejs/core/lock_file.js:153-158 | tryLock succeeds exactly when its first beat does, and only then starts the interval |
| LockFile.LockFile.BeginUnlock | nodejs/core/lock_file.js:167-171 | unlock is refused when not locked and not forced; otherwise the interval stops |
| LockFile.LockFile.FinishUnlock | nodejs/core/lock_file.js:57-61 | before the rmdir the memory of checks is cleared and nothing else changes |
| OrderedMap.DeleteLooksUp | nodejs/core/cache2.js:202 | deleting a key of the Map removes that key only |
| OrderedMap.PutLooksUp | nodejs/core/cache2.js:215-220 | setting a key changes that key only and keeps keys distinct |
| OrderedMap.PutAfterDelete | nodejs/core/cache2.js:303-305 | delete followed by set moves a key to the end |
| OrderedMap.CutIsDelete | nodejs/core/cache2.js:355 | removing the entry under the iterator deletes its key |
| CacheSizes.RunKeepsSizesIff | nodejs/core/cache2.js:196-376 | main result: throughout every interleaving each collection's size is the sum over its entries and the cache's size the sum over collections, if and only if no manual set with the type reserved for fetches hits an entry that has a size |
| CacheSizes.SpoiledSizes | nodejs/core/cache2.js:196-214 | a run that leaves the cache with a size and no entry |
| CacheSizes.StepKeepsSizes | nodejs/core/cache2.js:196-376 | a step keeps the sums if and only if it is not such a set |
| CacheSizes.SetKeepsSizes | nodejs/core/cache2.js:196-231 | a set keeps the sums if and only if its type is not the reserved one or there is no collection or no sized entry to lose: with that type the entry is deleted before the call fails |
| CacheSizes.GetKeepsSizes | nodejs/core/cache2.js:237-270 | a get, hit or miss, keeps the sums: the fetching marker takes over the size of what it replaces |
| CacheSizes.SetDirtyKeepsSizes | nodejs/core/cache2.js:314-320 | invalidation changes no size |
| CacheSizes.CollectBounds | nodejs/core/cache2.js:341-376 | from any consistent state one collector run ends within `maxSize` (or at zero when that is negative), never grows, and every entry left has a timeout of at most 0 or at least `now` |
| CacheSizes.CollectSurvivors | nodejs/core/cache2.js:341-376 | each collection keeps its unexpired entries less a prefix of them in Map order, and every one of those was evicted while the cache was still over its limit |
| CacheSizes.ExpireMeaning | nodejs/core/cache2.js:349-358 | the first loop, which deletes while iterating, leaves exactly the unexpired entries in order |
| CacheSizes.ExpiredGone | nodejs/core/cache2.js:349-358 | it keeps an entry if and only if its timeout is at most 0 or at least `now` |
| CacheSizes.EvictMeaning | nodejs/core/cache2.js:360-369 | the second loop drops a prefix, and stops with the limit met or nothing left |
| CacheSizes.EvictNeeded | nodejs/core/cache2.js:360-369 | before each eviction the cache was over its limit |
| CacheSizes.CollectFromLimit | nodejs/core/cache2.js:346-372 | after the loop over collections the limit is met, or every collection has been emptied |
| CacheEviction.SurvivesIff | nodejs/core/cache2.js:341-376 | main result: from every state with distinct keys and no negative sizes, an unexpired entry survives a collector run if and only if it fits, with the unexpired entries after it and all entries of the collections after its own, into the limit less what the cache counts beyond its entries |
| CacheEviction.SurvivesInNumbers | nodejs/core/cache2.js:341-376 | the same for any entry in numbers: it survives if and only if its timeout is at most 0 or at least `now` and its size, with those of the later entries of which that is true too and of all entries of later collections, is at most the limit less what is counted beyond the entries |
| CacheEviction.ExpiredTakesRoom | nodejs/core/cache2.js:346-372 | so an entry can go although all entries whose time is not up fit: a run after which an expired entry of a later collection has it evicted |
| CacheEviction.CollectIsFitting | nodejs/core/cache2.js:341-376 | so each collection is left with the longest end of its unexpired entries that fits |
| CacheEviction.RoomOfSizes | nodejs/core/cache2.js:361 | when the sizes add up, nothing is counted beyond the entries |
| CacheEviction.FitsIff | nodejs/core/cache2.js:361 | an entry belongs to that end exactly when it fits with those after it |
| CacheEviction.RunKeepsEntries | nodejs/core/cache2.js:196-376 | in every run, reserved sets included, keys are distinct and no entry has a negative size |
| CacheOrder.EvictsLeastRecent | nodejs/core/cache2.js:303-305 | main result: in every reachable state, an unexpired entry the collector evicts was last touched before every entry it leaves in that collection |
| CacheOrder.RunKeepsRecency | nodejs/core/cache2.js:200-202 | in every run a collection's Map order is the order of the last touches -- hits, sets and completed fetches, and markers for new keys |
| CacheOrder.GetKeepsRecency | nodejs/core/cache2.js:237-270 | a marker over an existing entry keeps its place, one for a new key comes last |
| CacheOrder.CollectLeaves | nodejs/core/cache2.js:341-376 | a collector run leaves an end of the unexpired entries, in their order |
| CacheWaiters.NobodyWaitsForNothing | nodejs/core/cache2.js:253-258 | main result: in every interleaving, with manual sets and evictions of entries being fetched, a waiting caller is in the list of a fetch in flight for its key |
| CacheWaiters.RunKeepsWaits | nodejs/core/cache2.js:237-282 | the invariant behind it over every run: markers belong to fetches in flight, and the lists hold exactly the waiting calls, each in one |
| CacheWaiters.StepKeepsWaits | nodejs/core/cache2.js:237-282 | each step keeps it |
| CacheWaiters.CompleteWakes | nodejs/core/cache2.js:279-281 | the end of a fetch, by value or error, makes every caller in its list able to go on |
| CacheWaiters.CompleteKeepsWaits | nodejs/core/cache2.js:272-281 | the end of a fetch whose entry has been overwritten or evicted meanwhile still leaves the invariant |
| CacheWaiters.RunKeepsMarkersIff | nodejs/core/cache2.js:190-282 | main result: throughout a run every fetch in flight has its marker in place if and only if no step displaces one -- a manual set of a key that is being fetched, or a collector run before which a marker and the entries after it do not fit |
| CacheWaiters.StepKeepsMarkersIff | nodejs/core/cache2.js:190-282 | the same for each step, on the state before it |
| CacheWaiters.StaysIff | nodejs/core/cache2.js:341-376 | an unexpired entry is found after a collector run exactly when it is not crowded out |
| CacheWaiters.OneFetchPerKey | nodejs/core/cache2.js:246-270 | while no marker is displaced at most one fetch per key is in flight |
| CacheWaiters.InPlaceIffOneEach | nodejs/core/cache2.js:237-270 | in every reachable state the markers are in place if and only if no key has two fetches, nor gets two by one invalidation and one get |
| CacheWaiters.SecondFetch | nodejs/core/cache2.js:237-270 | a fetch without its marker is that close to a second one |
| CacheWaiters.TwoFetchesAfterSet | nodejs/core/cache2.js:190-231 | a run with a manual set: two fetches of one key in flight |
| CacheWaiters.TwoFetchesAfterEviction | nodejs/core/cache2.js:361-369 | a run with a collector that evicts a marker for size, for every limit: two fetches of one key in flight |
| CacheWaiters.CollectEntries | nodejs/core/cache2.js:341-376 | a collector run only removes entries; it changes none |
| CacheAnswers.FetchAnswers | nodejs/core/cache2.js:272-281 | main result: in every run, however it goes on, a call whose fetch has answered returned the fetched value or threw the error of the fetch |
| CacheAnswers.CallAnswers | nodejs/core/cache2.js:237-270 | main result: in every run a call that starts or is woken returns the value, or throws the error, that a set or a fetch stored last for the key it asked for, not invalidated and in time, if its entry is there; it fetches or waits exactly when there is no entry or its time is up |
| CacheAnswers.InstantAnswers | nodejs/core/cache2.js:289-308 | the same for getInstant, which raises a stored error and answers a miss where get would fetch or wait |
| CacheAnswers.RunHoldsStores | nodejs/core/cache2.js:204-220 | in every run each entry that is not a marker holds what was stored last for its key: a value with its own size or an error with size 8, to live for the time of its collection from then on, or with timeout -1 once invalidated |
| CacheAnswers.StepChangesEntries | nodejs/core/cache2.js:196-320 | what each step but a collector run makes of the entry of any key, reserved sets included; hits, registrations and all steps for other keys leave it as it was |
| CacheAnswers.SetStores | nodejs/core/cache2.js:204-220 | set of a value or an error makes exactly that entry |
| CacheAnswers.RunKeepsEnded | nodejs/core/cache2.js:237-282 | a call that has returned, thrown or failed keeps its answer in every later state |
| Cache.Cache.Register | nodejs/core/cache2.js:167-188 | the object's fields after registering a collection are the model's |
| Cache.Cache.Set | nodejs/core/cache2.js:196-231 | set on the fields: the new state, and failure exactly for an unknown collection or the reserved type |
| Cache.Cache.GetInstant | nodejs/core/cache2.js:289-308 | getInstant on the fields: its answer by the entry and its timeout, an error raised, and the touch of the entry on a hit |
| Cache.Cache.Get | nodejs/core/cache2.js:237-270 | get up to its next await on the fields |
| Cache.Cache.Complete | nodejs/core/cache2.js:272-281 | the end of get: store value or error, resolve the list, and return the value or throw the error |
| Cache.Cache.SetDirty | nodejs/core/cache2.js:314-320 | setDirty on the fields |
| Cache.Cache.RemoveExpired | nodejs/core/cache2.js:349-358 | the first collector loop: an entry is left exactly when its timeout is at most 0 or at least `now`, and how many entries and bytes go |
| Cache.Cache.EvictOldest | nodejs/core/cache2.js:360-369 | the second collector loop likewise |
| Cache.Cache.Collect | nodejs/core/cache2.js:341-376 | one collector run: the new state without any entry whose timeout lies between 0 and `now`; `evictedSize` is the drop in total size and `evictedCount` the drop in the number of entries |
| RateLimit.LimiterAgreesWithHistory | nodejs/core/rate_limit.js:25-57 | main result: after any run of records, resets, queries, collections before which every unexpired entry of the limiter fits, and steps on the other collections of the cache, isOverLimit holds exactly when at least `threshold` records since the last reset are younger than the window, and record allows exactly when they and itself are fewer (threshold at least 1) |
| RateLimit.RegisteredAfterRun | nodejs/core/rate_limit.js:21 | the runs may start on any cache that has been in use |
| RateLimit.NeverOverWithoutCause | nodejs/core/rate_limit.js:25-49 | with evictions for size too: whenever isOverLimit holds or record refuses, the full history is over the limit |
| RateLimit.OtherKeepsEntries | nodejs/core/cache2.js:196-320 | a step on another collection leaves the limiter's entries alone |
| RateLimit.OverLimitExact | nodejs/core/rate_limit.js:25-33 | isOverLimit agrees with the full history if and only if the threshold is at least 1 or an unexpired entry exists |
| RateLimit.ZeroThreshold | nodejs/core/rate_limit.js:28-30 | with a threshold of zero and no entry it does not |
| RateLimit.RecordExact | nodejs/core/rate_limit.js:38-49 | record's answer agrees with the full history for every threshold |
| RateLimit.RunKeepsInv | nodejs/core/rate_limit.js:38-57 | over every run the stored list is a summary of the history: an end of it that lacks only what is no longer young, or at least `threshold` long |
| RateLimit.SummaryExtends | nodejs/core/rate_limit.js:41-46 | filter, push and splice turn a summary into a summary of the longer history |
| RateLimit.YoungerCounts | nodejs/core/rate_limit.js:41 | the filter keeps every timestamp later than the cut as often as it occurs, and no other |
| RateLimit.SummaryCounts | nodejs/core/rate_limit.js:31-32 | a summary counts up to the threshold as the history does at any later time |
| RateLimit.StoredBounded | nodejs/core/rate_limit.js:43-47 | after every run, evictions included, each entry of the limiter stores at most `threshold` timestamps, the latest of the key's history |
| RateLimit.CollectKeepsInv | nodejs/core/cache2.js:349-358 | an entry reclaimed after its expiry holds nothing that is still young |
| RateLimiter.RateLimiter.IsOverLimit | nodejs/core/rate_limit.js:25-33 | on the cache object: the answer the limiter lemmas are about, with no effect but the touch of a hit entry |
| RateLimiter.RateLimiter.Record | nodejs/core/rate_limit.js:38-49 | on the cache object: the answer, and the filtered, extended and capped list stored in place of the old one |
| RateLimiter.RateLimiter.Reset | nodejs/core/rate_limit.js:55-57 | on the cache object: an empty list is stored |
| NonOwningList.List.Insert | cc/bzd/container/non_owning_list.hh:81-97 | sequence insertion before the position, links mirrored between the sentinels; refused, changing nothing, exactly when the element has a successor |
| NonOwningList.List.PushFront | cc/bzd/container/non_owning_list.hh:68 | insertion at the front |
| NonOwningList.List.PushBack | cc/bzd/container/non_owning_list.hh:74 | insertion at the end |
| NonOwningList.List.Erase | cc/bzd/container/non_owning_list.hh:136-151 | sequence removal from the list the element is in; refused exactly for an unlinked element; the element has no successor afterwards; called on another list than the element's the links are right but both sizes are off by one |
| NonOwningList.Unlink | cc/bzd/container/non_owning_list.hh:143-146 | the neighbours of an element are linked with each other, along its chain and no other |
| NonOwningList.List.PopFront | cc/bzd/container/non_owning_list.hh:117-124 | takes out the first element, or nothing from an empty list |
| NonOwningList.List.PopBack | cc/bzd/container/non_owning_list.hh:126-133 | takes out the last element, or nothing from an empty list |
| NonOwningList.List.Clear | cc/bzd/container/non_owning_list.hh:56-62 | empties the list and unlinks every element |
| NonOwningList.List.RemoveIf | cc/bzd/container/non_owning_list.hh:154-170 | leaves exactly the elements that fail the test, in order, unlinks the others, and terminates |
| NonOwningList.WithoutIff | cc/bzd/container/non_owning_list.hh:159-164 | what is left holds an element exactly when the list did and the test fails |
| NonOwningList.WithoutParts | cc/bzd/container/non_owning_list.hh:157-169 | and in the same order: the rest of two lists one after the other is the rest of each, one after the other |
| NonOwningList.List.LinkedWhenIn | cc/bzd/container/non_owning_list.hh:83 | an element of a list is recognisable by its successor |
| NonOwningList.List.constructor | cc/bzd/container/non_owning_list.hh:40 | an empty list: the sentinels linked to each other |
| NonOwningList.LinkedWith | cc/bzd/container/non_owning_list.hh:88-92 | linking a node between two neighbours leaves mirrored links along the longer chain |
| NonOwningList.LinkedWithout | cc/bzd/container/non_owning_list.hh:143-146 | linking the neighbours of a node leaves mirrored links along the shorter chain |
| HeapSort.Sort | cc/bzd/algorithm/sort.hh:56-92 | for every array and strict weak order: sorted, a permutation, and it terminates |
| HeapSort.MakeHeap | cc/bzd/algorithm/sort.hh:19-39 | sift-up construction makes a heap of the same elements |
| HeapSort.SiftDown | cc/bzd/algorithm/sort.hh:68-90 | the loop that runs to a leaf without early exit restores the heap and keeps what is sorted behind it |
| HeapSort.RootIsGreatest | cc/bzd/algorithm/sort.hh:16-17 | nothing in a heap is greater than its root |
| HeapSort.SiftUpStep | cc/bzd/algorithm/sort.hh:31-36 | a swap moves the only violation from a child to its parent |
| HeapSort.SiftDownRound | cc/bzd/algorithm/sort.hh:72-90 | a round, whether it swaps or not, moves the only possible violation to the chosen child |
| HeapSort.MoveRoot | cc/bzd/algorithm/sort.hh:65-66 | the root swapped behind the heap extends the sorted part |
| Bounds.LowerBound | cc/bzd/algorithm/lower_bound.hh:27-49 | the first position not less than the value when the elements are partitioned by it; inside the range for any comparison |
| Bounds.UpperBound | cc/bzd/algorithm/upper_bound.hh:27-49 | the first position the value is less than, likewise |
| PrefixSearch.StartsWithAnyOf | cc/bzd/algorithm/starts_with_any_of.hh:25-63 | main result: on a lexicographically sorted range, repeated items allowed, the result is the item that is non-empty, a prefix of the input and a prefix of no other item -- the end if there is none |
| PrefixSearch.FoundUnique | cc/bzd/algorithm/starts_with_any_of.hh:25-63 | at most one item has that property |
| PrefixSearch.LowerTestPartitions | cc/bzd/algorithm/starts_with_any_of.hh:40-44 | the lower test is monotone on the range because all its items share what has been consumed |
| PrefixSearch.UpperTestPartitions | cc/bzd/algorithm/starts_with_any_of.hh:45-49 | the upper test is monotone on what the lower bound leaves |
| PrefixSearch.RoundNarrows | cc/bzd/algorithm/starts_with_any_of.hh:40-50 | one round leaves exactly the items that go on with the next input element |
| FlatMap.Map.Insert | cc/bzd/container/map.hh:97-114 | a map update when there is room or the key is present; on a full map a new key is dropped silently exactly when it is greater than all others, and fails the assertion otherwise; keys stay ascending |
| FlatMap.PlacedIsUpdate | cc/bzd/container/map.hh:97-114 | putting a key in its place, over an equivalent one or between neighbours, is the map update for every key |
| FlatMap.LookupAtPlace | cc/bzd/container/map.hh:62-73 | the lower bound decides what the map holds under a key |
| FlatMap.Map.LowerBound | cc/bzd/container/map.hh:46-51 | the elements before the result, and no others, have lesser keys |
| FlatMap.Map.UpperBound | cc/bzd/container/map.hh:54-59 | the elements from the result on, and no others, have greater keys |
| FlatMap.Map.EqualRange | cc/bzd/container/map.hh:43 | one element with the key, or an empty range |
| FlatMap.Map.Find | cc/bzd/container/map.hh:62-73 | the position of the key, or the end |
| FlatMap.Map.Contains | cc/bzd/container/map.hh:82 | agrees with the mathematical map |
| FlatMap.Map.At | cc/bzd/container/map.hh:75-80 | agrees with the mathematical map; a missing key fails |
| FlatMap.Map.MoveBackward | cc/bzd/algorithm/move_backward.hh:19-26 | the shift from the back: every element moves up by one, overlapping as the ranges are, and the rest stays |
| FlatMap.FromList | cc/bzd/container/map.hh:137-152 | the list constructor: a sorted permutation of what fits; the duplicate check passes exactly when neighbours differ; every valid map is accepted, and only valid ones when no two keys of the list stand in the map's order but not in their own |
| FlatMap.SoundIff | cc/bzd/container/map.hh:139-149 | whatever list the constructor accepts is in the map's order if and only if that order implies the keys' own |
| FlatMap.PairBreaks | cc/bzd/container/map.hh:139-149 | any two keys for which it does not make a counterexample |
| FlatMap.ListOrder | cc/bzd/container/map.hh:139-149 | a list sorted by the keys' own order that passes the check is in the map's order when the orders agree on its keys; one in the map's order always passes |
| FlatMap.ReversedOrderBreaks | cc/bzd/container/map.hh:139-149 | the counterexample: with a reversed comparison the constructor, which sorts with the keys' own order, accepts a list and leaves it out of order |
| FlatMap.CheckDuplicates | cc/bzd/container/map.hh:141-151 | the adjacent check is exactly that no neighbours are equivalent |
| FlatMap.NeighboursAscend | cc/bzd/container/map.hh:141-151 | ordered neighbours are enough |
| RingBuffer.RingBuffer.ProduceSpan | cc/bzd/container/ring_buffer.hh:167-176 | a span of any length: the last `capacity` elements of the contents followed by the span; overrun is raised exactly when something did not fit |
| RingBuffer.RingBuffer.Produce | cc/bzd/container/ring_buffer.hh:156-164 | the same for elements already written behind the head |
| RingBuffer.RingBuffer.Consume | cc/bzd/container/ring_buffer.hh:93-97 | drops a prefix |
| RingBuffer.RingBuffer.Unconsume | cc/bzd/container/ring_buffer.hh:103-114 | gives back as many as fit, what their slots hold now; overrun exactly when asked for more |
| RingBuffer.RingBuffer.UnconsumeSpan | cc/bzd/container/ring_buffer.hh:121-135 | the last elements of the span that fit come before the contents, whether copied or found in place |
| RingBuffer.RingBuffer.ConsumeThenUnconsume | cc/bzd/container/ring_buffer.hh:93-114 | consume then unconsume is the identity |
| RingBuffer.RingBuffer.Copy | cc/bzd/container/ring_buffer.hh:212-226 | the copy in two parts writes one window of the storage and no other slot |
| RingBuffer.RingBuffer.PushBack | cc/bzd/container/ring_buffer.hh:178-182 | appends, dropping the oldest element of a full ring |
| RingBuffer.RingBuffer.PopFront | cc/bzd/container/ring_buffer.hh:184-189 | takes the first element |
| RingBuffer.RingBuffer.At | cc/bzd/container/ring_buffer.hh:46-47 | indexing reads the contents |
| RingBuffer.RingBuffer.AsSpanForReading | cc/bzd/container/ring_buffer.hh:65-74 | the first contiguous part of the contents, empty only when they are |
| RingBuffer.RingBuffer.AsSpans | cc/bzd/container/ring_buffer.hh:52-59 | the two spans together are the contents |
| RingBuffer.RingBuffer.AsSpanForWriting | cc/bzd/container/ring_buffer.hh:80-89 | the whole free section from the head on: it ends at live data or at the end of the storage, holds no live slot, and is empty only when the ring is full |
| RingBuffer.RingBuffer.FillAndProduce | cc/bzd/container/ring_buffer.hh:80-89 | filling that section and producing as many appends exactly what was written and changes nothing else; it takes all of the data unless the ring is full afterwards or the head has come round to the first slot |
| RingBuffer.RingBuffer.Assign | cc/bzd/container/ring_buffer.hh:139-153 | data from elsewhere replaces the contents, and the ring stays valid exactly when it fits; a section of the own storage is not copied, and the contents become the section at its offset divided by the element size |
| RingBuffer.SectionKeptIff | cc/bzd/container/ring_buffer.hh:142-146 | that is the section assigned if and only if it starts the storage or elements have size one |
| RingBuffer.RingBuffer.Clear | cc/bzd/container/ring_buffer.hh:191-198 | an empty ring with no overrun |
| RingBuffer.ProducedSpan | cc/bzd/container/ring_buffer.hh:167-176 | on any storage: writing the end of a span at the head and pushing the tail on leaves the last elements of both |
| RingBuffer.UnconsumedSpan | cc/bzd/container/ring_buffer.hh:121-135 | on any storage: writing at the tail replaces the first elements only |
| RingBuffer.SplitWrite | cc/bzd/container/ring_buffer.hh:216-224 | two copies around the end of the storage are one write of consecutive counter positions |
| RingBuffer.WroteAfter | cc/bzd/container/ring_buffer.hh:212-226 | a write leaves every window it does not overlap |
| RingBuffer.TailAround | cc/bzd/container/ring_buffer.hh:52-59 | contents that wrap are the end of the storage followed by its start |
| Spans.SubSpans | cc/bzd/container/spans.hh:61-91 | on any number of spans: the slice of the concatenation, clipped to the total |
| Spans.RoundSlices | cc/bzd/container/spans.hh:65-88 | one span's round contributes its part of the slice and passes on the rest |
| Spans.First | cc/bzd/container/spans.hh:93-95 | the first elements |
| Spans.Last | cc/bzd/container/spans.hh:97-99 | the last elements -- but nothing when there are fewer than asked for, since the 64-bit offset wraps around |
| Spans.Size | cc/bzd/container/spans.hh:47-50 | the length of the concatenation |
| BracketScan.Candidates | apps/utils/json/json.py:10-31 | main result: the candidates are exactly the maximal balanced bracket regions, in order and disjoint, and every balanced region lies inside one; the scan terminates and never pops an empty stack |
| BracketScan.LoadAndRepair | apps/utils/json/json.py:33-44 | the result is decoded from a longest maximal region that decodes; the error exactly when none does |
| BracketScan.LongestIff | apps/utils/json/json.py:7-8 | whatever the decoder, that is a longest region that decodes among all regions if and only if every region's text is also the text of a maximal one |
| BracketScan.InnerMissed | apps/utils/json/json.py:33-44 | the counterexample: in `[x{}]` the braces are missed by a decoder that accepts only them |
| BracketScan.ScanFindsRegion | apps/utils/json/json.py:16-30 | the inner loop ends at a position if and only if that closes a region of the bracket grammar |
| BracketScan.ScanPassesText | apps/utils/json/json.py:18-26 | balanced text leaves the stack as it was |
| BracketScan.ScanClosesTop | apps/utils/json/json.py:19-22 | whatever the scan pops, balanced text lies since it was pushed |
| BracketScan.RegionsNest | apps/utils/json/json.py:27-30 | a region that starts inside another ends inside it |
| BracketScan.RegionBrackets | apps/utils/json/json.py:11-22 | a region runs from a bracket to one of the same kind |
| BracketScan.PlainRegion | apps/utils/json/json.py:16-30 | and text without brackets between two such brackets always makes one |
| BracketScan.CandidateFound | apps/utils/json/json.py:28-29 | skipping to the end of a region misses no maximal one |
| BracketScan.FindEnd | apps/utils/json/json.py:17-30 | the loop with its explicit stack computes that end |
| BracketScan.InOrderIff | apps/utils/json/json.py:34-42 | the sorted list holds exactly the texts of the maximal regions |
| SeriesModel.SameSeriesIff | nodejs/core/timeseries.js:112-207 | main result: inserting entries one at a time in any order and storing them unsorted for consistencyFix give the same series for all entries if and only if the merge is commutative and associative |
| SeriesModel.InsertingIsRepairing | nodejs/core/timeseries.js:112-207 | the sufficient half, with the result strictly ascending |
| SeriesModel.DefaultMergeDiffers | nodejs/core/timeseries.js:21 | the counterexample: the default merge keeps the first value one way and the last the other |
| SeriesModel.SeriesIsConsistent | nodejs/core/timeseries.js:169-180 | the series passes the consistency check |
| SeriesModel.InsertAllIsAddAll | nodejs/core/timeseries.js:112-121 | inserting is merging into a map keyed by timestamp, one entry after the other |
| SeriesModel.FixIsAddAll | nodejs/core/timeseries.js:188-206 | so is the merging of neighbours in a sorted list, for a commutative merge |
| SeriesModel.AddAllPermutes | nodejs/core/timeseries.js:112-207 | the order of merging does not matter |
| SeriesModel.MapDetermines | nodejs/core/timeseries.js:112-207 | an ascending series is determined by its map |
| TimeSeries.TimeSeries.Search | nodejs/core/timeseries.js:216-233 | the position of an entry with the timestamp, or the place for one |
| TimeSeries.TimeSeries.Find | nodejs/core/timeseries.js:90-107 | an entry with the timestamp if there is one, else nothing, the one before or the one after by mode |
| TimeSeries.TimeSeries.Insert | nodejs/core/timeseries.js:112-121 | a unique series takes the entry in by merging and stays ascending; another one gains one entry and stays in order |
| TimeSeries.TimeSeries.ConsistencyCheck | nodejs/core/timeseries.js:169-180 | true exactly for a series in order, strictly when unique, that starts above the least number |
| TimeSeries.TimeSeries.ConsistencyFix | nodejs/core/timeseries.js:185-207 | merging in place and deleting by position come to the neighbour merge of the sorted list |
| TimeSeries.TimeSeries.DeleteAll | nodejs/core/timeseries.js:202-205 | deleting positions from the last one down removes exactly those |
| TimeSeries.InsertAtPlace | nodejs/core/timeseries.js:112-121 | the found place decides what insertion does |
| Router.RoundTrip | nodejs/core/router.js:96-191 | for every route that compiles, with distinct names, each variable before a slash or the end, reading the printed path gives back all values: any non-empty text for plain variables, whole numbers from 0 to below 10^21 for `i`, one-line text for `*` (after a slash) and `+` |
| Router.RoundTripIff | nodejs/core/router.js:96-191 | main result: the exact condition over all such routes and all values of the right type, empty texts, several lines and every finite number included: the values come back if and only if they are of that kind and, when the route is `{x:*}` alone, its value is empty |
| Router.LargeNumberLost | nodejs/core/router.js:138-141 | the counterexample among the numbers: 10^21 is printed with an exponent, and the path does not match |
| Router.MatchedPrint | nodejs/core/router.js:166-189 | a printed path matches only when every value is of that kind |
| Router.StarsCompiled | nodejs/core/router.js:120-131 | a variable `*` compiles after a slash or as the whole route, nowhere else |
| Router.LeadingStar | nodejs/core/router.js:120-131 | the whole route: its value comes back without its first character, so exactly the empty one survives |
| Router.MatchUnique | nodejs/core/router.js:160-170 | such a pattern matches a path in one way only, with or without regard to case |
| Router.PrintedMatches | nodejs/core/router.js:178-189 | a path printed from such values matches, with the printed values as captures |
| Router.PrintedFound | nodejs/core/router.js:166-189 | so a regular expression engine that finds a match whenever there is one finds these captures, and nothing for other values |
| Router.PatternShape | nodejs/core/router.js:98-158 | the pattern the compiling loop builds, slash removed before a star, in closed form |
| Router.ToRoutePrints | nodejs/core/router.js:178-189 | toRoute alternates segments and values |
| Router.DecimalRoundTrip | nodejs/core/router.js:138-141 | printing a whole number in digits and reading the digits again |
| Router.Compile | nodejs/core/router.js:96-158 | the loop adds the parts one after the other, or fails where the source raises an exception; what each format comes to is said by the next rows |
| Router.PlainMatches | nodejs/core/router.js:107-112 | a route that ends in `{x}` matches a path exactly when the path goes on after the head with a non-empty rest without a slash, and gives the decoded rest |
| Router.IntegerMatches | nodejs/core/router.js:138-141 | `{x:i}` likewise for one or more digits, giving the number they denote, rounded to binary64 |
| Router.PlusMatches | nodejs/core/router.js:134-137 | `{x:+}` likewise for a non-empty rest on one line, given as it is |
| Router.StarMatches | nodejs/core/router.js:118-127 | `{x:*}` after a slash matches the head without that slash, giving the empty text, and with it any rest on one line, given without the slash |
| Router.StarAloneMatches | nodejs/core/router.js:128-131 | `{x:*}` as the whole route matches every path on one line and gives it without its first character |
| Router.RestCompiles | nodejs/core/router.js:120-137 | `*` and `+` compile at the beginning and after a slash, nowhere else |
| Router.OtherFormatRefused | nodejs/core/router.js:142-143 | any other format fails |
| Router.ToRouteFails | nodejs/core/router.js:178-189 | toRoute fails exactly when the value of a variable it prints is missing |
| Router.ParseIntDigits | nodejs/core/router.js:138-141 | what digits denote: one more digit is ten times the number and the digit |
| Outliers.FloatsEndIff | apps/ebook/comics/comics.py:53-62 | main result: in binary64 arithmetic the loop ends for all scores and all starting deviations if and only if the coefficient is greater than 1; at the default of exactly 1 it does not |
| Outliers.SevenGramsEndless | apps/ebook/comics/comics.py:55-62 | the counterexample, for every coefficient up to 1: on the scores 1, 3/7, 3/7 in binary64 the loop never ends, from any starting deviation up to 4/7 |
| Outliers.SevenGramsVariance | apps/ebook/comics/comics.py:54 | those scores' own deviation lies in that range |
| Outliers.RetryShrinks | apps/ebook/comics/comics.py:57-62 | for any rounding: a retry has fewer outliers if and only if the next threshold does not exceed the best outlier's score |
| Outliers.EndsIffAllShrink | apps/ebook/comics/comics.py:55-62 | for any monotone rounding and coefficient of at least 0: from a given deviation the loop ends if and only if every retry has fewer outliers |
| Outliers.EndsIffNoTrap | apps/ebook/comics/comics.py:55-62 | for given scores and image count it ends from every deviation if and only if there is no score whose own retry puts the threshold above it with too many below |
| Outliers.EndsIffNegative | apps/ebook/comics/comics.py:55-62 | for a negative coefficient it ends if and only if the scores below the best are none or fewer than half |
| Outliers.TerminationIff | apps/ebook/comics/comics.py:55-62 | without rounding it ends for all scores and starting deviations if and only if the coefficient is at least 1 |
| Outliers.Endless | apps/ebook/comics/comics.py:55-62 | the counterexample for any smaller coefficient: the scores 1, 5/8, 5/8, 5/8 with their own deviation |
| Outliers.FourGramsVariance | apps/ebook/comics/comics.py:54 | that deviation is 3/16 |
| Outliers.BestIsKept | apps/ebook/comics/comics.py:56-57 | with a coefficient of at least 0 the threshold never exceeds the best score |
| Outliers.FindOutliers | apps/ebook/comics/comics.py:52-69 | whenever the loop ends: the outliers are those below the first threshold that leaves none or fewer than half of the images; every image is an outlier or kept, none is both, and the kept ones are in their order |
| Outliers.Lower | apps/ebook/comics/comics.py:55-62 | the loop itself: it ends with no score or fewer than half below the threshold, after retries that all left at least half |
| Binary64.RoundIsMonotone | apps/ebook/comics/comics.py:56-62 | rounding to binary64 keeps order |
| Binary64.RoundIsClose | apps/ebook/comics/comics.py:56-62 | its relative error is at most half a step of 2 to the power -52 |
| Binary64.ProductMakesUp | apps/ebook/comics/comics.py:56-62 | multiplying by any number above 1 makes up for what a rounded difference has lost |
| Outliers.Split | apps/ebook/comics/comics.py:64-69 | outliers and kept images partition the input |
| NamedType.WithinHalf | cc/bzd/container/named_type.hh:29-35 | the result is within half a target unit of the exact value, and a value half way between two goes up |
| NamedType.Monotone | cc/bzd/container/named_type.hh:29-35 | the conversion is monotone |
| NamedType.RoundTrip | cc/bzd/container/named_type.hh:29-35 | to an exactly dividing finer unit and back is the identity, and the way there is exact |
| NamedType.NoOverflow | cc/bzd/container/named_type.hh:32-33 | 64-bit unsigned arithmetic agrees with unbounded arithmetic while nothing overflows |

## Left out

- Several collectors: two processes that collect the same directory; the protocol has one collector, which may restart at any time.
- `tryLock` retries and the timeout of `lock`: each attempt is a step and the loop adds no state; the forced unlock after `lock` whose interval a failed heartbeat has already cleared is in the protocol.
- Forced unlock by an instance that does not hold the lock, other than the collector's: it removes the directory whoever owns it.
- File system errors other than an existing or missing directory, and a modification time other than the one written by mkdir or a heartbeat.
- LockProtocol.SafeWhenTimely: says nothing of holders whose heartbeats are late; `LockBound.UnsafeRun` shows that nothing can be said.
- LockReclaim.DanglingLockReclaimed: says nothing when the collector restarts between the two looks, which forgets the first one.
- Names of collections, the assertion on registering one twice, `getSize`, `getAccessor`, key helpers, statistics and the trigger that requests a collector run: a run may start the collector at any time.
- The cache's default size estimate: `getSize` is any total function to natural numbers.
- CacheOrder.EvictsLeastRecent: compares entries within one collection; across collections the order is that of registration (`CacheSizes.CollectSurvivors`).
- Fetches that never answer: their waiters stay in a list of a fetch in flight, as the model says.
- RateLimit.LimiterAgreesWithHistory: assumes that only the limiter writes its collection and one clock that does not go back; what holds when its unexpired entries are evicted is `RateLimit.NeverOverWithoutCause`. Values of other collections are lists of numbers here too.
- Integer width of counters and sizes, except where the code relies on it (`Spans`, `NamedType`): counters of the ring buffer never wrap around here.
- The ring's power-of-two capacity: any positive capacity is modelled.
- RingBuffer.RingBuffer.Assign: a section of the own storage lies inside it; one that wraps around is not a span.
- RingBuffer.RingBuffer.UnconsumeSpan: a section of the own storage is in place or does not overlap the slots that are written, as the copy would else read what it has just overwritten; no more is given back than was read.
- Views as pointers: a span is the sequence of elements it covers, so writes through a view are not modelled, except for the free section of the ring.
- NonOwningList.List.Erase: an element that is linked is an element of some valid list.
- NonOwningList.List.RemoveIf: the test does not change the list or its elements.
- Iterators of the containers, `front`, `back`, and the destructor checks of list elements.
- FlatMap.FromList: the library sort is `HeapSort.Sort`, and the vector keeps the first elements of the list that fit; the sources of the vector are not part of this model.
- PrefixSearch.StartsWithAnyOf: elements are integers and the adapter is the identity.
- `TimeSeries.forEach`, `wrap`, `getTimestamp`: simple loops or callbacks. Timestamps are reals without NaN.
- TimeSeries.TimeSeries.ConsistencyFix: what the library's sort makes of the list is a parameter, any ordered permutation.
- BracketScan.LoadAndRepair: the library's sort and JSON decoder are parameters; decoding is a pure function.
- The regular expression engine: taken as any function that finds a match when there is one. `regexpr.js`, the escaping of literals, is not part of this model: a literal in a pattern is the text it stands for.
- Router.RoundTripIff: the URI codec is any pair of functions that invert each other, without slashes in the output and empty output only for empty text. `String` prints a number that it prints in digits as some whole number that rounds to it, and every other number with a character that is no digit. Infinities, NaN and a malformed escape in a foreign path are not modelled.
- `Router.add`, the master expression and dispatch over several routes, the fallback handler.
- Outliers.FindOutliers: scores and their standard deviation are parameters and must be such that the loop ends (`Outliers.EndsIffAllShrink`); n-grams and file names are not modelled. Binary64 exponents do not run out, and infinities and NaN are left out.
- Conversion of negative values, floating-point units and the arithmetic skills of named types.
