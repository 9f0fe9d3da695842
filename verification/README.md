# Verified models of the tweet collector

The program follows crypto tweets: it searches through a pool of rate-limited accounts, keeps
the tweets it found in a key-value store with two secondary indexes, picks the ones worth another look,
and hands new ones to an editor and a channel. This project models the parts whose correctness depends on
more than one function, and proves what they are for:

* **The sliding-window request log** in both stored formats: what a batch of second-granular deltas stands
  for, what adding and cleaning do to that meaning (32-bit wrap-around, sub-second drift and the slice
  aliasing of the original included), and when the conversion between the formats is exact.
* **The request-limit repository**: a cache of mutable records beside stored limits and per-batch keys.
  Over every run, with eviction at any point, cache and store represent the same limits; the conditions
  under which an add or a clean breaks this are given exactly.
* **The transaction**: buffered writes, replayed by the commit loop without reading anew.
* **The tweet table and its indexes**: the invariant that survives every interleaving of begun transactions
  and late or repeated sends, the stronger one of serial runs, the queries answered from range scans over
  printed numbers, and the cleaning of old tweets.
* **Finders**: window limiters, the delay manager that spreads fire over them, and the pool that uses
  temperature zero as its busy mark.
* **Publication**: the two edit queues and the sent marks, escaping and chunked sending, and the linked
  search queue.

`dafny verify dfyconfig.toml` checks everything. Nothing here runs the original program.

## Layout

| files | what they hold |
|---|---|
| `Bytes.dfy`, `Records.dfy`, `Store.dfy`, `Keys.dfy` | byte order and prefix ranges; records, errors and 32-bit arithmetic; database and transaction; key layout |
| `RequestLog.dfy`, `RequestWindow.dfy` | the second log format on values, against the plain sliding window, and its drift over runs |
| `RequestLimitsV2.dfy`, `RequestLimitsV1.dfy`, `FormatClashes.dfy` | the mutable records of both formats on the heap, and the conversion; where the formats part |
| `BatchStore.dfy`, `RequestLimiter.dfy`, `RequestCounts.dfy`, `RequestDrift.dfy`, `RequestLaws.dfy`, `RequestClashes.dfy`, `LimiterRepo.dfy` | batches in the store; the repository as a state machine; counts and thresholds over runs; the drift bound over the repository's runs; what each operation does to what is fetched and stored; runs that make cache and store disagree; the repository as a class |
| `Tweets.dfy`, `TweetRuns.dfy`, `TweetQueries.dfy`, `TweetLaws.dfy`, `TweetRepo.dfy` | index invariants; interleaved and serial runs; the queries; what saving, deleting, querying and cleaning do in terms of ratings and instants; the repository and the cleaner as classes |
| `WindowLimiter.dfy`, `DelayManager.dfy`, `FinderPool.dfy` | limiter, delay manager, pool |
| `EditQueues.dfy`, `Sender.dfy`, `SingleList.dfy` | edit queues and the publication protocol; escaping and sending; the linked queue |

A class is proved against functions on values: each method says which function of the old state the new
state is, and the theorems about runs are lemmas on those functions. What those functions mean is stated
without them, with the constants written out: by the lemmas of `RequestLaws.dfy` and `TweetLaws.dfy` and, for
the other modules, by lemmas beside the functions.

## Findings

Where a natural expectation does not hold, the model keeps the code as it is, a lemma shows the failing
input, and another says exactly when the expectation holds.

* Cleaning re-bases the surviving entries to a new start and rounds down, so each clean moves them back by up
  to a second: cleaning at intervals of a second and a nanosecond halves the window (`WindowHalves`). A clean
  yields exactly the entries newer than the cutoff if and only if nothing survives, or the survivors are all
  newer, and those of the cut batch lie within 2^32 seconds and whole seconds from the cutoff by their batch's
  start (`CleanIsExact`; for batches in order `CleanIsWindow`).
* An entry recorded before the cutoff of a clean, behind a live one of its batch, is thrown 2^32 seconds ahead
  (`LateEntryThrown`, `LateEntryNoSuffix`; `CleanIsSuffix` is exact). A clean drops nothing exactly if the
  first entry left is live (`DropsNothingWhen`), so such an entry keeps everything behind it
  (`ThrownEntryBlocks`).
* Cleaning overwrites slot 0 of a slice that shares its array with the old batch. The count taken over the
  old batches afterwards is unaffected, because no length changes (`OverwrittenKeepsEntries`).
* Batch keys hold only the second of a batch's start. From an empty store, 2501 requests in one instant make
  cache and store disagree (`AddClash`); so does a clean exactly one window after the only request
  (`CleanClash`), and one whose edge falls in the second in which a kept batch starts (`KeptClashMet`).
  `AddAgrees` and `CleanAgrees` give the exact conditions.
* Batch keys are little-endian, so the next second's key sorts first exactly after every 256th
  (`NextSecondFirst`): a reload changes the order of the batches (`ReloadKeepsBag`), which the drift bound
  allows for (`DriftBound`, and `RunDrifts` for the repository).
* Converting the first log format throws an entry far ahead that decodes to before the first of its run of
  2500 (`EarlierEntryLost`; `ConversionPreservesTimes` is exact). Adding first and converting first differ for
  a request half a second after the start (`FirstAddDiffers`; `AddCommutes` is exact), and cleaning for more
  than 2500 requests in one instant (`CleanDiffers`; `CleanCommutes` is exact on orderly logs).
* A late or repeated send can leave entries behind: that of a save (`LostClear`), that of a delete
  (`StaleDeleteLeaves`). Sent at any time, a save keeps exact indexes exact if and only if it takes no other
  tweet's creation entry and the tweet stored now, if any, has the same creation second and a rating that
  prints like the new one or like that of the tweet the save read (`ResavedExact`); a delete if and only if it
  clears no other tweet's creation entry and the tweet stored now prints like the one it read, second and
  rating (`RemovedExactWhen`). Over a run the indexes are exact all the time exactly if every send is safe in
  this sense when it comes (`RunExactWhen`). Saving a tweet under another creation second leaves its old
  creation entry even in a serial run (`MovedTweetLeavesEntry`; `ReplacedExact` is exact).
* A stale replay of an index check can remove a fresh entry (`LateCheckUncovers`); it is harmless exactly if
  the tweet is not stored or its rating prints otherwise (`LateRatingCheck`; for creation entries
  `LateCreationCheck`).
* Creation keys print the second without padding. Two seconds have ids that clash exactly if one print is a
  proper prefix of the other (`CreationClashWhen`), and the scan of old tweets is exact exactly if the prints
  sort as the seconds do (`CreationRangeWhen`); a second and its decimal extensions fail both
  (`ExtendedSecond`). Seconds from 2001 to 2286, and the zero time beside them, meet both conditions
  (`TenDigits`, `OneWidth`, `BeforeEpoch`).
* A window that cannot be read shows no fire. The first such window takes a refusal exactly if all windows
  before it read 3 or more (`UnreadCharged`), and then every one that follows (`UnreadTakesAll`). A refusal
  keeps all even fire levels even exactly if every window can be read, or there is only one (`EvenKeptWhen`).
* A finder that once reads zero is never handed out again (`RunMarksHeld`). That needs an account none of
  whose windows can be read (`ZeroWhenUnread`); otherwise exactly the held finders are marked
  (`ReadableLosesNone`).
* A link is queued twice if two passes check it before either marks it, though every commit succeeds
  (`TogetherQueueTwice`). For any number of passes in any interleaving, all of whose tweets the rating lets
  through and whose commits succeed, each link is queued at most once exactly if no pass finds a link unmarked
  that another pass has in hand (`QueuedOnceWhen`). Two passes in turn queue it twice exactly if queueing
  reports an error though it happened, or marking fails (`QueuedAgainWhen`).
* A tweet queued under the id of one that is being edited is deleted with it (`LostFromStart`,
  `QueuedWhileShortLost`, `QueuedWhileLongLost`). A step loses a queued tweet exactly if no edit was given it and
  the step deletes its id or queues another tweet under it (`ShortLostWhen`, `LongLostWhen`).
* The comment on the positive rating range gives its end as a printed key; the code ends it at the next key
  family. The model follows the code.

## Model

| member | source | states |
|---|---|---|
| `Bytes.PrefixRangeExact` | `pkg/fdbclient/transaction.go:42-53` | the range from a prefix to its increment holds exactly the keys with that prefix |
| `Store.ReplayIsIdempotent` | `pkg/fdbclient/transaction.go:65-107` | running any list of buffered writes a second time leaves the store as it is |
| `Store.SameOutsideTouched` | `pkg/fdbclient/transaction.go:36-63` | the writes decide every key they touch: stores equal elsewhere end up equal |
| `Store.LastTouchDecides` | `pkg/fdbclient/transaction.go:36-63` | what is left under a key is what its last write says |
| `Store.PrefixScanExact` | `pkg/fdbclient/transaction.go:26-34` | a prefix scan returns exactly the keys with the prefix |
| `Store.ClearPrefixIsRange` | `pkg/fdbclient/transaction.go:42-53` | a prefix clear removes exactly the keys from the prefix up to its increment, and changes no other |
| `Store.Transaction.Set` | `pkg/fdbclient/transaction.go:59-63` | a set is only buffered |
| `Store.Transaction.Clear` | `pkg/fdbclient/transaction.go:36-40` | a clear is only buffered |
| `Store.Transaction.ClearRange` | `pkg/fdbclient/transaction.go:42-53` | a prefix clear is only buffered |
| `Store.Transaction.Get` | `pkg/fdbclient/transaction.go:55-57` | a read sees the database, not the buffer |
| `Store.Transaction.GetRange` | `pkg/fdbclient/transaction.go:26-29` | a scan returns the rows of the range in key order |
| `Store.Transaction.Commit` | `pkg/fdbclient/transaction.go:65-107` | for every outcome of every attempt: the buffer takes effect as a whole and as if once, exactly if some attempt reached the database, and success is reported exactly as given by the attempts |
| `Store.SucceedsWhen` | `pkg/fdbclient/transaction.go:65-107` | success, in terms of the attempts: one is acknowledged and all before it were refused or lost their reply and none was cancelled, or all listed were such |
| `Store.ReachesWhen` | `pkg/fdbclient/transaction.go:65-107` | the writes reach the database exactly if one attempt does and all before it were refused and none cancelled, or all listed were such |
| `Keys.BatchPrefixExact` | `internal/repo/keys/key_builder.go:88-101` | a login's window scan reaches a batch key exactly if login and window are the same, for logins over letters, digits and underscore and the four windows |
| `Keys.BatchPrefixLeaks` | `internal/repo/keys/key_builder.go:88-101` | with other login bytes it does reach another login's batches |
| `Keys.BatchPrefixLeaksWhen` | `internal/repo/keys/key_builder.go:88-101` | over any bytes and lengths: a login's scan reaches a no shorter one exactly if that starts with the login and goes on, its window included, with the window's bytes; a shorter one exactly if the rest of the login and the window's bytes begin that one's window and second; never one more than eight bytes shorter |
| `Keys.NextSecondFirst` | `internal/repo/keys/key_builder.go:88-96` | batch keys do not sort as their seconds do: the next second's key sorts first exactly after every 256th |
| `Keys.SlotKeyInjective` | `internal/repo/keys/key_builder.go:88-96` | batch keys determine login, window and start second |
| `Keys.RequestLimitsKeyInjective` | `internal/repo/keys/key_builder.go:83-86` | limit keys determine login and window, with the window's seconds taken modulo 65536 |
| `Keys.DecimalOrder` | `internal/repo/keys/key_builder.go:132-147` | numbers printed with as many digits sort as the numbers do |
| `Keys.RatingKeyInjective` | `internal/repo/keys/key_builder.go:128-130` | rating keys are equal exactly for the same id and the same printed rating, whatever the ids |
| `Keys.PositiveRangeExact` | `internal/repo/keys/key_builder.go:115-130` | the positive scan meets exactly the ratings that print as 0.00001 or more |
| `Keys.PositiveRangeWhen` | `internal/repo/keys/key_builder.go:115-130` | that is, exactly the ratings above 0.000005 |
| `Keys.CreationRangeExact` | `internal/repo/keys/key_builder.go:132-147` | for prints that sort right, the scan up to a time meets exactly the earlier seconds |
| `Keys.CreationRangeWhen` | `internal/repo/keys/key_builder.go:132-147` | and only for those, if any id may follow |
| `Keys.CreationKeyInjective` | `internal/repo/keys/key_builder.go:132-137` | for seconds of which neither print is a proper prefix of the other, keys are equal exactly for the same second and id |
| `Keys.CreationClashWhen` | `internal/repo/keys/key_builder.go:132-137` | some two ids clash exactly if one second's print is a proper prefix of the other's |
| `Keys.CreationKeySameId` | `internal/repo/keys/key_builder.go:132-137` | for one id creation keys determine the second, whatever the seconds |
| `Keys.ExtendedSecond` | `internal/repo/keys/key_builder.go:132-147` | a second and each of its decimal extensions clash and do not sort right |
| `Keys.OneWidth` | `internal/repo/keys/key_builder.go:132-147` | seconds of one width neither clash nor lose their order |
| `Keys.BeforeEpoch` | `internal/repo/keys/key_builder.go:132-147` | nor do a second before 1970, such as the zero time's, and one after it |
| `Keys.TenDigits` | `internal/repo/keys/key_builder.go:132-137` | every second from 2001 to 2286 has the width ten |
| `Keys.SecondReads` | `internal/repo/keys/key_builder.go:132-137` | the printed second, read back, is the instant's second rounded down, with a minus sign before 1970 |
| `Keys.RatingReads` | `internal/repo/keys/key_builder.go:128-130` | the printed rating, read back in units of 0.00001, is the nearest to the rating, the even one of two |
| `Keys.KeyExamples` | `internal/repo/keys/key_builder.go:83-151` | the bytes of the five kinds of keys for given ratings, seconds and windows and every id |
| `RequestLog.AddAppends` | `internal/repo/model/request_limits.go:215-233` | adding appends one timestamp to those decoded and changes no other, for every list and clock |
| `RequestLog.AddShape` | `internal/repo/model/request_limits.go:215-233` | a request joins the last batch while that holds fewer than 2500 entries, else it starts one; all other batches and entries stay |
| `RequestLog.StampMeans` | `internal/repo/model/request_limits.go:215-233` | for every instant, a joining request is recorded whole seconds after the batch's start, its distance in whole seconds modulo 2^32 |
| `RequestLog.TruncMeans` | `internal/repo/model/request_limits.go:215-233` | durations are cut to whole seconds toward zero |
| `RequestLog.StampAccuracy` | `internal/repo/model/request_limits.go:215-233` | the appended timestamp is the request's own rounded down to a second exactly if the request lies from the joined batch's start up to 2^32 seconds after it |
| `RequestLog.CleanNeverDropsLive` | `internal/repo/model/request_limits.go:168-213` | for every list, whatever its order: a clean drops the first f entries, none of them live, and entry i of what is left is entry f+i of the list, at its own time behind the cut batch; in it, moved back by less than a second if in range, and thrown into range otherwise |
| `RequestLog.DropsNothingWhen` | `internal/repo/model/request_limits.go:168-213` | a clean drops nothing exactly if the list is empty or its first entry is live, however old the others are |
| `RequestLog.CleanRebases` | `internal/repo/model/request_limits.go:168-213` | for every list: what a clean leaves are the entries from the first live one, re-based modulo 2^32 as far as they share its batch |
| `RequestLog.CleanShape` | `internal/repo/model/request_limits.go:168-213` | batch by batch: those before the first with a live entry are emptied and start at the cutoff, that one starts there too with its later deltas as they were, the rest stay |
| `RequestLog.SurvivorShift` | `internal/repo/model/request_limits.go:185-203` | a survivor of the cut batch moves back by the sub-second shift exactly if it lies from the cutoff up to 2^32 seconds after it |
| `RequestLog.CleanIsSuffix` | `internal/repo/model/request_limits.go:168-213` | for every list: what remains is the suffix from the first live entry, its first batch moved back together by less than a second, exactly if that batch's survivors lie within 2^32 seconds after the cutoff |
| `RequestWindow.LateEntryThrown` | `internal/repo/model/request_limits.go:168-233` | three requests, the last recorded before the second: a clean between the two throws it 2^32 seconds ahead, whatever batches follow |
| `RequestWindow.LateEntryNoSuffix` | `internal/repo/model/request_limits.go:168-213` | so that clean does not leave the suffix moved back |
| `RequestWindow.ThrownEntryBlocks` | `internal/repo/model/request_limits.go:168-213` | and a later clean, up to that instant, drops no entry behind it, however old |
| `RequestLog.InBatchOrderInRange` | `internal/repo/model/request_limits.go:168-213` | order inside the batches is enough for that; the batches may come in any order |
| `RequestLog.ShiftIsZero` | `internal/repo/model/request_limits.go:168-213` | nothing moves exactly if nothing survives or the cut batch starts whole seconds from the cutoff |
| `RequestWindow.CleanIsWindow` | `internal/repo/model/request_limits.go:168-213` | in time order, a clean yields exactly the timestamps newer than the cutoff, those of the first batch moved back together; unmoved exactly if nothing is left or that batch starts whole seconds from the cutoff |
| `RequestWindow.CleanIsExact` | `internal/repo/model/request_limits.go:168-213` | for every list: a clean yields exactly the timestamps newer than the cutoff if and only if nothing survives, or the survivors are all newer, their cut batch starts whole seconds from the cutoff and is in range |
| `RequestWindow.AddKeepsBound` | `internal/repo/model/request_limits.go:14-15` | no batch grows beyond 2500 entries by adding |
| `RequestWindow.CleanKeepsBound` | `internal/repo/model/request_limits.go:168-213` | nor by cleaning |
| `RequestWindow.DriftBound` | `internal/repo/model/request_limits.go:168-233` | over every run of requests, cleans and reloads in any batch order, the log holds exactly the marked entries, and one that survived k cleans decodes to a time in (t-(k+1)s, t] of its request, in order inside its batch, in bounded batches |
| `RequestDrift.RunFollows` | `internal/repo/request_limiter.go:50-337` | over every admissible run of the repository, an owner's log goes through the owner's own requests and cleans in order, with reloads in between, whatever other owners do and whatever is evicted |
| `RequestDrift.RunDrifts` | `internal/repo/request_limiter.go:50-337` | so the drift bound holds of what the repository fetches for the owner |
| `RequestDrift.CreatedDrifts` | `internal/repo/request_limiter.go:50-337` | in particular from an empty store on, once the limits have been created |
| `RequestWindow.DroppedIsOld` | `internal/repo/model/request_limits.go:168-213` | in every such run, a clean drops only requests at most k+1 seconds short of leaving the window |
| `RequestWindow.WindowHalves` | `internal/repo/model/request_limits.go:168-213` | cleans a second and a nanosecond apart drop a request with half its window left |
| `RequestLimitsV2.OverwrittenKeepsEntries` | `internal/repo/model/request_limits.go:191-196` | the slot that cleaning overwrites in the shared array changes no batch's length |
| `RequestLimitsV2.OverwrittenSlot` | `internal/repo/model/request_limits.go:191-196` | which slot it is and what it holds then: that of the first live entry, unless it is its batch's last, its whole seconds after the cutoff |
| `RequestLimitsV2.Append` | `internal/repo/model/request_limits.go:232` | Go's append: the contents grow by one, in place when there is room and in a new array otherwise |
| `RequestLimitsV2.FindLive` | `internal/repo/model/request_limits.go:181-204` | the running 32-bit counter finds the first entry inside the window |
| `RequestLimitsV2.CutSlice` | `internal/repo/model/request_limits.go:188-196` | the new slice holds the cut batch; the old one is left with its slot overwritten |
| `RequestLimitsV2.RequestLimitsV2.constructor` | `internal/repo/model/request_limits.go:146-151` | a record without requests |
| `RequestLimitsV2.RequestLimitsV2.AddCounter` | `internal/repo/model/request_limits.go:215-233` | on the heap: the record's batches become those with the request added, the count grows by one modulo 2^32, nothing else changes |
| `RequestLimitsV2.RequestLimitsV2.CleanCounters` | `internal/repo/model/request_limits.go:168-213` | on the heap: returns the cleaned batches, and leaves the record's own as the overwrites leave them |
| `RequestLimitsV1.ConversionPreservesTimes` | `internal/repo/model/request_limits.go:78-114` | for any length, conversion keeps every decoded time exactly if in each run of 2500 the first total fits 32 bits and no entry decodes to before the first |
| `FormatClashes.EarlierEntryLost` | `internal/repo/model/request_limits.go:78-114` | two requests recorded with the later one first: conversion changes the times |
| `RequestLimitsV1.OrderlyTimes` | `internal/repo/model/request_limits.go:78-114` | logs whose deltas after the first are not negative meet the condition, and their times are in order |
| `RequestLimitsV1.ChunkShape` | `internal/repo/model/request_limits.go:78-114` | conversion makes batches of 2500 entries, but for the last, each starting at its first entry |
| `RequestLimitsV1.Clean1IsSuffix` | `internal/repo/model/request_limits.go:116-144` | cleaning the first format keeps the live suffix, all of it moved back together |
| `RequestLimitsV1.CleanCommutes` | `internal/repo/model/request_limits.go:78-144` | cleaning commutes with conversion exactly on whole seconds, or when the survivors lie in one run of 2500, or when there is none |
| `FormatClashes.CleanDiffers` | `internal/repo/model/request_limits.go:78-144` | more than 2500 requests in one instant, cleaned half a second before: the two orders differ |
| `RequestLimitsV1.AddCommutes` | `internal/repo/model/request_limits.go:28-35` | adding commutes with conversion exactly when the request joins a started run or comes whole seconds after the start |
| `RequestLimitsV1.Added1Times` | `internal/repo/model/request_limits.go:28-35` | an add to the first format records the request's whole seconds from the start modulo 2^32, signed, and changes nothing else |
| `FormatClashes.FirstAddDiffers` | `internal/repo/model/request_limits.go:28-35` | the first request half a second after the start: the two orders differ |
| `RequestLimitsV1.RequestLimits.AddCounter` | `internal/repo/model/request_limits.go:28-35` | the loop over all deltas computes the delta that records the request |
| `RequestLimitsV1.RequestLimits.CleanCounters` | `internal/repo/model/request_limits.go:116-144` | the entries from the first one inside the window, re-based |
| `RequestLimitsV1.RequestLimits.ToV2` | `internal/repo/model/request_limits.go:78-114` | the two nested loops cut the deltas into batches of at most 2500 |
| `BatchStore.KeyedBag` | `internal/repo/request_limiter.go:88-156` | batches of which only the last under a key may hold entries, and their written form, hold the same bag of times |
| `BatchStore.LoadRepresents` | `internal/repo/request_limiter.go:309-329` | batches read back in key order represent the store they were read from |
| `BatchStore.ReloadSelects` | `internal/repo/request_limiter.go:309-329` | reading back the written form gives some of the batches, each at most once, in some order |
| `BatchStore.AddRepresents` | `internal/repo/request_limiter.go:50-86` | writing back only the last batch after an add is enough, and the list stays keyed exactly if the add is safe |
| `BatchStore.CleanedKeyed` | `internal/repo/request_limiter.go:88-156` | a cleaned list stays keyed exactly if no batch kept whole has the new start's second |
| `BatchStore.CleanRepresents` | `internal/repo/request_limiter.go:103-147` | clearing unmatched starts before writing unmatched batches leaves the written form of the cleaned list, exactly if the clean is safe |
| `RequestLimiter.LoadAgrees` | `internal/repo/request_limiter.go:284-337` | what a cache miss reads from the store represents it |
| `RequestLimiter.ReloadKeepsBag` | `internal/repo/request_limiter.go:284-337` | evicting and reading back keeps count, threshold, window and the bag of times; the batches are some of those before, each once, in another order |
| `RequestLimiter.AddAgrees` | `internal/repo/request_limiter.go:50-86` | an add keeps cache and store in agreement exactly if a batch it starts meets no other's key |
| `RequestClashes.AddClash` | `internal/repo/request_limiter.go:50-86` | from an empty store, 2501 requests in one instant break the agreement |
| `RequestLimiter.CleanAgrees` | `internal/repo/request_limiter.go:88-156` | a clean does exactly if the window's edge meets no kept batch's key, and no first batch starting there that is cut to itself |
| `RequestClashes.CleanClash` | `internal/repo/request_limiter.go:88-156` | from an empty store, a clean exactly one window after the only request breaks it |
| `RequestClashes.KeptClashMet` | `internal/repo/request_limiter.go:88-156` | so does one whose edge falls in the start second of the second of two batches, after 2501 requests over a second and a half |
| `RequestLimiter.ThresholdAgrees` | `internal/repo/request_limiter.go:158-230` | setting or raising the threshold keeps the agreement |
| `RequestLimiter.ThresholdsAfter` | `internal/repo/request_limiter.go:158-230` | setting takes the count unless zero; increasing never lowers and reaches at least what is asked; nothing else of the limits changes |
| `RequestLimiter.CreateAgrees` | `internal/repo/request_limiter.go:252-282` | so does creating |
| `RequestLimiter.EvictAgrees` | `internal/repo/request_limiter.go:284-294` | so does losing a cache entry |
| `RequestLimiter.OthersUntouched` | `internal/repo/request_limiter.go:50-230` | an owner's operation is out of every other owner's sight |
| `RequestLaws.AddLimits` | `internal/repo/request_limiter.go:50-86` | an add counts one more modulo 2^32 and leaves window and threshold as they were, as fetched and as stored |
| `RequestLaws.AddTimes` | `internal/repo/request_limiter.go:50-86` | and records one time more |
| `RequestLaws.AddWrites` | `internal/repo/request_limiter.go:72-84` | besides the limits it writes the last batch under its start; all other keys stay |
| `RequestLaws.CleanLimits` | `internal/repo/request_limiter.go:88-156` | a clean sets the count to the entries it found and leaves window and threshold as they were, as fetched and as stored |
| `RequestLaws.CleanTimes` | `internal/repo/request_limiter.go:88-156` | it drops the times up to the first one less than the window ago, and the others move back by less than a second if less than 2^32 seconds after the window's beginning |
| `RequestLaws.ThresholdLaw` | `internal/repo/request_limiter.go:158-230` | setting and raising the threshold, as fetched and as stored |
| `RequestLaws.CreateLaw` | `internal/repo/request_limiter.go:252-282` | new limits hold no requests, count zero and the given threshold; existing ones stay |
| `RequestLaws.FetchLaw` | `internal/repo/request_limiter.go:284-337` | reading changes neither the store nor what anyone fetches |
| `RequestLaws.EvictLaw` | `internal/repo/request_limiter.go:284-337` | after an eviction the stored count, threshold, window and bag of times are fetched |
| `RequestLaws.MissingLaw` | `internal/repo/request_limiter.go:50-230` | without limits no operation but creating changes anything |
| `RequestLaws.RunKeepsThreshold` | `internal/repo/request_limiter.go:50-337` | over every admissible run an owner's threshold, fetched and stored, changes only by setting or raising it |
| `RequestLimiter.RunAgrees` | `internal/repo/request_limiter.go:50-337` | over every run of all operations and evictions, every owner's cache entry and stored keys represent the same limits |
| `RequestLimiter.RunFromEmptyAgrees` | `internal/repo/request_limiter.go:50-337` | in particular from an empty store |
| `RequestCounts.RunCounts` | `internal/repo/request_limiter.go:119-149` | over every run the stored count is the entries held plus those the last clean dropped, modulo 2^32 |
| `RequestCounts.NeverUndercounts` | `internal/repo/request_limiter.go:119-149` | so it is never less than the entries held, and equal exactly if the last clean dropped none |
| `RequestCounts.RunPositive` | `internal/repo/request_limiter.go:158-230` | no run takes a stored threshold to zero |
| `RequestCounts.RunFromEmpty` | `internal/repo/request_limiter.go:50-337` | every admissible run from an empty store keeps agreement, exact counts and positive thresholds |
| `LimiterRepo.ClearKeys` | `internal/repo/request_limiter.go:136-138` | clearing the map's keys leaves the same store in any iteration order |
| `LimiterRepo.SettleBatches` | `internal/repo/request_limiter.go:103-119` | the pass over the cleaned batches: starts left to clear, batches left to write |
| `LimiterRepo.ScanRecord` | `internal/repo/request_limiter.go:97-125` | the count taken over the old batches after the scan is their count before it |
| `LimiterRepo.LoadRecord` | `internal/repo/request_limiter.go:284-337` | a record is rebuilt from the stored limits and its batch keys, or the error says why not |
| `LimiterRepo.LimiterRepo.AddCounter` | `internal/repo/request_limiter.go:50-86` | on the heap, with shared cached records: cache and store become what the state model says |
| `LimiterRepo.LimiterRepo.CleanCounters` | `internal/repo/request_limiter.go:88-156` | likewise |
| `LimiterRepo.LimiterRepo.SetThreshold` | `internal/repo/request_limiter.go:158-190` | likewise; a count of zero changes nothing |
| `LimiterRepo.LimiterRepo.IncreaseThresholdTo` | `internal/repo/request_limiter.go:192-230` | likewise; a threshold already above changes nothing |
| `LimiterRepo.LimiterRepo.Create` | `internal/repo/request_limiter.go:252-282` | likewise; existing limits are reported |
| `LimiterRepo.LimiterRepo.CheckIfExist` | `internal/repo/request_limiter.go:232-250` | whether limits are stored |
| `LimiterRepo.LimiterRepo.GetRequestLimit` | `internal/repo/request_limiter.go:29-48` | count and threshold of the cached or stored limits; at most the cache changes |
| `LimiterRepo.LimiterRepo.GetRateLimit` | `internal/repo/request_limiter.go:284-337` | returns the cached record itself, or caches a rebuilt one |
| `Tweets.SaveApplies` | `internal/repo/tweets.go:97-107` | what the buffered writes of a save leave |
| `Tweets.ResavedCovers` | `internal/repo/tweets.go:63-119` | sent at any time, a save keeps every stored tweet's two entries exactly if it overwrites no other tweet's creation entry |
| `Tweets.RemovedCovers` | `internal/repo/tweets.go:121-143` | likewise a delete |
| `Tweets.ResavedExact` | `internal/repo/tweets.go:63-119` | sent at any time, whatever tweet of that id it read, a save keeps exact indexes exactly if it takes no other's creation entry and replaces the entries of the tweet stored now |
| `Tweets.RemovedExactWhen` | `internal/repo/tweets.go:121-143` | likewise a delete, exactly if it clears no other's creation entry and those of the tweet stored now |
| `Tweets.RemovedExact` | `internal/repo/tweets.go:121-143` | deleting the stored tweet keeps exact indexes |
| `Tweets.AddedExact` | `internal/repo/tweets.go:63-119` | storing a new tweet does exactly if it takes no other's creation entry |
| `Tweets.ReplacedExact` | `internal/repo/tweets.go:97-107` | storing a tweet again does exactly if its creation second is the same |
| `TweetRuns.MovedTweetLeavesEntry` | `internal/repo/tweets.go:97-107` | a tweet saved again under another creation second leaves its first creation entry behind |
| `TweetRuns.RunCovers` | `internal/repo/tweets.go:63-143` | in every interleaving of begun saves and deletes with late and repeated sends, every stored tweet has the rating entry of its current rating and its creation entry, if no saved second's print is a proper prefix of another's |
| `TweetRuns.ClashUncovers` | `internal/repo/tweets.go:63-119` | two saves of tweets whose creation keys clash break it |
| `TweetRuns.LostClear` | `pkg/fdbclient/transaction.go:85-106` | of two saves that read the same tweet, sent one after the other, the first one's rating entry is left exactly if it prints like neither of the others |
| `TweetRuns.StaleDeleteLeaves` | `internal/repo/tweets.go:121-143` | a delete sent again after the tweet was saved with a rating that prints otherwise leaves the new rating entry |
| `TweetRuns.SendExact` | `pkg/fdbclient/transaction.go:65-107` | any send of a begun save or delete, late or repeated, keeps exact indexes exactly if it is safe for the table it meets |
| `TweetRuns.RunExactWhen` | `pkg/fdbclient/transaction.go:65-107` | in every interleaving with late and repeated sends, the indexes are exact after every step exactly if every send is safe when it comes |
| `TweetRuns.CheckCovers` | `internal/repo/tweets.go:440-462` | an index check sent at once keeps all entries and leaves none whose tweet it found missing |
| `TweetRuns.LateCheckUncovers` | `internal/repo/tweets.go:440-462` | replayed after a save it removes the entry just written |
| `TweetRuns.ClearCovers` | `internal/repo/tweets.go:440-462` | clearing an index key keeps all stored tweets' entries exactly if no stored tweet owns it |
| `TweetRuns.LateRatingCheck` | `internal/repo/tweets.go:440-462` | a late check of a rating entry is harmless exactly if the tweet is not stored or its rating prints otherwise |
| `TweetRuns.LateCreationCheck` | `internal/repo/tweets.go:440-462` | one of a creation entry exactly if the tweet is not stored or was created in another second, and no other tweet's key is the same |
| `TweetRuns.SaveStores` | `internal/repo/tweets.go:63-119` | a serial save stores its tweet unless the stored one was checked later, and changes no other |
| `TweetLaws.SavedNewLaw` | `internal/repo/tweets.go:63-119` | a save of a new tweet writes it, its rating entry with id, rating, creation and check time, and its creation entry, and changes no other key |
| `TweetLaws.SavedAgainLaw` | `internal/repo/tweets.go:63-119` | a save of a stored tweet not checked later does so too and clears the rating entry it had, unless the rating prints the same |
| `TweetLaws.SkippedLaw` | `internal/repo/tweets.go:78-83` | a save of a tweet whose stored form was checked later changes nothing |
| `TweetLaws.SavedCount` | `internal/repo/tweets.go:109-115` | the counter grows by one in 32 bits exactly for a tweet that was not stored |
| `TweetRuns.DeleteStores` | `internal/repo/tweets.go:121-143` | a serial delete removes its tweet and no other |
| `TweetLaws.DeletedLaw` | `internal/repo/tweets.go:121-143` | a delete removes exactly the tweet's key, its rating key and its creation key and counts one less; without the tweet it changes nothing |
| `TweetRuns.SaveExact` | `internal/repo/tweets.go:63-119` | a serial save keeps exact indexes exactly if it is skipped, replaces a tweet of the same creation second, or is new and clashes with none |
| `TweetRuns.DeleteExact` | `internal/repo/tweets.go:121-143` | a serial delete keeps them |
| `TweetRuns.SerialRun` | `internal/repo/tweets.go:63-143` | over every serial run with one creation second per id, the seconds' prints no proper prefixes of one another, both indexes match the table exactly and the counter counts it |
| `TweetRuns.SerialRunFromEmpty` | `internal/repo/tweets.go:63-143` | in particular from an empty store |
| `TweetRuns.CheckedNeverGoesBack` | `internal/repo/tweets.go:78-83` | and the check time of a tweet that is not deleted never goes back |
| `TweetQueries.Choose` | `internal/repo/tweets.go:151-183` | one pass picks the first of the oldest reachable entries, the first of the best predictions above 1e-10, and counts the reachable |
| `TweetQueries.ScanLists` | `internal/repo/tweets.go:288-333` | with exact indexes the positive scan lists exactly the tweets whose rating prints as 0.00001 or more |
| `TweetQueries.ReachingCount` | `internal/repo/tweets.go:165-173` | the count is the number of such tweets predicted to reach the top |
| `TweetQueries.OldestAnswers` | `internal/repo/tweets.go:145-212` | the chosen entry is the oldest of those tweets |
| `TweetQueries.LargestAnswers` | `internal/repo/tweets.go:188-198` | with none reaching, it is the one with the largest prediction, with count zero |
| `TweetQueries.AnswerUnique` | `internal/repo/tweets.go:145-212` | the table alone determines the answer |
| `TweetLaws.ReachingMeans` | `internal/repo/tweets.go:160-173` | a tweet reaches the top exactly if its rating is above 0.000005 and, times the nanoseconds since its creation, at least the top times 10^9 |
| `TweetLaws.ReachingAfterSeconds` | `internal/repo/tweets.go:160-173` | for one created s seconds ago: exactly if rating times s is at least the top |
| `TweetLaws.AnswersAsked` | `internal/repo/tweets.go:145-212` | the answer in those terms: with a positive count the oldest tweet that reaches the top, with zero the one grown most if by more than 10^-10, else none, ties to the smaller rating key |
| `TweetLaws.AnswersCount` | `internal/repo/tweets.go:165-173` | and its count is the number of ids whose tweet reaches the top |
| `TweetQueries.OldScanExact` | `internal/repo/tweets.go:214-237` | with exact indexes and seconds that sort right against the cutoff's, the scan of old tweets lists each tweet of an earlier second once and no other |
| `TweetLaws.OldListed` | `internal/repo/tweets.go:214-237` | so the tweets created a second or more before the instant are listed, none created after it, each once |
| `TweetRepo.SavesRun` | `internal/repo/tweets.go:63-119` | on a table in order a list of saves never fails and is a serial run |
| `TweetRepo.SavesLast` | `internal/repo/tweets.go:63-119` | a list is saved from first to last, up to the first tweet under whose key something else is stored |
| `TweetRepo.TweetRepo.GetTweet` | `internal/repo/tweets.go:268-286` | a missing and an unreadable tweet are told apart |
| `TweetRepo.TweetRepo.BufferSave` | `internal/repo/tweets.go:97-107` | the calls a save buffers, in order: tweet, old rating entry cleared, both new entries |
| `TweetRepo.TweetRepo.BufferDelete` | `internal/repo/tweets.go:132-134` | the calls a delete buffers |
| `TweetRepo.TweetRepo.SaveTweet` | `internal/repo/tweets.go:64-115` | one turn of the save loop against the database and the counter |
| `TweetRepo.TweetRepo.Save` | `internal/repo/tweets.go:63-119` | saves in order, stopping at an unreadable tweet |
| `TweetRepo.TweetRepo.DeleteTweet` | `internal/repo/tweets.go:121-143` | removes tweet and entries and counts down, or reports the missing tweet |
| `TweetRepo.TweetRepo.GetTweetPositiveIndexes` | `internal/repo/tweets.go:288-333` | the entries of the range in key order, up to the first that cannot be read |
| `TweetRepo.TweetRepo.GetOldestTopReachableTweet` | `internal/repo/tweets.go:145-212` | on exact indexes it changes nothing and answers with the oldest tweet whose rating times age reaches the top, or the one grown most, or none; on any store it changes at most one entry whose tweet is missing |
| `TweetRepo.TweetRepo.GetTweetsOlderThen` | `internal/repo/tweets.go:214-237` | on exact indexes and such seconds, the ids of the tweets of earlier seconds, each once |
| `TweetRepo.TweetRepo.CheckTweetOrClear` | `internal/repo/tweets.go:440-462` | clears the entry exactly if its tweet is missing |
| `TweetRepo.TweetRepo.Count` | `internal/repo/tweets.go:464-499` | the number of stored tweets modulo 2^32, from the counter or by counting afresh |
| `TweetLaws.CounterMeans` | `internal/repo/tweets.go:464-499` | the counter fits exactly if it is, in 32 bits, the number of ids with a tweet |
| `TweetRepo.Cleaner.CleanTooOldTweets` | `internal/watcher/watcher.go:241-256` | on exact indexes, with instants in the seconds of ten digits: never fails on a missing tweet, keeps every tweet at most tooOld old as it was and removes every one a second older; for all seconds that sort right it removes exactly those before the cutoff's, keeps the indexes exact, the counter right and all other keys untouched |
| `TweetRepo.Cleaner.DeleteOlder` | `internal/watcher/watcher.go:241-256` | the scan up to a given instant and the deletes |
| `WindowLimiter.Fullness` | `internal/tweetfinder/windowlimiter/limiter.go:69-78` | the fullness of a window lies in (0, 2], a zero threshold included |
| `WindowLimiter.Heat` | `internal/tweetfinder/windowlimiter/limiter.go:69-85` | a window that can be read has a temperature in (fire, fire+2]; one that cannot reads zero |
| `WindowLimiter.HeatMeans` | `internal/tweetfinder/windowlimiter/limiter.go:69-85` | above the fire level it is the count and a tenth over the threshold, exactly 2 from twice the threshold up |
| `WindowLimiter.FullReadsOne` | `internal/tweetfinder/windowlimiter/limiter.go:76-78` | it reads 1 or more exactly if the count has reached the threshold |
| `WindowLimiter.RecommendedMeans` | `internal/tweetfinder/windowlimiter/limiter.go:114-136` | a delay is recommended exactly by a full window whose threshold is at most a fifth of its seconds, and is the largest that keeps threshold requests within that fifth |
| `WindowLimiter.ShareIsProportion` | `internal/tweetfinder/windowlimiter/limiter.go:209` | without overflow the share is the exact proportion rounded down |
| `WindowLimiter.ShareMeans` | `internal/tweetfinder/windowlimiter/limiter.go:209` | with overflow it is the proportion of the product modulo 2^64, rounded down |
| `WindowLimiter.StepsKeepPositive` | `internal/tweetfinder/windowlimiter/limiter.go:87-108` | starting, fire and reset keep every stored threshold at least 1 |
| `WindowLimiter.Limiter.Threshold` | `internal/tweetfinder/windowlimiter/limiter.go:59-67` | the stored threshold, zero if unreadable |
| `WindowLimiter.Limiter.Temp` | `internal/tweetfinder/windowlimiter/limiter.go:69-85` | the temperature of the stored limits and the fire level |
| `WindowLimiter.Limiter.TrySetThreshold` | `internal/tweetfinder/windowlimiter/limiter.go:87-108` | once more than the window has passed since the start it fails exactly without limits; unless it fails the fire level rises by one |
| `WindowLimiter.TryFetched` | `internal/tweetfinder/windowlimiter/limiter.go:87-108` | once more than the window has passed since the start the threshold fetched becomes the count, unless that is zero; before, nothing about the limits changes |
| `WindowLimiter.TryStored` | `internal/tweetfinder/windowlimiter/limiter.go:87-108` | and so does the stored one |
| `WindowLimiter.TryOthers` | `internal/tweetfinder/windowlimiter/limiter.go:87-108` | nobody else's limits change |
| `WindowLimiter.Limiter.RecommendedDelay` | `internal/tweetfinder/windowlimiter/limiter.go:114-136` | the recommended delay of the stored limits |
| `WindowLimiter.Limiter.Start` | `internal/tweetfinder/windowlimiter/limiter.go:138-153` | creates limits of the window's seconds over the delay, unless there are some |
| `WindowLimiter.StartLaw` | `internal/tweetfinder/windowlimiter/limiter.go:138-153` | the limits created hold no requests and the threshold that is the window's seconds over the delay, rounded down |
| `WindowLimiter.Limiter.TakeCount` | `internal/tweetfinder/windowlimiter/limiter.go:180-191` | the queued request is recorded, and stays queued until it is |
| `WindowLimiter.Limiter.PutOutFire` | `internal/tweetfinder/windowlimiter/limiter.go:192-197` | the fire level falls by one, not below zero |
| `WindowLimiter.Limiter.Clean` | `internal/tweetfinder/windowlimiter/limiter.go:198-203` | what left the window is cleaned out of the repository |
| `WindowLimiter.Limiter.Inc` | `internal/tweetfinder/windowlimiter/limiter.go:155-157` | the request is queued for counting |
| `WindowLimiter.Limiter.Reset` | `internal/tweetfinder/windowlimiter/limiter.go:204-219` | the threshold is raised to its share of the next larger window's, computed in 64 bits |
| `WindowLimiter.ResetLaw` | `internal/tweetfinder/windowlimiter/limiter.go:204-219` | the threshold fetched and stored becomes that share, or stays if it is more; count and times stay |
| `DelayManager.SettlesSomewhere` | `internal/tweetfinder/delay_manager_v2.go:50-83` | the search through the levels ends for every non-empty chain |
| `DelayManager.SettlesOnce` | `internal/tweetfinder/delay_manager_v2.go:50-83` | at one limiter and one level |
| `DelayManager.RefusalKeepsEven` | `internal/tweetfinder/delay_manager_v2.go:50-83` | one refusal keeps all fire levels within 3 of each other |
| `DelayManager.ChargedMeans` | `internal/tweetfinder/delay_manager_v2.go:50-83` | from level 3 up, a refusal is charged to the first limiter whose temperature is below the level, at the first level that any is below |
| `DelayManager.RefusalRaises` | `internal/tweetfinder/delay_manager_v2.go:50-83` | its fire level rises by one and no other |
| `DelayManager.RefusalsStayEven` | `internal/tweetfinder/delay_manager_v2.go:50-83` | so does every run of refusals with nothing cooling down, whatever the windows hold each time |
| `DelayManager.ThreeApart` | `internal/tweetfinder/delay_manager_v2.go:50-83` | a spread of 3 does occur |
| `DelayManager.UnreadTakesAll` | `internal/tweetfinder/windowlimiter/limiter.go:69-74` | with the windows before it at fire level 3 or more, the first window that cannot be read takes every refusal, without bound |
| `DelayManager.UnreadCharged` | `internal/tweetfinder/delay_manager_v2.go:50-83` | the first window that cannot be read takes a refusal exactly if all windows before it read 3 or more |
| `DelayManager.EvenKeptWhen` | `internal/tweetfinder/delay_manager_v2.go:50-83` | a refusal keeps all even fire levels even exactly if all windows can be read or there is only one |
| `DelayManager.DelayStaysPositive` | `internal/tweetfinder/delay_manager_v2.go:141-185` | the delay never falls below 1 |
| `DelayManager.FollowsRecommendations` | `internal/tweetfinder/delay_manager_v2.go:149-171` | with all windows read, the delay becomes a recommended one if there is any and decreases if there is none |
| `DelayManager.RecalculationUnique` | `internal/tweetfinder/delay_manager_v2.go:141-185` | the recommendations determine the outcome |
| `DelayManager.RecalculationMeans` | `internal/tweetfinder/delay_manager_v2.go:141-185` | the outcome in terms of the recommended values: the first one other than zero and the present delay, times the factor, is taken; an error changes nothing; with none recommended the delay is halved from 6 up and else lowered by one down to 1 |
| `DelayManager.DelayManager.ReadingMeans` | `internal/tweetfinder/delay_manager_v2.go:149-171` | what is read and recommended for each limiter, in terms of the count and threshold fetched for its window |
| `DelayManager.IdleReachesOne` | `internal/tweetfinder/delay_manager_v2.go:173-181` | without recommendations a delay below 6*2^k reaches 1 within k+4 passes and stays there |
| `DelayManager.IdleBoundTight` | `internal/tweetfinder/delay_manager_v2.go:173-181` | from the largest such delay k+3 passes are not enough |
| `DelayManager.DelayManager.CurrentTemp` | `internal/tweetfinder/delay_manager_v2.go:96-108` | the highest temperature of the chain, zero at least |
| `DelayManager.HottestIs` | `internal/tweetfinder/delay_manager_v2.go:96-108` | no limiter is hotter, and it is zero or one of them is as hot |
| `DelayManager.ZeroWhenUnread` | `internal/tweetfinder/delay_manager_v2.go:96-108` | that temperature is zero exactly if none of the windows can be read |
| `DelayManager.DelayManager.FindCharged` | `internal/tweetfinder/delay_manager_v2.go:55-79` | the nested loops find the limiter a refusal is charged to |
| `DelayManager.DelayManager.TooManyRequests` | `internal/tweetfinder/delay_manager_v2.go:50-83` | exactly that limiter's fire level rises, every window counts the request, two recalculations are asked for; nothing of it if the threshold cannot be set |
| `DelayManager.DelayManager.ChargedLimits` | `internal/tweetfinder/delay_manager_v2.go:50-83` | once more than its window has passed since the start, the threshold fetched for the window charged becomes its count, unless that is zero; it fails exactly if there are no limits then |
| `DelayManager.DelayManager.ChargedStored` | `internal/tweetfinder/delay_manager_v2.go:50-83` | and so does the stored one |
| `DelayManager.DelayManager.OthersNotCharged` | `internal/tweetfinder/delay_manager_v2.go:50-83` | no other window's limits change |
| `DelayManager.DelayManager.AfterRequest` | `internal/tweetfinder/delay_manager_v2.go:85-90` | every window counts the request and a recalculation is asked for |
| `DelayManager.DelayManager.Recalculate` | `internal/tweetfinder/delay_manager_v2.go:141-185` | the first recommendation that asks for another delay decides, an error leaves delay and scraper alone |
| `FinderPool.ChooseFinder` | `internal/tweetfinder/pool.go:155-174` | the pass keeps the first of the coolest usable finders, zero standing for none |
| `FinderPool.AcquireGets` | `internal/tweetfinder/pool.go:153-188` | a call gets a finder exactly if one not taken reads in (0, 4], then a coolest one that nobody holds |
| `FinderPool.AcquireSets` | `internal/tweetfinder/pool.go:153-188` | every finder that is not taken has its new reading then, the one got is taken, the first of the coolest, and no other call's changes |
| `FinderPool.ReleaseSets` | `internal/tweetfinder/pool.go:190-200` | a released finder has its new reading and no holder; an added one comes last |
| `FinderPool.NextSound` | `internal/tweetfinder/pool.go:153-200` | no finder gets two holders, and held finders are marked |
| `FinderPool.NextLoses` | `internal/tweetfinder/pool.go:153-200` | a finder is marked without being held exactly if it was or is now read as zero |
| `FinderPool.RunMarksHeld` | `internal/tweetfinder/pool.go:153-282` | over every run of acquiring, releasing and adding, a finder is marked exactly if it is held or was lost to a zero reading, and has at most one holder |
| `FinderPool.ReadableLosesNone` | `internal/tweetfinder/pool.go:153-282` | from the empty pool, while every account read has a readable window, exactly the held finders are marked |
| `FinderPool.Pool.GetFinderIndex` | `internal/tweetfinder/pool.go:153-184` | refreshing, choosing and marking do one acquiring step; the delays of finders that are not taken are read anew, that of the one got becomes zero |
| `FinderPool.Pool.Refresh` | `internal/tweetfinder/pool.go:158-163` | finders that are not taken are read anew, taken ones keep their mark |
| `FinderPool.Pool.ReleaseFinder` | `internal/tweetfinder/pool.go:190-200` | one releasing step |
| `FinderPool.Pool.AppendFinder` | `internal/tweetfinder/pool.go:278-282` | one adding step |
| `FinderPool.Pool.IsHot` | `internal/tweetfinder/pool.go:59-69` | hot is more than nine tenths taken or too hot |
| `EditQueues.QueuedOnce` | `internal/watcher/watcher.go:134-168` | for any number of passes interleaved with the edit loop, rejections and refused saves included, each link is queued at most once if queueing and marking are reliable and no pass finds a link unmarked that another has in hand |
| `EditQueues.QueuedOnceWhen` | `internal/watcher/watcher.go:134-168` | for every interleaving of passes that all queue and mark their tweet and come to their end: each link is queued at most once if and only if no pass finds a link unmarked that another has in hand |
| `EditQueues.QueuedAgainWhen` | `internal/watcher/watcher.go:134-168` | of two passes in turn on one link the second queues it again exactly if queueing reported an error though it happened, or marking failed |
| `EditQueues.TogetherQueueTwice` | `internal/watcher/watcher.go:134-168` | two passes that both check before either marks queue both tweets, the same link twice exactly if it is the same, though every commit succeeds |
| `EditQueues.RunLosesNoId` | `internal/tweetseditor/manager.go:66-122` | whatever fails and however any number of passes and the edit loop interleave, an id once queued is in the queue or a successful edit of that kind was given a tweet of that id, and edits are given only queued tweets |
| `EditQueues.ShortLeavesEdited` | `internal/tweetseditor/manager.go:66-91` | every time an id leaves the short queue it is by the delete of a batch that the edit just made was given, with a tweet of that id |
| `EditQueues.LongLeavesEdited` | `internal/tweetseditor/manager.go:92-122` | likewise the long queue |
| `EditQueues.ShortLostWhen` | `internal/tweetseditor/manager.go:66-91` | a step loses a queued tweet to short edits exactly if none was given it and the step deletes its id, or queues another tweet under it |
| `EditQueues.LongLostWhen` | `internal/tweetseditor/manager.go:92-122` | likewise to long edits |
| `EditQueues.QueuedWhileShortLost` | `internal/tweetseditor/manager.go:66-91` | a tweet queued under the id of one in the batch in hand vanishes unedited, though everything succeeds |
| `EditQueues.QueuedWhileLongLost` | `internal/tweetseditor/manager.go:92-122` | likewise from the long queue |
| `EditQueues.LostFromStart` | `internal/tweetseditor/manager.go:66-91` | from empty queues: of two tweets of one id the second is lost, queued between the get and the delete of the first |
| `EditQueues.RunLosesNoItem` | `internal/tweetseditor/manager.go:66-122` | under the conditions of `QueuedOnce` and with one link per id, every tweet ever queued is still queued as it was or was given, as it was, to a successful edit |
| `EditQueues.RunFromStart` | `internal/tweetseditor/manager.go:66-122` | from the empty queues: no run loses an id, and none under those conditions loses a tweet or queues a link twice |
| `EditQueues.EditingRepo.SaveTweetForEdit` | `internal/repo/editing_tweets.go:21-36` | both queues take the tweet under its id if the commit reaches the store, whatever it reports |
| `EditQueues.EditingRepo.SaveSentTweet` | `internal/repo/tweets.go:34-43` | the link is marked |
| `EditQueues.EditingRepo.CheckIfSentTweetExist` | `internal/repo/tweets.go:45-61` | whether the link is marked, unless reading fails |
| `EditQueues.EditingRepo.GetTweetForShortEdit` | `internal/repo/editing_tweets.go:38-75` | the whole short queue in key order, or that it is empty or could not be read |
| `EditQueues.EditingRepo.DeleteShortEditedTweets` | `internal/repo/editing_tweets.go:77-88` | exactly the ids leave the short queue |
| `EditQueues.EditingRepo.GetTweetForLongEdit` | `internal/repo/editing_tweets.go:90-134` | the first tweets of the long queue once there are as many as asked for; empty, short and unreadable told apart |
| `EditQueues.EditingRepo.DeleteLongEditedTweets` | `internal/repo/editing_tweets.go:136-147` | exactly the ids leave the long queue |
| `EditQueues.EditingRepo.ProcessTweet` | `internal/watcher/watcher.go:134-168` | queues the tweet in both queues exactly if it is unmarked, rated well and the save happens, marks it if that is reported and marking happens, and returns the rating speed; the method is the watcher's steps of the machine |
| `EditQueues.EditingRepo.ShortTick` | `internal/tweetseditor/manager.go:66-91` | empties the short queue exactly if reading, edit and delete succeed; the branch is its get, edit and delete steps |
| `EditQueues.EditingRepo.LongTick` | `internal/tweetseditor/manager.go:92-122` | takes the first items out of the long queue exactly if there are enough, one of ten attempts succeeds and so does the delete; the branch is its get, edit and delete steps |
| `EditQueues.LongStoryProcess` | `internal/tweetseditor/manager.go:129-145` | succeeds exactly if one of the first ten attempts does, and stops there |
| `Sender.OneMorePass` | `pkg/utils/escaper.go:5-12` | a further replacing pass escapes one further symbol |
| `Sender.Escape` | `pkg/utils/escaper.go:5-12` | the nineteen passes do what one pass over the text does |
| `Sender.EscapedByte` | `pkg/utils/escaper.go:5-12` | exactly the nineteen symbols of the markup get a backslash, every other byte stays |
| `Sender.EscapedConcat` | `pkg/utils/escaper.go:5-12` | escaping distributes over concatenation |
| `Sender.UnescapedEscaped` | `pkg/utils/escaper.go:5-12` | removing the backslash before each symbol undoes it |
| `Sender.EscapedLength` | `pkg/utils/escaper.go:5-12` | it adds one byte per symbol, so an escaped chunk may exceed the limit |
| `Sender.EscapedRejoins` | `internal/sender/sender.go:42-59` | the escaped chunks rejoin to the escaped message |
| `Sender.SendMessage` | `internal/sender/sender.go:42-59` | the raw chunks rejoin to the message, all have 4096 bytes but the last, which has 1 to 4096, each is sent and if refused sent escaped, the calls end as the client answers, and the context is cancelled exactly on a refusal |
| `SingleList.SingleLL.Push` | `internal/watcher/singlell/list.go:21-36` | appends to the sequence the list stands for, also after it was drained |
| `SingleList.SingleLL.Pop` | `internal/watcher/singlell/list.go:38-51` | removes and returns its first element, if any |

## Left out

- JSON and gzip: stored records are values, and encoding is taken to round-trip; a value that does not decode is one of another kind.
- Clocks: each call reads one instant, where the code reads the clock several times. Instants are integers of nanoseconds, and equal instants count as equal map keys.
- Conversions of fractional or negative seconds to `uint32` and `int32`: truncation toward zero, then modulo 2^32, which Go leaves to the platform. Durations are exact, not rounded to a float.
- Floating point: ratings, predictions and temperatures are reals, without NaN, infinities or negative zero; printing rounds half to even at five decimals.
- Slice growth: a full slice moves to an array with room for one more; Go's growth policy is not modelled.
- LimiterRepo.LimiterRepo.AddCounter: assumes that commits succeed, as do the other repository methods and those of `TweetRepo`; the code logs or returns a commit error after having changed the cache or the counter. `Store.Transaction.Commit` itself covers every outcome.
- LimiterRepo.LimiterRepo.GetRateLimit: a failed write to the cache is an eviction; other cache errors are not modelled. Two goroutines changing one cached record at the same time are not modelled either.
- RequestLimiter.ReloadKeepsBag: does not say which order, only that the keys' order decides it.
- RequestLimitsV1.RequestLimits.AddCounter: the record's request list is never nil, as the code requires.
- RequestWindow.DriftBound: a request is not earlier than the entries of the batch it joins, which concurrent callers do not ensure; `CleanNeverDropsLive` does without, for entries in range, and `LateEntryThrown` shows what happens to one out of range.
- TweetRuns.RunCovers: index checks and the clearing of dangling entries are not among its steps; `ClearCovers` says exactly what one of them, sent late, does.
- TweetRepo.TweetRepo.Save: requires that the tweets have been counted before, as the code does, which otherwise follows a nil counter.
- TweetRepo.TweetRepo.GetTweetsOlderThen: requires that creation entries hold ids, which is all the code writes there; so does `CleanTooOldTweets`.
- Store.Transaction.GetRange: the limit and reverse options are left out; nothing asks for reverse, and the one use of a limit is part of `GetTweetForLongEdit`.
- WindowLimiter.Limiter.TrySetThreshold: does not reset the two tickers, which only decide when later steps come.
- WindowLimiter.Limiter.TakeCount: is one attempt; the code tries again in place until one succeeds, which for missing limits is never.
- `CleanWrongIndexes` and its worker pool: repeated index checks.
- DelayManager.RefusalsStayEven: no fire is put out during the run; with cooling in between the levels may drift apart.
- DelayManager.DelayManager.TooManyRequests: the limiters' windows do not change while one call searches; the channels are a queue of counts and a number of pending recalculations, without bound.
- FinderPool.Pool.GetFinderIndex: finders are their readings of delay and temperature; waiting, timeouts and the wake-up channel are left out, and so are `CurrentTemp` and `CurrentDelay` of the pool.
- Timers and tickers: each branch of a loop is a step that may come at any time.
- EditQueues.EditingRepo.SaveTweetForEdit: the queues and marks are maps by id and a set of links, not keys of the byte store.
- The search loop, its cursors and `updateTweet`: they only choose between operations modelled here and depend on the remote service for their end.
- Sender.SendMessage: a chunk may end inside a multi-byte character, as in the code; texts are bytes.
- The editor and the translation it is asked for on the side, the rating of tweets, accounts, sessions, migrations, metrics and the clients of outside services.
