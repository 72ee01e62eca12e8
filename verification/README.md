# Verified models of the Soshal cores

Dafny models of the parts of Soshal whose correctness is not visible from one function body, each with
proofs over every input, every run or every interleaving. `dafny verify dfyconfig.toml` checks everything.

| module | what it models |
|---|---|
| `Pool`, `PoolGrowth` | the SQLite connection pool: the record behind the mutex as a class, and a step system in which any number of callers check out, open outside the lock (and may fail), sleep, are woken (also spuriously), release, and notify after unlocking |
| `Observable` | the observe task over the lossy broadcast queue: receive, filter, debounce, drain, query, publish, interleaved with writers; and the same loop as a class |
| `Lru`, `EpochCache`, `WotCache` | one abstract least-recently-used cache, and the two caches that implement it: a sorted set of epochs, and a deque |
| `Nip44Padding`, `Nip44Pad`, `Nip44` | NIP-44 v2: padding sizes, the two-form length prefix, the envelope, and the routing between the v2 and the legacy decoder |
| `PinLockout` | the PIN lockout counters over whole runs of attempts |
| `CivilDate` | the closed-form date conversion against a calendar that adds up years and months |
| `Wot` | the two depth-limited breadth-first searches, introducers, trust scores, the partition by distance |
| `LineWrap` | greedy line wrapping with mandatory breaks and a line limit |
| `Chunking`, `Slicing`, `ChunkIndex`, `Quota`, `Cas`, `StoreRuns` | the content-addressed store: manifests, range reads, the chunk index, eviction, the store object with its disk and its two caches, and whole runs of it |
| `Ble` | BLE chunk lines: split, parse, reassemble |
| `Voice` | voice-note framing: encode, decode, duration |
| `Waveform` | waveform binning and normalisation over exact reals |

`Wrappers`, `ByteStrings`, `Ascii` and `Arithmetic` hold shared types and small facts.

Where the program changes state, the model is a class or a loop with the same branches, proved equal to a
function of the old state; the properties are then proved about that function. Hashes, MACs, key streams,
base64, the Opus codec and content-defined cutting are parameters: every theorem holds for any choice of
them that meets the stated law (for example "decoding undoes encoding", or "no other byte string has the
hash of one of these pieces").

## Where the code does not keep a natural expectation

Each of these comes with the exact condition under which the expectation holds, an input that fails it, or both.

- The manifest validator adds with saturation.  The manifests whose chunks tile the blob are exactly the
  valid ones in which no end of a chunk exceeds 2^64 - 1 (`Chunking.ValidIffTiles`); only at a total size of
  2^64 - 1 is there a valid one that fails this (`Chunking.SaturationHidesOvershoot`).
- Storing does not replace a file that has the name of a piece and other content.  With
  nothing cached but what is on disk, exactly the ranges that overlap no such piece read back afterwards
  (`Cas.ChunkStore.StoreThenRead`; the input: `Cas.SpoiledFileIsNotReplaced`).
- Plaintexts of 2^32 bytes or more are padded under a truncated length, and then never unpadded to
  anything (`Nip44Pad.PadUnpadRoundTrip`, `Nip44Pad.OversizeIsRefused`). `unpad` does not look at the
  padding bytes (`Nip44Pad.UnpadAccepts`).
- A failed re-evaluation of an observed query loses the event that triggered it, so the published value can
  stay stale on a quiet queue (`Observable.FailedQueryLeavesStale`).
- Writes between the initial evaluation and the subscription are picked up only when a relevant event
  follows: without overflow exactly then (`Observable.GapClosesIff`; a run that misses one:
  `Observable.WriteInGapIsMissed`).
- Saving a different manifest over one with the same blob hash leaves index entries that a rebuild would
  not find, unless the new one lists everything the old one did (`Cas.ChunkStore.SaveManifest`,
  `ChunkIndex.SaveAgreesIff`; the input: `ChunkIndex.ReplacedManifestLeavesPairs`).
- A manifest or chunk removed by a quota run may still be served from its cache, which the run does not
  touch (`Cas.ChunkStore.LoadManifest`, `Cas.ChunkStore.BlobSlice`).
- The search pops no more users than are listed.  Cut short, it is wrong about exactly the users two hops
  away through nobody it expanded (`Wot.CutSearchIsRightIff`; the input:
  `Wot.UnlistedContactsCutTheSearch`).
- A direct contact with six mutual contacts and two introducers would tie with the user's own trust of 1.0
  (`Wot.NearerIsTrustedMore`); the search never finds two introducers for a direct contact, so in its own
  results a nearer user always has strictly higher trust (`Wot.NearerUserIsTrustedMore`).
- When a text is elided, the last line width reported is that of the first line dropped
  (`LineWrap.MeasureText`; the input: `LineWrap.ElidedTextReportsDroppedLine`).
- A voice stream within 8 bytes of the size cap decodes but has no duration, because only the duration
  counts the magic; and an empty stream decodes but is not recognised (`Voice.DecodedIsTimed`; the input:
  `Voice.StreamAtCapIsNotTimed`).
- The tallest waveform bin is not always 1: the last bin's level before the leftover samples join it still
  counts towards the scale (`Waveform.HeightsAreNormal`; the input: `Waveform.FullHeightCanBeMissing`).
  The "RMS" is the square root of a mean of absolute values.
- A permanent lock that the caller does not persist opens again after its window
  (`PinLockout.UnpersistedLockOpens`).

## Model

| member | source | states |
|---|---|---|
| Pool.PoolState.constructor | db-core/src/lib.rs:115-118 | a new pool has one idle connection and nothing handed out |
| Pool.PoolState.CheckOut | db-core/src/lib.rs:236-268 | one locked pass pops the newest idle connection whenever there is one; only with none idle does it reserve a slot below the limit, or wait and change nothing |
| Pool.PoolState.GiveUpSlot | db-core/src/lib.rs:249-254 | a failed open gives its slot back and touches no idle connection |
| Pool.PoolState.Return | db-core/src/lib.rs:300-312 | a dropped guard puts its own connection back on the stack and gives its slot back |
| Pool.InitialInv | db-core/src/lib.rs:115-121 | the whole invariant (exact accounting, exclusive connections, no lost wake-up) holds when the pool is opened |
| Pool.StepKeepsInv | db-core/src/lib.rs:230-312 | every step of every caller keeps the whole invariant: arrival, locked pass, open succeeding or failing, release, notification, spurious wake-up |
| Pool.NoWakeupIsEverLost | db-core/src/lib.rs:230-312 | in every reachable interleaving with a sleeper, free capacity is at most the callers already woken plus the notifications still owed, also after failed opens |
| Pool.AccountingIsExact | db-core/src/lib.rs:79-82 | in every reachable state the counter is guards held plus opens in flight, idle plus in use is within the limit, no connection is idle twice, idle and held, or held twice |
| PoolGrowth.PoolGrowsOnlyOnDemand | db-core/src/lib.rs:230-312 | in every run no connection is lost (made = idle plus held), and connections made and being made never outnumber those in use at the busiest moment so far, the first one apart |
| Pool.DecrementNeverSaturates | db-core/src/lib.rs:249-307 | both saturating subtractions subtract exactly one in every reachable state |
| Pool.SleepersHaveCompany | db-core/src/lib.rs:258-267 | a sleeper always coexists with somebody who is awake, holds a slot, or owes a notification |
| Pool.DrainingRunIsBounded | db-core/src/lib.rs:230-312 | every step of the callers present uses up a potential, so a run without arrivals is bounded in length |
| Pool.StuckMeansFinished | db-core/src/lib.rs:230-312 | a state in which nobody present can step has no caller left waiting: the protocol has no deadlock |
| Pool.EveryCallerIsServed | db-core/src/lib.rs:230-312 | after any history, once arrivals end, every schedule stops within the bound and where it stops every caller has been served, sleepers included |
| Observable.PassesExactlyWhatConcerns | db-core/src/observable.rs:144-154 | the table filter and the account filter together let through exactly the events on a watched table that are not about some other account, whatever the letter case |
| Observable.StepKeepsInv | db-core/src/observable.rs:127-190 | every step of task or writers keeps "fresh up to the events consumed, or due to be re-evaluated", and never publishes an older version |
| Observable.RecvKeepsFresh | db-core/src/observable.rs:129-154 | an event skipped by the filters, or a lag skipped by them, concealed no relevant write |
| Observable.QuietMeansFresh | db-core/src/observable.rs:126-191 | in every run, when the task waits on an empty queue and its latest evaluation did not fail, the published value was computed after every relevant write announced since subscription: received, drained or overwritten |
| Observable.PublishedIsMonotone | db-core/src/observable.rs:177-189 | the published version never goes back and is never from the future |
| Observable.FailedQueryLeavesStale | db-core/src/observable.rs:185-187 | the premise on failures is needed: a run whose evaluation fails ends quiet and stale |
| Observable.IrrelevantTrafficPublishesNothing | db-core/src/observable.rs:99-149 | without overflow, events that do not concern the watch never cause an evaluation |
| Observable.EventClosesGap | db-core/src/observable.rs:99-190 | in every run, any relevant event after subscribing, even of an older write, makes the published value as new as the subscription |
| Observable.GapClosesIff | db-core/src/observable.rs:99-190 | on a quiet queue that did not overflow, the writes in that gap are picked up exactly when there were none or a relevant event was announced after subscribing |
| Observable.WriteInGapIsMissed | db-core/src/observable.rs:99-131 | a run in which a write between the initial evaluation and the subscription stays unseen on a quiet queue |
| Observable.ReceiveInCases | db-core/src/observable.rs:130-142 | the receiver of the step system: a lag exactly when more events than the capacity are unread, else the next event, else nothing |
| Observable.EvaluationStartsDrained | db-core/src/observable.rs:161-175 | an evaluation starts only when the queue has been read to its end, or to the oldest event kept after a lag, so a burst costs one evaluation |
| Observable.EvaluationEnds | db-core/src/observable.rs:177-189 | a successful evaluation is published, a failed one keeps the previous value, a cancelled one stops the task |
| Observable.ClosedPublishesNothing | db-core/src/observable.rs:156-183 | once no receiver is left, no run publishes anything or starts an evaluation |
| Observable.ClosedStops | db-core/src/observable.rs:156-183 | the branches that stop the task then: the next event that passes the filters, the end of a drain, the end of an evaluation |
| Observable.OwnRunIsBounded | db-core/src/observable.rs:128-190 | without further events the task's own steps are bounded by the events left to read |
| Observable.TaskSettlesFresh | db-core/src/observable.rs:126-191 | once writers are silent and evaluations succeed, every schedule of the task stops and the published value then reflects every relevant write |
| Observable.Task.ReceiveNext | db-core/src/observable.rs:130-142 | the next event; or a lag, exactly when more events than the capacity are unread, that moves to the oldest event kept; or nothing |
| Observable.Task.Drain | db-core/src/observable.rs:165-167 | the drain reaches the end of the queue, or stops at the oldest event kept when it meets a lag |
| Observable.Task.RunUntilQuiet | db-core/src/observable.rs:128-190 | the loop consumes the whole queue and publishes the current version exactly when something relevant was pending |
| Lru.HoldsTheMostRecentlyUsed | media-core/src/cas.rs:58-109 | after any history the cache holds exactly the most recently used keys, oldest first |
| Lru.EvictedIsOlder | media-core/src/cas.rs:95-99 | every key still cached was used later than every key used but no longer cached |
| Lru.ByLastUseIsSorted | media-core/src/cas.rs:58-61 | the reference order has the used keys once each, by last use |
| Lru.SizeIsBounded | media-core/src/cas.rs:95-101 | a positive capacity is never exceeded, and no key occurs twice |
| Lru.HitsAreCurrent | media-core/src/cas.rs:75-94 | a hit always answers the value last inserted under that key since the last clear |
| EpochCache.FirstIsLeast | media-core/src/cas.rs:96-98 | the least (epoch, key) pair belongs to the least recently used entry |
| EpochCache.FifoCache.Get | media-core/src/cas.rs:75-83 | a hit answers the value and moves the entry to the most recent place; a miss changes nothing; `order` still holds exactly each key's current epoch |
| EpochCache.FifoCache.Put | media-core/src/cas.rs:85-102 | an insert refines the abstract one: replace in place and renew, or evict the least recently used at capacity and append |
| EpochCache.FifoCache.PopFirst | media-core/src/cas.rs:96-98 | removing the least pair evicts the first abstract entry and no other |
| EpochCache.FifoCache.Invalidate | media-core/src/cas.rs:104-108 | exactly the entry of that key disappears, from both collections |
| EpochCache.FifoCache.Clear | media-core/src/cas.rs:535-538 | both collections are emptied and stay consistent |
| WotCache.WotCache.Get | identity-core/src/wot_cache.rs:23-34 | the deque cache answers and reorders as the abstract cache does, under the lower-cased key |
| WotCache.WotCache.Insert | identity-core/src/wot_cache.rs:36-60 | the deque cache inserts, renews and evicts as the abstract cache does; deque and table keep the same keys |
| WotCache.WotCache.Clear | identity-core/src/wot_cache.rs:62-67 | the cache is emptied and stays consistent |
| WotCache.WotCache.Position | identity-core/src/wot_cache.rs:27-30 | the position found is the key's first, or the end if it is absent |
| WotCache.RunBoth | identity-core/src/wot_cache.rs:23-67 | any history of gets, inserts and clears gives equal answers in both caches, those of the abstract cache |
| Ascii.FoldsLettersOnly | identity-core/src/wot_cache.rs:23-41 | case folding identifies A to Z with a to z pairwise, and nothing else |
| Ascii.SameIgnoringCaseIff | db-core/src/observable.rs:149-154 | strings are the same ignoring case exactly when they are so character by character |
| Nip44Padding.Log2RoundDown | crypto-core/src/nip44.rs:58-60 | the power of two named is at most n and more than half of it |
| Nip44Padding.RoundUpFormula | crypto-core/src/nip44.rs:45-56 | the product formula of the program is the least multiple of the chunk that holds n |
| Nip44Padding.PaddingBounds | crypto-core/src/nip44.rs:45-56 | the padded size is at least max(n, 32), a multiple of 32, with overhead under 32 bytes up to 256 and under a quarter beyond |
| Nip44Padding.PaddingSteps | crypto-core/src/nip44.rs:45-56 | the padded size is 32 up to 32, the least multiple of 32 up to 256, and beyond the least multiple of an eighth of the next power of two |
| Nip44Padding.PaddingExamples | crypto-core/src/nip44.rs:45-56 | the sizes at and around the lengths where the step changes |
| Nip44Padding.PaddingIsMonotone | crypto-core/src/nip44.rs:45-56 | longer plaintexts never get smaller padding |
| Nip44Padding.PaddingIsIdempotent | crypto-core/src/nip44.rs:45-56 | a padded size is padded to itself |
| Nip44Padding.PaddingBelowPower | crypto-core/src/nip44.rs:45-56 | a padded size does not pass the next power of two, so it keeps its chunk |
| Nip44Pad.PrefixRoundTrip | crypto-core/src/nip44.rs:65-97 | the two prefix forms are told apart and read back, for every length below 2^32 |
| Nip44Pad.PrefixInFigures | crypto-core/src/nip44.rs:65-78 | the prefix is big-endian: two bytes below 65,536, else two zeros and four bytes |
| Nip44Pad.DecodedPrefixIsCanonical | crypto-core/src/nip44.rs:80-97 | a prefix that decodes is the encoding of the length it decodes to: no second spelling is accepted |
| Nip44Pad.Pad | crypto-core/src/nip44.rs:99-111 | empty plaintexts are refused; otherwise prefix, plaintext, zeros up to the padded size |
| Nip44Pad.UnpadInPlace | crypto-core/src/nip44.rs:128-151 | the variant that shifts and truncates its buffer agrees with `unpad` on every input, errors included |
| Nip44Pad.PadUnpadRoundTrip | crypto-core/src/nip44.rs:99-126 | exactly the plaintexts below 2^32 bytes survive padding and unpadding |
| Nip44Pad.OversizeIsRefused | crypto-core/src/nip44.rs:65-126 | a longer plaintext is padded to something `unpad` refuses, never to another plaintext |
| Nip44Pad.UnpadAccepts | crypto-core/src/nip44.rs:113-126 | what `unpad` accepts, and with what answer: exactly right size, canonical prefix, then the plaintext |
| Nip44.KeysAreHkdfExpand | crypto-core/src/nip44.rs:163-199 | the message keys are the first 76 bytes of HKDF-Expand (section 2.3 of RFC 5869), cut at 32 and 44 |
| Nip44.KeyStreamTwice | crypto-core/src/nip44.rs:289-295 | applying the key stream twice gives the data back |
| Nip44.XorIsBitwise | crypto-core/src/nip44.rs:289-295 | the stream cipher combines bytes bit by bit, without carry |
| Nip44.Encrypt | crypto-core/src/nip44.rs:269-318 | the output is the base64 of version, nonce, ciphertext of the padded plaintext, and tag |
| Nip44.DecryptSpec | crypto-core/src/nip44.rs:354-407 | decrypting inside the buffer equals opening the envelope on values, errors included |
| Nip44.Decrypt | crypto-core/src/nip44.rs:320-340 | base64, empty and routing cases of `decrypt` |
| Nip44.SealedHasSpecShape | crypto-core/src/nip44.rs:342-352 | every encryption has the exact v2 layout, for every plaintext size |
| Nip44.SealedBytes | crypto-core/src/nip44.rs:163-318 | every byte of an encryption: version 2, nonce, prefix, plaintext and zeros under the key stream, tag over nonce and ciphertext; keys cut from HKDF-Expand of HMAC("nip44-v2", key) |
| Nip44.OpenSealed | crypto-core/src/nip44.rs:269-407 | opening what was sealed is unpadding what was padded |
| Nip44.DecryptRecovers | crypto-core/src/nip44.rs:269-407 | decryption recovers exactly the plaintexts below 2^32 bytes, and never takes the legacy path: with any other legacy decoder the answer is the same, errors included |
| Nip44.RoutedByShape | crypto-core/src/nip44.rs:320-352 | the v2 decoder answers exactly for blobs that start with 2 and have 67 + 32k (k at least 1) or 71 + 32k (k at least 2048) bytes, the legacy decoder for all others; bad base64 and empty payloads are refused |
| Nip44.OpenedWasSealed | crypto-core/src/nip44.rs:354-407 | what opens carries the tag of its own nonce and ciphertext, and with zero padding is the envelope of its plaintext |
| Nip44.OpensIff | crypto-core/src/nip44.rs:354-407 | what opens, and to what: at least 99 bytes, version 2, the right tag, and a ciphertext that decrypts to a padded plaintext |
| PinLockout.PinLockoutState.ApplyPinAttempt | identity-core/src/security.rs:79-127 | counters, window, time and verdict after one attempt |
| PinLockout.AcceptedIffEvaluated | identity-core/src/security.rs:85-110 | with the flag set or not, a PIN is accepted exactly when it is correct and neither lock nor window stands |
| PinLockout.TimeIsLatestClock | identity-core/src/security.rs:89-92 | effective time is the latest clock reading seen, whatever the clock does |
| PinLockout.WindowStands | identity-core/src/security.rs:94-126 | without a success a window never moves back |
| PinLockout.NoSuccessInsideWindow | identity-core/src/security.rs:79-127 | after a guess that locks until t, no PIN is accepted before an attempt at clock t or later, even if the clock is set back |
| PinLockout.CounterIsFailures | identity-core/src/security.rs:94-116 | the counter is the number of refused attempts since the last success |
| PinLockout.VerdictsInFigures | identity-core/src/security.rs:79-127 | the verdict on any attempt after any run: refused inside a window; accepted when correct; a wrong guess is the n-th failure and locks for 5, 15, 30, 60, then 120 seconds from the third on, for ever at the tenth |
| PinLockout.GuessesAreLookedAt | identity-core/src/security.rs:79-127 | the guesses counted are the attempts at which the PIN was looked at, with the latest clock at the first and the last of them |
| PinLockout.TenthFailureLocks | identity-core/src/security.rs:79-127 | the account locks exactly at the tenth failure since the last success, and for good once the lock is persisted |
| PinLockout.UnpersistedLockOpens | identity-core/src/security.rs:79-127 | a run of any number of wrong guesses with the flag not persisted: from the tenth on each is answered with the permanent lock, and still the next correct PIN is accepted |
| PinLockout.GuessesTakeTime | identity-core/src/security.rs:46-127 | without a success at most ten guesses are looked at, and from the first to the last of 4 to 10 of them the latest clock advances by at least 5, 20, 50, 110, 230, 350, 470 seconds |
| CivilDate.YearOfEraIsExact | common-core/src/format.rs:79-81 | the year-of-era formula undoes the count of centuries, four-year groups and years |
| CivilDate.MonthAndDayIsExact | common-core/src/format.rs:82-85 | the month formula finds the calendar's own month and day for every day of a March-based year |
| CivilDate.CivilFromDaysIsExact | common-core/src/format.rs:75-91 | for every day count the date is valid and has that day number in a calendar counted year by year and month by month |
| CivilDate.SecondsToYmdIsExact | common-core/src/format.rs:65-92 | for every second count up to the cap the result is the year, English month name and day of the one valid Gregorian date of that day; past the cap it stays at the last day of 9999 |
| CivilDate.CapIsEndOf9999 | common-core/src/format.rs:71-73 | the cap is the last second of 9999-12-31 |
| CivilDate.DayNumberIsInjective | common-core/src/format.rs:75-91 | two valid dates never share a day number, so "the date of that day" is unique |
| CivilDate.NextDateIsNextDay | common-core/src/format.rs:75-91 | the calendar's next date has the next day number |
| CivilDate.ConsecutiveDays | common-core/src/format.rs:75-91 | consecutive days have consecutive dates |
| Wot.BuildContactMap | identity-core/src/wot.rs:102-117 | the contact map with its per-user and total caps, in the order of the list |
| Wot.ContactMapIsExact | identity-core/src/wot.rs:102-117 | within the caps the map is the users' own contact lists, no more and no less |
| Wot.ContactMapIsCapped | identity-core/src/wot.rs:105-117 | caps or not, each of distinct users keeps the first contacts up to the per-user cap, and none once the users before have filled the total |
| Wot.Search | identity-core/src/wot.rs:119-163 | the queue loop with its pop limit computes the specified search, distances and introducers |
| Wot.SearchIsRight | identity-core/src/wot.rs:119-163 | a search of any budget finds exactly the first level, and of the second what the expanded users lead to, each with the introducers among those |
| Wot.CutSearchIsRightIff | identity-core/src/wot.rs:119-163 | for any budget a reported distance is the hop distance cut off at 3 except exactly for users two hops away through nobody expanded |
| Wot.UnlistedContactsCutTheSearch | identity-core/src/wot.rs:130-136 | the input: a listed user two hops away reported at 3 |
| Wot.DistancesAreHops | identity-core/src/wot.rs:119-163 | those levels are the least hop counts over all paths, cut off at 3 |
| Wot.CappedGrows | identity-core/src/wot.rs:141-160 | the incremental introducer cap keeps the first 64, and finds a repeated introducer whenever it is below the cap |
| Wot.IntroducersAreRight | identity-core/src/wot.rs:141-160 | introducers are, without repetition and up to 64, the users one hop closer that list the user |
| Wot.RecalculateWot | identity-core/src/wot.rs:97-192 | the update list, user by user, of the search and the scores |
| Wot.RecalculationIsRight | identity-core/src/wot.rs:97-192 | each user gets min(3, least hop count); introducers are exactly the predecessors one hop closer (up to 64) at distances 1 and 2, and absent otherwise; the score is that of the distance, the mutual contacts counted by position, and the introducers listed |
| Wot.RecalculationIsRightIff | identity-core/src/wot.rs:97-192 | for any list of users a reported distance is right except exactly for users two hops away through nobody expanded within min(users, 10,000) pops |
| Wot.ListedContactsSuffice | identity-core/src/wot.rs:130-136 | distinct users, contacts that are all listed, caps not reached and at most 10,000 users are enough for nothing to be cut off |
| Wot.TrustRanges | identity-core/src/wot.rs:67-79 | the score ranges per distance, and exactly when a direct contact reaches 1.0 |
| Wot.TrustInFigures | identity-core/src/wot.rs:67-79 | the score in figures: 1.0 for oneself; 0.6 plus 0.05 for each of up to six mutual contacts and up to two introducers; 0.3 plus 0.03 for each mutual contact, at most 0.5; 0.1 |
| Wot.TrustIsMonotone | identity-core/src/wot.rs:67-79 | at one distance the score never falls as mutual contacts or introducers are added |
| Wot.MutualIsCount | identity-core/src/wot.rs:169-173 | the mutual count is the number of contact positions held by one's own contacts |
| Wot.NearerIsTrustedMore | identity-core/src/wot.rs:67-79 | nearer is strictly higher, except exactly for one tie at the top and from distance 3 on |
| Wot.NearerUserIsTrustedMore | identity-core/src/wot.rs:97-192 | in one result a nearer user always has strictly higher trust |
| Wot.PlainSearch | identity-core/src/wot.rs:268-297 | the second search loop, without introducers, finds the distances of the first |
| Wot.PartitionWotPeers | identity-core/src/wot.rs:239-311 | exactly the distances from 1 to the maximum that some listed user has are entries, each with the users at that distance in list order |
| Wot.AtDistanceInOrder | identity-core/src/wot.rs:300-309 | the users of a group keep the order of the list |
| Wot.GroupsAreHopDistances | identity-core/src/wot.rs:239-311 | when nothing is cut off a user is in a group exactly when the group is the user's hop distance |
| Wot.BothSearchesAgree | identity-core/src/wot.rs:97-266 | within the tighter caps both functions search the same graph |
| LineWrap.MeasureText | layout-core/src/measure.rs:122-169 | the loop's line count is the least of all divisions cut off at `max_lines`, elided exactly when the least is above it (never without it, up to 2^32 - 1 lines); its lines are full greedy lines, and the last width is that of the last line counted |
| LineWrap.ElidedTextReportsDroppedLine | layout-core/src/measure.rs:140-169 | the input: two lines cut off after the first, with the second one's width reported |
| LineWrap.OpenLineStep | layout-core/src/measure.rs:136-163 | what one more word does to a line: the running width is exact, and a line is ended exactly when full or at a mandatory break |
| LineWrap.FullLineReachesFurther | layout-core/src/measure.rs:136-155 | a full line that starts no earlier than another line ends no earlier |
| LineWrap.GreedyStaysAhead | layout-core/src/measure.rs:130-163 | line by line, greedy cuts are at or beyond those of any division |
| LineWrap.GreedyIsShortest | layout-core/src/measure.rs:130-163 | no division into lines has fewer lines than greedy |
| LineWrap.GreedyIsLeast | layout-core/src/measure.rs:130-163 | greedy lines that reach the end are exactly the least number |
| LineWrap.LeastExists | layout-core/src/measure.rs:130-163 | every text has a least division, so the optimum is never vacuous |
| Chunking.IsValid | media-core/src/chunking.rs:87-105 | the validating loop computes the specified walk |
| Chunking.HashesAreHex | media-core/src/cas.rs:27-29 | a hash is 64 hexadecimal digits of either case |
| Chunking.ValidIffTiles | media-core/src/chunking.rs:87-105 | for every size, chunks with proper hashes and no empty one tile the blob exactly when the manifest is valid and no end of a chunk had to be saturated; below 2^64 - 1 bytes none has |
| Chunking.SaturationHidesOvershoot | media-core/src/chunking.rs:87-105 | the input: at 2^64 - 1 bytes a manifest whose last chunk overshoots is valid and does not tile |
| Chunking.RefsDescribe | media-core/src/chunking.rs:195-208 | the references written while streaming tile the blob and name each piece, from any start |
| Chunking.StoredManifestIsValid | media-core/src/chunking.rs:188-219 | whatever the cut into non-empty pieces, the manifest written is valid, bears the hash and size of the blob, and describes the pieces |
| Slicing.CollectOverlapping | media-core/src/cas.rs:726-734 | the take-while and filter over the manifest keep the specified chunks in order |
| Slicing.WindowsTileRange | media-core/src/cas.rs:726-767 | the windows of the overlapping chunks, joined, are exactly the bytes of the range |
| Slicing.CopyWindows | media-core/src/cas.rs:787-809 | the windows are copied one after the other into one buffer, which they fill exactly |
| Slicing.RangeOfPieces | media-core/src/cas.rs:707-810 | windows into the pieces of a described blob join to the range asked for |
| Slicing.PieceInPlace | media-core/src/chunking.rs:195-208 | a chunk's place in the blob holds its piece |
| Slicing.RangeInsidePiece | media-core/src/cas.rs:679-693 | a range inside one chunk, taken from that chunk alone, is the blob's range |
| Slicing.InsideIsOverlap | media-core/src/cas.rs:679-734 | in a tiled blob a range inside one chunk overlaps that chunk and no other |
| ChunkIndex.Ingest | media-core/src/cas.rs:144-152 | ingesting a manifest adds exactly its occurrences |
| ChunkIndex.Build | media-core/src/cas.rs:120-142 | a rebuild finds exactly the occurrences of the valid manifests on disk, in any directory order |
| ChunkIndex.SaveAgreesIff | media-core/src/cas.rs:600-604 | adding a saved manifest's occurrences gives what a rebuild would, exactly when no occurrence of a replaced manifest is lost |
| ChunkIndex.ReplacedManifestLeavesPairs | media-core/src/cas.rs:579-606 | the input: two one-chunk manifests of one blob hash with different chunks |
| ChunkIndex.IndexedIffListed | media-core/src/cas.rs:119-151 | a chunk is in an agreeing index exactly when a manifest on disk lists it, under that manifest's blob and the offset listed |
| Quota.SortedByAge | media-core/src/cas.rs:505 | the sorted list is a permutation in order of age with the same total |
| Quota.SortIsStable | media-core/src/cas.rs:505 | files of one age keep the order of the walk |
| Quota.EvictOldest | media-core/src/cas.rs:498-518 | the loop removes the specified files and reports their bytes, which never exceed the total |
| Quota.NothingIsLost | media-core/src/cas.rs:507-518 | removed files are part of the store and their bytes part of its total, whichever deletions fail |
| Quota.PrefixGoes | media-core/src/cas.rs:507-518 | whichever deletions fail, what goes are the deletable files of the shortest oldest-first prefix that brings the store within the quota, or of all files if none does |
| Quota.ShortestPrefixGoes | media-core/src/cas.rs:498-518 | when deletions succeed the removed files are the shortest oldest-first prefix that brings the store within the quota; nothing goes exactly when it is within already |
| Quota.BytesBalance | media-core/src/cas.rs:507-518 | over a walk without repetition, bytes removed and bytes left add up to the total |
| Cas.ChunkStore.constructor | media-core/src/cas.rs:158-172 | a new store is empty, with two caches of 64 entries, and all invariants hold |
| Cas.ChunkStore.PutTrusted | media-core/src/cas.rs:336-364 | a chunk is written under the lower-cased hash only if the hash is well formed and no file of that name exists |
| Cas.ChunkStore.GetMmapCached | media-core/src/cas.rs:263-315 | whatever is returned has the hash asked for; something is returned exactly when the cache or the disk has such bytes; no chunk becomes available by a read |
| Cas.ChunkStore.StoreReader | media-core/src/cas.rs:390-395 | for any cut into non-empty pieces: the manifest of the pieces, other files untouched, and on disk intact exactly the pieces whose name no other content had |
| Cas.ChunkStore.ResolveOne | media-core/src/cas.rs:745-767 | a chunk's window is resolved exactly when the chunk is cached or on disk |
| Cas.ChunkStore.ResolveAll | media-core/src/cas.rs:745-786 | all windows in manifest order, or nothing: every chunk must be cached or on disk, and all on disk is enough |
| Cas.ChunkStore.BlobSlice | media-core/src/cas.rs:707-810 | whatever is returned is the described blob's range, and every overlapping chunk was cached or on disk; with all of them on disk the range is returned exactly when it is not empty and inside the blob |
| Cas.ChunkStore.BlobRangeMapped | media-core/src/cas.rs:665-694 | the fast path answers exactly the ranges inside one chunk that is cached or on disk, with the blob's bytes |
| Cas.ChunkStore.StoreThenRead | media-core/src/cas.rs:390-810 | store then read: what is returned is the range, byte for byte; a non-empty range inside the blob reads back when no piece it overlaps was spoiled by a file of other content, and, with nothing cached but what is on disk, exactly then; the fast path agrees on ranges inside one chunk |
| Cas.SpoiledFileIsNotReplaced | media-core/src/cas.rs:336-395 | the input: a wrong file under a piece's hash survives the store, and the blob does not read back |
| Cas.ChunkStore.SaveManifest | media-core/src/cas.rs:579-606 | a valid manifest is saved and the stale cached one dropped; the index agrees afterwards exactly when it was just built or nothing a replaced manifest listed is missing from the new one |
| Cas.ChunkStore.LoadManifest | media-core/src/cas.rs:608-627 | the answer in every case: the manifest on disk, else for a proper hash the one still cached, else nothing |
| Cas.ChunkStore.GetIndex | media-core/src/cas.rs:174-191 | the index is built once, agrees with the disk, and is reused |
| Cas.ChunkStore.RefreshIndex | media-core/src/cas.rs:193-198 | a refresh makes the index agree with the disk whatever it held |
| Cas.ChunkStore.FindManifestContainingChunk | media-core/src/cas.rs:629-646 | a manifest is found exactly when one on disk lists the chunk, and it is one of those |
| Cas.ChunkStore.EnforceCacheQuota | media-core/src/cas.rs:498-524 | exactly the files named by the evicted entries leave the disk, all others keep their content, the bytes reported and the bytes left add up to the total, what is left is within the quota unless a deletion failed, and the index agrees with the disk afterwards |
| Cas.ChunkStore.Clear | media-core/src/cas.rs:527-539 | disk, index and manifest cache are emptied; the invariants hold |
| StoreRuns.OnlySaved | media-core/src/cas.rs:498-606 | after any run every manifest on disk is one that was saved, under its own blob hash |
| StoreRuns.SavedStays | media-core/src/cas.rs:498-606 | a saved manifest stays on disk until a quota run or a clear |
| StoreRuns.SaveLosesNothing | media-core/src/cas.rs:579-606 | with one manifest per blob hash, saving never replaces a manifest by a different one |
| StoreRuns.Replay | media-core/src/cas.rs:336-646 | after any run of chunk writes, saves, lookups, quota runs and clears with one manifest per blob hash, the incremental index holds what a rebuild would, and every lookup on the way found a manifest exactly when a surviving saved one listed the chunk |
| Ble.ChunkSize | mesh-core/src/ble.rs:61-64 | the MTU less three between 23 and 512; 20 below, 509 above |
| Ble.SplitChunks | mesh-core/src/ble.rs:69-80 | the lines are those of the consecutive pieces, numbered under their true count |
| Ble.PieceCount | mesh-core/src/ble.rs:69-73 | the count announced beforehand is the number of pieces |
| Ble.PiecesAreFull | mesh-core/src/ble.rs:74 | every piece but the last is full |
| Ble.LineIsInOrder | mesh-core/src/ble.rs:76 | a line is index, count and piece in this order, the numbers in decimal |
| Ble.ParseOwnLine | mesh-core/src/ble.rs:69-106 | a line of the splitter parses back to its index, count and piece (colons in the piece included) exactly when the count is within the limit |
| Ble.DigitsExample | mesh-core/src/ble.rs:76 | the digits are decimal |
| Ble.ParseUsizeIff | mesh-core/src/ble.rs:96-97 | numbers are decimal digits after an optional plus sign, below 2^64 |
| Ble.ParsedLineIff | mesh-core/src/ble.rs:90-104 | what is read as a line: at most 2048 characters that decode to three parts, two of them numbers, a count of 1 to 4096 and at most 512 characters of data, colons included |
| Ble.ReassembleChunks | mesh-core/src/ble.rs:85-126 | a set of lines is accepted exactly when every line parses, all under one count equal to their number, the indices are 0 to count - 1 once each, and the size cap holds; the answer is the pieces joined by index |
| Ble.CompleteCovers | mesh-core/src/ble.rs:116-125 | the indices of an accepted set are exactly 0 to count - 1 |
| Ble.DataLenOfPermutation | mesh-core/src/ble.rs:109-112 | the size cap does not depend on the order of the lines |
| Ble.AcceptedIffPermutation | mesh-core/src/ble.rs:61-126 | of lines taken from one split, exactly the permutations of the whole split are accepted (none missing, none repeated), for every MTU, and they give the payload |
| Ble.SplitReassembleRoundTrip | mesh-core/src/ble.rs:61-126 | exactly the non-empty payloads of at most 128 KiB in at most 4096 pieces survive the round trip |
| Voice.WalkIffFramed | audio-core/src/voice.rs:47-57 | the framing loop finds packets without a fault exactly in framings of packets of 1 to 4096 bytes, and finds those packets |
| Voice.WalkOfFramed | audio-core/src/voice.rs:47-57 | framed packets followed by anything are found first, whatever follows |
| Voice.FrameInFigures | audio-core/src/voice.rs:94-97 | a frame is the packet's length, low byte first, then the packet |
| Voice.FeedOne | audio-core/src/voice.rs:59-68 | one more packet adds its samples at the end, or fails the decoding, also when it would pass 64 Mi samples |
| Voice.DecodePackets | audio-core/src/voice.rs:35-69 | the loop reports whichever comes first, a packet that does not decode, the sample cap or a framing fault, and otherwise all samples in order |
| Voice.FirstFailureWins | audio-core/src/voice.rs:47-68 | a packet that fails is reported even when the framing fails after it |
| Voice.VoiceDurationSecs | audio-core/src/voice.rs:116-141 | the loop counts the packets of a faultless stream, or reports the fault |
| Voice.DurationIff | audio-core/src/voice.rs:116-141 | what has a duration, and which: the magic and a faultless framing within the size cap, 20 ms a packet |
| Voice.DecodedIsTimed | audio-core/src/voice.rs:35-141 | a stream that decodes is timed with the same packets exactly when it is not empty and leaves room for the magic under the cap |
| Voice.StreamAtCapIsNotTimed | audio-core/src/voice.rs:35-122 | the input: a stream that fills the size cap decodes, and has no duration |
| Voice.EncodeVoicePcm | audio-core/src/voice.rs:73-100 | the output is the magic and the framing of one packet per full frame; a trailing partial frame is dropped; any codec failure or oversized packet fails the whole |
| Voice.PacketsOne | audio-core/src/voice.rs:86-98 | one more frame adds its packet at the end, or fails the encoding |
| Voice.FrameAt | audio-core/src/voice.rs:86-89 | the frames are the consecutive runs of 960 samples |
| Voice.RecordedIsTimed | audio-core/src/voice.rs:73-141 | a recorded note lasts 20 ms per full frame, exactly when it has a frame, fits the cap and no packet is empty |
| Voice.EmptyPacketIsFault | audio-core/src/voice.rs:53-55 | an empty packet, which the encoder may write, makes the stream invalid for the readers |
| Waveform.BucketStep | audio-core/src/waveform.rs:164 | with samples enough the bucket number never skips |
| Waveform.BinsFollowBuckets | audio-core/src/waveform.rs:163-178 | with samples enough, bin k closes at the first sample of bucket k |
| Waveform.BinsPartition | audio-core/src/waveform.rs:157-193 | every sample is summed in exactly one bin, bins are consecutive and not empty, at most `bins` of them, and exactly that many when there are samples enough |
| Waveform.BinStartsInFigures | audio-core/src/waveform.rs:163-193 | with samples enough bin k starts just past the first sample at or beyond (k - 1) * total / bins |
| Waveform.FewSamplesInFigures | audio-core/src/waveform.rs:163-193 | fewer samples than bins: the first bins take one sample each while sample j falls in bucket j, and the last of them takes all that follow |
| Waveform.CloseBins | audio-core/src/waveform.rs:156-178 | the running sums are those of the last bin closed and of the tail, and the peak is the loudest level closed |
| Waveform.Collect | audio-core/src/waveform.rs:156-193 | the tail joins the last bin with its raw sum and count |
| Waveform.ConstantLevel | audio-core/src/waveform.rs:165-170 | the level of a steady sound is the square root of its amplitude, cut off at one hundredth |
| Waveform.Peaks | audio-core/src/waveform.rs:149-207 | the loops produce exactly `bins` heights: shown levels over the peak, zeros where no bin is |
| Waveform.HeightsAreNormal | audio-core/src/waveform.rs:168-206 | every height is in [0, 1], and some height is 1 exactly when there is a sound and the last bin was not louder before the tail joined it |
| Waveform.HeightsKeepRatios | audio-core/src/waveform.rs:194-206 | a height is its level over the peak from a thousandth of the peak up, and 0 below or where no bin is |
| Waveform.FullHeightCanBeMissing | audio-core/src/waveform.rs:163-206 | the input: a sound followed by silence in one bin leaves no bin at full height |

## Left out

- Floating point: `Wot` scores, `LineWrap` widths and `Waveform` levels are reals; rounding, NaN and infinities are not modelled.
- Integer widths: `EpochCache` epochs, `PinLockout` times and `Cas` offset sums are unbounded, so wrap-around of the u64 epoch, of i64 milliseconds and of offset plus length (possible only for manifests of 2^64 - 1 bytes) is not modelled.
- Cipher, MAC, hash, base64, Opus and content-defined cutting internals, and the legacy NIP-44 decoder: parameters with the laws stated beside them.
- Nip44.Encrypt: takes the nonce as an argument; drawing it, zeroizing buffers and the conversation-key cache are not part of the model.
- Nip44.DecryptSpec: works on a local copy of the buffer it is given, so it does not show which bytes a failed call leaves behind.
- Nip44Pad.UnpadInPlace: the same.
- Pool: pools shared between handles by path, poisoned locks, the in-memory pool and the SQL pragmas. Callers are served under schedules that keep stepping; no order among them is claimed.
- Observable.Task.RunUntilQuiet: receivers stay open and evaluations succeed; the step system has the other cases.
- Observable: the tokio runtime, aborting the task, trimming of the account filter, and rounding of the broadcast capacity up to a power of two.
- Cas.ChunkStore.SaveManifest: write errors, temporary files and JSON are not modelled; a save that is admitted always reaches the disk.
- Cas.ChunkStore.PutTrusted: write errors are not modelled; the disk never loses or alters a file by itself, but files of any content may be there before.
- Cas.ChunkStore.GetMmapCached: parallel mapping and the cache of already verified files (which skips no check) are not modelled.
- Cas.ChunkStore.Clear: does not empty the cache of mapped chunks, as in the program; nothing is claimed about chunks being unreadable afterwards.
- Cas.ChunkStore.BlobSlice: a chunk that is cached but no longer on disk may be evicted by the read itself before it is reached; for such chunks only the necessary condition is stated.
- Cas.ChunkStore.StoreThenRead: the same, when the cache held more than the disk before.
- StoreRuns.Replay: nobody else changes the disk during a run, and one manifest per blob hash is a premise (`Cas.ChunkStore.SaveManifest` says exactly when it is needed).
- Cas.ChunkStore.EnforceCacheQuota: the directory walk is an argument; the clauses on bytes suppose that it lists no file twice.
- Quota.EvictOldest: which deletions succeed is a parameter decided by path.
- Ble.SplitChunks: payloads are ASCII, because the program splits by characters and caps by bytes; device names and the encrypted envelope are not modelled.
- LineWrap.MeasureText: the line breaker and the shaper are represented by the words and widths they deliver; line heights and the cache of measurements by hash are not modelled.
- Wot.PartitionWotPeers: its cache (keyed by user and distance, not by the contact graph) is not modelled, nor is the petgraph-based graph.
- Voice.EncodeVoicePcm: sample values are passed to the encoder as they are; the conversion of decoded samples to f32 and back is not modelled.
- Waveform.Peaks: decoding of audio containers and clamping of the bin count are not modelled.
- Simple first-in-first-out caches, URL and field validation, SQL, JSON, the Flutter bridge, QR, TOTP and FROST wrappers: they would only add easy members.
