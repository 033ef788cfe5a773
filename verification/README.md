# Verified models of the conferencing platform

This project models the concurrent protocols of the media server and the hand-written algorithms that the web
client ships, and proves what they promise. `dafny verify dfyconfig.toml` checks all of it. Each module follows one
component:

- `ParallelExec`, with `PowersOfTwo` below it: workers that claim slices of an array through one shared 64-bit atomic counter. A schedule names
  the worker that moves next, so a statement about every schedule is one about every interleaving.
- `NegotiationAtomic`, `Negotiation`, `Signal`: the rule of section 4 of RFC 3264 that no new offer is made while one
  is unanswered. `NegotiationAtomic` interleaves single atomic accesses of one setter and one committer, with the
  replacement of a stuck lock after its deadline as one of them. `Negotiation` takes whole operations as steps, with the one-second deadline after which a
  stuck lock is replaced: replacing the lock, taking it and the stores that follow are one step. `Signal` puts
  `PeerContext.Offer` and the retry loop of `DispatchOffer` on top. `Offers` holds what they share; the SHA-256 hash
  of an SDP text is an injective function that never yields the empty string.
- `Fanout`, `Sanitize`, `Subscribers`: what a peer sends. The WebRTC connection is a list of transceivers with a
  direction and an optional sender, and its calls succeed. `Fanout` has the requests that attach and detach tracks
  and recycle transceivers, `Sanitize` the repair of what is sent until it matches what is published, and
  `Subscribers` the classes with these methods, proved against the functions of the other two.
- `PromiseMutex`, `GridLayout`, `ResizeObserver`: the client's promise-chained mutex, its choice of a grid for a room,
  and its frame-batched resize observer.
- `Utf8`, `Paths`, `MemFile`, `NameTable`, `IsoWeek`, with `TypedArrays` below them: parts of the Emscripten runtime, all on one line of the shipped
  file: `UTF8ArrayToString`, `stringToUTF8Array` and `lengthBytesUTF8`; `PATH.normalizeArray`, `PATH_FS.resolve` and
  `PATH_FS.relative`; MEMFS file contents; the name table of `FS`; and the `%V` and `%G` rules of `_strftime`.

Where the source works on state step by step the model has a class or a method with the same loop, proved against a
specification function, and the lemmas are about that function or about runs of it. Fields and members marked as
history in the comments (`sets`, `committed`, `calls`, `grants`, `mine`, `peak` and the like) exist only to state what
happened.

## Where the code does less than one would expect

Each of these is proved as an exact condition.

- Every interleaving of `ParallelExec` ends, with `fn` called exactly once per index, if and only if there is nothing to
  do, or the step is positive, `end + step < 2^64`, and the counter never comes round to a value inside the array
  before the last worker has returned. The same condition decides whether a run that did end was right. The counter
  never wraps on the way if and only if `(ceil(end / step) + workers) * step < 2^64`, or there is nothing to do when
  `step` is 0. Every interleaving ends, right or wrong, if and only if `end + step`, reduced to 64 bits, is at most 2^64
  less the largest power of two that divides `step`. Failing inputs: one value with a step of 2^64 - 1 (nothing is
  called), three values with a step of 2^63 + 1 (the last is passed twice), one value with a step of 2^63 or any with a
  zero step (no worker ever returns).
- At the granularity of single atomic accesses the offer lock holds up until a commit overlaps a replacement of the
  mutex after an expiry, and no longer: whenever one does, the schedule can be continued to an unlock of a free mutex,
  or to rest with an offer pending and the mutex free. Two offers, one expiry and the first offer's answer in between
  suffice.
- A superseded offer's hash can commit again exactly when the latest set is unanswered and repeats the superseded
  SDP text (set A, set B, set A again). Otherwise it never commits.
- On the path of `Offer` that rereads the pending description after an invalid modification, the description
  reread is always the new one, not the old one its log line speaks of.
- Repeated `SanitizePeerSenders` calls end with exactly the published tracks being sent if and only if every published
  track the subscriber had registered was being sent at the start. A track that is registered and silent is never
  attached again: one that is attached, unpublished, taken off by a repair and then published again under its id
  stays silent.
- Resolving `relative(from, to)` against `from` gives `resolve(to)` if and only if the two resolve to different places:
  for the same place the relative path is empty, and `resolve` returns the empty string for an empty argument. With
  an empty `from` or `to`, which `relative` takes for the root and `resolve` for nothing, it does so only if both are
  empty, or `to` is and `from` is the root.
- File growth copies at most nine times the final capacity, over every run of requests from every starting capacity, if
  and only if no more than 3817748709 bytes are ever asked for. From a capacity of 3817748708 on the factor 1.125 no
  longer fits the 32 bits kept by `>>> 0`, growing byte by byte copies the whole file each time, and no constant
  serves.
- A write whose range reaches beyond the caller's buffer leaves the file with all the bytes it counts if and only if it
  is not written at the start of an empty file.
- The grid in use has a cell for every item if and only if there is at most one, or the room is measured and there are at
  most two in one narrower than 560 or at most four in a wider one. Three items in a room 400 wide get two cells.
- `isLocked` tells whether a ticket is out exactly when repeated unlock calls do not make up for the tickets still
  out; with two tickets and the first unlocked twice they do.
- A frame of the resize observer delivers everything and leaves nothing pending if and only if no callback throws. If one
  does, the entries stay pending, `ticking` stays set, and no frame is ever scheduled again.
- `%V` tests leap years on years counted from 1900. It is wrong only about some centuries, none of which starts on a
  Wednesday or ends on a Friday, so the week number is right for every date from 1900 on.

## Model

| member | source | states |
|---|---|---|
| `ParallelExec.CorrectIff` | pkg/executils/executils.go:18-39 | for any length, step and worker count: every interleaving ends and has then called `fn` on each index exactly once, if and only if the counter misses the array whenever it comes round in time |
| `ParallelExec.TerminatesIff` | pkg/executils/executils.go:27-36 | there is a bound on the steps of every interleaving, if and only if the threshold and the largest power of two that divides the step fit a word together |
| `ParallelExec.TerminatesIffStops` | pkg/executils/executils.go:28-31 | which is when the counter reaches the threshold after some number of claims |
| `ParallelExec.CompletedRunOnceIff` | pkg/executils/executils.go:18-39 | for any length, step, worker count and interleaving that ran to completion, wrapping or not: every index was passed to `fn` exactly once if and only if a condition on the arguments alone holds, that the counter misses the array whenever it comes round in time |
| `ParallelExec.CompletedRunCorrectIff` | pkg/executils/executils.go:18-39 | and it was so without the counter ever wrapping if and only if there is room for every claim |
| `ParallelExec.RoomIsSafe` | pkg/executils/executils.go:28-29 | one step for each worker and one more beyond the end is room enough |
| `ParallelExec.MayCallNothing` | pkg/executils/executils.go:28-31 | a completed run of one value and one worker that calls nothing |
| `ParallelExec.MayCallTwice` | pkg/executils/executils.go:28-35 | a completed run of three values and one worker that passes the last one twice |
| `ParallelExec.WrapMayBeHarmless` | pkg/executils/executils.go:28-35 | a completed run of one value whose counter wraps and that still calls the one index once |
| `ParallelExec.MayNeverReturn` | pkg/executils/executils.go:27-36 | with one value and a step of 2^63 no interleaving is ever complete |
| `ParallelExec.NeverWraps` | pkg/executils/executils.go:28 | under that condition no interleaving, complete or not, wraps the counter |
| `ParallelExec.EveryScheduleIsBounded` | pkg/executils/executils.go:27-36 | with room for every claim, the bound that every interleaving keeps to |
| `ParallelExec.ZeroStepNotComplete` | pkg/executils/executils.go:27-36 | with a zero step and something to do, no interleaving ever completes |
| `ParallelExec.WrappedThresholdCallsNothing` | pkg/executils/executils.go:28-31 | if `end + step` wraps, no interleaving ever calls `fn` |
| `ParallelExec.Pool.Move` | pkg/executils/executils.go:27-36 | one move of one worker on the shared counter and its own loop is one step of the state machine |
| `ParallelExec.PickIsPermutation` | pkg/executils/executils.go:33-35 | positions that are each named once pick a rearrangement of the values |
| `ParallelExec.Execute` | pkg/executils/executils.go:10-40 | both branches, with an arbitrary scheduler, terminate and pass the same multiset of values to `fn`; the sequential branch in order |
| `NegotiationAtomic.AtMostOneOutstanding` | media-server/pkg/sfu/peercontext.go:58-133 | in every interleaving of single atomic accesses without an expiry, commits are a prefix of sets, at most one behind, and what is pending is the one behind |
| `NegotiationAtomic.WithoutExpiry` | media-server/pkg/sfu/peercontext.go:64-72 | without an expiry no commit ever overlaps a replacement, so that everything below holds of all those interleavings |
| `NegotiationAtomic.CommitsFollowSets` | media-server/pkg/sfu/peercontext.go:58-133 | in every interleaving, with expiries but no overlap of a commit with a replacement of the mutex, commits are a subsequence of sets, none twice, and only the latest set, uncommitted, can be pending |
| `NegotiationAtomic.SwapHitsPending` | media-server/pkg/sfu/peercontext.go:103-119 | likewise the compare-and-swap is only reached while something is pending and succeeds exactly for the hash of that description; while the mutex is being replaced a success is an overlap |
| `NegotiationAtomic.TakenIsSwapped` | media-server/pkg/sfu/peercontext.go:115-126 | likewise the description taken out after a successful swap is the one whose hash was swapped |
| `NegotiationAtomic.MutexDiscipline` | media-server/pkg/sfu/peercontext.go:60-88 | likewise the mutex is never unlocked while free, and with both threads idle and no replacement under way it is held exactly when an offer is pending |
| `NegotiationAtomic.OverlapBreaks` | media-server/pkg/sfu/peercontext.go:64-72 | as soon as a commit overlaps a replacement, some continuation breaks that discipline |
| `NegotiationAtomic.MayUnlockFree` | media-server/pkg/sfu/peercontext.go:64-72 | a schedule of eighteen accesses that unlocks a free mutex |
| `NegotiationAtomic.NegotiatedAtRest` | media-server/pkg/sfu/peercontext.go:123-126 | without an overlap, whenever the committer is idle the negotiated pair is the last committed description and its own hash |
| `NegotiationAtomic.AnnouncedUnderOwnHash` | media-server/pkg/sfu/peercontext.go:498-538 | likewise an announced offer carries its own hash, or the empty one when its commit can no longer fail |
| `Negotiation.CommitsFollowSets` | media-server/pkg/sfu/peercontext.go:58-133 | over every run with expiry: commits are a subsequence of sets, none twice, the negotiated pair is the last of them under its own hash, no unlock of a free mutex, and while the peer is open the mutex is held exactly when an offer is pending |
| `Negotiation.SubmitSucceedsIff` | media-server/pkg/sfu/peercontext.go:102-119 | in every reachable state a commit succeeds exactly when the latest set is unanswered and the hash is that set's own |
| `Negotiation.SupersededIsSettled` | media-server/pkg/sfu/peercontext.go:64-72 | once a later offer is set, no continuation changes whether the earlier one is committed |
| `Negotiation.SupersededHashCommitsIff` | media-server/pkg/sfu/peercontext.go:93-119 | the hash of a superseded offer commits exactly when the latest set is unanswered and repeats its SDP text |
| `Negotiation.SupersededHashMayCommit` | media-server/pkg/sfu/peercontext.go:93-119 | a run in which that happens: two expiries and the first text again |
| `Negotiation.SubmitFailsWith` | media-server/pkg/sfu/peercontext.go:105-119 | in every reachable state which of the three errors a failing commit is answered with |
| `Negotiation.UnansweredKeepsItsSecond` | media-server/pkg/sfu/peercontext.go:64-95 | over every run, an offer that is never committed is followed by another only 1000 ms or more after it was set |
| `Negotiation.TurnSetsIff` | media-server/pkg/sfu/peercontext.go:62-86 | in every reachable state of an open peer a turn of the spin loop sets its description exactly if the latest one was answered or set 1000 ms ago or more, and otherwise changes nothing |
| `Negotiation.SessionDesc.Submit` | media-server/pkg/sfu/peercontext.go:102-133 | the whole new state, which is one step of a run, and the error, which the run's laws determine |
| `Negotiation.SessionDesc.SpinTurn` | media-server/pkg/sfu/peercontext.go:62-86 | one turn of the spin loop is one step of a run; a description that is stored gets a deadline 1000 ms ahead |
| `Negotiation.SessionDesc.SubmitAll` | media-server/pkg/sfu/peercontext.go:102-133 | of any number of commits in a row, the pending offer is answered if its hash is among them and nothing changes otherwise |
| `Negotiation.SessionDesc.SetPendingDesc` | media-server/pkg/sfu/peercontext.go:58-98 | leaves its spin loop within six turns of 200 ms whatever is committed meanwhile, without a turn exactly if the lock was free; on success the description is pending and was set exactly once, at that time; it fails exactly if some turn found the peer closed |
| `Signal.PeerContext.ReadBack` | media-server/pkg/sfu/peercontext.go:512-538 | which environments make it fail, and otherwise that what is announced is the description just set, even when reread, under its own hash or, exactly if it is already committed, the empty one |
| `Signal.PeerContext.Offer` | media-server/pkg/sfu/peercontext.go:498-538 | closed only on a closed connection or a peer closed while spinning, failed exactly in the environments named, and otherwise the offer created in this call, set exactly once |
| `Signal.DispatchOffer` | media-server/pkg/sfu/signal.go:41-89 | at most 26 `Offer` calls and 25 writes; it goes on after an attempt that failed, 100 ms later, or whose write failed, and after no other; the last attempt and its write decide between closed, socket closed and delivered; a retry is asked for exactly after the 26th call |
| `Fanout.SendingIsIndependent` | media-server/pkg/sfu/subscriber.go:141-145 | attaching and taking off a sender change whether a transceiver sends and never whether it receives |
| `Fanout.AttachTouchesOne` | media-server/pkg/sfu/subscriber.go:85-148 | an attachment gives the track one transceiver, pooled or new, and leaves every other as it was |
| `Fanout.DetachTouchesOne` | media-server/pkg/sfu/subscriber.go:186-208 | detaching idles the track's own transceiver and leaves every other as it was |
| `Fanout.AttachKeepsInv` | media-server/pkg/sfu/subscriber.go:69-165 | attaching keeps ownership, idle pool, unique senders and economy |
| `Fanout.DetachKeepsInv` | media-server/pkg/sfu/subscriber.go:167-218 | so does detaching, and the transceiver it stops exists |
| `Fanout.DeleteIsDetach` | media-server/pkg/sfu/subscriber.go:273-290 | stopping the transceiver before or after taking off its sender ends in the same state |
| `Fanout.RunsOwnAndReuse` | media-server/pkg/sfu/subscriber.go:69-290 | over every run of requests on any starting connection: each transceiver created serves exactly one track or is in the pool, pooled ones are inactive, and as many were created as the largest number of tracks attached at one time |
| `Fanout.RunsKeepSending` | media-server/pkg/sfu/subscriber.go:69-290 | as long as no sender is taken off directly, every registered track is being sent on its own transceiver |
| `Sanitize.PruneTakesFirstStale` | media-server/pkg/sfu/peercontextpool.go:169-198 | the scan silences the first sender of an unpublished track and no other such sender |
| `Sanitize.PruneSilencesIff` | media-server/pkg/sfu/peercontextpool.go:169-198 | exactly which transceivers a scan silences: the first stale one, and the attached sender of every track found sent beside it on the way there |
| `Sanitize.PruneKeepsPublished` | media-server/pkg/sfu/peercontextpool.go:180-193 | a published track sent before the scan is sent after it, even if the scan takes off the registered sender |
| `Sanitize.OneCall` | media-server/pkg/sfu/peercontextpool.go:201-229 | one call keeps the peer's invariant, registers every published track, lowers the number of stale senders by exactly one until zero, and starts sending exactly the published tracks that were not registered |
| `Sanitize.RepairConvergesIff` | media-server/pkg/sfu/peercontextpool.go:139-229 | after max(1, stale) calls or more with the published set fixed, the tracks sent are exactly those published, if and only if every published registered track was sent at the start |
| `Sanitize.PublishedAgainStaysSilent` | media-server/pkg/sfu/peercontextpool.go:143-157 | a run from a fresh subscriber to a published track that is registered and silent |
| `Sanitize.RepairTakesAllCalls` | media-server/pkg/sfu/peercontextpool.go:180-184 | with fewer calls than stale senders something unpublished is still sent |
| `Sanitize.SendingIsLive` | media-server/pkg/sfu/subscriber.go:141-148 | a subscriber that sends every track it knows meets that condition whatever is published |
| `Subscribers.TransceiverPool.Get` | media-server/pkg/sfu/transceiverpool.go:17-38 | nothing from an empty pool, otherwise one member, taken out; the panic is never reached |
| `Subscribers.TransceiverPool.Release` | media-server/pkg/sfu/transceiverpool.go:40-55 | the transceiver is stopped and in the pool |
| `Subscribers.Subscriber.HandleTrackAttach` | media-server/pkg/sfu/subscriber.go:75-163 | the whole new state of connection, pool and tracks is the attach request's; an attached track changes nothing |
| `Subscribers.Subscriber.HandleTrackDetach` | media-server/pkg/sfu/subscriber.go:173-216 | likewise for detaching; an absent track is an error that changes nothing but ends the only worker |
| `Subscribers.Subscriber.DeleteTrack` | media-server/pkg/sfu/subscriber.go:273-290 | likewise for deleting |
| `Subscribers.PeerContextPool.PeerPublishingSenders` | media-server/pkg/sfu/peercontextpool.go:139-161 | the keys are exactly the tracks published by anyone in the pool, each with the registered sender or none |
| `Subscribers.PeerContextPool.RemoveUnpublishSenders` | media-server/pkg/sfu/peercontextpool.go:163-199 | the loop over the snapshot of senders, looking at the tracks they carry by then, does what the scan of the transceivers does |
| `Subscribers.PeerContextPool.SanitizePeerSenders` | media-server/pkg/sfu/peercontextpool.go:201-229 | the new state is that of one repair call, for the order in which the map happened to be walked |
| `PromiseMutex.MutualExclusion` | client/src/App.tsx:31-44 | in every schedule of callbacks and calls a granted ticket has every earlier one granted and released, so at most one is held |
| `PromiseMutex.GrantsFollowLocks` | client/src/App.tsx:41-43 | grants follow the order of `lock()` |
| `PromiseMutex.WaitFollowsTicket` | client/src/App.tsx:42 | each `wait` promise resolves only behind the one before it, tied by its callback to one ticket, after that ticket's release |
| `PromiseMutex.WaitMeansReleased` | client/src/App.tsx:42 | a `wait` read at any time resolves only after every ticket taken before is released, even if unlock functions are called repeatedly |
| `PromiseMutex.IsLockedIff` | client/src/App.tsx:27-29 | exactly when `isLocked` tells whether a ticket is out, under repeated unlocks |
| `PromiseMutex.UnlockedTwice` | client/src/App.tsx:36-39 | a schedule in which a ticket is out and `isLocked` says it is not |
| `PromiseMutex.IsLockedWhenUnlockedOnce` | client/src/App.tsx:27-29 | it always does if no unlock function is called twice |
| `PromiseMutex.Progress` | client/src/App.tsx:41-43 | while tickets wait and none is held, some callback can run |
| `PromiseMutex.Mutex.TakeLock` | client/src/App.tsx:31-44 | `lock()` on the fields is one step of the chain and moves `wait` on |
| `PromiseMutex.Mutex.Release` | client/src/App.tsx:36-39 | an unlock call is one step and settles nothing by itself |
| `GridLayout.SelectionFitsOrIsFirst` | client/src/routes/r/RoomPage.tsx:97-127 | on any table the selection fails only if the table is empty, and is a member that fits or is entry 0 |
| `GridLayout.ShrinkingNeverRaises` | client/src/routes/r/RoomPage.tsx:119-124 | on any table, sorted or not, less width or height never selects a later entry |
| `GridLayout.FallbackStartsOver` | client/src/routes/r/RoomPage.tsx:119-124 | in a table that is not sorted the fallback asks for as many items as the entry before holds |
| `GridLayout.FindInSorted` | client/src/routes/r/RoomPage.tsx:100-117 | in a sorted table the search ends at the last entry of the smallest capacity that holds the items, or at the last entry |
| `GridLayout.SelectsLargestFitting` | client/src/routes/r/RoomPage.tsx:97-127 | in a sorted table the recursion selects the largest fitting index at or below the starting one, or 0 |
| `GridLayout.LargestFittingIsLargest` | client/src/routes/r/RoomPage.tsx:119-124 | that index fits or is 0, and nothing between it and the start fits |
| `GridLayout.LayoutInUse` | client/src/routes/r/RoomPage.tsx:62-140 | columns and rows for every item count and room size: two columns from 560 on for two or more items, two rows for three or more or for two in a narrow room, one cell for one item or an unmeasured room, and exactly when there is a cell for every item |
| `GridLayout.NarrowRoomIsTooSmall` | client/src/routes/r/RoomPage.tsx:62-140 | three items in a room 400 wide get one column of two |
| `GridLayout.GridInUse` | client/src/routes/r/RoomPage.tsx:62-140 | the entry of the table in use that is chosen, for every item count and room size |
| `ResizeObserver.Deliver` | client/src/utils/resize.ts:55-65 | a frame makes its calls in order up to the first that throws; if none throws, every callback of every pending target is called exactly once, in order of subscription, with that target's earliest entry |
| `ResizeObserver.AllCallsAreOwed` | client/src/utils/resize.ts:55-65 | the calls of a frame in which nothing throws, told apart by target, are what each target is owed |
| `ResizeObserver.AllCallsInTurn` | client/src/utils/resize.ts:57-62 | and targets take turns in the order in which they first stand among the entries |
| `ResizeObserver.UntilThrowIs` | client/src/utils/resize.ts:61 | of these a frame makes the first ones, all if none throws and otherwise up to the first that does |
| `ResizeObserver.Observer.OnResize` | client/src/utils/resize.ts:52-68 | exactly one frame is scheduled once entries wait, or none ever again if a callback has thrown in a frame |
| `ResizeObserver.Observer.OnFrame` | client/src/utils/resize.ts:55-65 | exactly if no callback throws, the frame delivers what each target is owed and leaves nothing pending or scheduled; otherwise the entries stay and the observer is stuck |
| `ResizeObserver.Observer.Subscribe` | client/src/utils/resize.ts:72-77 | a target is observed exactly while its list is not empty; the callback joins the end of the list |
| `ResizeObserver.Observer.Unsubscribe` | client/src/utils/resize.ts:78-88 | likewise; one occurrence goes, and a single listener goes whichever callback is named |
| `ResizeObserver.WithoutAt` | client/src/utils/resize.ts:85-86 | what goes is the first occurrence, and the others keep their order |
| `ResizeObserver.WithoutFirstRemovesOne` | client/src/utils/resize.ts:85-86 | removal takes away one occurrence as a multiset and none of an absent callback |
| `Utf8.EncodeIffRfc3629` | client/public/vision_wasm_internal.js:9 | the bytes written for a code point are the ones the table in section 3 of RFC 3629 gives, and the only ones |
| `Utf8.WellFormedIsUtf16` | client/public/vision_wasm_internal.js:9 | a well-formed string is the UTF-16 of section 2 of RFC 2781 of the code points the writer sees, all of them scalar values |
| `Utf8.WrittenAsMended` | client/public/vision_wasm_internal.js:9 | an ill-formed string is written as the well-formed one in which each surrogate is forced into a pair with the unit after it; the well-formed ones are exactly those this leaves alone |
| `Utf8.Utf16IsWellFormed` | client/public/vision_wasm_internal.js:9 | and conversely every sequence of scalar values is recovered from its UTF-16 |
| `Utf8.FittingIsLongest` | client/public/vision_wasm_internal.js:9 | the prefix that is written is the longest one whose encoding fits |
| `Utf8.LengthBytesUTF8` | client/public/vision_wasm_internal.js:9 | the count is the length of the encoding, for any string |
| `Utf8.StringToUTF8Array` | client/public/vision_wasm_internal.js:9 | for any string, heap and limit: the longest prefix of whole code points that fits beside a zero is written and its length returned, the zero follows, nothing else is touched, and what falls beyond the heap is dropped |
| `Utf8.UTF8ArrayToString` | client/public/vision_wasm_internal.js:9 | on any bytes it stops at the first zero, the limit or the end of the heap, and decodes what lies before |
| `Utf8.AnyBytesRead` | client/public/vision_wasm_internal.js:9 | what any lead byte with any three after it is read as, well formed or not |
| `Utf8.ReadBack` | client/public/vision_wasm_internal.js:9 | the reader turns an encoding that is followed by a zero into the UTF-16 of its code points, wherever it lies |
| `Utf8.WriteThenRead` | client/public/vision_wasm_internal.js:9 | writing a well-formed string without U+0000 and reading it back gives exactly its longest prefix that fits, cut between characters, and the string itself exactly when the limit exceeds its encoded length |
| `Paths.NormalizeArray` | client/public/vision_wasm_internal.js:9 | the right-to-left splicing with a counter gives the list of a left-to-right stack, for both values of `allowAboveRoot` |
| `Paths.WalkIsScan` | client/public/vision_wasm_internal.js:9 | the effect of any suffix on any stack is to pop what the counter says and push what was kept |
| `Paths.NormalizedIsNormal` | client/public/vision_wasm_internal.js:9 | no "." is left, and ".." only as a leading run, never when rooted |
| `Paths.NormalIffFixed` | client/public/vision_wasm_internal.js:9 | exactly the lists of that form are left unchanged |
| `Paths.NormalizeTwice` | client/public/vision_wasm_internal.js:9 | normalising twice is normalising once |
| `Paths.Resolve` | client/public/vision_wasm_internal.js:9 | the loop over the arguments from the right, the working directory last, returns the specified text, and nothing for an empty argument |
| `Paths.ResolveIsChangingDirectories` | client/public/vision_wasm_internal.js:9 | for non-empty arguments `resolve` ends where changing into each of them in turn would |
| `Paths.ResolvesToNothingIff` | client/public/vision_wasm_internal.js:9 | `resolve` returns nothing exactly if an empty argument stands behind the last absolute one |
| `Paths.ResolvedTwice` | client/public/vision_wasm_internal.js:9 | a resolved path is absolute, and resolving it again from anywhere leaves it as it is |
| `Paths.StepsAreShortest` | client/public/vision_wasm_internal.js:9 | no list of parts that leads from one place to another is shorter than the one `relative` joins |
| `Paths.Relative` | client/public/vision_wasm_internal.js:9 | for all paths the result is one ".." for each part of the origin beyond the common prefix, then the rest of the target |
| `Paths.RelativeLeadsThereIff` | client/public/vision_wasm_internal.js:9 | resolving that result against the origin gives the resolved target, for all non-empty paths if and only if the two resolve to different places, and with the exact cases for empty ones |
| `Paths.RelativeToItself` | client/public/vision_wasm_internal.js:9 | from any path to itself the relative path is empty and resolves to nothing |
| `Paths.JoinSplit` | client/public/vision_wasm_internal.js:9 | joining undoes splitting, for any path |
| `Paths.SplitJoin` | client/public/vision_wasm_internal.js:9 | splitting at slashes undoes joining |
| `MemFile.WriteAtIndex` | client/public/vision_wasm_internal.js:9 | length and every byte of the sequence after a write: data, zero in a gap, old byte elsewhere |
| `MemFile.ReadBackWrite` | client/public/vision_wasm_internal.js:9 | reading back a write gives the data |
| `MemFile.ReadBesideWrite` | client/public/vision_wasm_internal.js:9 | reading before or behind a write gives what was there |
| `MemFile.ReadGap` | client/public/vision_wasm_internal.js:9 | a gap opened by a write past the end reads as zeros |
| `MemFile.WrittenAtIndex` | client/public/vision_wasm_internal.js:9 | the same when the caller's buffer had only part of the data: zeros for what lacked |
| `MemFile.ResizedAtIndex` | client/public/vision_wasm_internal.js:9 | a resized file has the size asked for, its old bytes as far as they go, and zeros after them |
| `MemFile.ReadBelowResize` | client/public/vision_wasm_internal.js:9 | a read below the new size gives what it gave before |
| `MemFile.ReadBeyondResize` | client/public/vision_wasm_internal.js:9 | what a resize adds reads as zeros, and nothing is read beyond the new size |
| `MemFile.PaddedAtIndex` | client/public/vision_wasm_internal.js:9 | reserving space keeps every byte, adds zeros and cuts nothing |
| `MemFile.GrowthIsBounded` | client/public/vision_wasm_internal.js:9 | a buffer that must grow gets at least what was asked for and at most the largest of that, 256 bytes, and twice its size below 1 MiB or nine eighths of it from there on; below 1 MiB exactly the largest |
| `MemFile.CopyingIsAmortisedIff` | client/public/vision_wasm_internal.js:9 | for every limit: over all runs of requests up to it, from all capacities, the bytes copied stay within nine times the final capacity, if and only if the limit is at most one byte beyond the wrapping size |
| `MemFile.CopyingIsAmortised` | client/public/vision_wasm_internal.js:9 | whatever is asked for, a single run in which every growth starts below the wrapping size stays within that bound |
| `MemFile.ByteByByteIsAmortisedIff` | client/public/vision_wasm_internal.js:9 | a large full buffer asked for up to 2^28 single bytes stays within the bound, for every number of them, if and only if it starts below the wrapping size |
| `MemFile.CopyingBeyondWrap` | client/public/vision_wasm_internal.js:9 | from every capacity of the wrapping size or more, growing by single bytes copies the whole file every time |
| `MemFile.NoConstantBeyondWrap` | client/public/vision_wasm_internal.js:9 | so for every factor there is a run from there that copies more than that many times the final capacity |
| `MemFile.GrowsByFactorIff` | client/public/vision_wasm_internal.js:9 | a large buffer grows by its factor whatever is asked for, exactly when that fits 32 bits |
| `MemFile.File.ExpandFileStorage` | client/public/vision_wasm_internal.js:9 | the bytes stay, the capacity is enough and follows the growth rule, spare capacity stays zero, and the used bytes are copied exactly when the buffer changes |
| `MemFile.File.ResizeFileStorage` | client/public/vision_wasm_internal.js:9 | the bytes are those of the resized sequence, and the buffer is exactly as long unless nothing changed |
| `MemFile.File.Write` | client/public/vision_wasm_internal.js:9 | overlays what the caller's buffer has of the range, at any position, on every one of its four paths, counts the whole length as used, and says exactly when the file then lacks bytes; leaves the caller's buffer alone |
| `MemFile.WrittenWhole` | client/public/vision_wasm_internal.js:9 | with the range inside the buffer a write is exactly the overlay |
| `MemFile.File.Read` | client/public/vision_wasm_internal.js:9 | delivers the bytes in use from the position, touches only that part of the buffer, and leaves the file alone; without room more than eight bytes fail as a whole and up to eight are cut off |
| `MemFile.File.Allocate` | client/public/vision_wasm_internal.js:9 | reserved bytes count as used and read as zero; nothing is lost |
| `NameTable.HashIsBase31` | client/public/vision_wasm_internal.js:9 | for any name, however often it overflowed, the hash is the number with the characters as digits to the base 31, in 32 bits and signed |
| `NameTable.Removal` | client/public/vision_wasm_internal.js:9 | taking one node out of one chain keeps every chain acyclic and complete and removes just its key from the map |
| `NameTable.LinkedAdd` | client/public/vision_wasm_internal.js:9 | putting a new node in front of one chain keeps every chain acyclic and in order |
| `NameTable.Table.LookupNode` | client/public/vision_wasm_internal.js:9 | walking a bucket's chain agrees with a plain map keyed by parent id and name |
| `NameTable.Table.HashAddNode` | client/public/vision_wasm_internal.js:9 | the map gains exactly the node's key and the chains stay acyclic |
| `NameTable.Table.HashRemoveNode` | client/public/vision_wasm_internal.js:9 | the map loses exactly the node's key; a node that is not filed changes nothing |
| `NameTable.Table.Rename` | client/public/vision_wasm_internal.js:9 | renaming to an unused name moves the node from its old key to the new one and changes nothing else |
| `IsoWeek.MonthLengths` | client/public/vision_wasm_internal.js:9 | the two month tables give the lengths of the Gregorian months, leap years included |
| `IsoWeek.KnownDays` | client/public/vision_wasm_internal.js:9 | the numbering of days and weekdays agrees with the calendar in use: 1 January 1970 was a Thursday |
| `IsoWeek.AddDays` | client/public/vision_wasm_internal.js:9 | terminates and lands exactly that many days later, on a valid date |
| `IsoWeek.CompareIsByDayNumber` | client/public/vision_wasm_internal.js:9 | comparing dates field by field compares the days they number |
| `IsoWeek.CenturyWeekday` | client/public/vision_wasm_internal.js:9 | the weekday on which each century of the 400-year cycle starts |
| `IsoWeek.LeapTestHarmlessForJan1` | client/public/vision_wasm_internal.js:9 | in a year that starts on a Wednesday the leap test on years counted from 1900 is right |
| `IsoWeek.LeapTestHarmlessForDec31` | client/public/vision_wasm_internal.js:9 | and so it is for a year that ends on a Friday |
| `IsoWeek.FirstWeekStartsOnFirstMonday` | client/public/vision_wasm_internal.js:9 | `getFirstWeekStartDate` is the Monday of the week that contains 4 January |
| `IsoWeek.WeekYearIsThursdays` | client/public/vision_wasm_internal.js:9 | the two readings of the rule agree: between first Mondays, and by the Thursday of the week |
| `IsoWeek.WeekIsUnique` | client/public/vision_wasm_internal.js:9 | a day has one week-based year and one week number |
| `IsoWeek.WeekNumberIsIso` | client/public/vision_wasm_internal.js:9 | `%V` is the ISO 8601 week number of section 7.27.3.5 of C11 for every valid date from 1900 on |
| `IsoWeek.WeekBasedYear` | client/public/vision_wasm_internal.js:9 | `%G` is the week-based year |
| `IsoWeek.GetWeekBasedYear` | client/public/vision_wasm_internal.js:9 | and `%V` is the number of the week in that very year |

## Left out

- NegotiationAtomic.MutexDiscipline: replacing the mutex is one step, and two accesses that race on the mutex itself, which the language leaves undefined, are taken to happen one after the other; time is not modelled, so a deadline may be found passed at any moment after it was stored.
- Signal.DispatchOffer: the scheduled second run after 25 failed attempts is not followed; waits are counted on an ideal clock and library calls take no time.
- Signal.PeerContext.Offer: creating the offer, setting the local description, encoding and the commits that arrive meanwhile are parameters.
- Negotiation.SessionDesc.SetPendingDesc: the `retry` flag and the log are not modelled; a peer found closed ends the model's run.
- Subscribers.Subscriber.HandleTrackAttach: failing library calls are not modelled, among them the error of `SetSender`, after which the code carries on; neither is the stub sent for a peer's own audio, nor the kind of a recycled transceiver, which the pool ignores.
- Subscribers.Subscriber.HandleTrackDetach: after an absent track the worker stops with its mutex held; the model says that the worker is gone and that nothing else changed, and has no requests that wait for it.
- Subscribers.TransceiverPool.Get: a transceiver is known by its place on the connection, so an empty or repeated mid is not modelled.
- Subscribers.PeerContextPool.SanitizePeerSenders: the requests of one call run one after the other and succeed, and the offer sent at the end is the subject of `Signal`; `Subscriber.Close` is not modelled.
- Fanout.RunsOwnAndReuse: each request is one step, as the mutexes of the handlers make it for requests of one kind; attach and detach handlers running at the same moment are not interleaved more finely.
- Paths.NormalizeArray: the list is passed in and returned, not edited in the caller's array; `PATH.normalize`, `PATH.join` and the other string helpers are left out.
- Paths.Relative: the working directory is absolute, as the file system keeps it.
- Paths.Trim: stated only for the lists that occur in `relative`, one empty string or no empty string at all; on others the end passed to `slice` cuts differently.
- Paths.Resolve: the type check of the arguments is left out, and the working directory is a parameter.
- Utf8.StringToUTF8Array: the heap is a typed array; a plain array, which a store beyond its end would lengthen, is not modelled.
- Utf8.UTF8ArrayToString: the branch that hands long inputs to `TextDecoder`, and the warning for a wrong lead byte, are left out.
- MemFile.File.Write: owning writes (`canOwn`), plain-array contents and timestamps are left out, and the caller's buffer is not the file's own.
- MemFile.File.ExpandFileStorage: running out of memory and the longest array an engine allows.
- MemFile.File.Allocate: the error returns for read-only and special files are left out, as are `mmap` and `llseek`.
- NameTable.Table.HashAddNode: the caller's check that the name is unused is a precondition; the callers' permission checks, mounts, symlinks and devices are left out.
- NameTable.Table.LookupNode: the permission check before the walk and the fallback for an absent name are left out.
- NameTable.Table.Rename: renaming over an existing name is left out.
- IsoWeek.WeekNumberIsIso: years from 1900 on and a weekday that matches the date, as the C library's caller provides; `%g`, `%U`, `%W`, `%j` and the other conversions are left out.
- PromiseMutex.Mutex.TakeLock: promises are entries of a list and the runtime decides which due callback runs next.
- ResizeObserver.Observer.OnFrame: callbacks do not subscribe or unsubscribe while a frame runs; the check for a missing window and the React hook around the observer are left out.
- GridLayout.GridInUse: measuring the room and the warning on a fallback are left out.
- ParallelExec.Execute: the number of processors is a parameter, and `fn` only records its argument.
- WebRTC, ICE and SDP contents, RTP flow, rooms and HTTP routing, identity and SQL, GStreamer and OpenCV bindings, build scripts and React components: library or plumbing code.
- The rest of the shipped runtime: WebGL, WebGPU, embind, system calls and loading.
