# Onelo Python SDK: verified core

The Onelo SDK keeps feature flags current in a background thread, attaches them to
one process-wide identity, reports errors through a buffered transport, and caches
verified users and per-user snapshots. Its hard parts are small protocols between
threads and stateful containers. This project models those parts in Dafny and
proves what they guarantee.

Two styles are used side by side. What the source keeps in objects (the feature
cache, the consumers, the transport, the caches, the scrubber, the watchdog) is a class
whose methods are shown to do exactly what a function on values says; what the source
promises is then proved about those functions. What several threads or tasks do
together is a step relation built from the same functions, and its results hold for
every finite run, in every order of steps.

## Files

| file | content |
|---|---|
| `FeatureCache.dfy` | the generation-guarded feature store and its ready event |
| `ConsumerAnswers.dfy` | what a stream event or a poll response does to that store |
| `ConsumerSteps.dfy` | the client and consumer objects follow the steps of the identity protocol |
| `IdentifyCall.dfy` | one `identify()` call, and the detector of per-request misuse |
| `IdentityProtocol.dfy` | any number of `identify()` calls against the one consumer |
| `EventStreamSpec.dfy` | the WHATWG HTML Living Standard, sections 9.2.5 and 9.2.6, on whole texts |
| `FrameDecoder.dfy` | the incremental decoder, chunk independence, refinement of the standard |
| `ByteOrderMark.dfy` | texts that begin with a byte order mark |
| `EventStreamRoundTrip.dfy` | encoding and decoding, comment lines |
| `EventStreamSpellings.dfy` | every way to write a stream down: line breaks, spaces, colons |
| `StreamWatchdog.dfy` | the zombie detector of an open stream |
| `MonitorTransport.dfy` | the monitor's buffer, hold-off window, retries and drop report |
| `EventLedger.dfy` | the buffer with its whole history: conservation and order |
| `FlushProtocol.dfy` | producers and flushes in every interleaving |
| `TimedStore.dfy` | ordered dictionaries of entries with a deadline |
| `AuthCache.dfy`, `AuthCacheRuns.dfy` | the LRU cache with expiry, and its runs against a plain map and a larger cache |
| `UserSnapshotCache.dfy`, `ForUserProtocol.dfy` | the per-user snapshot cache, and interleaved `for_user` calls |
| `MetaScrubber.dfy`, `PassedThrough.dfy` | the recursive metadata scrubber, and what it lets through under its own report key |
| `ScrubbedPaths.dfy` | what each value of the metadata comes out as |
| `VerifyRetry.dfy` | token verification with retries |
| `BatchPing.dfy` | the debounced auto-discovery ping |
| `Prelude.dfy` | optional values and the concatenation of lists |

`dafny verify dfyconfig.toml` checks everything.

## How the protocols are modelled

* A step is what no other actor can look into: the body of one cache method under the
  cache lock, one access under the user lock, one callback of the event loop, the stretch
  of a coroutine between two awaits. `identify()` is cut between taking the user lock,
  writing the user id, bumping the generation, releasing the lock and posting its signal.
* The network is a choice: a request is answered, fails, or is never answered. Clocks are
  inputs. Locks do not promise an order among their waiters, and a woken stream reader may
  still take one more frame; both only add runs.
* History variables (`owners`, `begunAt`, `source`, `fates`, `mark`, `epoch`, `answers`, `tookAt`, `attempted`,
  `orphaned`) record what happened and never decide a step.

## Where the code and its words differ

The model follows the code.

* `identify()` documents itself as idempotent for the same id. The cache is indeed left alone,
  but the consumer is signalled all the same, so a repeated id costs a reconnect or a poll
  (`Onelo.Identify`, the clause on `signals`).
* The misuse warning speaks of five distinct user ids. It counts switches (`WarnedExactlyOnBurst`): two
  ids taking turns trigger it (`TwoIdsSuffice`), and so does one that comes and goes (`OneIdSuffices`).
  `WarningIsRightExactly` says when the ids really are five.
* Generations are said to keep a late answer for the previous identity from ever landing on the
  new one. Between the write of the user id and the bump, inside the user lock, such an answer is
  still accepted (`LateAnswerAccepted`); it is wiped by the bump. `OwnerIsUserId` says that this
  is the only such place.
* A schedule that finds no running loop (`OrphanExists`) is said to be caught up by the next call. A call for
  a new name does that, or a discovery request, and nothing else does (`OrphanIsCaughtUpExactly`).
* `invalidate_user` promises fresh state on the next `for_user`. A resolve with a positive ttl that was already
  in flight can put its older answer back (`InvalidateCanBeOverrun`); exactly without one the promise is kept
  (`OverrunExactly`).
* A poll body without features counts as up to date; a stream event without features counts as
  malformed (`PollReadsLikeStream`).
* The decoder keeps a CR at the very end of the stream pending, where the standard ends a line
  (`AgreesWithStandard` gives the exact condition on the text), so that an event can wait for a keepalive
  comment to come out (`CommentReleasesEvent`). It strips no byte order mark: a comment behind one is lost
  (`MarkLosesComment`), while a blank first line is not missed (`AgreesDespiteMark` gives the exact condition).
* What stands under a nested `_onelo_redacted` key is passed through as it is (`NestedReportComesOut`);
  `OutputStrictExactly` says which outputs are free of secrets all the same.
* Metadata is cut at `_MAX_DEPTH` = 10, which leaves ten container levels below the top dictionary,
  the last of them the marker or a one-element list (`ScrubMetaNesting`, `NestingBoundIsMet`).
* `retry_total_timeout` is called a hard wall-clock cap. With pauses that last at least as long as asked, as
  `time.sleep` does, the requested pauses stay below it for every setting (`PausesBounded`). On a clock that
  merely does not run backwards they do for the defaults (`DefaultsKeepTheCap`) but not for every setting
  (`PausesCutShort`; `CapHoldsExactly` gives the exact condition). The call as a whole is not capped by any
  setting (`RequestOverruns`), because a request under way is not cut off; only one request can overrun
  (`OneRequestOverruns`), and `CallCapHoldsExactly` says when none can.

## Model

| member | source | states |
|---|---|---|
| `IdentityProtocol.AcceptedForOwner` | src/onelo/_cache.py:83-101 | for any backend and any interleaving of any number of `identify` calls: an answer that `apply` or `confirm` accepts was requested for the identity of the generation it lands in, A to B to A switches included |
| `IdentityProtocol.ServedForOwner` | src/onelo/_cache.py:65-101 | a non-empty snapshot, a non-zero version or a set ready flag always stems from an answer to a request for the current generation's identity, accepted since that generation began |
| `IdentityProtocol.OwnerIsUserId` | src/onelo/_client.py:279-286 | the current generation belongs to the user id that `_get_user_id` returns if and only if no `identify` call stands between writing a changed id and the bump |
| `IdentityProtocol.LateAnswerAccepted` | src/onelo/_client.py:282-286 | in that gap an answer for the old identity can be accepted and set ready: a run that does it |
| `IdentityProtocol.NoLostWakeUp` | src/onelo/_sse.py:309-337 | a consumer parked in its frame wait or interval wait for an older generation always has a wake-up coming: an `identify` call before its signal, a queued callback, or the event set |
| `IdentityProtocol.QuietMeansCurrent` | src/onelo/_polling.py:62-72 | with no `identify` call under way, no callback queued and no event set, a parked consumer's request is for the current generation and the present user id |
| `IdentityProtocol.WokenGoesOn` | src/onelo/_sse.py:225-234 | a woken, unstopped, parked consumer reaches a fresh request view of the current generation without help from backend or timer |
| `IdentityProtocol.WakeUpArrives` | src/onelo/_backend.py:113-139 | a pending wake-up can always be carried through the loop to the parked consumer, which then takes a fresh request view of the current generation |
| `IdentityProtocol.NothingUndoesWakeUp` | src/onelo/_sse.py:225-234 | no step of anyone undoes a pending wake-up or takes the consumer farther from a fresh view; the next step it needs is always possible, stays so, and brings it nearer |
| `IdentityProtocol.WakeUpGetsThrough` | src/onelo/_backend.py:113-139 | so in any run, whatever else happens, a pending wake-up needs fewer than seven such steps before the consumer has read a fresh view or stopped |
| `IdentityProtocol.StaleConsumerIsOnItsWay` | src/onelo/_sse.py:309-337 | in every reachable state this applies to a consumer parked for an older generation |
| `IdentityProtocol.CacheIsOwnersSnapshot` | src/onelo/_cache.py:53-101 | against a backend that keeps its word the features are always the owner's at the cached version, name by name and object by object, and when ready is set that version is no older than the owner's becoming the identity |
| `IdentityProtocol.NeverServesPreviousIdentity` | src/onelo/_client.py:270-286 | while the user lock is free the features served are, name by name and object by object, those of the present user id at the cached version |
| `IdentityProtocol.ReadySinceIdentity` | src/onelo/_cache.py:72-101 | the same freshness from the bump on: while that identity lasts, ready means a version the backend had no earlier than the bump |
| `IdentityProtocol.PresentUserCanBeServed` | src/onelo/_sse.py:203-369 | from every reachable state with the consumer not stopped and the user lock free a run of a backend that keeps its word brings ready and, feature by feature, what it holds for the present user id |
| `IdentityProtocol.ToTop` | src/onelo/_sse.py:203-249 | behind it: the consumer can come back to the head of its loop from wherever it is |
| `IdentityProtocol.RoundServes` | src/onelo/_polling.py:62-144 | and one round from there, answered in full, fills the cache |
| `IdentityProtocol.AnswerArrives` | src/onelo/_sse.py:344-369 | the last leg of it: an answer on the wire to a request of the current generation is taken |
| `IdentityProtocol.StopsOnlyWhenTold` | src/onelo/_sse.py:203-226 | along any run the consumer stops only after `stop` or a rejected key |
| `IdentityProtocol.VersionNeverDecreases` | src/onelo/_cache.py:65-92 | along honest runs generations never decrease, and within one generation `config_version` never does |
| `IdentityProtocol.VersionMonotone` | src/onelo/_cache.py:72-92 | the one-step form of this, for any step |
| `IdentityProtocol.StepKeepsInv` | src/onelo/_cache.py:65-101 | every step of every actor keeps: generation and user id in step, requests of the current generation made for its owner, stale requests with a wake-up pending, content only from the owner's answers |
| `IdentityProtocol.RunKeepsInv` | src/onelo/_cache.py:65-101 | hence every run does |
| `IdentityProtocol.HonestStepKeepsInv` | src/onelo/_sse.py:351-369 | every step of an honest run also keeps: answers on the wire are the backend's for that user, in version order and no older than the cache, and the cache is the owner's snapshot |
| `IdentityProtocol.HonestRunKeepsInv` | src/onelo/_sse.py:351-369 | hence every honest run does, and the version is monotone in each generation |
| `IdentityProtocol.IdentifyKeepsHonestInv` | src/onelo/_client.py:279-308 | the steps of `identify` keep the honest invariant, the bump because version 0 has no features |
| `IdentityProtocol.ReceiveKeepsHonestInv` | src/onelo/_sse.py:351-369 | receiving an answer keeps it, whichever generation the request was made in |
| `IdentityProtocol.SendKeepsHonestInv` | src/onelo/_polling.py:121-135 | an answer that the backend sends on the open request keeps the wire in version order |
| `FeatureCache.ThreadSafeCache.BeginIdentity` | src/onelo/_cache.py:72-81 | drops features and version, opens the next generation and clears ready, together |
| `FeatureCache.ThreadSafeCache.Apply` | src/onelo/_cache.py:83-92 | for the current generation replaces the whole snapshot and sets ready; for another changes nothing and says so |
| `FeatureCache.ThreadSafeCache.Confirm` | src/onelo/_cache.py:94-101 | sets ready for the current generation only |
| `FeatureCache.ThreadSafeCache.RequestView` | src/onelo/_cache.py:65-70 | reads generation and version together |
| `FeatureCache.ThreadSafeCache.ReplaceAll` | src/onelo/_cache.py:53-58 | stores exactly the features of the snapshot, an object as it is and a text or scalar as the one entry "status", with its version, leaving the generation |
| `FeatureCache.ThreadSafeCache.GetState` | src/onelo/_cache.py:38-43 | a missing feature is hidden |
| `FeatureCache.NormalizedStays` | src/onelo/_cache.py:27-36 | normalising keeps the names and changes nothing the second time |
| `FeatureCache.StoredForEach` | src/onelo/_cache.py:27-36 | for each feature of any snapshot the object itself is stored, or the one entry "status" with its text; for no other name anything |
| `ConsumerAnswers.SSEConsumer.HandleEvent` | src/onelo/_sse.py:351-387 | an event acts on the cache as its answer does, for the generation the connection is bound to; only a discovery event calls the callback |
| `ConsumerAnswers.SSEConsumer.Bind` | src/onelo/_sse.py:262-263 | the connection is bound to the generation and version read together |
| `ConsumerAnswers.PollingConsumer.HandleResponse` | src/onelo/_polling.py:104-144 | a response acts on the cache as its answer does, for the generation of the request; a discovery request in it is heard only with a good body, and with a snapshot only if that was accepted |
| `ConsumerAnswers.StreamTakesEffect` | src/onelo/_sse.py:351-369 | features, version and ready move if and only if a well-formed payload of the right event, or an up-to-date notice, arrives for the current generation; a malformed payload changes nothing |
| `ConsumerAnswers.PollTakesEffect` | src/onelo/_polling.py:104-139 | the same of a poll: a well-formed 200 not marked up to date stores all; a 304, or a 200 object so marked or without features, confirms; nothing else changes anything |
| `ConsumerAnswers.LateAnswerIsDropped` | src/onelo/_cache.py:72-101 | after the identity changed, no answer to an earlier request does anything |
| `ConsumerAnswers.PollReadsLikeStream` | src/onelo/_polling.py:121-139 | a poll body and a stream event are read alike if and only if the body is not marked up to date and has features |
| `ConsumerAnswers.ReadAfterEvent` | src/onelo/_cache.py:27-58 | after an accepted stream snapshot `get_state` gives for each name the object of the payload, or its text under "status", and hidden for a name outside it |
| `ConsumerAnswers.ReadAfterPoll` | src/onelo/_polling.py:121-135 | the same after a poll |
| `ConsumerAnswers.StreamSnapshotIsServed` | src/onelo/_sse.py:351-369 | on the stored values: ready, the version, and each feature of the payload and no other |
| `ConsumerAnswers.PollSnapshotIsServed` | src/onelo/_polling.py:121-135 | the same after a poll |
| `ConsumerSteps.StreamReadsView` | src/onelo/_sse.py:262-263 | binding a connection is the protocol step ReadView |
| `ConsumerSteps.StreamReceives` | src/onelo/_sse.py:351-369 | handling an event is the protocol step Receive, for an answer that says what the event says |
| `ConsumerSteps.PollReadsView` | src/onelo/_polling.py:84 | reading the view of a poll is the protocol step ReadView |
| `ConsumerSteps.PollReceives` | src/onelo/_polling.py:104-144 | handling a response is the protocol step Receive, for an answer that says what the response says |
| `ConsumerSteps.StreamGoesOnFollowing` | src/onelo/_sse.py:262-349 | whatever else the loop, the backend, other callers or the consumer do in between, a stream consumer object that follows the protocol goes on following it |
| `ConsumerSteps.PollGoesOnFollowing` | src/onelo/_polling.py:62-144 | the same of a polling consumer |
| `ConsumerSteps.IdentifyRuns` | src/onelo/_client.py:279-308 | the five protocol steps of an undisturbed `identify` call are a run, with this effect |
| `ConsumerSteps.IdentifyFollows` | src/onelo/_client.py:257-308 | an `identify` call on the client object is that run, and the consumer object that shares the cache goes on following it; a refused call is no step |
| `ConsumerSteps.IdentifyFollowsPoll` | src/onelo/_client.py:257-308 | the same with a polling consumer |
| `ConsumerSteps.EventLandsOnOwner` | src/onelo/_sse.py:351-369 | in any run a stream event that changes the cache came on a connection opened for the current generation and its identity, and is a well-formed snapshot or an up-to-date notice |
| `ConsumerSteps.ResponseLandsOnOwner` | src/onelo/_polling.py:104-139 | the same of a poll response |
| `IdentifyCall.Onelo.Identify` | src/onelo/_client.py:257-308 | new user id, cache, misuse state and signal of one call; a refused call changes nothing; the cache is begun anew exactly when the id changes |
| `IdentifyCall.WarnedExactlyOnBurst` | src/onelo/_client.py:257-307 | over any run of calls, refused and repeated ones included, the warning has been given if and only if some five successive changes to a user fell within 60 s |
| `IdentifyCall.CallsRememberSwitches` | src/onelo/_client.py:279-295 | what is remembered after a run of calls depends on the times of its changes to a user alone |
| `IdentifyCall.TwoIdsSuffice` | src/onelo/_client.py:296-306 | two ids taking turns five times are warned about as five distinct ones: a run for any two ids |
| `IdentifyCall.OneIdSuffices` | src/onelo/_client.py:296-306 | so is one id taking turns with anonymity |
| `IdentifyCall.WarningIsRightExactly` | src/onelo/_client.py:287-306 | when the warning is given at most five ids were switched to in the last 60 s, and they are five if and only if the five switches of the burst were to different ids |
| `IdentifyCall.RememberedSwitches` | src/onelo/_client.py:287-295 | until then exactly the switches of the last 60 s are remembered |
| `IdentifyCall.RemembersOneMore` | src/onelo/_client.py:287-295 | the step behind it: one more switch keeps this, or gives the warning on a burst |
| `FrameDecoder.AiterFrames` | src/onelo/_sse.py:95-124 | the generator yields, and is left with, what decoding the whole text gives, whatever the chunks; and yields what the standard reads from the text without a final CR |
| `FrameDecoder.TakeLines` | src/onelo/_sse.py:100-124 | the inner loop takes off every complete line and no more |
| `FrameDecoder.NextLine` | src/onelo/_sse.py:101-110 | one complete line and the rest, or none |
| `FrameDecoder.NextFields` | src/onelo/_sse.py:111-124 | one line has the effect that section 9.2.6 of the standard gives it, on buffers read off the variables |
| `FrameDecoder.Cut` | src/onelo/_sse.py:101-104 | the nearest CR or LF, with no break before it, or none |
| `FrameDecoder.ChunkIndependence` | src/onelo/_sse.py:98-110 | any split into chunks, empty ones and splits inside CRLF included, gives the same frames and ends in the same variables |
| `FrameDecoder.DrainInTwo` | src/onelo/_sse.py:98-124 | draining, then more text, then draining again is draining once |
| `FrameDecoder.FramesOfPrefix` | src/onelo/_sse.py:98-124 | the frames of a prefix are a prefix of the frames |
| `FrameDecoder.TakeLineIsInterpret` | src/onelo/_sse.py:111-124 | a line taken with a list of data lines is a line interpreted with the standard's string buffer |
| `FrameDecoder.SplitIsFirstLine` | src/onelo/_sse.py:101-110 | the line cut off is the standard's first line of the normalised text; none is cut off exactly when there is none |
| `FrameDecoder.DecoderRefinesStandard` | src/onelo/_sse.py:95-124 | for every text the frames are those of the standard for the text without a final CR |
| `FrameDecoder.StandardReadsFinalCR` | src/onelo/_sse.py:105-107 | for a text ending in CR the standard reads those frames and then those of the line kept back |
| `FrameDecoder.HeldBackComesOut` | src/onelo/_sse.py:105-110 | one LF more and the line kept back comes out |
| `FrameDecoder.HeldBackExactly` | src/onelo/_sse.py:105-107 | what is held back, read off the text: a comment, an event, or nothing |
| `FrameDecoder.AgreesWithStandard` | src/onelo/_sse.py:105-107 | decoder and standard agree on a whole text if and only if no final CR ends a comment or the blank line of an event that has data |
| `ByteOrderMark.ByteOrderMarkCostsFirstLine` | src/onelo/_sse.py:98-124 | for every text a leading byte order mark loses exactly the first line |
| `ByteOrderMark.MarkIsHarmless` | src/onelo/_sse.py:98-124 | decoding with and without the mark agree if and only if the first line is blank, an ignored field, data of an event that is never completed, or a name that is the default or never used |
| `ByteOrderMark.AgreesDespiteMark` | src/onelo/_sse.py:98-124 | decoder and standard agree on a marked text if and only if that holds and no final CR ends a comment or the blank line of an event that has data |
| `ByteOrderMark.MarkLosesComment` | src/onelo/_sse.py:115-116 | a marked text of one comment line, which the decoder loses and the standard reads |
| `EventStreamRoundTrip.StreamRoundTrip` | src/onelo/_sse.py:108-124 | any list of events, encoded and cut into any chunks, decodes to itself with nothing left over |
| `EventStreamRoundTrip.CommentsAreInvisible` | src/onelo/_sse.py:105-116 | a comment line, ended by any break, put in wherever a line begins leaves all events as they were if and only if it is not put behind a text whose final CR ends the blank line of an event that has data |
| `EventStreamRoundTrip.EventsWithComment` | src/onelo/_sse.py:105-116 | what comes out in every case: the same events, and behind such a text the event that was held back |
| `EventStreamRoundTrip.CommentReleasesEvent` | src/onelo/_sse.py:105-107 | such a text, for any data: the event comes out only with the comment that follows |
| `EventStreamRoundTrip.EventRoundTrip` | src/onelo/_sse.py:111-124 | the lines of one event are interpreted to that event and clear buffers |
| `EventStreamSpellings.AnySpellingIsRead` | src/onelo/_sse.py:95-124 | any groups of data and event lines, with or without a space or a colon, each line ended by CRLF, LF or CR, in any chunks: the frames are the events that the groups say, and a last one behind a final CR is what is held back |
| `EventStreamSpellings.SpelledTextIsRead` | src/onelo/_sse.py:95-124 | the same of the whole text |
| `EventStreamSpellings.GroupsRead` | src/onelo/_sse.py:111-124 | the lines of such groups are interpreted to their events, data joined by LF, the last name counting, "message" without one, nothing without data |
| `EventStreamSpellings.LinesAreRead` | src/onelo/_sse.py:101-110 | lines without breaks, each ended by CRLF, LF or CR, are read as these lines |
| `StreamWatchdog.Watchdog.Wake` | src/onelo/_sse.py:403-413 | raises the signal, and resets the clock, when nothing was heard for more than 90 s |
| `StreamWatchdog.Watchdog.Heard` | src/onelo/_sse.py:344-347 | any frame sets the clock |
| `StreamWatchdog.SilenceIsDetected` | src/onelo/_sse.py:389-413 | in silence the first wake-up later than 90 s after the clock fires, none before does, and it comes within 120 s |
| `StreamWatchdog.QuietExactlyWhenHeard` | src/onelo/_sse.py:403-413 | the watchdog never fires if and only if at every wake-up something was heard at most 90 s before |
| `StreamWatchdog.FiringsFarApart` | src/onelo/_sse.py:410-413 | two firings are at least 120 s apart |
| `MonitorTransport.MonitorTransport.Send` | src/onelo/monitor/_transport.py:196-202 | enqueues, dropping and counting the oldest event of a full buffer; wakes for errors |
| `MonitorTransport.MonitorTransport.TakeBatch` | src/onelo/monitor/_transport.py:318-322 | takes the whole buffer |
| `MonitorTransport.MonitorTransport.NoteQuota` | src/onelo/monitor/_transport.py:386-415 | quota and window after a success |
| `MonitorTransport.MonitorTransport.SendOnce` | src/onelo/monitor/_transport.py:349-384 | whether the batch is done with, and the window, after any response |
| `MonitorTransport.MonitorTransport.SendBatchWithRetry` | src/onelo/monitor/_transport.py:332-347 | attempts go on up to three until an answer is a 2xx or 4xx; a failure or 5xx is sent again; only the last moves the window; pauses 0.5 s and 1 s |
| `MonitorTransport.MonitorTransport.MaybeReportDrops` | src/onelo/monitor/_transport.py:417-432 | reports the drops not yet reported |
| `MonitorTransport.WindowAfterAnswer` | src/onelo/monitor/_transport.py:363-413 | a batch is done with exactly on 2xx and 4xx; a 429 with positive Retry-After sets the window to exactly that, at most an hour; an exhausted quota lengthens it to 300 s and never shortens it; nothing else moves it |
| `MonitorTransport.QuotaAfterAnswer` | src/onelo/monitor/_transport.py:386-413 | the known quota is changed by a success that names one, and by nothing else |
| `MonitorTransport.AnswerKeepsTelling` | src/onelo/monitor/_transport.py:363-413 | the window holds off at exactly the times that the answers so far, with their arrivals, say; one more answer keeps this |
| `MonitorTransport.ParseRetryAfter` | src/onelo/monitor/_transport.py:547-561 | always between 0 and 3600 s |
| `EventLedger.SendKeepsValid` | src/onelo/monitor/_transport.py:196-202 | after a send the buffer is still the newest suffix of what was sent, and counter and batches still account for all the rest |
| `EventLedger.DrainKeepsValid` | src/onelo/monitor/_transport.py:317-322 | so it is after a drain |
| `EventLedger.Conservation` | src/onelo/monitor/_transport.py:196-202 | the batches in order, then the buffer, are the sent events without exactly the evicted ones; sent = dropped + drained + buffered; the bound holds |
| `EventLedger.InBatchIsMember` | src/onelo/monitor/_transport.py:317-322 | an event said to be in a batch is in it |
| `FlushProtocol.FlushGuarantee` | src/onelo/monitor/_transport.py:301-330 | when a flush that passed the hold-off check returns, each event sent before it was called is evicted or in a batch whose sending has returned |
| `FlushProtocol.FlushedSinceCall` | src/onelo/monitor/_transport.py:301-330 | the same, said of the state in which it was called |
| `FlushProtocol.OneBatchInFlight` | src/onelo/monitor/_transport.py:314-324 | at most one batch is in flight, in every interleaving; conservation, order and the bound hold throughout |
| `FlushProtocol.HeldOffFlushIsInvisible` | src/onelo/monitor/_transport.py:302-305 | in any run, a flush that an open window holds off takes part in nothing: without its look the same run leads to the same state but for the flush itself |
| `FlushProtocol.HeldOffExactly` | src/onelo/monitor/_transport.py:302-305 | in any run a flush that looks is held off if and only if a 429 whose Retry-After is not over, or an exhausted quota within 300 s, came before, and no later 429 took its place; else it queues |
| `FlushProtocol.FlushPostsAll` | src/onelo/monitor/_transport.py:302-324 | not held off, with the lock free and events buffered, it takes all of them and posts them |
| `FlushProtocol.FlushPostsAfterAnHour` | src/onelo/monitor/_transport.py:302-324 | so does every flush an hour after the last answer |
| `FlushProtocol.AnswerDecides` | src/onelo/monitor/_transport.py:332-347 | an answer ends the flush exactly when it is a 2xx or 4xx or the third; otherwise the same batch is posted once more |
| `FlushProtocol.FlushMakesProgress` | src/onelo/monitor/_transport.py:301-347 | every flush ends: each of its own steps leaves it fewer, no step of others adds any, and until it has returned its next step waits at most for lock, network or pause |
| `FlushProtocol.PostInsideWindow` | src/onelo/monitor/_transport.py:302-324 | a POST started inside an open window belongs to a flush that passed its check before the window was last moved; it was moved while the flush was queued, and the batch was already taken inside it |
| `FlushProtocol.HoldOffIsBounded` | src/onelo/monitor/_transport.py:547-561 | the window never reaches more than an hour ahead |
| `FlushProtocol.DropsReportedOnce` | src/onelo/monitor/_transport.py:417-432 | the reports sum to what was marked reported, never more than the drops; one report more covers all |
| `FlushProtocol.StepKeepsInv` | src/onelo/monitor/_transport.py:301-347 | every step keeps the accounts, the lock, the marks, the window and the reports right |
| `FlushProtocol.ReachableInv` | src/onelo/monitor/_transport.py:257-347 | hence they are right in every reachable state |
| `AuthCache.InProcessSyncAuthCache.Get` | src/onelo/_auth_cache.py:115-125 | a live entry is returned and made most recent; an expired one is removed |
| `AuthCache.InProcessSyncAuthCache.Set` | src/onelo/_auth_cache.py:127-136 | the entry is most recent and only the newest entries within the bound are left; without a positive ttl nothing happens |
| `AuthCache.InProcessSyncAuthCache.Invalidate` | src/onelo/_auth_cache.py:138-140 | exactly this key is removed |
| `AuthCacheRuns.HitIsLastSet` | src/onelo/_auth_cache.py:115-136 | after any operations, a hit is the user of the last `set` with positive ttl since any invalidate, before its expiry |
| `AuthCacheRuns.UnexpiredKeyHits` | src/onelo/_auth_cache.py:115-140 | conversely an unexpired key hits, with that user, while fewer than `max_size` other keys were set or hit since its last use |
| `AuthCacheRuns.RetainedWhileFewOthers` | src/onelo/_auth_cache.py:124-136 | the same from any valid cache whose most recent entry it is |
| `AuthCacheRuns.RunKeepsValid` | src/onelo/_auth_cache.py:127-136 | keys stay distinct and the size never exceeds the bound |
| `AuthCacheRuns.RunsIncluded` | src/onelo/_auth_cache.py:115-140 | after the same operations a smaller cache is a subsequence of a larger one, which holds at most the difference of the bounds in extra keys |
| `AuthCacheRuns.LargerCacheHitsToo` | src/onelo/_auth_cache.py:115-140 | so enlarging the cache never loses or changes a hit |
| `AuthCacheRuns.GetLeaves` | src/onelo/_auth_cache.py:115-125 | a look-up hits exactly before the expiry, makes that entry the most recent, and removes an expired entry of the key and no other |
| `UserSnapshotCache.UserSnapshotCache.Get` | src/onelo/_features.py:202-212 | an entry before its deadline is returned, an expired one is deleted |
| `UserSnapshotCache.UserSnapshotCache.Put` | src/onelo/_features.py:214-218 | writes the entry and evicts beyond the bound |
| `UserSnapshotCache.UserSnapshotCache.EvictLocked` | src/onelo/_features.py:220-230 | purges the expired, then drops the soonest to expire |
| `UserSnapshotCache.UserSnapshotCache.PurgeExpired` | src/onelo/_features.py:224-226 | deletes exactly the expired entries |
| `UserSnapshotCache.UserSnapshotCache.DropToBound` | src/onelo/_features.py:227-230 | deletes the soonest to expire, exactly as many as are beyond the bound |
| `UserSnapshotCache.UserSnapshotCache.Invalidate` | src/onelo/_features.py:232-234 | exactly this user's entry is removed |
| `UserSnapshotCache.UserSnapshotCache.Clear` | src/onelo/_features.py:236-238 | nothing is left |
| `UserSnapshotCache.PutFacts` | src/onelo/_features.py:214-230 | after a put the bound holds; no live entry is lost if purging suffices; a lost live entry, the written one included, has a deadline no later than every survivor |
| `UserSnapshotCache.PutSize` | src/onelo/_features.py:214-230 | what a put leaves: everything within the bound, else as many of the live entries as the bound allows, no fewer |
| `UserSnapshotCache.PutEvictsLast` | src/onelo/_features.py:214-230 | a live entry is lost to a put for another key only if the cache is then full of entries of others with no earlier deadline |
| `UserSnapshotCache.DropSoonestFacts` | src/onelo/_features.py:227-230 | dropping n entries leaves the others, none with an earlier deadline than one dropped |
| `UserSnapshotCache.FetchLeaves` | src/onelo/_features.py:202-212 | a look-up hits exactly before the deadline and then changes nothing; an expired entry of the key goes, and no other |
| `ForUserProtocol.ResultIsForTheUser` | src/onelo/_features.py:409-416 | over interleaved calls every result was resolved for the user it was asked for, and the cache stays within its bound |
| `ForUserProtocol.CachedWithinTtl` | src/onelo/_features.py:409-416 | a cached result is what another call for that user resolved, given out before that call's ttl had passed |
| `ForUserProtocol.EntryIsKept` | src/onelo/_features.py:409-416 | over runs of interleaved calls an entry neither invalidated nor replaced is kept until its deadline, unless the cache was full of entries of others with no earlier deadline |
| `ForUserProtocol.NextCallIsServed` | src/onelo/_features.py:409-411 | and the user's next call is then served with it |
| `ForUserProtocol.InvalidateIsEffective` | src/onelo/_features.py:457-473 | after an invalidate, of the user or of everyone, with no resolve for the user with a positive ttl in flight, no later call gets an answer to an earlier request |
| `ForUserProtocol.NextCallResolves` | src/onelo/_features.py:457-473 | the next call resolves again |
| `ForUserProtocol.InvalidateCanBeOverrun` | src/onelo/_features.py:412-415 | with such a resolve in flight, in a full cache too, a later call can be given its older answer: a run that does it |
| `ForUserProtocol.OverrunExactly` | src/onelo/_features.py:457-473 | a run in which an invalidate is overrun exists if and only if such a resolve is in flight and the cache can hold anything |
| `ForUserProtocol.RunKeeps` | src/onelo/_features.py:409-416 | entries and results belong to their users along every run, and what is fresh since a step stays fresh |
| `MetaScrubber.CleanMeta` | src/onelo/monitor/_scrub.py:217-230 | scrubs the dictionary and adds the sorted report when anything was redacted; None stays None |
| `MetaScrubber.Scrubber.CleanDict` | src/onelo/monitor/_scrub.py:236-256 | a scrubbed dictionary, with exactly its names added to the shared set |
| `MetaScrubber.Scrubber.CleanItem` | src/onelo/monitor/_scrub.py:247-255 | one item: passed through, redacted or scrubbed |
| `MetaScrubber.Scrubber.CleanValue` | src/onelo/monitor/_scrub.py:259-281 | a scrubbed value, with exactly its names added to the shared set |
| `MetaScrubber.SortNames` | src/onelo/monitor/_scrub.py:228-229 | every name once, in ascending order |
| `MetaScrubber.SortedFacts` | src/onelo/monitor/_scrub.py:228-229 | sorting keeps the set of names, once each, ascending |
| `MetaScrubber.ScrubMetaIdempotent` | src/onelo/monitor/_scrub.py:217-256 | scrubbing twice is scrubbing once, report included, for any idempotent text scrubber and any set of secret names |
| `MetaScrubber.ScrubTwice` | src/onelo/monitor/_scrub.py:259-281 | the same for any value at any depth, names included |
| `MetaScrubber.ScrubMetaSafe` | src/onelo/monitor/_scrub.py:247-255 | for any property of texts that all scrubbed texts have: every output has its secret keys redacted and its other texts with that property, outside passed-through reports, if and only if the depth marker's own name is not secret |
| `MetaScrubber.SecretKeysAreRedacted` | src/onelo/monitor/_scrub.py:247-255 | for every text scrubber: every output has all its secret keys redacted if and only if the depth marker's own name is not secret |
| `MetaScrubber.TextsAreScrubbed` | src/onelo/monitor/_scrub.py:262-263 | for every text scrubber: and every other text has been through it |
| `MetaScrubber.TextsAreClean` | src/onelo/monitor/_scrub.py:262-263 | for an idempotent text scrubber: and scrubbing it again changes nothing |
| `PassedThrough.OutputStrictExactly` | src/onelo/monitor/_scrub.py:247-250 | for each input: the output is free of secrets without exception if and only if the values that stand under the report key, once the report is in place, are |
| `PassedThrough.NestedReportComesOut` | src/onelo/monitor/_scrub.py:248-250 | any value under a nested report key comes out as it is: an input |
| `ScrubbedPaths.EachValueComesOut` | src/onelo/monitor/_scrub.py:236-281 | wherever a path through no secret and no passed-through key leads within the limit, the same path in the output leads to what that very value becomes: `scrub_text` of the text, the scalar itself, a dictionary with the same keys in order, a list or tuple of the same length |
| `ScrubbedPaths.TopComesOut` | src/onelo/monitor/_scrub.py:217-256 | the top dictionary keeps its keys in order, secret ones redacted; only the report is added or takes its place |
| `ScrubbedPaths.ScrubbedComesOut` | src/onelo/monitor/_scrub.py:259-281 | what a value becomes, at any depth |
| `ScrubbedPaths.HarmlessComesThrough` | src/onelo/monitor/_scrub.py:217-281 | metadata without secret keys, report key, named tuples or texts that `scrub_text` would change, within the limit, comes out as it is, without a report |
| `MetaScrubber.OutputSafe` | src/onelo/monitor/_scrub.py:259-281 | the same for any value at any depth |
| `MetaScrubber.ScrubMetaNesting` | src/onelo/monitor/_scrub.py:241-245 | at most ten levels of containers below the top dictionary |
| `MetaScrubber.NestingBounded` | src/onelo/monitor/_scrub.py:268-271 | at depth d at most 11 - d levels of containers are left |
| `MetaScrubber.NestingBoundIsMet` | src/onelo/monitor/_scrub.py:241-245 | the bound is reached, and shorter chains are kept whole |
| `MetaScrubber.ReportIsExact` | src/onelo/monitor/_scrub.py:226-230 | a name is reported if and only if a way down, not through redacted or passed-through keys, meets it as a secret key, or reaches a container at the limit (the marker); without names no report is added |
| `VerifyRetry.VerifyTokenSync` | src/onelo/auth.py:424-460 | attempts and pauses are exactly those of a run: another attempt follows if and only if the last was unavailable, not rate-limited, not the last allowed, and time was left before and after the pause; the result is the last attempt's |
| `VerifyRetry.FirstDefiniteAnswer` | src/onelo/auth.py:437-460 | no definite answer is retried, and the first one is what the caller gets if and only if time lasts until then; verified means it is a 200 with this non-empty user id, and each refusal has its own status |
| `VerifyRetry.PausesBounded` | src/onelo/auth.py:448-457 | n pauses sum to at most 0.1 (2^n - 1) s; and to the total timeout if pauses last as long as requested |
| `VerifyRetry.CapHoldsExactly` | src/onelo/auth.py:434-457 | for clocks that merely do not run backwards, the pauses of every run stay within the total timeout if and only if at most 2 attempts are allowed or 0.1 (2^(attempts - 1) - 1) s fits |
| `VerifyRetry.DefaultsKeepTheCap` | src/onelo/auth.py:382-383 | the defaults meet that condition |
| `VerifyRetry.DefaultPauses` | src/onelo/auth.py:382-383 | with the defaults, when nothing answers, the pauses are 0.1 s and 0.2 s |
| `VerifyRetry.SumBelowClock` | src/onelo/auth.py:452-457 | the pauses fit between start and deadline |
| `VerifyRetry.PausesCutShort` | src/onelo/auth.py:434-457 | 3 attempts in 0.15 s do not: a run that requests more |
| `VerifyRetry.RequestOverruns` | src/onelo/auth.py:404-406 | no setting caps the whole call: a run that ends any given time after the deadline |
| `VerifyRetry.OneRequestOverruns` | src/onelo/auth.py:437-457 | every attempt after the first begins before the deadline, so with pauses that end in time the call ends by one longest request after it |
| `VerifyRetry.CallCapHoldsExactly` | src/onelo/auth.py:437-457 | for requests of bounded length and pauses as long as asked, every call ends by the deadline if and only if each attempt that the pauses leave time for fits in with the longest requests |
| `BatchPing.DiscoveredNames.Add` | src/onelo/_features.py:255-263 | adds the name and tells whether it was new |
| `BatchPing.DiscoveredNames.AddMany` | src/onelo/_features.py:265-270 | adds the names and tells whether any was new |
| `BatchPing.EveryNameIsCovered` | src/onelo/_client.py:383-416 | every name is covered by a caller about to schedule, a queued reset, a sleeping timer, an outstanding ping that carries it, or a finished one that did, unless it was known at a dropped schedule that none came after |
| `BatchPing.AtRestAllAttempted` | src/onelo/_client.py:400-416 | at rest every name has been in a finished ping, except those |
| `BatchPing.ResetsBounded` | src/onelo/_client.py:395-407 | resets run, queued and to come, and dropped schedules, are together as many as the calls that added a name |
| `BatchPing.KnownAreAsked` | src/onelo/_features.py:255-270 | exactly the names that were ever asked about are known |
| `BatchPing.ComesToRest` | src/onelo/_client.py:395-416 | from any state, with no further calls, everything arranged runs out and the client comes to rest |
| `BatchPing.ArrangedStepsRunOut` | src/onelo/_client.py:395-416 | each arranged step leaves fewer to come, and none is left exactly at rest |
| `BatchPing.KnownNamesArrangeNothing` | src/onelo/_client.py:388-394 | asking again for known names arranges no ping |
| `BatchPing.OrphanExists` | src/onelo/_client.py:388-394 | so a name can stay unpinged: a run that does it |
| `BatchPing.NewNameCatchesUp` | src/onelo/_client.py:388-416 | with the loop up, whatever comes after a call for a new name, at rest every name asked about has been in a finished ping |
| `BatchPing.DiscoveryCatchesUp` | src/onelo/_client.py:379-381 | with the loop up, once the pings of a discovery request have ended every name known at it has been in a finished ping |
| `BatchPing.OrphanIsCaughtUpExactly` | src/onelo/_client.py:388-394 | from rest to rest with the loop up, an unpinged name gets into a finished ping if and only if a new name was asked about or a discovery requested |
| `BatchPing.StepKeepsInv` | src/onelo/_client.py:383-437 | every step keeps the coverage and the count |

## Left out

* HTTP, TLS, pooling, headers and URLs, and `_sync_post`: requests are steps that end somehow. The
  Content-Type check in front of the decoder (`src/onelo/_sse.py:89-94`) is left out with them.
* JSON decoding: the model starts from a decoded body or a malformed one. `config_version` is an integer;
  the source stores whatever JSON value the backend sends.
* Text is what the HTTP client yields after character decoding.
* Framework adapters, monitor integrations, excepthooks, atexit and fork handling, logging, sampling.
  A flush that is cut off because the transport's loop is closed at shutdown is therefore not a run of
  the model, nor is a flush that times out on the caller's side.
* `SSEConsumer.run` and `PollingConsumer.run` are steps of `IdentityProtocol`, not loops of a method; the
  length of the reconnect delay (full jitter) is left open there.
* The regular expressions of the text scrubber and `is_pii_key` are parameters of `MetaScrubber.Policy`.
  `TextsAreClean`, `ScrubTwice` and `ScrubMetaIdempotent` need the text scrubber to be idempotent. The cascade of
  patterns in `scrub_text` is not: redacting one secret can make another, written right behind it, recognisable
  to a second pass. The other results hold for every text scrubber. `scrub_headers` and `scrub_url` are left out.
* `InProcessAuthCache` is the same algorithm as `InProcessSyncAuthCache` behind an asyncio lock. The adapters'
  choice of ttl is left out.
* The in-place dictionaries of the two caches are sequences of entries in dictionary order, held in a field
  that the methods reassign; aliasing of the stored user and snapshot objects is not modelled, nor are the
  defensive copies that `get_state` makes.
* Feature status predicates, plans, store, scope merging, trace continuation and wire serialisation: each
  is settled by one branch or one copy.
* Argument checks in front of the modelled operations: an empty token or a publishable key in
  `verify_token_sync`, an empty user id or a publishable key in `for_user`.
- UserSnapshotCache.UserSnapshotCache.DropToBound: does not sort; it deletes the first entry with the least deadline until the bound is met, one entry at a time.
- IdentifyCall.Onelo.Identify: does not model the user lock, which is a step of `IdentityProtocol`; `signals` counts the calls of `signal_user_change`.
- MonitorTransport.MonitorTransport.SendBatchWithRetry: takes the responses and the clock as inputs; the early return without an HTTP client is not modelled.
- VerifyRetry.VerifyTokenSync: takes the responses and the clock readings as inputs.
- StreamWatchdog.SilenceIsDetected: assumes an open stream and wake-ups exactly one interval apart, as does `FiringsFarApart`; while the stream waits for response headers the signal is not looked at.
- IdentityProtocol.NoLostWakeUp: speaks of a consumer in its frame wait or its interval wait; one that still waits for response headers notices the signal only once they arrive or the connection fails.
- FlushProtocol.FlushGuarantee: says that the batch is done with, not that the backend took it; a batch is given up after three failed attempts or a 4xx answer.
