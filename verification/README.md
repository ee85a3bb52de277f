# Verified core of lyqtRpc

lyqtRpc is a C++ RPC framework: clients pick a provider from a discovered host list, call it over
TCP or over a shared-memory channel, retry on another host, and are held back by circuit breakers
and rate limiters. This project models the parts of it whose correctness is not visible in any one
function, and proves what they guarantee over every input, every interleaving or every run.

| files | component |
|---|---|
| `Bytes`, `Arith`, `Options` | byte encodings of 32-bit integers; division facts and circular positions; optional values |
| `RingLayout`, `RingProtocol`, `RingProgress`, `RingCapacity`, `RingWrap`, `RingWrapped`, `ShmChannel` | the single-producer single-consumer ring of the shared-memory channel |
| `HashRing`, `HostTable`, `HostOrder`, `MethodHost`, `RetryLoop` | host selection and the retry loop over the candidates |
| `Breaker`, `NodeBreaker`, `CallAccounting` | the circuit breaker and what calls report to it |
| `Requestor` | response against timeout on one request table |
| `LeaderElection` | leader election over leases |
| `LvProtocol`, `TokenBucket` | wire framing under arbitrary chunking; the rate limiter |

How the model is built:

- Objects whose methods change fields are classes (`ShmChannel.Ring`, `MethodHostModel.MethodHost`,
  `NodeBreakerModel.NodeBreaker`, `LvProtocol.Connection`, `TokenBucketModel.TokenBucket`). Each
  method is proved against a function on values or a ghost queue, and the results about runs are
  proved of those.
- Concurrent protocols are step systems: a state, a total function `Apply` on states and actions in
  which a disabled action changes nothing, and `Run` over lists of actions. A theorem about every
  list is a theorem about every interleaving. The ring steps are single byte stores, index loads and
  index publications; a load of either index by the other side may return any value it has held
  between the last one seen and the current one.
- Clocks, random draws, the network, the payload codec and the hash function are parameters.
  Indices, counters and times are unbounded unless a width is named; `RingWrap` and `RingWrapped`
  treat the 64-bit ring indices. The token bucket computes over the reals.

## What the results say where the code and its comments differ

- The comment in `write_to` says the length field does not count itself; it does: the field holds
  8 + body length, and the model follows the code.
- A frame that passes the capacity check can still be refused for ever by an empty ring. The exact
  acceptance condition is `DrainedAccepts`, and `HalfIsTight` shows a run for every length it excludes.
- `*_commit` cuts the frame length to 32 bits without the size check `write_to` has. `Commit` states
  what follows for every length: the frame in the span is enqueued iff it is below 2^32 bytes; a
  longer one becomes a frame with a shorter body, a corrupt header, or nothing, depending on what
  the cut leaves. `Send` stays below because protobuf serialises fewer than 2^31 bytes.
- With 64-bit indices the pin sentinel 0 coincides with a real pin when a frame ends on a multiple
  of 2^64 (`PinSentinelExact`). Every run without such a pin behaves as with unbounded indices
  (`RunSame`); from the first such pin the reader alone receives more frames than were sent
  (`FirstLostPin`), and some run gets there (`SentinelDuplicates`).
- A failed probe does not reset the half-open counter: an episode entered with counter h admits
  max(1, `half_open_max_req` - h) probes (`EpisodeAdmits`), so once the counter has reached the
  quota every further episode admits one.
- Unless a lost connection is reported from outside, a half-open breaker refuses for ever exactly
  when its quota is used and nothing is in flight (`StuckExactly`). In every reachable such state all probes of the episode ended in local send
  failures (`StuckOnlyAfterLocalExits`), and every configuration has one (`StuckReachable`).
- The unguarded `set_value` of `onResponse` can throw `std::future_error` out of the handler. A
  thread finishes one handler before the next; for given handlers of a request on given threads some
  interleaving throws iff one is a response and another runs on a different thread
  (`ThrowsExactly`). A response and the `onTimeout` of a synchronous wait are enough, and the promise
  then keeps the other handler's value (`RaceReachable`); a response and the timer of the same event
  loop never throw.
- `isLeader()` may be true on two instances at once (`TwoMayClaim`). A claim is the one the leader
  key records iff its lease is live (`ClaimIsGoodExactly`), which is so for at most one instance
  (`OneLiveLeader`).
- The 10 MB limit of the drain loop applies to incomplete input only: a message survives every
  chunking iff its frame is at most one byte over the limit (`SizeLimitExact`).
- A frame whose length field is 0 to 7 passes `canProcessed`, after which `onMessage` reads its type
  and id length. With fewer than 12 bytes buffered it reads past them (`OverrunsOnStunted`), so
  whether such input is rejected or overruns depends on the chunking (`StuntedFrameOverruns`).
- The retry hint of the token bucket holds although clock samples are taken outside the lock and may
  reach it out of order (`RetryAfterGuarantees`).

## Model

| member | source | states |
|---|---|---|
| Bytes.TwosComplement | rpc/src/general/shm_channel.cc:344-346 | a message type is written as the number below 2^32 that differs from it by a multiple of 2^32 |
| Bytes.LittleEndian | rpc/src/general/shm_channel.cc:340-346 | the integers of a ring frame put their least significant byte first |
| Bytes.BigEndian | rpc/src/general/net.hpp:153-156 | those of a wire frame put it last |
| RingLayout.EncodeIsImage | rpc/src/general/shm_channel.cc:340-348 | the bytes written for a frame, read field by field as the reader reads them, are that frame's length, type and body |
| RingLayout.ImageIsEncode | rpc/src/general/shm_channel.cc:340-348 | no other bytes read back as that frame |
| RingLayout.PlaceRoom | rpc/src/general/shm_channel.cc:291-336 | the two space checks accept a frame iff it ends within one lap of the read index used, directly iff it fits the tail; the tail is marked iff it is too short and the first check passes |
| RingLayout.SpanExact | rpc/src/general/shm_channel.cc:849-872 | a span offers n bytes iff header and n bytes fit before the end of the data area and within one lap of the read index used |
| RingLayout.WriteFree | rpc/src/general/shm_channel.cc:343-348 | a byte stored at a free position changes no published byte |
| RingLayout.QueuedAppend | rpc/src/general/shm_channel.cc:350-352 | publishing a finished frame, with its marker if it needed one, extends the queue held in the ring by exactly that frame |
| RingLayout.ReadWhole | rpc/src/general/shm_channel.cc:411-437 | reading the header of a stored frame and slicing its body gives the frame back |
| RingLayout.ReadQueued | rpc/src/general/shm_channel.cc:389-441 | at the head of a non-empty queue the reader finds the oldest frame, or one skip marker after which it stands at offset 0 on that frame; never a corrupt header |
| RingLayout.HeaderReadsExactly | rpc/src/general/shm_channel.cc:402-435 | on any bytes: skipped iff fewer than four are left or four zeros come first, a frame iff the encoding of its header comes first and it ends in the data area |
| RingProtocol.StepKeeps | rpc/src/general/shm_channel.cc:254-468 | every step of either side keeps the ring invariant: indices, queued bytes, unpublished bytes and pin |
| RingProtocol.FifoDelivery | rpc/src/general/shm_channel.cc:254-468 | in every interleaving of both write forms and both read forms, the frames received are a prefix of the frames sent and the ring holds exactly the rest |
| RingProtocol.IndexBounds | rpc/src/general/shm_channel.cc:284-300 | 0 <= write_idx - read_idx <= data_size in every reachable state, and no value of read_idx the producer may load makes the free-space subtraction negative |
| RingProtocol.ViewShowsHead | rpc/src/general/shm_channel.cc:430-441 | a pinned view lies inside the data area and shows the body of the oldest unreleased frame |
| RingProtocol.CopyIsFrame | rpc/src/general/shm_channel.cc:455-468 | a copy taken from a pinned view is the body of the oldest unreleased frame |
| RingProtocol.PinnedViewStable | rpc/src/general/shm_channel.cc:378-452 | from pin to release no step changes the place, type or any byte of a view, even with stale read indices |
| RingProtocol.LoadValue | rpc/src/general/shm_channel.cc:392-395 | every value of write_idx a load can return lies between read_idx and write_idx, and equals read_idx iff it shows no frame beyond those received |
| RingProtocol.ReadLoopOutcome | rpc/src/general/shm_channel.cc:383-442 | the corrupt-frame branch is unreachable, a call skips at most once, a call that skipped finds a frame, a load ends the call iff the publications it shows, possibly not the newest, are all received, and each pass skips for the first time or pins the oldest frame |
| RingProgress.WriteCompletes | rpc/src/general/shm_channel.cc:282-355 | a write that finds room is published by the producer alone, whatever the reader is doing, and moves write_idx past the skipped tail and the frame |
| RingProgress.RefusedLooksAgain | rpc/src/general/shm_channel.cc:294-374 | a write that finds no room marks an unusable tail if it must and looks again, with nothing published |
| RingProgress.SpanWriteCompletes | rpc/src/general/shm_channel.cc:849-893 | a body that fits the span is published by the zero-copy form to the same effect: the same frame, ending at the same position |
| RingProgress.ProducerRests | rpc/src/general/shm_channel.cc:282-374 | from every reachable state the producer alone comes to rest, having published the frame it was placing or none |
| RingProgress.ReadCompletes | rpc/src/general/shm_channel.cc:378-452 | while a frame is unreceived, one read and release of an idle reader receives the oldest, whatever the producer is doing |
| RingProgress.ReaderCatchesUp | rpc/src/general/shm_channel.cc:378-452 | from any reachable state an idle reader alone receives everything published |
| RingProgress.ReaderAlwaysCatchesUp | rpc/src/general/shm_channel.cc:378-452 | the same from every reachable state, whatever the reader was in the middle of |
| RingCapacity.DrainedAccepts | rpc/src/general/shm_channel.cc:294-335 | a drained ring accepts a length iff it fits before or after the current offset |
| RingCapacity.HalfAlwaysFits | rpc/src/general/shm_channel.cc:294-335 | lengths up to half the ring, rounded up, are accepted at every offset |
| RingCapacity.StaleNeverHelps | rpc/src/general/shm_channel.cc:284-300 | an older read index never turns a refusal into an acceptance |
| RingCapacity.RefusedForever | rpc/src/general/shm_channel.cc:282-374 | a ring drained where neither side of the offset holds a length publishes nothing as long as only that length is written, by either write form |
| RingCapacity.HalfIsTight | rpc/src/general/shm_channel.cc:266-336 | for rings of 16 bytes or more, every longer length within capacity has a run after which the drained ring refuses it however often it is retried |
| RingWrap.OffsetSurvivesWrap | rpc/src/general/shm_channel.cc:304-306 | a wrapped 64-bit index names the same byte as the unbounded one, for all indices, iff the ring size divides 2^64 |
| RingWrap.DistanceSurvivesWrap | rpc/src/general/shm_channel.cc:294-296 | unsigned 64-bit subtraction of wrapped indices gives the true distance, and equal wrapped indices mean equal indices |
| RingWrap.PlacementSurvivesWrap | rpc/src/general/shm_channel.cc:294-336 | on such a ring write_to decides on wrapped indices as on unbounded ones |
| RingWrap.PinSentinelExact | rpc/src/general/shm_channel.cc:383-452 | release takes effect iff the frame does not end on a multiple of 2^64; otherwise read_idx stays, which can only happen to a frame flush with the end of the data area |
| RingWrapped.StepSame | rpc/src/general/shm_channel.cc:282-452 | on a ring whose size divides 2^64, each step on 64-bit indices is the step on unbounded indices, unless the reader holds a pin that reads as 0 |
| RingWrapped.RunSame | rpc/src/general/shm_channel.cc:282-452 | every 64-bit run without such a pin is an unbounded run with its indices cut to 64 bits |
| RingWrapped.FifoDelivery64 | rpc/src/general/shm_channel.cc:294-296 | such runs deliver in order and uncorrupted across the wrap, and a pinned view shows the oldest frame |
| RingWrapped.LostPinReplays | rpc/src/general/shm_channel.cc:383-452 | a pin that reads as 0 leaves the reader in front of the frame it has just been given |
| RingWrapped.FirstLostPin | rpc/src/general/shm_channel.cc:383-452 | delivery is exact up to the first such pin, and from it consumer steps alone receive any number of frames more than were sent |
| RingWrapped.ReplayForever | rpc/src/general/shm_channel.cc:445-452 | from there n reads deliver that frame n times more and move nothing |
| RingWrapped.SentinelDuplicates | rpc/src/general/shm_channel.cc:445-452 | on every such ring of 8 to 2^32 - 1 bytes some run receives any number of frames more than were sent |
| ShmChannel.Ring.WriteTo | rpc/src/general/shm_channel.cc:254-375 | while the reader releases frames and steps over markers between the attempts, the frame is enqueued iff it passes both size checks and some attempt finds room; otherwise nothing is published; no byte still published changes either way |
| ShmChannel.Ring.MarkSkip | rpc/src/general/shm_channel.cc:309-328 | the unusable tail gets its marker, the queue stays |
| ShmChannel.Ring.WritePtr | rpc/src/general/shm_channel.cc:849-872 | the span offers exactly the lengths for which header and body fit before the end of the data area and within one lap of the read index used, and leaves 8 bytes before it |
| ShmChannel.Ring.Commit | rpc/src/general/shm_channel.cc:874-893 | the frame in the span is enqueued iff it is below 2^32 bytes; otherwise the cut length decides: 8 or more enqueues the shorter body, 1 to 7 leaves a corrupt header behind the queue, 0 publishes nothing; no published byte changes |
| ShmChannel.CommitHeader | rpc/src/general/shm_channel.cc:885-890 | a reader at a committed header meets the whole frame, the corrupt-frame branch or a skip, by the length it carries |
| ShmChannel.Ring.ReadFrameView | rpc/src/general/shm_channel.cc:378-443 | succeeds iff nothing is pinned and a frame is queued; shows the oldest frame in place, pins it, and leaves the queue |
| ShmChannel.Ring.ReleaseFrameView | rpc/src/general/shm_channel.cc:445-452 | the pinned frame leaves the queue; without a pin nothing changes |
| ShmChannel.Ring.ReadFrom | rpc/src/general/shm_channel.cc:455-468 | succeeds iff nothing is pinned and a frame is queued; returns a copy of the oldest frame and dequeues it |
| ShmChannel.Ring.Send | rpc/src/client/shm_client_proto.hpp:83-141 | succeeds iff the message is a request, the channel is open, the frame is within capacity and the span or some fallback attempt has room, with the reader working meanwhile; then one frame with the request is enqueued at the same place by either form; otherwise none, with the error the client records; the connection is marked dead exactly with CONN_CLOSED |
| HashRing.BuildOwner | rpc/src/client/rpc_registry.hpp:228-243 | a full build maps each virtual-node point to the last host that has it, and nothing else, for any hash |
| HashRing.NodeNamesDiffer | rpc/src/client/rpc_registry.hpp:228-235 | different hosts and different virtual nodes hash different strings |
| HashRing.OwnPoints | rpc/src/client/rpc_registry.hpp:228-235 | with a hash without collisions every host has 160 points, none shared |
| HashRing.FirstIsLowerBound | rpc/src/client/rpc_registry.hpp:124-126 | the first point clockwise is the smallest one not below the hash, else the smallest of all |
| HashRing.RemovalIsMinimal | rpc/src/client/rpc_registry.hpp:120-128 | removing a host moves only keys that were routed to it, collisions and shifted positions included |
| HashRing.AdditionIsMinimal | rpc/src/client/rpc_registry.hpp:120-128 | adding a host moves a key only to the new host |
| HostTable.AppendAgrees | rpc/src/client/rpc_registry.hpp:25-42 | an append keeps the ring equal to a full rebuild |
| HostTable.AppendContents | rpc/src/client/rpc_registry.hpp:25-42 | the host stands in the list with its new load, in its place or at the end, and nothing else changes |
| HostTable.RemoveContents | rpc/src/client/rpc_registry.hpp:245-261 | the first entry for the host is gone and the others keep their order |
| HostTable.ListsExpected | rpc/src/client/rpc_registry.hpp:25-261 | after any operations on a list without duplicates exactly the hosts appended and not removed since are listed, each once |
| HostTable.IncrementalRingExact | rpc/src/client/rpc_registry.hpp:25-42 | after any appends and removals a built ring equals a full rebuild and every position in it is valid |
| HostTable.RemoveReroutesOnlyItsKeys | rpc/src/client/rpc_registry.hpp:245-261 | removeHost re-routes only keys routed to the removed host |
| HostTable.AppendReroutesOnlyToIt | rpc/src/client/rpc_registry.hpp:25-42 | appendHost re-routes keys only to the appended host, and a load update re-routes none |
| HostOrder.RoundRobinIsFair | rpc/src/client/rpc_registry.hpp:65-71 | any n consecutive picks over n hosts use each position once, across the counter reduction too |
| HostOrder.NthPickAdvances | rpc/src/client/rpc_registry.hpp:65-71 | the k-th pick from counter value c is position (c + k) modulo n, across the counter reduction |
| HostOrder.StableOrderSorts | rpc/src/client/rpc_registry.hpp:174-178 | the load order is ascending with ties in list order |
| HostOrder.LeadingGroupIsBest | rpc/src/client/rpc_registry.hpp:179-181 | the leading equal-load group is exactly the lightest hosts, in list order |
| MethodHostModel.MethodHost.InsertNodes | rpc/src/client/rpc_registry.hpp:228-235 | the loop overwrites exactly the points of the host's virtual nodes |
| MethodHostModel.MethodHost.RebuildRing | rpc/src/client/rpc_registry.hpp:237-243 | the ring becomes the full build of the current list |
| MethodHostModel.MethodHost.AppendHost | rpc/src/client/rpc_registry.hpp:25-42 | updates in place what the table function says, keeping ring and list in agreement |
| MethodHostModel.MethodHost.RemoveHost | rpc/src/client/rpc_registry.hpp:245-261 | likewise for removal |
| MethodHostModel.MethodHost.PickLowestLoad | rpc/src/client/rpc_registry.hpp:90-118 | the lightest hosts take turns by the counter |
| MethodHostModel.MethodHost.PickConsistentHash | rpc/src/client/rpc_registry.hpp:120-128 | the host owning the first point clockwise from the key's hash |
| MethodHostModel.MethodHost.SelectHost | rpc/src/client/rpc_registry.hpp:44-62 | the host each strategy singles out, with the counter update; the random draw where the strategy falls back to chance; no host on an empty list |
| MethodHostModel.MethodHost.SelectHosts | rpc/src/client/rpc_registry.hpp:132-218 | unless it is left to chance the whole list is fixed: the rotation from the counter or the key's hash, the stable load order with its lightest group rotated, or the owners in first clockwise appearance; it starts with the host selectHost singles out in the same state and makes the same counter update; where chance decides it is the shuffle |
| MethodHostModel.ChanceExactly | rpc/src/client/rpc_registry.hpp:44-128 | only the random strategy, an empty key and an empty ring leave the choice to chance |
| MethodHostModel.SinglesOne | rpc/src/client/rpc_registry.hpp:129-131 | a state singles out one host, so the head of the list is selectHost's answer |
| MethodHostModel.MethodHost.CandidatesLowestLoad | rpc/src/client/rpc_registry.hpp:170-189 | a permutation by ascending load whose lightest group is rotated by the counter |
| MethodHostModel.MethodHost.CandidatesConsistentHash | rpc/src/client/rpc_registry.hpp:190-215 | no duplicates, exactly the hosts owning a ring point, in order of first clockwise appearance, starting at the first point |
| MethodHostModel.WalkRing | rpc/src/client/rpc_registry.hpp:197-213 | the walk with early exit lists every owner once, by its first point clockwise |
| RetryLoop.PickUntried | rpc/src/client/rpc_client.hpp:206-215 | the first host outside the tried set; when all are tried the set is cleared and the first is taken |
| RetryLoop.Call | rpc/src/client/rpc_client.hpp:282-324 | attempt k contacts distinct candidate k modulo their number; goes on only past retryable errors; at most max(0, max_retries) + 1 attempts; terminates |
| RetryLoop.RetryableExactly | rpc/src/general/publicconfig.hpp:67-71 | every error but SERVICE_ERROR is retried |
| RetryLoop.DedupDistinct | rpc/src/client/rpc_client.hpp:206-215 | candidates without duplicates are walked as they stand |
| RetryLoop.ReachesDistinctHosts | rpc/src/client/rpc_client.hpp:404-458 | that many attempts reach min(distinct candidates, attempts) hosts |
| Breaker.ClosedOpensExactly | rpc/src/client/node_breaker.cpp:70-92 | from CLOSED only a failure opens, exactly when the last window positions hold at least min_calls outcomes and the ratio of failures among them is reached |
| Breaker.RunOpensExactly | rpc/src/client/node_breaker.cpp:70-92 | over runs: a breaker that is new or just closed opens exactly on the failure with which the last window outcomes reported since meet both thresholds |
| Breaker.PhaseMovesExactly | rpc/src/client/node_breaker.cpp:13-105 | every event's change of phase, and that closing alone clears the counter and the outcomes |
| Breaker.ClampExact | rpc/src/client/node_breaker.hpp:39-48 | the clamps leave exactly the admissible configurations alone and make every other one admissible |
| Breaker.ClampsGuaranteeOpening | rpc/src/client/node_breaker.hpp:39-48 | whatever the configuration, window-size failures without a success take a closed breaker out of CLOSED |
| Breaker.OpenRefuses | rpc/src/client/node_breaker.cpp:18-35 | after opening, nothing is admitted before the open time has passed, unless a late success closes the breaker |
| Breaker.CoolDownExact | rpc/src/client/node_breaker.cpp:13-35 | after the failure at time t that opened the breaker, without a success, the first request admitted is the first one at or after t + open time; later failures do not prolong it |
| Breaker.ProbeBound | rpc/src/client/node_breaker.cpp:13-48 | over every run the half-open counter equals the probes admitted since the last close, at most episodes + max(0, half_open_max_req - 1) |
| Breaker.EpisodeAdmits | rpc/src/client/node_breaker.cpp:18-47 | of n requests in an episode entered with counter h exactly min(n, max(1, half_open_max_req - h)) are admitted, and the counter grows by that |
| NodeBreakerModel.RecordStep | rpc/src/client/node_breaker.hpp:74-85 | overwriting one slot of the circular window keeps it the last outcomes, and the counter updates are the change of their counts |
| NodeBreakerModel.NodeBreaker.Record | rpc/src/client/node_breaker.hpp:74-85 | window and counters stay the last window_size outcomes since the last clear |
| NodeBreakerModel.NodeBreaker.ShouldOpen | rpc/src/client/node_breaker.hpp:97-102 | the counters decide as the plain list of the last outcomes would |
| NodeBreakerModel.WindowsThatFit | rpc/src/client/node_breaker.hpp:97-102 | the two products stay within a 32-bit int for every list of outcomes iff the window is at most 21 474 836 |
| NodeBreakerModel.NodeBreaker.AllowRequest | rpc/src/client/node_breaker.cpp:13-48 | admits as the plain-list breaker does and moves as it does |
| NodeBreakerModel.NodeBreaker.OnSuccess | rpc/src/client/node_breaker.cpp:51-67 | moves as the plain-list breaker, and reports exactly the phase changes |
| NodeBreakerModel.NodeBreaker.OnFailure | rpc/src/client/node_breaker.cpp:70-105 | opens from CLOSED exactly when the plain list meets the thresholds, from HALF_OPEN always; reports exactly the phase changes |
| NodeBreakerModel.NodeBreaker.LoadStatus | rpc/src/client/node_breaker.hpp:49-64 | restores the saved phase with an empty window; an open breaker resumes its cool-down |
| CallAccounting.OneReport | rpc/src/client/caller.hpp:40-94 | an admitted call of either kind reports exactly one outcome, success iff it returns success, except on a local send failure, where it reports none and the error is neither a timeout nor a closed connection |
| CallAccounting.SucceedsExactly | rpc/src/client/caller.hpp:40-343 | a call succeeds iff the reply that decides it, the second one after a busy first, is a success that can be parsed |
| CallAccounting.FailsWith | rpc/src/client/caller.hpp:40-343 | a failed call returns the error of its send, or the one its reply's code stands for |
| CallAccounting.BlamesHostExactly | rpc/src/client/caller.hpp:479-482 | of the send errors exactly TIMEOUT and CONN_CLOSED are reported against the host |
| CallAccounting.HalfOpenResolves | rpc/src/client/caller.hpp:227-343 | without local exits a half-open breaker has a probe of its episode in flight, and whichever call finishes next takes it to CLOSED or OPEN |
| CallAccounting.StuckForever | rpc/src/client/node_breaker.cpp:36-47 | half open, quota used and nothing in flight: every later request is refused, at any time |
| CallAccounting.StuckExactly | rpc/src/client/node_breaker.cpp:36-47 | a half-open breaker admits nothing in any continuation without an outside report iff it is in that state |
| CallAccounting.StuckOnlyAfterLocalExits | rpc/src/client/caller.hpp:479-482 | in every reachable such state there was a probe in the current episode and every one of them ended locally |
| CallAccounting.StuckReachable | rpc/src/client/caller.hpp:62-70 | and under every configuration some run does get there |
| Requestor.SettledExactly | rpc/src/client/requestor.hpp:44-141 | in every interleaving, once the handlers of a request have finished and one found its descriptor, the promise holds a reply to it that arrived, or the timeout reply if a timeout fired, and no table entry remains |
| Requestor.ValueComesFromRun | rpc/src/client/requestor.hpp:72-125 | at any time a promise holds only a reply to its request that arrived in the run, or the timeout reply if a timeout for it fired |
| Requestor.LateHandlerIgnored | rpc/src/client/requestor.hpp:55-100 | a handler that has not passed its check when a timeout has marked the request never touches the promise |
| Requestor.TimeoutMarks | rpc/src/client/requestor.hpp:92-100 | every timeout handler past its check has marked its request |
| Requestor.GoneForGood | rpc/src/client/requestor.hpp:249-282 | a request out of the table stays out |
| Requestor.FailedSendUnanswered | rpc/src/client/requestor.hpp:176-184 | a request taken out before any handler came for it is never answered |
| Requestor.PromiseIsWriteOnce | rpc/src/client/requestor.hpp:72-83 | a promise keeps its first value over every continuation |
| Requestor.RaceReachable | rpc/src/client/requestor.hpp:72-75 | given a response handler and a handler on another thread, some interleaving of exactly the given handlers throws out of a response, and the promise holds the other handler's value |
| Requestor.NeverThrows | rpc/src/client/requestor.hpp:44-83 | a run whose responses for an id have no handler for that id on another thread never throws, in any interleaving |
| Requestor.ThrowsExactly | rpc/src/client/requestor.hpp:44-141 | for given handlers of an id on given threads some interleaving throws iff one is a response and another runs on a different thread |
| LeaderElection.StepKeeps | rpc/src/server/etcd_leader_election.cpp:64-179 | every step of electors, network and store keeps the election invariant |
| LeaderElection.OneLiveLeader | rpc/src/server/etcd_leader_election.cpp:77-134 | at most one instance leads with a live lease, and the leader key names it and that lease |
| LeaderElection.CampaignWins | rpc/src/server/etcd_leader_election.cpp:77-134 | a follower whose requests are answered wins an election no one else is in, within one tick |
| LeaderElection.LeaderStays | rpc/src/server/etcd_leader_election.cpp:138-163 | while its lease lives, it is not stopped and no answer to it is lost, a leader leads under the same lease after any number of ticks |
| LeaderElection.NoLeaseLeftBehind | rpc/src/server/etcd_leader_election.cpp:77-179 | in every reachable state each lease an instance has competed with is still in the running, held by it, or the subject of a revocation it has sent |
| LeaderElection.DeadLeaseStepsDown | rpc/src/server/etcd_leader_election.cpp:138-179 | a leader idle between ticks with a dead lease is a follower once its next tick has ended |
| LeaderElection.DeadLeaseIsShed | rpc/src/server/etcd_leader_election.cpp:138-179 | a leader between ticks gives up its claim under a dead lease by the end of its next tick, one in the middle of a tick by the end of the one after, and never holds it again |
| LeaderElection.ClaimIsGoodExactly | rpc/src/server/etcd_leader_election.cpp:77-134 | the leader key names a claiming instance under its lease iff that lease is live |
| LeaderElection.TwoMayClaim | rpc/src/server/etcd_leader_election.cpp:41 | a run in which two instances report leadership, the older one on a dead lease |
| LvProtocol.ParseSerialized | rpc/src/general/net.hpp:91-166 | parsing a serialised message gives it back and leaves exactly the bytes after it |
| LvProtocol.ParsesExactly | rpc/src/general/net.hpp:112-140 | a complete frame gives its message iff its type is one of the twelve known ones and its data decode; else it is rejected; it is consumed either way |
| LvProtocol.GotIsFrame | rpc/src/general/net.hpp:112-140 | only a complete frame at the front gives a message |
| LvProtocol.SerializedFields | rpc/src/general/net.hpp:142-166 | total length, type and id length stand in this order, each four bytes, before id and data |
| LvProtocol.BadFrameShuts | rpc/src/general/net.hpp:297-322 | a complete frame that is rejected shuts the connection down after the messages before it |
| LvProtocol.PrefixWaits | rpc/src/general/net.hpp:91-110 | no proper prefix of a message is processable |
| LvProtocol.Connection.OnData | rpc/src/general/net.hpp:297-335 | the drain loop delivers, keeps, shuts down and overruns as the drain function says |
| LvProtocol.OverrunsOnStunted | rpc/src/general/net.hpp:112-128 | onMessage reads past the buffer iff the length field is 0 to 7 and fewer than 12 bytes are buffered; with 12 it rejects such a frame |
| LvProtocol.DrainOverrunsExactly | rpc/src/general/net.hpp:297-335 | on any input the loop overruns only on such a frame behind the delivered messages, and never waits on one |
| LvProtocol.StuntedFrameOverruns | rpc/src/general/net.hpp:91-128 | well-formed messages followed by fewer than 12 bytes are all delivered, and the loop then overruns iff those bytes are such a frame |
| LvProtocol.AnyChunkingDelivers | rpc/src/general/net.hpp:297-335 | any list of well-formed messages, cut in any way, is delivered exactly, every byte consumed, without a shutdown |
| LvProtocol.SizeLimitExact | rpc/src/general/net.hpp:302-312 | every chunking of a message is delivered iff its frame is at most one byte over the limit |
| TokenBucketModel.TokenBucket.Allow | rpc/src/general/rate_limiter.hpp:21-39 | refills, caps and admits as the bucket function says |
| TokenBucketModel.WindowBound | rpc/src/general/rate_limiter.hpp:21-39 | between any state and a later admitted call stamped t, at most tokens + rate * (t - last) calls are admitted, for any order of stamps |
| TokenBucketModel.RateBound | rpc/src/general/rate_limiter.hpp:16-39 | from construction, at most burst + rate * (t - t0) |
| TokenBucketModel.SlidingWindowBound | rpc/src/general/rate_limiter.hpp:21-39 | the same from any point of any history: burst + rate times the time since its last stamp |
| TokenBucketModel.FreshAdmitsBurst | rpc/src/general/rate_limiter.hpp:16-39 | a new bucket admits its whole burst |
| TokenBucketModel.RetryAfterGuarantees | rpc/src/general/rate_limiter.hpp:44-48 | for any order of samples, a call stamped the hint after the newest of them is admitted, with burst of at least 1 and no competitor |
| TokenBucketModel.HintIsTight | rpc/src/general/rate_limiter.hpp:44-48 | an empty bucket refuses a call two milliseconds before the hint |
| TokenBucketModel.NoDebt | rpc/src/general/rate_limiter.hpp:21-34 | no order of samples leaves a debt that is not refilled by the time of the newest one |

## Left out

- Shared-memory setup, handshakes, event notification and `peerAlive`: operating-system calls; the ring starts open with a positive size.
- C++ memory ordering: publication after the bytes, and one producer and one consumer per direction, are taken as given.
- ShmChannel.Ring.WriteTo: the wait budget is the list of attempts; yielding, sleeping and the clock are not modelled.
- RingProtocol.FifoDelivery: commits of frames below 2^32 bytes; `Commit` states what a longer one does to the ring.
- RingWrapped.RunSame: for ring sizes that divide 2^64; `OffsetSurvivesWrap` shows that other sizes misplace bytes after the wrap.
- `resp_write_ptr`, `resp_commit` and the request and response wrappers: the same code on the other direction.
- NodeBreakerModel.NodeBreaker.ShouldOpen: products are unbounded, which `WindowsThatFit` justifies for windows up to 21 474 836 outcomes; what overflow does beyond is undefined in C++.
- The breaker table per method and host, its store, and the asynchronous and callback calls: plumbing around `NodeBreaker`.
- `RANDOM`, shuffles and jitter: any value in range, or any permutation, stands for the draw.
- `backoffDelayMs`: only the delay, which no modelled result depends on.
- Callback-mode requests: they have no timer, so an unanswered one stays in the table.
- LvProtocol.SizeLimitExact: for frames whose length field fits 31 bits.
- Message payloads and their serializers: a codec parameter that is assumed to round-trip on the messages sent.
- Floating-point rounding in the token bucket.
- Client discovery cache, registries, topics, routers, gateway, metrics and logging.
