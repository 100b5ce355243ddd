# Verified models of the frame queue, the stream framing and the Kconfig engine

This project models three parts of the repository that hold algorithmic state, in
Dafny 4.11, and proves what they promise. `dafny verify dfyconfig.toml` checks it.

## The multi-consumer frame queue

`components/smart_lock/src/frame/frame_que_v2.c` shares camera frames between producers
and up to eight consumers. A queue moves a fixed pool of nodes between a free and a ready
list; each node carries a buffer, a reference count, the mask of consumers that must see
it and the mask of those that have.

* `QueueSpec` states every critical section on values: two sequences of nodes.
  `FrameLists` and `FrameQueues` are the same operations in place: node objects with
  `prev` and `next`, loops that unlink nodes while they iterate, 32-bit masks, and an
  allocator that tracks live buffers. Every method is proved to be its operation of
  `QueueSpec`, also while releases are half done. `ConsumerMask` relates the bit
  expressions to sets.
* `QueueWorld` is the system: a run is any sequence of register, unregister, malloc,
  complete, cancel, get, release and clear_all events by any number of producers and
  consumers. release_frame is two events, as in the code, with the node in limbo between
  them; so are the two passes of clear_all. History variables record who holds which
  frame, what each consumer received and what became of each completed frame. A run
  starts at any init: the first one, or one after a run and deinit, with releases that
  are still half done (`Origin`).
* `QueueInvariants`, `QueueHistories` and `QueueAccounting` prove what every event keeps;
  `QueueTheorems` and `QueueProducers` hold the main results over runs, and
  `QueueServices` what each single call does for its caller in every reachable state.

Assumptions: consumer ids are single bits, as `projects/doorbell/README.md:779` demands;
the allocator returns a buffer that is not live, or none; a consumer releases a frame only
while it holds it, and not after a deinit (`QueueProducers.DoubleReleaseTakes` shows why).
The number of nodes is any number, since init leaves out nodes it cannot create.

Where code and documentation disagree, the model follows the code: cancel frees the
buffer, while `projects/doorbell/README.md:877` says that it is kept. clear_all also frees
buffers that producers are filling; `QueueProducers.LentIsSafe` says so exactly.

## The db_pack stream framing

`projects/doorbell_lp/cp/db_pack/db_pack.c` prefixes payloads with a 16-byte header and
takes a TCP byte stream apart again, chunk by chunk, with a cache for incomplete packets.
`PackSpec` defines the format and a parser of whole streams; `PackTheorems` proves the
round trip under arbitrary fragmentation; `PackChannels` is the code in place, with its
two buffers and 16-bit counters. The CRC is a parameter: any function will do.

Assumption: the receive size plus 16 fits 16 bits. The code does not compare a length with
the size of the cache before it copies; `PackSpec.Room` is the exact condition under which
all copies of one call fit, and the model stops in front of the first one that does not.
Streams of packed messages of at most the receive size always have room
(`PackTheorems.NextChunkFits`). The result of unpack is not always the
processed length that `projects/doorbell_lp/cp/db_pack/db_pack.h:79` promises: bytes it puts
into an empty cache do not count. `PackSpec.Uncounted` is the exact difference for any
stream, and `PackTheorems.AllCountedIff` says when there is none. Where a wrong magic makes
the outcome depend on the cutting is said by `PackTheorems.FragmentationExactly`.

## The Kconfig engine

`docs/bk7258/kconfiglib.py` parses, prints, simplifies and evaluates tristate expressions
and caches the values of symbols.

* `KconfigExpr`, `KconfigMake`: evaluation, and the conditions built by `_make_and` and
  `_make_or`. `KconfigPrint`, `KconfigParser`: printer, grammar, and the parser with its
  cursor and loops. `KconfigOperators`: what the tokens mean. `KconfigEscape`: strings in
  .config files.
* `KconfigSymbols`, `KconfigValues`: values and visibilities computed without caches, and
  what a new user value can affect. `KconfigCache`: symbol objects with their caches;
  every method keeps every cached value equal to the computation without caches.
  `KconfigLaws`: what user values, defaults, selects and ranges do to the values.
  `KconfigChoice`, `KconfigChoiceDeps`: choices.

Assumptions for the caches: there are no choices in the configuration; it is acyclic, and
evaluating MODULES does not need the value of MODULES (`KconfigValues.Ranked`; otherwise
the code recurses without end). `KconfigStale` holds the three corners where caching is not
transparent, with their exact conditions: unset_user_value on MODULES, and set_user_value
on a symbol that MODULES depends on, clear no more than the dependents, although the
comment of the former promises the state as if no user value had been given; and the
visibility of an environment symbol is cached for ever. `KconfigChoiceDeps` says exactly when
the invalidation of members keeps the caches of a choice and of its members right, for
changes that leave MODULES alone, and shows two choices where a wrong cached value stays.
`get_assignable_values` also offers m to bools, which refuse it, although
`docs/bk7258/kconfiglib.py:2083` promises values that can be assigned and are not truncated:
`KconfigLaws.OfferedIff` is the exact condition.

## Model

| member | source | states |
|---|---|---|
| QueueTheorems.LosslessFifo | components/smart_lock/src/frame/frame_que_v2.c:1334-1356 | for H264, over every run without clear_all, what an active consumer received since it joined, followed by what awaits it, is every frame completed since it joined, in order: no skip, no duplicate, no reordering, whatever other consumers and producers do |
| QueueTheorems.OrderedDelivery | components/smart_lock/src/frame/frame_que_v2.c:1166-1176 | for every format and run, a consumer receives frames in strictly increasing completion order over its whole history, re-registrations included; what it got or awaits since it joined was completed since then, and every other frame of that time was stolen or cleared |
| QueueTheorems.SkippedWereStolen | components/smart_lock/src/frame/frame_que_v2.c:1019-1043 | without clear_all, for every frame an active consumer goes without there is a malloc event of the run that took it: at that point every free node was a producer's, nobody held the frame, every older ready frame was held, and the frame left the ready list |
| QueueTheorems.StolenByMalloc | components/smart_lock/src/frame/frame_que_v2.c:1027-1038 | a frame whose fate is Stolen was the one an earlier malloc of the run takes |
| QueueTheorems.StolenIsOldest | components/smart_lock/src/frame/frame_que_v2.c:1019-1043 | malloc takes a ready frame only when every free node is a producer's and the format is not H264; nobody holds that frame, and every older ready frame is held |
| QueueTheorems.HeldIsSafe | components/smart_lock/src/frame/frame_que_v2.c:1453-1482 | no event but its own release takes a frame from a holder: the buffer stays live, is not freed, stays in a ready node with a positive count, and malloc does not hand it out |
| QueueTheorems.NoStuckFrames | components/smart_lock/src/frame/frame_que_v2.c:911-961 | in every reachable state: accessed is within the mask, pending consumers are active, the reference count is the number of holders, an unheld frame is awaited by an active consumer, and an empty mask occurs only while nobody is active |
| QueueTheorems.AllDrained | components/smart_lock/src/frame/frame_que_v2.c:934-957 | once all consumers have unregistered and released, with no completion since, the ready list is empty |
| QueueTheorems.SelectFails | components/smart_lock/src/frame/frame_que_v2.c:1002-1052 | malloc finds no node if and only if every free node is a producer's and, unless the format is H264, every ready node is held |
| QueueTheorems.NoStarvation | components/smart_lock/src/frame/frame_que_v2.c:1017-1043 | MJPEG and YUV: while producers, half-done releases and consumers hold fewer nodes than there are, malloc finds one, and succeeds if the allocator does |
| QueueTheorems.BuffersConserved | components/smart_lock/src/frame/frame_que_v2.c:727-760 | in every reachable state each live buffer is in exactly one node and no other buffer is in any; every step frees only live buffers, each once; the number of nodes never changes |
| QueueTheorems.DeinitFreesAll | components/smart_lock/src/frame/frame_que_v2.c:610-623 | deinit frees every live buffer exactly once except those of half-done releases, hence all of them if and only if there is none |
| QueueTheorems.FrameAccounting | components/smart_lock/src/frame/frame_que_v2.c:1528-1529 | total_malloc = total_complete + cancels + frames lent + frames clear_all took back; total_free + half-done releases = final releases + unregister recycles + cancels + releases begun before init; completed frames split into ready and the five fates |
| QueueTheorems.DeinitThenInit | components/smart_lock/src/frame/frame_que_v2.c:597-644 | across deinit and the next init each live buffer is freed by deinit, freed by a release that ends in between, or still live and in a release that is half done |
| QueueTheorems.FatesPartition | components/smart_lock/src/frame/frame_que_v2.c:834-851 | every completed frame is either still ready or has exactly one fate |
| QueueTheorems.ReachInv | components/smart_lock/src/frame/frame_que_v2.c:480-566 | the whole invariant holds in every state reached from the first init, and again from every later one, with whatever releases are half done at that point; then the queue ends up with their nodes in addition to its own |
| QueueTheorems.StepInv | components/smart_lock/src/frame/frame_que_v2.c:978-1052 | every event keeps the whole invariant: shape of nodes, ownership, dates, reference counts, histories, counters |
| QueueTheorems.RunInv | components/smart_lock/src/frame/frame_que_v2.c:978-1052 | every run from a state with the invariant keeps it, and the number of nodes |
| QueueProducers.LentIsSafe | components/smart_lock/src/frame/frame_que_v2.c:1141-1163 | a buffer a producer is filling stays with it, live and handed to nobody else, until it is completed or cancelled; it is freed exactly by cancel of it or by clear_all, and the loan ends exactly by complete, cancel or clear_all |
| QueueProducers.ReleasesAreNotAttributed | components/smart_lock/src/frame/frame_que_v2.c:1453-1482 | in every reachable state, as many releases of a held frame as it has holders, whoever makes them, unlink it if and only if every consumer of its mask has seen it: why callers must release only what they hold |
| QueueProducers.DoubleReleaseTakes | components/smart_lock/src/frame/frame_que_v2.c:1453-1482 | in every reachable state, of two holders of a frame the one that releases it twice unlinks it, while the other still holds it, if and only if there is no third holder and every consumer of its mask has seen it |
| QueueServices.GetServes | components/smart_lock/src/frame/frame_que_v2.c:1334-1356 | in every reachable state, get of an active consumer succeeds if and only if a frame awaits it, whoever else holds that frame: it receives the oldest awaited one and its buffer, holds it from then on, and exactly the others still await it; otherwise nothing changes |
| QueueServices.GetLeavesOthers | components/smart_lock/src/frame/frame_que_v2.c:1334-1356 | a get changes nothing for any other consumer, and fails for one that is not registered |
| QueueServices.MallocServes | components/smart_lock/src/frame/frame_que_v2.c:1055-1109 | in every reachable state and for either answer of the allocator, malloc succeeds if and only if a node is found and it carries a buffer or the allocator grants one; a buffer that is there is handed out and the allocator not asked; the result is lent to the producer; a malloc that fails changes nothing |
| QueueServices.StolenIsHandedOut | components/smart_lock/src/frame/frame_que_v2.c:1027-1055 | a frame malloc takes from the consumers is always handed out, with its own buffer, even if the allocator has none |
| QueueServices.CompleteServes | components/smart_lock/src/frame/frame_que_v2.c:1141-1193 | complete succeeds if and only if a producer is filling the buffer; the frame then awaits every active consumer, after all others, and nobody else, and the loan is over |
| QueueServices.CancelServes | components/smart_lock/src/frame/frame_que_v2.c:1225-1277 | cancel succeeds if and only if a producer is filling the buffer; exactly that buffer is freed, one node fewer is lent, and no frame is touched |
| QueueServices.ReleaseServes | components/smart_lock/src/frame/frame_que_v2.c:1451-1486 | a release ends that one holding; the frame stays ready if and only if somebody holds it or has still to see it, else its node is unlinked with its buffer; what awaits whom does not change |
| QueueServices.ReclaimServes | components/smart_lock/src/frame/frame_que_v2.c:1490-1529 | the second part of a release frees exactly that buffer, and the node is back in the free list, idle and empty |
| QueueServices.RegisterServes | components/smart_lock/src/frame/frame_que_v2.c:825-877 | registering succeeds, removes exactly the frames completed for nobody that nobody holds, and changes nothing that awaits anybody; a new consumer has nothing waiting |
| QueueServices.UnregisterServes | components/smart_lock/src/frame/frame_que_v2.c:911-961 | unregistering succeeds, removes exactly the frames nobody holds that awaited this consumer alone, and changes nothing that awaits another |
| QueueServices.ClearServes | components/smart_lock/src/frame/frame_que_v2.c:682-716 | the first pass of clear_all leaves a ready frame if and only if a consumer holds it; every other frame gets the fate Cleared |
| QueueServices.ClearedAreHeld | components/smart_lock/src/frame/frame_que_v2.c:682-716 | after that pass every ready frame is one that was ready and is held; none is left if nobody holds one |
| QueueServices.ClearAllLeavesHeld | components/smart_lock/src/frame/frame_que_v2.c:664-765 | after clear_all a buffer is live if and only if a consumer holds it or a release of it is half done; every free node is idle and empty |
| QueueInvariants.ShapeStep | components/smart_lock/src/frame/frame_que_v2.c:934-957 | every event keeps the conditions on ready, free and unlinked nodes |
| QueueInvariants.OwnedStep | components/smart_lock/src/frame/frame_que_v2.c:1493-1517 | every event keeps each live buffer in exactly one node; it takes only buffers that are not live and frees only live ones, once |
| QueueInvariants.OwnersStep | components/smart_lock/src/frame/frame_que_v2.c:1055-1082 | the nodes that carry a buffer change by what an event takes and frees |
| QueueInvariants.DatedStep | components/smart_lock/src/frame/frame_que_v2.c:1174-1176 | every event keeps the ready list in completion order, and every completed frame ready or with one fate |
| QueueInvariants.CountedStep | components/smart_lock/src/frame/frame_que_v2.c:1341-1345 | every event keeps each reference count equal to the number of holders, and each held frame where its holder got it |
| QueueInvariants.FoundIsHeld | components/smart_lock/src/frame/frame_que_v2.c:1451-1456 | the node release finds by buffer is the very node the caller was given |
| QueueHistories.HistoriesStep | components/smart_lock/src/frame/frame_que_v2.c:1334-1356 | every event keeps every consumer's history increasing and covering all frames since it joined |
| QueueHistories.AwaitsAfterGet | components/smart_lock/src/frame/frame_que_v2.c:1334-1356 | get gives the oldest frame that awaits the consumer, and exactly the younger ones still await it |
| QueueAccounting.AccountedStep | components/smart_lock/src/frame/frame_que_v2.c:1106-1191 | every event keeps the three counters in agreement with what happened, and the number of nodes |
| QueueLists.SweepStamps | components/smart_lock/src/frame/frame_que_v2.c:679-716 | a sweep splits the frames of the ready list into those it keeps and those it removes |
| QueueLists.KeptOrdered | components/smart_lock/src/frame/frame_que_v2.c:825-858 | a sweep leaves the ready list an order-preserving filter |
| QueueLists.SweepCount | components/smart_lock/src/frame/frame_que_v2.c:825-858 | a sweep neither duplicates nor loses a buffer |
| QueueLists.KeptFrom | components/smart_lock/src/frame/frame_que_v2.c:925-961 | every node a sweep keeps was in the list, was written as the sweep writes and did not meet its condition |
| QueueLists.GoneFrom | components/smart_lock/src/frame/frame_que_v2.c:938-957 | every node a sweep moves was in the list and met its condition, and arrives reset |
| QueueLedger.MallocBalance | components/smart_lock/src/frame/frame_que_v2.c:1055-1082 | malloc adds to the nodes exactly the buffer it took from the allocator |
| QueueLedger.CompleteBalance | components/smart_lock/src/frame/frame_que_v2.c:1162-1176 | complete leaves the buffers in the nodes as they are |
| QueueLedger.CancelBalance | components/smart_lock/src/frame/frame_que_v2.c:1233-1275 | cancel removes from the nodes exactly the buffer it frees |
| QueueLedger.ReleaseBalance | components/smart_lock/src/frame/frame_que_v2.c:1453-1529 | release removes from the nodes exactly what it frees |
| QueueLedger.UnlinkLedger | components/smart_lock/src/frame/frame_que_v2.c:1453-1482 | the first part of release takes exactly the buffer of the node it unlinks off the lists |
| QueueLedger.SweepBalance | components/smart_lock/src/frame/frame_que_v2.c:687-706 | sweeps leave every buffer in as many nodes as before |
| QueueLedger.ClearFreeBalance | components/smart_lock/src/frame/frame_que_v2.c:727-760 | the second pass of clear_all frees exactly the buffers of the free nodes |
| QueueLedger.DeinitBalance | components/smart_lock/src/frame/frame_que_v2.c:612-623 | deinit frees each buffer as often as nodes carry it |
| QueueLedger.LedgerBalances | components/smart_lock/src/frame/frame_que_v2.c:1255-1275 | an operation that balances keeps every live buffer in exactly one node |
| QueueSpec.First | components/smart_lock/src/frame/frame_que_v2.c:1004-1016 | the first node of a list that meets the search condition, or the end of the list |
| QueueTheorems.SelectMarksOne | components/smart_lock/src/frame/frame_que_v2.c:1002-1045 | malloc marks exactly one node as in use, one that no producer occupied or that no consumer held; all other nodes of the two lists stay what they are |
| FrameLists.FrameList.AddTail | components/smart_lock/src/frame/frame_que_v2.c:216-239 | in place, the node becomes the last of the sequence; prev, next, head, tail and count agree with it |
| FrameLists.FrameList.AddHead | components/smart_lock/src/frame/frame_que_v2.c:259-282 | in place, the node becomes the first |
| FrameLists.FrameList.Unlink | components/smart_lock/src/frame/frame_que_v2.c:302-331 | relinking the neighbours of the k-th node gives the well linked list without it |
| FrameLists.FrameList.Bypass | components/smart_lock/src/frame/frame_que_v2.c:309-325 | exactly the two neighbours and the ends of the list change |
| FrameLists.FrameList.Remove | components/smart_lock/src/frame/frame_que_v2.c:302-331 | the k-th node leaves the sequence and keeps its fields; all other nodes keep place and fields |
| FrameLists.FrameList.PopHead | components/smart_lock/src/frame/frame_que_v2.c:370-401 | the first node leaves the sequence, or null is returned from an empty list |
| FrameLists.FrameList.FindIdle | components/smart_lock/src/frame/frame_que_v2.c:1004-1016 | the loop stops at the first node no producer occupies |
| FrameLists.FrameList.FindUnheld | components/smart_lock/src/frame/frame_que_v2.c:1024-1043 | the loop stops at the first node nobody holds |
| FrameLists.FrameList.FindLent | components/smart_lock/src/frame/frame_que_v2.c:1144-1154 | the loop stops at the first occupied node with this buffer |
| FrameLists.FrameList.FindFrame | components/smart_lock/src/frame/frame_que_v2.c:1451-1485 | the loop stops at the first node with this buffer |
| FrameLists.FrameList.FindPending | components/smart_lock/src/frame/frame_que_v2.c:1331-1358 | the loop stops at the first node the consumer has still to see |
| FrameLists.FrameNode.Wants | components/smart_lock/src/frame/frame_que_v2.c:1341 | the two bit operations decide whether the consumer is pending |
| FrameLists.FrameNode.AllAccessed | components/smart_lock/src/frame/frame_que_v2.c:1472 | the mask comparison decides whether every consumer of the mask has accessed |
| FrameLists.FrameNode.Publish | components/smart_lock/src/frame/frame_que_v2.c:1150-1172 | the fields complete writes: not in use, nobody has accessed, wanted by all active consumers |
| FrameLists.FrameNode.Grab | components/smart_lock/src/frame/frame_que_v2.c:1344-1345 | the fields get writes: one reference more, this consumer has accessed |
| FrameLists.FrameNode.Reset | components/smart_lock/src/frame/frame_que_v2.c:844-848 | the fields reset on the way to the free list |
| FrameQueues.FrameQueue.constructor | components/smart_lock/src/frame/frame_que_v2.c:117 | the zeroed static queue: not initialised, empty, no live buffer |
| FrameQueues.FrameQueue.Init | components/smart_lock/src/frame/frame_que_v2.c:480-566 | an initialised queue is left alone; otherwise it counts as initialised and holds one empty node for each of the 4, 6 or 3 allocations that is granted, and none, with a failure, if the semaphore is not granted |
| FrameQueues.FrameQueue.SelectNode | components/smart_lock/src/frame/frame_que_v2.c:1002-1045 | the critical section of malloc, in place, chooses and marks the node the specification chooses |
| FrameQueues.FrameQueue.Malloc | components/smart_lock/src/frame/frame_que_v2.c:979-1109 | malloc in place is the specified operation for either answer of the allocator: lists, masks, counters, result and live buffers, also while releases are half done; every live buffer stays in one node of the lists or in limbo, and the node objects stay the same |
| FrameQueues.FrameQueue.Complete | components/smart_lock/src/frame/frame_que_v2.c:1118-1194 | complete in place is the specified operation, a NULL frame is refused |
| FrameQueues.FrameQueue.Cancel | components/smart_lock/src/frame/frame_que_v2.c:1205-1279 | cancel in place is the specified operation and frees exactly that buffer |
| FrameQueues.FrameQueue.GetFrame | components/smart_lock/src/frame/frame_que_v2.c:1288-1358 | one search of get_frame in place is the specified operation; an id without a low bit or a disabled consumer gets nothing |
| FrameQueues.FrameQueue.UnlinkNode | components/smart_lock/src/frame/frame_que_v2.c:1445-1488 | the first critical section of release, in place: the node that must be freed, unlinked |
| FrameQueues.FrameQueue.ReclaimNode | components/smart_lock/src/frame/frame_que_v2.c:1490-1529 | the second part of release, in place: buffer freed once, node reset and back in the free list |
| FrameQueues.FrameQueue.BeginRelease | components/smart_lock/src/frame/frame_que_v2.c:1406-1488 | the part of release_frame up to the end of its critical section, in place: the node to reclaim, if any, its buffer in limbo until then |
| FrameQueues.FrameQueue.EndRelease | components/smart_lock/src/frame/frame_que_v2.c:1490-1531 | the rest of release_frame, in place, whatever happened in between, deinit included: the buffer freed once, the node reset and back in the free list |
| FrameQueues.FrameQueue.ReleaseFrame | components/smart_lock/src/frame/frame_que_v2.c:1406-1539 | release_frame in place is both parts in a row, for ids of any bits, and counts the release for the consumer of the lowest bit if a node is found |
| FrameQueues.FrameQueue.CleanReadyNodes | components/smart_lock/src/frame/frame_que_v2.c:820-858 | the remove-while-iterating loop of register, on the heap, is the filter of the specification |
| FrameQueues.FrameQueue.UnregisterReadyNodes | components/smart_lock/src/frame/frame_que_v2.c:920-961 | the remove-while-iterating loop of unregister, with its mask updates and its count of freed frames, is the filter of the specification |
| FrameQueues.FrameQueue.ClearReadyNodes | components/smart_lock/src/frame/frame_que_v2.c:675-717 | the first loop of clear_all, on the heap, is the filter of the specification |
| FrameQueues.FrameQueue.ClearFreeNodes | components/smart_lock/src/frame/frame_que_v2.c:726-760 | the second loop of clear_all empties every free node and frees each buffer once |
| FrameQueues.FrameQueue.RegisterConsumer | components/smart_lock/src/frame/frame_que_v2.c:778-866 | register_consumer in place is the specified operation; ids without a bit below 8 are refused |
| FrameQueues.FrameQueue.UnregisterConsumer | components/smart_lock/src/frame/frame_que_v2.c:875-970 | unregister_consumer in place is the specified operation |
| FrameQueues.FrameQueue.Clear | components/smart_lock/src/frame/frame_que_v2.c:663-769 | clear_all on one queue in place is the two passes; the live buffers lose exactly those of the free nodes |
| FrameQueues.FrameQueue.Deinit | components/smart_lock/src/frame/frame_que_v2.c:597-644 | deinit in place leaves the zeroed queue, and no live buffer but those of half-done releases |
| FrameQueues.FinishIs | components/smart_lock/src/frame/frame_que_v2.c:684-716 | visiting the ready nodes one by one while unlinking gives the filter, from any point of the loop |
| FrameQueues.SweepIsFinish | components/smart_lock/src/frame/frame_que_v2.c:925-961 | the whole loop gives the filtered ready list, the extended free list and the count |
| ConsumerMask.OrBit | components/smart_lock/src/frame/frame_que_v2.c:818 | or-ing an id adds the consumer to the set a mask stands for |
| ConsumerMask.ClearBit | components/smart_lock/src/frame/frame_que_v2.c:930 | clearing an id removes it |
| ConsumerMask.Covers | components/smart_lock/src/frame/frame_que_v2.c:936 | (a & m) == m holds if and only if every consumer of m is in a |
| ConsumerMask.Empty | components/smart_lock/src/frame/frame_que_v2.c:829 | a mask is 0 if and only if it stands for no consumer |
| ConsumerMask.ConsumerIndex | components/smart_lock/src/frame/frame_que_v2.c:794-803 | the loop over the bits finds the lowest bit of any id, or -1 exactly when no bit below 8 is set |
| PackTheorems.RoundTrip | projects/doorbell_lp/cp/db_pack/db_pack.c:110-298 | the packed messages, cut into any chunks, are delivered exactly, in order, with matching CRCs, and the cache is empty at the end |
| PackTheorems.ReceiverState | projects/doorbell_lp/cp/db_pack/db_pack.c:158-296 | after any chunks of such a stream: the messages whose last byte has arrived were delivered; the bytes fed are their encodings followed by the cache; the cache is a proper part of the next packet |
| PackTheorems.Fragmentation | projects/doorbell_lp/cp/db_pack/db_pack.c:158-296 | a stream all of whose headers have the right magic gives the same deliveries and the same cache however it is cut |
| PackTheorems.FragmentationExactly | projects/doorbell_lp/cp/db_pack/db_pack.c:180-184 | for any stream and any cutting, the outcome is that of the uncut stream if and only if no header the parser reaches has a wrong magic, or all that follows the chunk with the first such header are wrong headers and nothing else |
| PackTheorems.SplitExactly | projects/doorbell_lp/cp/db_pack/db_pack.c:180-184 | parsing a stream may be interrupted at a point if and only if no wrong magic came before it, nothing follows, or a header with a wrong magic follows at once |
| PackTheorems.WrongMagicDependsOnChunks | projects/doorbell_lp/cp/db_pack/db_pack.c:248-252 | a stream with a wrong magic whose outcome depends on where it is cut |
| PackTheorems.LostIsDropped | projects/doorbell_lp/cp/db_pack/db_pack.c:180-184 | parsing any stream without the bytes the parser drops gives the same deliveries and the same rest, and meets no wrong magic |
| PackTheorems.AllCountedIff | projects/doorbell_lp/cp/db_pack/db_pack.h:75-82 | the result of unpack is the length of the data, as documented, if and only if no magic is wrong and nothing was put into an empty cache, or a wrong header begun in the cache ends with the data |
| PackTheorems.PartialHeaderIsNotCounted | projects/doorbell_lp/cp/db_pack/db_pack.c:162-167 | part of a header fed to an empty cache is kept, and the result does not count any of it |
| PackTheorems.ParseEncoded | projects/doorbell_lp/cp/db_pack/db_pack.c:110-134 | the parser takes apart what the sender put together, whatever follows |
| PackTheorems.SentIsDelivered | projects/doorbell_lp/cp/db_pack/db_pack.c:193-205 | the CRC recomputed for a packed message equals the stored one |
| PackTheorems.MismatchIsReported | projects/doorbell_lp/cp/db_pack/db_pack.c:193-205 | a packet whose payload was altered is delivered with the altered payload, and a mismatch is reported if and only if its CRC differs from the stored one; what follows is parsed as usual |
| PackTheorems.UncheckedIsSilent | projects/doorbell_lp/cp/db_pack/db_pack.c:193-195 | without the CRC flag no mismatch is reported |
| PackTheorems.RestIsResidue | projects/doorbell_lp/cp/db_pack/db_pack.c:186-191 | what is kept of any stream never holds a complete packet |
| PackTheorems.NextChunkFits | projects/doorbell_lp/cp/db_pack/db_pack.c:264-269 | at any point of a stream of packed messages of at most the receive size, the cache has room for the next chunk |
| PackTheorems.FitsHasRoom | projects/doorbell_lp/cp/db_pack/db_pack.c:186-191 | the cache has room whenever no header announces more than the receive size |
| PackTheorems.OversizeNeedsOneChunk | projects/doorbell_lp/cp/db_pack/db_pack.c:186-191 | an oversize packet has room when it is complete in one chunk, and none when more of it than the cache holds comes without its end or when it was begun in the cache |
| PackTheorems.FeedSnoc | projects/doorbell_lp/cp/db_pack/db_pack.c:139-298 | feeding one chunk more continues where the others stopped |
| PackTheorems.HeadLayout | projects/doorbell_lp/cp/db_pack/db_pack.h:19-29 | every field of the 16-byte header is at its offset, in little endian |
| PackTheorems.DecodeEncode | projects/doorbell_lp/cp/db_pack/db_pack.c:121-131 | a packet determines its timestamp, sequence number and payload |
| PackChannels.Channel.Pack | projects/doorbell_lp/cp/db_pack/db_pack.c:93-137 | oversize payloads are refused without using up a sequence number; otherwise tbuf holds the packet with the next 16-bit sequence number, and its length is returned |
| PackChannels.Channel.PutHead | projects/doorbell_lp/cp/db_pack/db_pack.c:121-129 | the bytes written field by field are the header in little endian |
| PackChannels.Channel.Direct | projects/doorbell_lp/cp/db_pack/db_pack.c:159-208 | one round with an empty cache: deliver a packet, or stop with the rest cached or dropped, or in front of a copy that does not fit, exactly if the cache has no room |
| PackChannels.Channel.Cached | projects/doorbell_lp/cp/db_pack/db_pack.c:209-295 | one round with a packet begun: complete and deliver it, or stop, or stop in front of a copy that does not fit, exactly if the cache has no room |
| PackChannels.Channel.UnpackData | projects/doorbell_lp/cp/db_pack/db_pack.c:158-298 | for any data: the loop ends; all its copies fit the cache if and only if the cache has room (`Room`); then it delivers and keeps what the specified parser makes of cache and data, and the result is the length less the bytes dropped after a wrong magic and those put into an empty cache; a header completed in the cache counts even if it is wrong |
| PackChannels.ReceiveAll | projects/doorbell_lp/cp/db_pack/db_pack.c:139-299 | feeding a packed stream chunk by chunk to the channel delivers the messages and leaves the cache empty |
| PackChannels.DbPack.Init | projects/doorbell_lp/cp/db_pack/db_pack.c:26-67 | a second init changes nothing; otherwise it fails, leaving none, if and only if there is no memory, and else makes a fresh channel, valid exactly if its size fits 16 bits |
| PackChannels.DbPack.Pack | projects/doorbell_lp/cp/db_pack/db_pack.c:93-137 | -1 without a channel, otherwise as the channel |
| PackChannels.DbPack.Unpack | projects/doorbell_lp/cp/db_pack/db_pack.c:139-299 | -1 and nothing changed without a channel or for no data, otherwise as the channel |
| KconfigExpr.EvalAgrees | docs/bk7258/kconfiglib.py:1390-1442 | the value of an expression depends on the symbols _get_expr_syms collects, and on nothing else |
| KconfigExpr.AndIs | docs/bk7258/kconfiglib.py:1403-1414 | && is n if and only if some operand is, and y if and only if all are |
| KconfigExpr.OrIs | docs/bk7258/kconfiglib.py:1422-1433 | or-separated is y if and only if some operand is, and n if and only if all are |
| KconfigExpr.NotReverses | docs/bk7258/kconfiglib.py:1416-1420 | ! reverses the order of the tristates and undoes itself |
| KconfigExpr.DeMorgan | docs/bk7258/kconfiglib.py:1403-1433 | the laws of De Morgan for operand lists of any length |
| KconfigExpr.EvalConcat | docs/bk7258/kconfiglib.py:1405-1433 | a joined operand list evaluates to the min, or max, of its parts |
| KconfigMake.MakeAndIsMin | docs/bk7258/kconfiglib.py:3168-3188 | _make_and, whatever it simplifies or merges, evaluates to the tristate minimum (absent as y), with and without modules |
| KconfigMake.MakeOrIsMax | docs/bk7258/kconfiglib.py:3190-3212 | _make_or evaluates to the maximum |
| KconfigMake.PromptIsLeast | docs/bk7258/kconfiglib.py:1049-1062 | the condition of a prompt is the least of its own, all enclosing 'visible if', all 'depends on' lines and all enclosing ifs and menus |
| KconfigMake.DefaultIsLeast | docs/bk7258/kconfiglib.py:1064-1073 | the condition of a default is the least of its own, all 'depends on' lines and all enclosing ifs and menus |
| KconfigMake.SelectIsLeast | docs/bk7258/kconfiglib.py:1078-1080 | what a select contributes is the least of the selector and all its conditions |
| KconfigMake.RevDepIsGreatest | docs/bk7258/kconfiglib.py:1083-1086 | rev_dep is the greatest, over all selects, of what they contribute |
| KconfigPrint.PrintParse | docs/bk7258/kconfiglib.py:3260-3315 | parsing the tokens of a printed expression succeeds, takes them all and gives an expression of the same value under every assignment |
| KconfigPrint.SameTree | docs/bk7258/kconfiglib.py:3268-3275 | the very tree comes back if and only if every operator has two operands or more and none is directly inside the same operator |
| KconfigPrint.ExprOf | docs/bk7258/kconfiglib.py:1133-1142 | a printed expression is parsed as its merged form, whatever closing token follows |
| KconfigPrint.NormValue | docs/bk7258/kconfiglib.py:1144-1153 | merging nested operators keeps the value |
| KconfigPrint.NormSize | docs/bk7258/kconfiglib.py:3268-3285 | any tree that is not canonical comes back smaller |
| KconfigParser.ParseExprRec | docs/bk7258/kconfiglib.py:1133-1142 | the loop over or-separated terms builds what the grammar says, or fails as it does |
| KconfigParser.ParseOrTerm | docs/bk7258/kconfiglib.py:1144-1153 | the loop over && factors builds what the grammar says, or fails as it does |
| KconfigParser.ParseFactorToken | docs/bk7258/kconfiglib.py:1155-1188 | factors: atoms, relations, negations, parentheses, and m rewritten to "m" && MODULES on request |
| KconfigParser.Feed.Check | docs/bk7258/kconfiglib.py:3056-3089 | takes the next token exactly if it is the one asked for |
| KconfigOperators.OperatorsMean | docs/bk7258/kconfiglib.py:1133-1186 | of the tokens of any two expressions in parentheses, && gives the least and or-separated the greatest of their values, and ! the inverse |
| KconfigOperators.PrecedenceIs | docs/bk7258/kconfiglib.py:1113-1121 | && binds stronger than or-separated, on either side |
| KconfigOperators.RelationsMean | docs/bk7258/kconfiglib.py:1172-1176 | = and != between two tokens compare the texts of symbols and strings |
| KconfigOperators.ConditionMeans | docs/bk7258/kconfiglib.py:1164-1170 | any tokens of a condition parse as they do elsewhere, but that m, symbol or string, counts as m while MODULES is y and as n while it is n |
| KconfigEscape.EscapeInverts | docs/bk7258/kconfiglib.py:2459-2463 | the two replacements of load_config undo the two of _make_conf, for every string |
| KconfigEscape.QuotesAreEscaped | docs/bk7258/kconfiglib.py:462-469 | in the written string a quote only follows a backslash, as load_config assumes |
| KconfigSymbols.SeeAgrees | docs/bk7258/kconfiglib.py:1484-1496 | all that get_value looks up for a symbol is determined by the symbols _build_dep walks over and by MODULES |
| KconfigSymbols.VisibilityAgrees | docs/bk7258/kconfiglib.py:3152-3155 | the visibility is determined by the symbols of the prompts |
| KconfigSymbols.PlainNewValue | docs/bk7258/kconfiglib.py:1380-1387 | a definition that cannot come to m has the same value with and without modules: evaluating MODULES does not need MODULES |
| KconfigLaws.SelectedAtLeast | docs/bk7258/kconfiglib.py:1929-1933 | in every sound configuration a bool or tristate is at least as high as it is selected, whatever users and defaults say |
| KconfigLaws.EachSelectCounts | docs/bk7258/kconfiglib.py:1929-1933 | hence at least as high as the least of the selecting symbol and the conditions, for each single select |
| KconfigLaws.UserIsValueIff | docs/bk7258/kconfiglib.py:1914-1918 | the user value of a visible bool or tristate is its value if and only if it is not below the selects, not above the visibility unless selected just so, and not m without modules |
| KconfigLaws.UserIsBound | docs/bk7258/kconfiglib.py:1914-1918 | without a select the value exceeds neither the user value nor the visibility |
| KconfigLaws.InvisibleIsIgnored | docs/bk7258/kconfiglib.py:1914-1918 | the user value of an invisible symbol of any type has no effect on its value |
| KconfigLaws.OwnVisibility | docs/bk7258/kconfiglib.py:3147-3166 | the visibility of a symbol does not depend on its user value |
| KconfigLaws.NoModulesNoM | docs/bk7258/kconfiglib.py:1380-1388 | no bool, and without modules nothing, has the value m |
| KconfigLaws.WithoutModulesMIsY | docs/bk7258/kconfiglib.py:1380-1388 | without modules m counts as y, as a visible user value and in every expression |
| KconfigLaws.ValueIsAssignable | docs/bk7258/kconfiglib.py:2404-2410 | every value a bool or tristate can have may be assigned to it |
| KconfigLaws.OfferedIff | docs/bk7258/kconfiglib.py:2079-2100 | for a bool or tristate that can be modified, the values get_assignable_values lists are those that can be assigned and are not truncated, as documented, except m for a bool or without modules |
| KconfigLaws.BoolIsOfferedM | docs/bk7258/kconfiglib.py:2094-2100 | every visible bool that nothing selects has m in that list, and set_user_value refuses it |
| KconfigLaws.DefaultOfSwitch | docs/bk7258/kconfiglib.py:1920-1927 | left to its defaults and not selected, a tristate is the least of its first active default and the condition of that, and a bool is y if and only if that is not n |
| KconfigLaws.DefaultOfString | docs/bk7258/kconfiglib.py:2018-2023 | a string left to its defaults is the text of the first active one |
| KconfigLaws.WithoutDefault | docs/bk7258/kconfiglib.py:1886-1927 | with no active default either, a string is empty, and a bool or tristate is n if and only if it is not selected |
| KconfigLaws.StringTakesUser | docs/bk7258/kconfiglib.py:2012-2016 | a visible string takes any user value |
| KconfigLaws.RelationFollowsUser | docs/bk7258/kconfiglib.py:1435-1439 | for any user value of a visible string, = with a text is y if it is that text and n if not, and != is the opposite |
| KconfigLaws.SymbolCounts | docs/bk7258/kconfiglib.py:1391-1396 | in an expression a bool or tristate counts as its value, and any other symbol as n |
| KconfigLaws.UndefinedIsName | docs/bk7258/kconfiglib.py:1879-1884 | an undefined symbol has its name as value, and nothing can be assigned to it |
| KconfigLaws.SpecialIsFixed | docs/bk7258/kconfiglib.py:2383-2393 | special symbols keep their value and cannot be assigned |
| KconfigLaws.NumberTakesUser | docs/bk7258/kconfiglib.py:1960-1974 | a user value is accepted if and only if it is a number of the base of the type; it is the value of a visible symbol, as written, if and only if it is within the range in force, and without effect if not |
| KconfigLaws.UnlimitedTakesUser | docs/bk7258/kconfiglib.py:1960-1974 | with no range in force any number is taken as it is written |
| KconfigLaws.NumberInRange | docs/bk7258/kconfiglib.py:1945-2007 | whatever users and defaults say, a value that is a number is within the range in force if and only if that range is not empty |
| KconfigLaws.DefaultOfNumber | docs/bk7258/kconfiglib.py:1975-2001 | a default within the range, or that is no number, is the value as written; any other becomes the number of the range nearest to it |
| KconfigLaws.UnlimitedDefault | docs/bk7258/kconfiglib.py:1975-1986 | with no range in force the first active default is the value as written |
| KconfigLaws.NumberWithoutDefault | docs/bk7258/kconfiglib.py:2002-2007 | with no default a number is empty, or the low end of a range above zero |
| KconfigLaws.VisibilityIs | docs/bk7258/kconfiglib.py:3147-3166 | a tristate is as visible as its most visible prompt, and any other symbol is y if some prompt is visible and n if none |
| KconfigSymbols.BoolIsNotM | docs/bk7258/kconfiglib.py:1935-1937 | a bool never has value m |
| KconfigValues.ValueIs | docs/bk7258/kconfiglib.py:1872-2026 | the values computed without caches, symbol by symbol along the rank, satisfy the equations of get_value all at once |
| KconfigValues.DependentsAreAffected | docs/bk7258/kconfiglib.py:2469-2482 | _get_dependent gives the transitive closure: a symbol is in it if and only if a chain of direct dependents leads there |
| KconfigValues.DependentsClosed | docs/bk7258/kconfiglib.py:2477-2479 | the result is closed under direct dependence |
| KconfigValues.ValueUntouched | docs/bk7258/kconfiglib.py:2194-2203 | a new user value of s leaves every symbol outside s and its dependents at its value, unless it enables or disables modules |
| KconfigValues.VisibilityUntouched | docs/bk7258/kconfiglib.py:3147-3166 | a new user value of s leaves every visibility outside s and its dependents, unless it enables or disables modules |
| KconfigValues.OnlyModulesMatters | docs/bk7258/kconfiglib.py:1385-1387 | if MODULES refers to symbols of fixed value only, no assignment to another symbol enables or disables modules |
| KconfigValues.SteadyVisibility | docs/bk7258/kconfiglib.py:3147-3166 | the visibility of n, m, y and of every symbol whose prompts read symbols of fixed value only and cannot come to m is the same under all user values |
| KconfigStale.RightIff | docs/bk7258/kconfiglib.py:2194-2210 | with right caches before, and the value of a plain `default m` cached: after clearing s and its dependents the caches are right if and only if modules were not enabled or disabled |
| KconfigStale.UnsetModulesGoesStale | docs/bk7258/kconfiglib.py:2205-2210 | a configuration, user values and right caches for which unset_user_value on MODULES leaves m cached for a symbol whose value is y |
| KconfigStale.SetBelowModulesGoesStale | docs/bk7258/kconfiglib.py:2194-2203 | a configuration, user values and right caches for which set_user_value on a symbol that MODULES depends on leaves m cached for a symbol whose value is y |
| KconfigStale.FrozenIff | docs/bk7258/kconfiglib.py:2360-2368 | the cached visibility of an environment symbol with the one prompt `if u`, u a bool, stays right if and only if the value of u stays what it was, whatever is invalidated |
| KconfigStale.SpecialVisibilityGoesStale | docs/bk7258/kconfiglib.py:2360-2368 | a configuration in which the visibility cached for an environment symbol becomes wrong |
| KconfigCache.Kconfig.EvalExpr | docs/bk7258/kconfiglib.py:1371-1388 | evaluation through the caches gives the value without caches and keeps every cached value right |
| KconfigCache.Kconfig.EvalExprRec | docs/bk7258/kconfiglib.py:1390-1438 | the recursive evaluation, with its loops and early returns, gives the least and greatest operand values and keeps every cached value right |
| KconfigCache.Kconfig.GetVisibility | docs/bk7258/kconfiglib.py:3147-3166 | the memoised visibility of a symbol that is not special is the one computed without caches |
| KconfigCache.Kconfig.GetSpecialVisibility | docs/bk7258/kconfiglib.py:3147-3166 | the visibility of a special symbol is the one computed without caches when it was first asked for |
| KconfigCache.Kconfig.TristateValue | docs/bk7258/kconfiglib.py:1892-1936 | the bool and tristate branch: user value up to the visibility, else the first default, then selects, then m to y for a bool |
| KconfigCache.Kconfig.NumberNew | docs/bk7258/kconfiglib.py:1938-2006 | the int and hex branch: a user value in range, else the first default clamped, else a positive lower bound |
| KconfigCache.Kconfig.StringNew | docs/bk7258/kconfiglib.py:2008-2023 | the string branch: the user value if visible, else the text of the first default that applies |
| KconfigCache.Kconfig.GetValue | docs/bk7258/kconfiglib.py:1872-2026 | the memoised value is the one computed without caches |
| KconfigCache.Kconfig.BuildDep | docs/bk7258/kconfiglib.py:1462-1496 | the dep sets hold exactly the symbols that refer to a symbol |
| KconfigCache.Kconfig.GetDependent | docs/bk7258/kconfiglib.py:2469-2492 | the memoised recursion gives the transitive dependents |
| KconfigCache.Kconfig.InvalidateDependent | docs/bk7258/kconfiglib.py:2370-2372 | exactly the caches of the dependents are cleared, special symbols excepted |
| KconfigCache.Kconfig.InvalidateAll | docs/bk7258/kconfiglib.py:1552-1554 | all caches are cleared, special symbols excepted |
| KconfigCache.Symbol.Invalidate | docs/bk7258/kconfiglib.py:2360-2368 | a special symbol keeps its caches, any other loses both |
| KconfigCache.Kconfig.SetUserValue | docs/bk7258/kconfiglib.py:2171-2203 | special symbols, undefined symbols and invalid values are refused; exactly the caches of s and its dependents are cleared, or all for MODULES; afterwards every cached value is right, always for MODULES, else unless modules were enabled or disabled |
| KconfigCache.Kconfig.UnsetUserValue | docs/bk7258/kconfiglib.py:2205-2210 | the user value is gone; exactly the caches of s and its dependents are cleared; every cached value is right unless modules were enabled or disabled |
| KconfigCache.Kconfig.constructor | docs/bk7258/kconfiglib.py:2360-2368 | a new configuration with dep sets built, no user values and right caches |
| KconfigCache.Kconfig.Play | docs/bk7258/kconfiglib.py:1872-2210 | any sequence of set, unset, get_value and get_visibility is answered as by a computation without caches, with the visibility of a special symbol frozen when it is first asked for |
| KconfigCache.SteadyAnswers | docs/bk7258/kconfiglib.py:3147-3166 | transparency: those answers are the ones of a computation without any cache, if of the special symbols only visibilities that cannot change are asked for |
| KconfigCache.PlainRunsAreHarmless | docs/bk7258/kconfiglib.py:2194-2203 | if MODULES refers to symbols of fixed value only and is never unset, every such sequence meets the condition of Play |
| KconfigCache.ClearedAreRight | docs/bk7258/kconfiglib.py:2370-2372 | clearing s and its dependents after a new user value leaves only right caches |
| KconfigChoice.AtMostOne | docs/bk7258/kconfiglib.py:1898-1904 | in mode y at most one member has value y: the selection |
| KconfigChoice.ExactlyWhenSelected | docs/bk7258/kconfiglib.py:2712-2754 | in mode y some member has value y if and only if the user's choice is visible, or the choice is not optional, some member is visible and the defaults do not choose a visible symbol from outside |
| KconfigChoice.AssignedYSelects | docs/bk7258/kconfiglib.py:2424-2431 | assigning y to a member that can be y gives it y and all others n |
| KconfigChoice.SelectionIs | docs/bk7258/kconfiglib.py:2712-2754 | in mode y the selection is the user's symbol while it can be y; else none for an optional choice; else the symbol of the first active default, or the first member if there is none, while it is visible; else the first visible member |
| KconfigChoice.OutsideModeY | docs/bk7258/kconfiglib.py:1890-1904 | outside mode y a member is m if and only if the mode is m, it is visible and the user asked for m or y, and never y |
| KconfigChoice.ModeIs | docs/bk7258/kconfiglib.py:2797-2808 | the mode GetMode returns is n exactly if n was asked for or the choice is invisible, m exactly if both allow it, one of them is m and the choice is not a bool; else as high as asked and visible; not n for a visible choice that is neither optional nor given a mode |
| KconfigChoice.Choice.GetSelectionFromDefaults | docs/bk7258/kconfiglib.py:2733-2754 | the loops find the first default that applies, else the first member, and the first visible member if that is invisible |
| KconfigChoice.Choice.GetSelection | docs/bk7258/kconfiglib.py:2712-2731 | the memoised selection is the one computed afresh |
| KconfigChoice.Choice.MemberAssigned | docs/bk7258/kconfiglib.py:2424-2431 | y selects the member and mode y, m selects none and mode m, n changes neither |
| KconfigChoice.Choice.MemberUnset | docs/bk7258/kconfiglib.py:2923-2926 | unsetting the user value of a member unsets those of the choice and clears its cached selection |
| KconfigChoiceDeps.MemberVisibilityIs | docs/bk7258/kconfiglib.py:3157-3166 | a member is invisible if and only if its prompts or its choice are, and a tristate member is as visible as the lesser of the two |
| KconfigChoiceDeps.ChoiceRightIff | docs/bk7258/kconfiglib.py:2360-2373 | right caches of a choice stay right under the invalidation of the dependents of what changed if and only if it reaches the choice, or, without members, a cached visibility stays the same, or, with members, a cached selection does not come from or go to a symbol outside the choice that the defaults choose |
| KconfigChoiceDeps.ChoiceCachesKept | docs/bk7258/kconfiglib.py:1498-1503 | the caches of a choice that has members, and whose defaults name members, stay right whatever changes |
| KconfigChoiceDeps.MemberRightIff | docs/bk7258/kconfiglib.py:2481-2490 | since a member is cleared with its siblings, its right caches stay right if and only if the choice is reached, no value is cached, the selection does not come from or go to a symbol outside the choice, or the member is not the first visible one |
| KconfigChoiceDeps.SelectionKeptIff | docs/bk7258/kconfiglib.py:2712-2754 | while the members keep their visibilities, the selection changes if and only if it is left to the defaults, they choose a symbol outside the choice, and that one appears or disappears |
| KconfigChoiceDeps.OutsiderGoesStale | docs/bk7258/kconfiglib.py:2919-2921 | a choice with a default outside it, whose cached selection survives the invalidation and becomes wrong |
| KconfigChoiceDeps.MemberlessGoesStale | docs/bk7258/kconfiglib.py:2919-2921 | a choice without members, whose cached visibility no invalidation clears and becomes wrong |

## Left out

- FrameQueues.FrameQueue.GetFrame: models one search; the wait on the semaphore, its timeout and the retry depend on the scheduler. Ids of several bits, which the API forbids, are excluded.
- FrameQueues.FrameQueue.RegisterConsumer: excludes ids of several bits below 8, which the API forbids.
- FrameQueues.FrameQueue.UnregisterConsumer: excludes ids of several bits below 8, which the API forbids.
- FrameQueues.FrameQueue.Malloc: the allocator call and the field assignments after the critical section are part of the same step; so is the free of cancel. The reset fields of the buffer itself are not modelled.
- Semaphore signals of complete, and with them count_active_consumers.
- The statistics counters are unbounded; their 32-bit wrap-around is not modelled. total_complete and total_free are updated in the step of their call.
- Timestamps, create times, logging, get_stats and debug printing.
- The loops of init_all, deinit_all and clear_all over the three queues, and unknown formats: the queues share nothing but the allocator.
- Interrupt masking and the spinlock: they make each critical section one step.
- The nodes of releases that end between deinit and the next init, which that init forgets.
- PackChannels.Channel.UnpackData: stops in front of a copy that does not fit, where what the code does is undefined.
- PackChannels.DbPack.Init: promises a valid channel only if the receive size plus 16 fits 16 bits, as the counters of the code do; freeing of partly allocated channels is not modelled.
- The clock of the header is a parameter; NULL data and NULL callbacks of db_pack.
- KconfigParser.ParseFactorToken: fails where the code builds a relation with a right operand that is missing or no atom. Error messages and referenced_syms are not modelled.
- KconfigCache.Kconfig.Play: configurations without choice members; KconfigChoice and KconfigChoiceDeps treat a choice on its own.
- KconfigCache.Kconfig.GetValue: symbols that are no choice members; int() and the formatting of numbers are parameters (`Numerals`); a default of a string or number that is neither symbol nor string, on which the code raises an exception, counts as the empty text. write_to_conf is not modelled.
- KconfigLaws.DefaultOfNumber: defaults that are a symbol or a string; KconfigLaws is about symbols that are no choice members, as KconfigCache is.
- KconfigLaws.OfferedIff: the list is modelled as a function; get_upper_bound, get_lower_bound and is_modifiable, which it combines, are not.
- KconfigCache.Kconfig.GetVisibility: symbols that are no choice members.
- KconfigCache.Kconfig.TristateValue: symbols that are no choice members.
- KconfigCache.Kconfig.BuildDep: symbols that are no choice members; sets of symbols are sets of symbol numbers.
- KconfigCache.Kconfig.GetDependent: symbols that are no choice members, hence without siblings.
- KconfigChoiceDeps.ChoiceRightIff: MODULES has the same value before and after; a symbol a default names outside the choice is a member of no other choice.
- Tokenizer, file reading, menus, comments, help texts, warnings, load_config apart from unescaping, and the submenu rule for choice members.
- Keepalive, power, sockets, drivers, storage, commands and command line: calls into an SDK that is not part of this model.
