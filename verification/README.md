# Verified models of gfsim and the ACIR compiler core

This project models three cores of the repository in Dafny and proves what they are for.

**The two-phase simulation runtime.** Objects buffer private proposals during Work, may arbitrate,
and publish at the Xfer barrier. Each object is a class that updates its fields as the source does,
tied method by method to a pure step function on a datatype; invariants and whole-run theorems are
proved about the step functions, for every sequence of operations. Queues, links and host mailboxes
are composed into networks with an explicit epoch driver (all Work calls, then all Xfer calls), and
the same driver over the objects themselves is proved to do what the network does. (`SimQueue.dfy`,
`Network.dfy`, `Effects.dfy`, `Delivery.dfy`, `Rounds.dfy`, `QueueObjects.dfy`, `Machine.dfy`,
`TimedEventQueue.dfy`, `StateArray.dfy`, `Resource.dfy`, `ResourceOrder.dfy`, `Releases.dfy`,
`Scheduler.dfy`, `RequestResponse.dfy`, `Statistic.dfy`.)

**The compiler's graph passes.** The zero-delay cycle search, the call-graph validation with its
binary search, the longest-path fairness planner and the verifier that recomputes it with a
traversal of its own, and the activation table from the generator that emits it to the class that
reads it. These are loops over arrays, maps and explicit stacks, proved against definitions on paths
and sets. (`Graphs.dfy`,
`ZeroDelay.dfy`, `CallGraph.dfy`, `CallGraphSearch.dfy`, `WeightedPaths.dfy`, `Countdown.dfy`,
`LocalWork.dfy`, `VerifierWork.dfy`, `ProcessCost.dfy`, `Activation.dfy`.)

**The canonical JSON writer of RFC 8785.** The UTF-8 decoder that supplies the sort key, string
escaping, number layout, the recursive writer and the worklist pre-pass that predicts its size. A
reader of RFC 8259 and a decoder of UTF-16, written on their own, read the results back.
(`Utf.dfy`, `Surrogates.dfy`, `NumberText.dfy`, `Json.dfy`, `JsonReader.dfy`, `Preflight.dfy`,
`JsonLimits.dfy`.)

`Ordering.dfy` holds the one lexicographic order that every comparison in the modelled code is an
instance of, and sorting by it; `Core.dfy` holds epochs and integer limits, `Lists.dfy` facts about
distinct elements, and `Wrappers.dfy` optional results.

## Conventions

- `registerCommitParticipant` succeeds, the path the source takes without a system.
- `std::sort` and `llvm::sort` are an insertion sort; where keys are distinct the result is
  the only sorted arrangement (`Ordering.SortedUnique`). `std::map` and `std::set` are maps and sets.
- Identifiers, priorities and counters are natural numbers. Where the source guards a 32- or 64-bit
  limit, narrows, or wraps in a case that can arise, that is written out.
- Both traversals of block graphs count in 32 bits, so their exact verdicts are stated for fewer than
  2^31 blocks (`Countable`); termination is not.
- A theorem about histories speaks of every prefix of a run as well: a prefix of a run is a run.

## Where code and expectation differ

- In-order delivery of timed events is not unconditional. It holds exactly when no barrier publishes
  an event ready before the last one handed out (`TimedEventQueues.OrderedExactly`). The queue does
  not enforce this. A barrier before every new epoch is enough (`DisciplineSuffices`) but more than
  needed (`DisciplineNotNeeded`); `LatePublication` is a run that fails.
- An accepted release is not always honoured: a cancellation proposed after it can take its
  reservation first (`Releases.ReleaseLost`). An owner's releases are honoured in full exactly when
  they ask for no more than its live and granted amounts that are not cancelled
  (`Releases.ReleasedExactly`), and always when no cancellation takes what was promised
  (`Releases.CarefulRunsRelease`).
- The bucket overflow test of a histogram can never fire (`Statistics.BucketRoom`).

## Model

| member | source | states |
|---|---|---|
| SimQueues.QueueRefinesFifo | include/gfsim/queue.h:55-188 | Every run of pushes, pops and barriers from an empty queue is a plain FIFO: what was admitted equals what was handed out, then what is held, then what is pending; a pop only hands out entries published by an earlier barrier; pushes equal pops plus occupancy; the peak stays within the entry capacity and its bytes within the byte capacity. |
| SimQueues.AcceptsExact | include/gfsim/queue.h:55-64 | A push is accepted exactly when one more entry still fits both capacities, bytes counted entry by entry. |
| SimQueues.ByteTestExact | include/gfsim/queue.h:238-242 | The floor-division byte test admits exactly the element counts whose total bytes fit, with a zero element size meaning no byte limit. |
| SimQueues.XferValid | include/gfsim/queue.h:167-188 | The barrier changes what is committed but not the sequence of live entries, and its counters record every publication and removal. |
| SimQueues.SimQueue.ProposePush | include/gfsim/queue.h:55-64 | The in-place push refines the pure push, keeps the invariant, and is accepted exactly within both capacities. |
| SimQueues.SimQueue.ProposePop | include/gfsim/queue.h:66-74 | The in-place pop hands out the next committed entry not yet spoken for, or nothing. |
| SimQueues.SimQueue.ProposeTransferTo | include/gfsim/queue.h:80-101 | A transfer publishes both proposals or neither, exactly when the source has a snapshot entry left and the destination has room. |
| SimQueues.SimQueue.DoXfer | include/gfsim/queue.h:167-188 | The two commit loops leave exactly the live entries committed, in order. |
| SimQueues.PopExactly | include/gfsim/queue.h:66-74 | In every run a pop hands out the next published value, and nothing exactly when all published values have been handed out. |
| SimQueues.PeakExact | include/gfsim/queue.h:167-188 | The recorded peak is the largest number of entries published at any instant of the run. |
| Networks.EpochOrderFree | include/gfsim/queue.h:445-474 | In any network, rings included, in which each queue has at most one popping and one pushing actor, two epochs that call the same Work and Xfer operations in any order, any number of times, end in the same state. |
| Networks.EpochEndsAtBarrier | include/gfsim/queue.h:454-466 | A complete epoch of such a network ends at a barrier with every invariant and the topology kept, and no link ever enters the failed state of a refused atomic transfer. |
| Networks.EpochActor | include/gfsim/queue.h:445-474 | After a complete epoch each actor is the published form of its own Work at the barrier state: no other actor of the epoch can influence it. |
| Networks.WorkAgain | include/gfsim/queue.h:446-448 | A second Work call of the same actor in the same epoch changes nothing anywhere. |
| Effects.EpochLink | include/gfsim/queue.h:445-474 | A complete epoch of a single-ended network counts exactly one outcome for each link: a transfer when its source has an entry and its destination room for one more, an empty stall without an entry, and otherwise a full stall. |
| Effects.EpochIngress | include/gfsim/host.h:36-50 | An ingress hands over its mailbox and counts it exactly when there is a value and room for it. |
| Effects.EpochEgress | include/gfsim/host.h:112-130 | An egress takes the head of its queue and counts it exactly when its mailbox is free and there is one. |
| Effects.EpochQueue | include/gfsim/queue.h:167-188 | A queue loses its head exactly when its popping actor moves, gains its pushing actor's value exactly when that moves, and counts both and its peak. |
| Delivery.WorkConserves | include/gfsim/queue.h:80-101 | A Work call of any actor in any topology keeps the multiset of values in flight. |
| Delivery.XferConserves | include/gfsim/queue.h:167-188 | A barrier step keeps every holder's values, in order. |
| Delivery.RunConserves | include/gfsim/host.h:24-130 | In any topology, under any interleaving of host calls, Work and Xfer, the staged values are, as a multiset, the taken ones plus those in flight: nothing is lost or duplicated. |
| Delivery.WorkForwards | include/gfsim/host.h:36-41 | In a pipeline of a host ingress, n queues joined by n - 1 links and a host egress, one Work call moves at most one value, one slot forward. |
| Delivery.ExactlyOnceInOrder | include/gfsim/host.h:24-130 | At every moment of every run of such a pipeline, for any n and any capacities: staged equals taken, then the egress, then queue n down to queue 1, then the ingress. |
| Delivery.BarrierSlots | include/gfsim/host.h:43-50 | At a barrier those slots are precisely the two mailboxes and the committed queue contents. |
| Rounds.SchedulesAgree | include/gfsim/queue.h:445-474 | Two whole runs with the same host calls whose epochs are scheduled differently go through the same states and take the same values. |
| Rounds.EpochProgress | include/gfsim/host.h:112-130 | When every queue can hold one entry, a complete epoch never moves a pipeline's contents away from the host, and moves them strictly closer while the egress mailbox is free and anything waits behind it. |
| Rounds.EverythingIsDelivered | include/gfsim/host.h:103-130 | Bounded delivery: after as many rounds as the initial distance of the contents from the host, one last take completes the delivery of everything staged, in order. |
| QueueObjects.QueueLink.DoWork | include/gfsim/queue.h:445-466 | The in-place link refines the pure step on its two queues, including a link whose two ends are one queue. |
| QueueObjects.QueueLink.DoXfer | include/gfsim/queue.h:468-474 | The pending transfer is counted once. |
| QueueObjects.HostIngress.Stage | include/gfsim/host.h:24-30 | Staging is accepted exactly when the mailbox is free and nothing is proposed. |
| QueueObjects.HostIngress.DoWork | include/gfsim/host.h:36-39 | The mailbox is offered at most once per epoch and kept until the barrier. |
| QueueObjects.HostIngress.DoXfer | include/gfsim/host.h:43-50 | An accepted offer empties the mailbox and is counted once. |
| QueueObjects.HostEgress.Take | include/gfsim/host.h:103-110 | The host takes the mailbox value once. |
| QueueObjects.HostEgress.DoWork | include/gfsim/host.h:112-119 | One entry is claimed only while the mailbox and the claim are both free. |
| QueueObjects.HostEgress.DoXfer | include/gfsim/host.h:121-130 | The claimed value reaches the mailbox at the barrier. |
| Machines.Machine.RunEpoch | lib/gfsim/system.cpp:476-533 | For any system of distinct queues, links, ingresses and egresses wired in any topology, the loop of Work calls and the loop of Xfer calls over the objects leave them in exactly the state of the network epoch, so the network theorems speak of the objects. |
| Machines.Machine.DoWork | lib/gfsim/system.cpp:478-482 | One Work call on one object is the network step: its queues change as stated and no other object changes. |
| Machines.LinkLocal | include/gfsim/queue.h:445-466 | What a link does to a network depends on its two queues alone and changes only them. |
| TimedEventQueues.DeliveredInOrder | include/gfsim/queue.h:614-674 | For every run in which epochs never decrease and a barrier precedes each new epoch, at every instant: delivered events are strictly increasing in (ready epoch, sequence), none arrives before its ready epoch, every accepted event is delivered once or held once, the events removed at a barrier are those handed out, and capacity, peak and counters are exact. |
| TimedEventQueues.OrderedExactly | include/gfsim/queue.h:614-674 | For every run of any operations at any epochs: nothing is lost, repeated or handed out early, and what was handed out followed by what is held is strictly increasing in (ready epoch, sequence) exactly when no barrier found a pending event ready before the last one handed out; once everything held is handed out, that is exactly when delivery was in order. |
| TimedEventQueues.CommitExact | include/gfsim/queue.h:651-661 | One barrier, from any reachable state: order survives it exactly when it held before and no pending event is ready before the last one handed out, which a caller can check. |
| TimedEventQueues.DisciplineSuffices | include/gfsim/queue.h:614-674 | A barrier before every new epoch keeps every pending event in time. |
| TimedEventQueues.LatePublication | include/gfsim/queue.h:614-674 | A run with non-decreasing epochs whose last barrier publishes an event ready before one already handed out, and delivers it behind: the failing input of the condition above. |
| TimedEventQueues.RecvEarliest | include/gfsim/queue.h:640-649 | A receive refuses exactly when nothing held is ready, and otherwise hands out the earliest held event. |
| TimedEventQueues.ReadyExactly | include/gfsim/queue.h:614-649 | An event scheduled alone and published is handed out from its tick on, in any delta of it, when its delay is positive, and from the scheduling epoch on when it is zero. |
| TimedEventQueues.ScheduleExactly | include/gfsim/queue.h:614-638 | An event is accepted exactly when its delay is not negative, its tick fits 64 bits, there is room and a number is left; each refusal records its own failure, or nothing for want of room. |
| TimedEventQueues.PeakExact | include/gfsim/queue.h:651-674 | The recorded peak is the largest number of events published at any instant of the run. |
| TimedEventQueues.InsertAllAfter | include/gfsim/queue.h:651-661 | Inserting events that are numbered later and not ready before anything delivered keeps the delivered ones in front of everything held. |
| TimedEventQueues.LessEntries | include/gfsim/queue.h:741-746 | The comparison is the lexicographic order of ready tick, ready delta and sequence. |
| TimedEventQueues.TimedEventQueue.TrySchedule | include/gfsim/queue.h:614-638 | Refines the pure step: the four refusals in source order, three of which record a failure; the tick sum never wraps. |
| TimedEventQueues.TimedEventQueue.TryRecv | include/gfsim/queue.h:640-649 | Refines the pure step and returns the event's value. |
| TimedEventQueues.TimedEventQueue.DoXfer | include/gfsim/queue.h:651-674 | The erasing and inserting loops refine the pure barrier. |
| StateArrays.FailsExactlyWhenIllegal | include/gfsim/queue.h:272-332 | From clear tables, an epoch of reads and writes records a failure exactly when some operation is out of range, or two reads of one port name different cells, or two enabled writes share a port or a cell. |
| StateArrays.EpochAssigns | include/gfsim/queue.h:337-342 | After a legal epoch each cell holds the value of the one write to it, or what it held before. |
| StateArrays.EpochOrderFree | include/gfsim/queue.h:272-355 | Any rearrangement of a legal epoch's operations is legal and commits the same cells. |
| StateArrays.ApplyOrderFree | include/gfsim/queue.h:338-342 | The commit loop gives the same cells whatever the order of the writes. |
| StateArrays.IllegalEpochDiscards | include/gfsim/queue.h:338-355 | An illegal epoch changes no cell, and its tables are cleared all the same. |
| StateArrays.FirstDefect | include/gfsim/queue.h:272-332 | The first operation of an epoch that cannot be served records which defect it has, and a refused read yields the zero value. |
| StateArrays.WritesCounted | include/gfsim/queue.h:337-342 | A legal epoch counts its enabled writes and an illegal one counts nothing. |
| StateArrays.ReadsSnapshot | include/gfsim/queue.h:272-300 | Every read of a legal epoch, wherever it falls among the writes, returns the cell as committed before the epoch. |
| StateArrays.XferClears | include/gfsim/queue.h:345-355 | Clearing only the touched ports and slots leaves every table entry clear, as a full fill would. |
| StateArrays.SlotFits | include/gfsim/queue.h:323-331 | The slot a new write is given always survives narrowing to 32 bits, for any number of ports and cells. |
| StateArrays.WriteValid | include/gfsim/queue.h:302-332 | Every write, accepted or refused, keeps the slot table and the proposal list pointing at each other and the touched lists exact. |
| StateArrays.StateArray.Read | include/gfsim/queue.h:272-300 | The in-place read refines the pure one on the four arrays and keeps the invariant. |
| StateArrays.StateArray.ProposeWrite | include/gfsim/queue.h:302-332 | The in-place write refines the pure one and keeps the invariant. |
| StateArrays.StateArray.DoXfer | include/gfsim/queue.h:337-355 | Commit unless a failure is recorded, then sparse cleanup; ends with all tables clear. |
| Resources.LedgerBalances | include/gfsim/resource.h:61-184 | After every interleaving of reserve, release, cancel, arbitrate and commit: active capacity equals the sum of live amounts and never exceeds the total; everything ever reserved is active, released or cancelled; what `validate()` checks holds. |
| Resources.GiveExact | include/gfsim/resource.h:307-332 | A release removes exactly the smaller of its amount and its owner's live total, and leaves other owners' reservations untouched. |
| Resources.DrainExact | include/gfsim/resource.h:315-332 | Reservation by reservation, the owner's reservations are drained strictly in list order, each losing exactly what those before it could not give, and emptied ones disappear. |
| Resources.OwnedListed | include/gfsim/resource.h:308-316 | However an owner's reservations are collected, sorting yields one list that holds each of them once and their live total. |
| Resources.ArbitrationOrderFree | include/gfsim/resource.h:103-115 | Arbitration has the same result for every insertion order of the same proposals. |
| Resources.ArbitrationMaximal | include/gfsim/resource.h:103-115 | Arbitration stays within the available capacity, grants or refuses each proposal but not both, and refuses only what would not fit in the capacity left at the end. |
| Resources.GrantDecides | include/gfsim/resource.h:108-114 | A proposal is granted exactly when it fits beside those granted before it in stable order. |
| ResourceOrder.LessReservations | include/gfsim/resource.h:286-293 | The comparison of reservations is lexicographic in priority, port, instance, owner, root and transaction, the smaller value first. |
| ResourceOrder.ArbitrationByPriority | include/gfsim/resource.h:103-115 | A proposal is granted exactly when it fits beside the granted proposals that go before it in that field order, and refused otherwise. |
| ResourceOrder.GiveByPriority | include/gfsim/resource.h:307-332 | A release leaves of each of its owner's reservations exactly what the amounts of those before it in that field order did not cover, and of every other reservation all. |
| ResourceOrder.BarrierCounts | include/gfsim/resource.h:151-184 | The barrier counts everything granted, accounts for what was released and cancelled, reports the refused transactions and records the higher use. |
| ResourceOrder.PeakExact | include/gfsim/resource.h:178-181 | The recorded peak is the largest capacity in use at any instant of the run. |
| Resources.XferValid | include/gfsim/resource.h:151-184 | The barrier keeps the books and every invariant, whatever is pending. |
| Releases.ReleasedExactly | include/gfsim/resource.h:151-184 | At every barrier of a valid resource an owner is left with its live and granted amounts that are not cancelled less what its pending releases ask for, floored at zero; so its releases are honoured in full exactly when they ask for no more than that. |
| Releases.AllReleasedExactly | include/gfsim/resource.h:307-332 | The released counter never grows by more than was asked for, and grows by all of it exactly when every owner asks for no more than its releases find. |
| Releases.ReleaseLost | include/gfsim/resource.h:76-101 | An owner releases its only reservation in full and then cancels it; both are accepted, and the barrier releases nothing. |
| Releases.StepCovered | include/gfsim/resource.h:76-101 | No operation but a cancellation endangers an accepted release, and an accepted cancellation leaves every owner able to honour its promises exactly when its own owner can without that reservation. |
| Releases.CarefulRunsRelease | include/gfsim/resource.h:61-184 | In every run whose accepted cancellations leave their owners with what they have promised, every barrier frees every accepted release in full. |
| Resources.Resource.ProposeReserve | include/gfsim/resource.h:61-74 | Refines the pure step with every refusal of the source. |
| Resources.Resource.ProposeRelease | include/gfsim/resource.h:76-92 | Accepted exactly when, with the owner's earlier pending releases, it stays within the owner's live amounts not pending cancellation. |
| Resources.Resource.ProposeCancel | include/gfsim/resource.h:94-101 | Accepted exactly for a live reservation of that owner not yet pending cancellation. |
| Resources.Resource.DoArbitrate | include/gfsim/resource.h:103-115 | The greedy loop refines the pure arbitration without underflow. |
| Resources.Resource.ApplyRelease | include/gfsim/resource.h:307-332 | The in-place draining loop and the later erasure of emptied reservations refine the pure release; the subtraction from active capacity cannot underflow. |
| Resources.Resource.DoXfer | include/gfsim/resource.h:151-184 | Admissions, cancellations and releases in source order refine the pure barrier and keep every invariant. |
| Resources.Resource.Validate | include/gfsim/resource.h:246-257 | True exactly when every live reservation is keyed and sound and their amounts add up to the active capacity, within the total. |
| Schedulers.LeavesFairly | include/gfsim/components.h:342-427 | For every run with non-decreasing arbitration epochs: committed entries are strictly sorted by stable key, identities are unique, capacity and peak hold, scheduled equals popped plus held, every accepted entry is in exactly one place, and an entry leaves before one accepted in an earlier epoch only with a strictly smaller priority value. |
| Schedulers.ArbitrationOrderFree | include/gfsim/components.h:367-381 | Arbitration has the same result for every order of the same proposals. |
| Schedulers.ArbitrationSelects | include/gfsim/components.h:370-381 | Everything accepted precedes everything refused in stable order, the two make up the proposals, and something is refused only when the capacity is used up. |
| Schedulers.IdentityDecides | include/gfsim/components.h:506-516 | Entries that differ in owner or transaction differ in stable key, so sorting is deterministic. |
| Schedulers.LessEntries | include/gfsim/components.h:506-513 | The comparison of entries is lexicographic in priority, epoch, port, instance, owner and transaction, the smaller value first. |
| Schedulers.ArbitrationByPriority | include/gfsim/components.h:367-381 | Nothing accepted has a larger priority value than anything refused with it, and at equal priority port, instance, owner and transaction decide; as many are accepted as there is room for. |
| Schedulers.CommittedByPriority | include/gfsim/components.h:407-417 | After a barrier the held entries and the accepted ones stand in that field order. |
| Schedulers.PopExactly | include/gfsim/components.h:357-361 | In every run a pop hands out the next published entry, and nothing exactly when all have been handed out. |
| Schedulers.PeakExact | include/gfsim/components.h:407-424 | The recorded peak is the largest number of entries published at any instant of the run. |
| Schedulers.XferValid | include/gfsim/components.h:407-427 | The barrier keeps the committed entries strictly sorted, identities unique and the counters exact. |
| Schedulers.ValidValidates | include/gfsim/components.h:471-479 | What `validate()` checks holds of every reachable scheduler. |
| Schedulers.Scheduler.ProposeSchedule | include/gfsim/components.h:342-355 | Refused exactly for the invalid owner or a known identity. |
| Schedulers.Scheduler.ProposePop | include/gfsim/components.h:357-361 | Hands out the next committed entry of the snapshot. |
| Schedulers.Scheduler.DoArbitrate | include/gfsim/components.h:367-381 | Stamping, sorting and splitting in place refine the pure arbitration. |
| Schedulers.Scheduler.DoXfer | include/gfsim/components.h:407-424 | Refines the pure barrier, recording the refused transactions. |
| Schedulers.Scheduler.Validate | include/gfsim/components.h:471-479 | True exactly when the committed entries are within capacity and no two share an identity. |
| RequestResponses.EveryRunIsSafe | include/gfsim/components.h:668-759 | In every reachable state: the active ids are the disjoint union of undelivered request ids and delivered ids; unread response ids are distinct and not active; requests and responses are first in, first out; committed requests equal completed plus active; active plus pending requests stay within the limit; what `validate()` checks holds. |
| RequestResponses.AtMostOneResponse | include/gfsim/components.h:686-759 | For every id in every run, responses never outnumber requests handed to the server nor those the requests by more than one, and the gap of one is exactly being active, respectively delivered. |
| RequestResponses.RequestExactly | include/gfsim/components.h:668-674 | In every reachable state a request is accepted exactly when fewer than the limit are unanswered, pending ones included, and every earlier request with its id has had its response removed. |
| RequestResponses.RespondExactly | include/gfsim/components.h:686-696 | A response is accepted exactly when its id has been handed to the server more often than it has been answered, pending answers included. |
| RequestResponses.TakesExactly | include/gfsim/components.h:680-706 | Requests and responses are handed out in order, and refused exactly when everything published has been handed out. |
| RequestResponses.XferPlaced | include/gfsim/components.h:729-759 | The barrier keeps every id in its one place and changes the number of active ids by requests less responses. |
| RequestResponses.CommitMatched | include/gfsim/components.h:729-759 | The barrier keeps requests and responses matched id by id. |
| RequestResponses.PlacedValidates | include/gfsim/components.h:797-812 | The invariant implies what `validate()` checks. |
| RequestResponses.RequestResponse.ProposeRequest | include/gfsim/components.h:668-674 | Refines the pure step: refused at the in-flight limit or for an id that is active, pending or has an unread response. |
| RequestResponses.RequestResponse.ProposePopRequest | include/gfsim/components.h:680-684 | Hands out the next committed request of the snapshot. |
| RequestResponses.RequestResponse.ProposeResponse | include/gfsim/components.h:686-696 | Refines the pure step: accepted only for a delivered active id without a pending response. |
| RequestResponses.RequestResponse.ProposePopResponse | include/gfsim/components.h:702-706 | Hands out the next committed response of the snapshot. |
| RequestResponses.RequestResponse.DoXfer | include/gfsim/components.h:729-759 | The publication loops in source order refine the pure barrier and keep the invariant. |
| RequestResponses.RequestResponse.Validate | include/gfsim/components.h:797-812 | True exactly when the limit holds and delivered ids, committed requests and pending responses are all active, and pending responses delivered. |
| Statistics.BatchingAgrees | include/gfsim/statistics.h:58-99 | Two runs that offer a histogram the same observations, however these are batched between barriers, give the same verdict on each and publish the same statistic, which summarizes exactly the accepted observations. |
| Statistics.SummaryOfMultiset | include/gfsim/statistics.h:29-36 | A summary (count, sum, minimum, maximum, every bucket by its bounds) is determined by the multiset of observations. |
| Statistics.ObserveTracks | include/gfsim/statistics.h:58-78 | Each observation keeps the statistic equal to the summary of the accepted observations and within 64 bits, and is accepted exactly when count and sum still fit. |
| Statistics.CommitTracks | include/gfsim/statistics.h:80-99 | Folding the proposals in yields the summary of all observations. |
| Statistics.BucketRoom | include/gfsim/statistics.h:67-68 | The bucket overflow test never refuses: no bucket can be fuller than the whole histogram. |
| Statistics.BucketsTotal | include/gfsim/statistics.h:58-78 | The bucket counts add up to the number of observations. |
| Statistics.BucketsCumulate | include/gfsim/statistics.h:58-78 | The counts of the buckets up to a bound add up to the number of observations at most that bound. |
| Statistics.OtherKindsRefuse | include/gfsim/statistics.h:29-62 | A statistic takes only what its kind is for, and nothing when its bounds are not strictly increasing or a histogram has none. |
| Statistics.BoundsChecked | include/gfsim/statistics.h:35-36 | The adjacent test on the bounds is strict increase of all of them. |
| Statistics.CounterExact | include/gfsim/statistics.h:40-48 | A counter add is accepted exactly when the published value would fit 64 bits, and is published exactly then. |
| Statistics.Statistic.ProposeAdd | include/gfsim/statistics.h:40-48 | Refines the pure step. |
| Statistics.GaugePublishesFirst | include/gfsim/statistics.h:50-56 | After any epochs, each with any offered values, a gauge shows the first value offered in the latest epoch that offered one. |
| Statistics.GaugeEpoch | include/gfsim/statistics.h:50-56 | Of the values offered in one epoch a gauge accepts exactly the first. |
| Statistics.Statistic.ProposeObserve | include/gfsim/statistics.h:58-78 | Refines the pure step on the two bucket arrays. |
| Statistics.Statistic.DoXfer | include/gfsim/statistics.h:80-102 | Refines the pure barrier, bucket loop included. |
| ZeroDelay.FindCycle | lib/Analysis/ModelAnalysis.cpp:820-858 | For every adjacency list the explicit-stack search terminates, succeeds exactly on acyclic graphs, and otherwise reports a simple cycle, self-loops included. |
| ZeroDelay.BackEdge | lib/Analysis/ModelAnalysis.cpp:842-856 | An edge to an active node closes a simple cycle along the stack from the recorded position. |
| ZeroDelay.AllDone | lib/Analysis/ModelAnalysis.cpp:826-841 | When every node is finished the graph has no cycle. |
| CallGraphSearch.Validate | lib/Analysis/ModelAnalysis.cpp:524-665 | On success the graph is strictly sorted, holds each reachable function exactly once and nothing else, with its own calls, no reachable function lies on a cycle, the function and edge limits hold, and every reachable function is at most the depth limit away from a root; every failure names a genuine defect of the input. With a depth limit of at least the number of functions it succeeds exactly when there is no defect. |
| CallGraph.CleanRefused | lib/Analysis/ModelAnalysis.cpp:585-654 | A call graph without other defects is refused only for depth, and only by a depth limit below the number of functions. |
| CallGraphSearch.BuildSymbols | lib/Analysis/ModelAnalysis.cpp:528-546 | Succeeds exactly when no two functions share a symbol, with the table they define. |
| CallGraphSearch.Explore | lib/Analysis/ModelAnalysis.cpp:585-654 | The search from one root keeps the invariant and adds that root, or stops at a genuine defect. |
| CallGraphSearch.Lookup | lib/Analysis/ModelAnalysis.cpp:504-522 | The binary search finds a name exactly when the sorted graph holds it. |
| CallGraphSearch.LookupCallee | lib/Analysis/ProcessStateExpansion.cpp:328-329 | On a validated graph the lookup of every call met while expanding from the roots succeeds, with the callee's own calls, so the assertion cannot fail. |
| CallGraph.CycleFound | lib/Analysis/ModelAnalysis.cpp:642-654 | A call to an active function closes a call cycle along the stack that a root reaches. |
| CallGraph.EdgesExceeded | lib/Analysis/ModelAnalysis.cpp:626-632 | Reaching the edge limit means distinct reachable functions together make more calls than allowed. |
| CallGraph.DoneMeansComplete | lib/Analysis/ModelAnalysis.cpp:656-665 | Once all roots are searched, sorting yields the complete graph and rules out reachable cycles. |
| ProcessCost.PlanProcessCost | lib/Analysis/ProcessStateCost.cpp:13-152 | On every input it terminates, and a success carries the contract costs and a fairness within the limit. Where each PC lists each of its blocks once, fairness bounds every PC and is what one of them gives: the cost of a path, or the declared bound of a cyclic PC with bounded loops. Without bounded loops it succeeds exactly when every PC's block graph is closed, acyclic, wholly reachable from its first block and within the limit on every path; fairness is then the maximum path cost over all PCs. |
| ProcessCost.BlockCostIs | lib/Analysis/ProcessStateCost.cpp:16-32 | A block costs its entry loads, one for each action that generates code, and for its edge one, or the stores of its transition with two more for the wake and the suspension. |
| ProcessCost.YieldCosts | lib/Analysis/ProcessStateCost.cpp:32 | A block that only yields costs two. |
| ProcessCost.ArmsTable | lib/Analysis/ProcessStatePlan.cpp:4196-4232 | The verifier's action check is a table: each kind of action and how it may be emitted. |
| ProcessCost.PlanBlockCosts | lib/Analysis/ProcessStateCost.cpp:34-73 | Succeeds exactly when every suspend transition exists, with each block's contract cost. |
| LocalWork.Compute | lib/Analysis/ProcessStateCost.cpp:78-143 | One PC: a foreign block is reported exactly when there is one; on an exact listing the outcome is otherwise the greatest path cost, attained from the entry, or a true reason: a path above 64 bits, a cycle, an unreachable block. |
| LocalWork.Traverse | lib/Analysis/ProcessStateCost.cpp:109-134 | The cursor loop with its 32-bit counters ends on every input; on an exact listing it computes the longest distances in dependency order, or stops at a path whose cost passes 64 bits. |
| LocalWork.CountsFit | lib/Analysis/ProcessStateCost.cpp:74-95 | With at most two successors per block no in-degree exceeds twice the number of blocks, so below 2^31 blocks no counter wraps. |
| LocalWork.StuckMeansCyclic | lib/Analysis/ProcessStateCost.cpp:139-143 | Blocks that never become ready contain a cycle. |
| LocalWork.WorkIsLongest | lib/Analysis/ProcessStateCost.cpp:115-131 | When all blocks are processed and reached, the recorded work is the greatest cost of any path. |
| ProcessCost.OverflowExceeds | lib/Analysis/ProcessStateCost.cpp:120-122 | A path too expensive for 64 bits is too expensive for every admissible limit, so stopping there loses nothing. |
| ProcessCost.FairnessBoundsLength | lib/Analysis/ProcessStateCost.cpp:145-152 | No path of an accepted plan has more blocks than its fairness. |
| VerifierWork.Recompute | lib/Analysis/ProcessStatePlan.cpp:4502-4568 | The verifier's own traversal, which notes a foreign successor or an overflow in a flag, goes on with wrapping counters and judges at the end: it terminates, and the flag is set exactly when the block graph is not closed, acyclic and wholly reachable, or a path from the entry passes 64 bits; otherwise the work is the greatest path cost. |
| VerifierWork.Traverse | lib/Analysis/ProcessStatePlan.cpp:4538-4561 | The cursor loop goes on after an overflow and ends on every input; while nothing is flagged it keeps the longest distances, and anything flagged has a path above 64 bits behind it. |
| VerifierWork.CountOwn | lib/Analysis/ProcessStatePlan.cpp:4521-4530 | The counting loop skips foreign successors, and flags exactly the PCs that have one. |
| Countdown.PacedBounds | lib/Analysis/ProcessStatePlan.cpp:4538-4560 | The traversal lists only finitely many blocks: each listing after the first ones is paid for by decrements, of which there are at most two per block processed. |
| ProcessCost.VerifyPlan | lib/Analysis/ProcessStatePlan.cpp:4502-4576 | The verifier's recomputation accepts a plan without bounded loops exactly when its references, listing, arms, block costs and fairness are right. |
| ProcessCost.CheckReferences | lib/Analysis/ProcessStatePlan.cpp:3807-3816 | Accepts exactly the plans whose suspensions name transitions and whose other edges name blocks. |
| ProcessCost.CheckBlockCosts | lib/Analysis/ProcessStatePlan.cpp:4164-4396 | The recomputed block costs are accepted exactly when they are the contract costs, under the verifier's action check. |
| ProcessCost.CheckListing | lib/Analysis/ProcessStatePlan.cpp:4097-4114 | The listing loop accepts exactly the plans in which each PC lists its own blocks in increasing order and every block is listed once. |
| ProcessCost.ChargesAgree | lib/Analysis/ProcessStatePlan.cpp:4168-4240 | The verifier's per-action cost and the planner's charging rule agree on every action the verifier admits. |
| ProcessCost.PlanThenVerify | lib/Analysis/ProcessStatePlan.cpp:4384-4576 | Planner and verifier, each with its own traversal, agree: of all claimed plans the verifier accepts exactly the one the planner computes. |
| Activation.BuildPlan | lib/CodeGen/Emitter.cpp:279-326 | Each of the five errors is reported exactly when its condition holds and no earlier one does; otherwise the emitted table passes `validate`, every offset fits 32 bits, and for each source the targets are exactly those of its edges, repeats dropped. |
| Activation.CheckDense | lib/CodeGen/Emitter.cpp:285-296 | The sorted check succeeds exactly when the ids are 0, 1, ... each once, with non-empty expressions. |
| Activation.SortedDistinct | lib/CodeGen/Emitter.cpp:298-310 | Sorting and dropping adjacent repeats yields each edge once, in strictly increasing order. |
| Activation.Validate | include/gfsim/dispatch.h:132-149 | The nested loop accepts exactly the well-formed tables. |
| Activation.RowIncreasing | include/gfsim/dispatch.h:151-156 | In an accepted table `targetsFor` is strictly increasing and in range for every source. |
| Activation.PlanUnique | include/gfsim/dispatch.h:119-131 | The table is canonical: two accepted tables with the same targets for every source are equal. |
| Activation.RoundTrip | lib/CodeGen/Emitter.cpp:285-326 | Every accepted table is what the generator builds from the edges it stands for: `validate` accepts exactly the generator's output. |
| Utf.AcceptsExactly | lib/Bindings/Binding.cpp:468-512 | The decoder succeeds on exactly the UTF8-octets of section 4 of RFC 3629. |
| Utf.NextEncodes | lib/Bindings/Binding.cpp:470-506 | One decoding step consumes exactly the UTF-8 encoding of the scalar value it produces. |
| Utf.Utf16Injective | lib/Bindings/Binding.cpp:468-512 | Distinct accepted strings have distinct code units. |
| Utf.Utf16Units | lib/Bindings/Binding.cpp:468-512 | The loop computes the specified code units, failing at the first malformed character. |
| Surrogates.Utf16Decodes | lib/Bindings/Binding.cpp:468-512 | The units of a name, decoded by section 2.2 of RFC 2781 and encoded as UTF-8, are the name, and each fits 16 bits. |
| Surrogates.NamesCompare | lib/Bindings/Binding.cpp:679-682 | Two names are ordered by the scalar values in which they first differ: by value when both are inside the Basic Multilingual Plane or both above it, and a value above it goes before U+E000 to U+FFFF. |
| NumberText.TextInjective | lib/Bindings/Binding.cpp:555-638 | Numbers given by their shortest digits are told apart by their canonical text, across all four layouts. |
| NumberText.LayoutRules | lib/Bindings/Binding.cpp:555-638 | The four layouts of `Number::toString` in ECMA-262, position by position: plain digits up to 21 of them, a fraction from 0.000001 on, and otherwise an exponent with its sign. |
| JsonReader.NumberReads | lib/Bindings/Binding.cpp:555-638 | The text of a number is read back as its sign, digits and exponent by the grammar of section 6 of RFC 8259. |
| Json.WriteEscapedString | lib/Bindings/Binding.cpp:514-553 | The loop writes the specified quotation of a UTF-8 string and nothing for any other. |
| Json.QuotedUnique | lib/Bindings/Binding.cpp:514-553 | A quoted string says where it ends and which bytes it holds: escaping can be undone. |
| JsonReader.QuotedReads | lib/Bindings/Binding.cpp:514-553 | A quotation is read back as its string by a reader of section 7 of RFC 8259, whatever follows it. |
| JsonReader.EscapesCanonical | lib/Bindings/Binding.cpp:519-550 | A byte is written as itself unless it must be escaped; then by its two-character escape where there is one, and by four hexadecimal digits in lower case where there is none. |
| Json.PlacedInOrder | lib/Bindings/Binding.cpp:661-682 | Members are written in strictly increasing order of the UTF-16 code units of their names. |
| Json.NamesOrdered | lib/Bindings/Binding.cpp:679-682 | That order is strict and total on names, as section 3.2.3 of RFC 8785 requires. |
| Json.CanonicalBytes | lib/Bindings/Binding.cpp:640-707 | Two values have equal canonical bytes exactly when they are equal up to member order at every depth, numbers being what `getAsNumber` yields. |
| JsonReader.ReadsBack | lib/Bindings/Binding.cpp:640-707 | A canonical text is JSON for its value: a reader of RFC 8259 gets back an equal value up to member order, with members in order of their UTF-16 units at every depth, whatever delimiter follows. |
| Json.Unique | lib/Bindings/Binding.cpp:640-707 | A canonical text followed by anything that cannot continue it determines where it ends and, up to member order, its value. |
| Json.EquivalentText | lib/Bindings/Binding.cpp:640-707 | Values equal up to member order are written alike or refused alike. |
| Preflight.CanonicalStringSize | lib/Bindings/Binding.cpp:309-324 | The size pass over a string equals the length of its quotation. |
| Preflight.ConstructedJsonPreflight.Run | lib/Bindings/Binding.cpp:331-336 | The worklist pass succeeds exactly on the values within every limit, with their predicted size. |
| Preflight.ConstructedJsonPreflight.RunObject | lib/Bindings/Binding.cpp:338-346 | The overload for an object accepts the same values with the same size. |
| Preflight.ConstructedJsonPreflight.Drain | lib/Bindings/Binding.cpp:408-459 | Whatever is pending, the loop terminates and accepts exactly the values within every limit. |
| Preflight.ConstructedJsonPreflight.VisitObject | lib/Bindings/Binding.cpp:387-406 | An object's own bytes and names are accounted for exactly and its values pushed. |
| Preflight.StepAccounts | lib/Bindings/Binding.cpp:408-459 | Replacing a frame by its children after accounting for its own part keeps work, raw bytes and size balanced. |
| Preflight.SizeIsLength | lib/Bindings/Binding.cpp:309-466 | Whenever a value has canonical text, its predicted size is the length of that text. |
| Preflight.FitsMeansWritable | lib/Bindings/Binding.cpp:408-459 | Everything the pre-pass accepts can be written. |
| Preflight.Canonicalize | lib/Bindings/Binding.cpp:885-899 | Canonicalization succeeds exactly on the values within every limit, and then emits exactly the predicted number of bytes. |
| JsonLimits.AdmissibleExactly | lib/Bindings/Binding.cpp:331-466 | The pre-pass accepts exactly the values in which every value inside is within the depth, string, array, member and number limits, the numbers of values and of string bytes are within theirs, and the canonical text is not too long. |
| Ordering.SortedUnique | include/gfsim/components.h:506-512 | A strictly sorted arrangement of a multiset is the only one, so any library sort gives the modelled result. |
| Ordering.SortByPermuted | include/gfsim/resource.h:286-293 | Sorting elements with distinct keys forgets the order they were supplied in. |
| Ordering.LessExactly | lib/Bindings/Binding.cpp:679-682 | The order of keys is lexicographic: decided at the first difference, with a proper prefix first. |

## Left out

- ProcessCost.PlanProcessCost: for plans with bounded local loops only the sign, limit and per-path bounds that the code guarantees are stated, because the loop estimate it adopts is not an upper bound on paths. Its exact verdict is stated for the listings the plan builder makes, each block once under its own PC. The targets of edges must exist, as the plan builder sees to; without that the source reads outside its arrays.
- ProcessCost.VerifyPlan: models the branch without bounded local loops; with them the verifier compares fairness with itself.
- ProcessCost.PlanBlockCosts: block costs are summed as natural numbers; the source sums 64-bit sizes of vectors held in memory.
- CallGraphSearch.Validate: the depth limit is reported truthfully but is not a bound on call-chain length, because finished functions are skipped; effect checks and lowerability are inputs. Which of several defects is reported is not specified.
- Json.CanonicalBytes: a number of the model is the binary64 value that `getAsNumber` yields, so 64-bit integers are already rounded and distinct large ones can share bytes. Member names are distinct, as the container guarantees, and numbers are given by their shortest digits; how `std::to_chars` finds those digits is not part of this model.
- Preflight.Canonicalize: the failure injected for emission tests is not modelled; nor are the parse side and the walk over root collections.
- Activation.BuildPlan: the emission of text is not modelled.
- Machines.Machine.RunEpoch: runs given Work and Xfer calls; which objects are scheduled in an epoch, the validation and probe passes, event delivery and termination are not modelled.
- StateArrays.FailsExactlyWhenIllegal: starts from an array without a recorded failure; a recorded failure persists until `reset`, which is not modelled.
- RequestResponses.RequestResponse.Validate: sets are iterated in an arbitrary order.
- The rest of `SimSystem`, observation sinks, `runtimeState`, statistics snapshots and `lastUpdate_`: reporting, or declared elsewhere.
- `reset()` of every object: it restores the initial state field by field.
- Wrap-around of 64-bit totals (pushes, pops, reservations, completions) after 2^64 events.
- `SimQueue::space()`, `Compute`, `Sink`, `Link`, `Memory`, `ReadyValid`, `ProtocolState`, `EventQueue`: one-branch behaviour that would only add easy members.
- `TimedEventQueue::deliverEvent` and event notification: they need the system's event queue.
- MLIR operations, symbol tables, diagnostics text and hashes: nodes, names and byte strings stand for them.
- The live-slot pass, process expansion and the rest of the plan verifier.
- Scripts, manifests, Python adapters and C++ text emission.
