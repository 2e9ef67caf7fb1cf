# Verified model of the sensu-go backend's coordination core

The sensu-go backends share work through etcd. This project models the parts where that is
delicate and proves what they promise, for every input and for every interleaving:

- **Round-robin rings** (`Order`, `Circle`, `RingSelection`, `RingProtocol`, `RingAgreement`,
  `RingSchedule`, `RingUpsets`, `RingAnswers`, `RingProgress`, `RingWatcher`): items in sorted order, a
  leased trigger key that marks whose turn it is, and any number of watchers racing to put the
  trigger back when it expires.
- **Liveness switches** (`Liveness`, `Revival`, `Burial`, `DeathSpells`, `SwitchSet`): keys that die with their lease, the
  handlers that compete to revive them as dead, and burial.
- **The work queue** (`Queue`, `QueueFifo`, `QueueTwice`, `QueueClient`): a work lane and an in-flight lane per
  backend, ordered by timestamp keys.
- **Sequences** (`Sequence`): identifiers allocated from a shared 64-bit counter by compare and swap.
- **Scheduling** (`RoundRobin`, `RoundRobinScheduler`, `CheckWatcher`, `CheckTimer`): ring watchers per subscription, the
  requests published for a notification, the registry of schedulers, and the splayed interval timer.
- **The message bus** (`MessageBus`), **handler expansion** (`Handlers`) and **store keys** (`Keys`).

`Etcd` is the store underneath: keys with versions and leases, and a log of events per key in which
every event reports what its predecessor left behind.

Concurrent protocols are state machines. One step is one call to the store by one participant, the
end of a lease, or a step of somebody else; a step that is not possible changes nothing, so every
list of steps is a run, and a theorem about `Exec(s, steps)` for all `steps` is about every
interleaving. The code itself (loops, transactions, objects updated in place) is written as methods
and classes and proved against the functions that the theorems are about. Integers are unbounded;
where 64-bit wrap-around matters (the sequence counter, the splay subtraction) it is written out.

## Where the code does less than one might think

Each of these is a theorem with the exact condition, and where a whole run is at stake a second one
that constructs such a run from every initial state.

- Asking a ring for more values than it has members is fair for ever only if the walk starts at the
  first member and the request is a whole number of rounds (`RingSelection.FairnessExact`).
- A ring with fixed items keeps its schedule if and only if every trigger write is behind by a number
  of windows that adds up to whole rounds (`RingSchedule.RunOnScheduleExactly`). Two kinds of write are
  behind. A handler that answers an old expiry and wins puts the ring back
  (`RingUpsets.LateHandlerUpsets`). And ensureActiveTrigger, which runs again whenever a watcher joins
  or an item is added, starts from the first item; for as long as it is faster than the handlers, the
  last item is not handed out (`RingUpsets.EnsureStarves`).
- The search for a cron interval ends for every schedule whose fire times are at least five seconds
  apart. For `@every` with a constant delay it ends if and only if the delay is at least five seconds,
  or four with the search starting on a full second (`RingWatcher.EverySearchExactly`); `@every 1s` is
  accepted and keeps it going for ever (`RingWatcher.EverySecondNeverEnds`).
- Asserting life with the ttl 2^63 - 1 is not called out. Two deaths of one entity have a sign of life
  reported in between if and only if Alive was called in between with another ttl
  (`Liveness.SpellsSeparatedExactly`), and there is a run with two deaths and nothing in between
  (`DeathSpells.DeathsInARow`).
- Returning an item to the queue conserves the contents only if the item is still in flight; nothing
  in the transaction asks (`Queue.SwapConservesExactly`). So a run conserves them if and only if no item
  is refused after it has been settled (`QueueTwice.ConservesExactly`), and there is a run in which an
  acknowledged item comes back (`QueueTwice.RefusedAfterAck`).
- An update of a round-robin check reaches a watcher's interval and proxy entities only if the number
  of agents asked for changes (`RoundRobin.WatcherOrigin`); so a check that gains its first
  proxy entity publishes nothing (`RoundRobin.NewProxyCheckStaysMute`).
- A ring answers a second request for the same watcher with the first. So a ring path that comes up
  twice in an update and is not retained leaves a watcher that no later update can end
  (`RoundRobinSchedulers.LosingExactly`, `RoundRobinSchedulers.NoRepeatsExactly`).
- A creation event for a check whose scheduler already exists with the same type is dropped together
  with its configuration (`CheckWatchers.ConfigIsCurrentExactly`), and two checks can share a
  scheduler key (`CheckWatchers.KeysCollideExactly`).
- A timer restarted on the other side of its splay value always changes its beat
  (`CheckTimer.RestartKeepsBeatExactly`), although the source says restarts are consistent.
- Cancelling a subscription takes away whatever its consumer is bound with on the present topic, be it a
  later subscription of the same consumer (`MessageBus.PublicationExactly`).
- Listing a type across all namespaces also finds the types whose names merely start the same, unless
  an exact match is asked for (`Keys.AllNamespacesListed`).
- A key with a name and no namespace is parsed back with the name as namespace
  (`Keys.RoundTripExact`).

## Model

| member | source | states |
|---|---|---|
| Order.LessMeans | backend/ringv2/ringv2.go:452-460 | the key order is lexicographic: one name is below another iff they agree up to a place where it ends or has the smaller character |
| Circle.FairnessExact | backend/ringv2/ringv2.go:445-535 | on a circle of places, repeated windows give every place its share rounded down or up for ever iff the window fits the circle, or starts at the origin and is a multiple of it |
| RingSelection.BeginsAtTrigger | backend/ringv2/ringv2.go:445-479 | whether or not the item the trigger names is still there, an advance begins with the least item not below it, or with the first item of the ring if all are below |
| RingSelection.FoundExactly | backend/ringv2/ringv2.go:445-479 | the reads return item after item round the ring from that one on, as many as asked for but at most the rest of the ring and one whole round |
| RingSelection.WindowExact | backend/ringv2/ringv2.go:445-490 | from the least item not below the trigger, or the first if there is none, an advance hands out the next items in sorted order, wrapping, iff the request is at most the two stretches the reads cover, or starts at the front |
| RingSelection.FollowExact | backend/ringv2/ringv2.go:503-508 | from there an advance leaves the trigger on the item after those handed out iff the reads got past them, or the request is whole rounds |
| RingSelection.AdvanceWithinRing | backend/ringv2/ringv2.go:445-535 | with no more values than items, entry j is the item j places after the least one not below the trigger (or the first), and the next trigger is the item after the last |
| RingSelection.OverRequest | backend/ringv2/ringv2.go:470-508 | asking for more than there is gives exactly as many entries as asked for, all members, every member among them |
| RingSelection.FairnessExact | backend/ringv2/ringv2.go:445-535 | over any number of advances of a fixed ring every item is delivered its exact share rounded down or up, iff no more values than members are asked for, or the walk starts at the first and asks for whole rounds |
| RingWatcher.RepeatKVs | backend/ringv2/ringv2.go:481-490 | the two loops produce the cyclic repetition of the items, exactly as many entries as asked for |
| RingWatcher.NextInRing | backend/ringv2/ringv2.go:445-479 | the reads, with restart and top-up, return the items from the least one not below the trigger (or the first) on, round the ring, as many as asked for but at most the rest of the ring and one whole round |
| RingWatcher.AdvanceRing | backend/ringv2/ringv2.go:492-535 | winner and loser hand out the same values, with no more than there are items the next ones from the trigger on; the winner leaves the item after them on a live lease of its own, the loser leaves every key and the history as they were |
| RingWatcher.EnsureActiveTrigger | backend/ringv2/ringv2.go:311-378 | afterwards a ring with items has a trigger, its first item if it had none; an existing trigger and an empty ring are left alone |
| RingWatcher.GetInterval | backend/ringv2/ringv2.go:297-309 | for every schedule, `@every` included, whose fire times are at least the minimum apart the search ends within five extra seconds, at the first whole second whose interval is long enough, and the interval exceeds the time to the next firing from there by at most a second |
| RingWatcher.EveryIsWellSpaced | backend/ringv2/ringv2.go:137-147 | `@every` with a delay of at least five seconds is such a schedule, although its fire times move with the moment asked |
| RingWatcher.EverySearchExactly | backend/ringv2/ringv2.go:297-309 | for a constant delay some round of the search succeeds iff the delay is at least five seconds, or four with the search starting on a full second |
| RingWatcher.EverySecondNeverEnds | backend/ringv2/ringv2.go:297-309 | for `@every 1s` no round of the search succeeds, from any moment |
| RingProtocol.ExecSafe | backend/ringv2/ringv2.go:336-378 | every run keeps: trigger writes only create, and a lease in hand belongs to one watcher and has no keys |
| RingProtocol.TriggerWritesSeparated | backend/ringv2/ringv2.go:336-378 | in every run of any number of watchers two trigger writes have a trigger deletion between them |
| RingProtocol.LoserRemovesNothing | backend/ringv2/ringv2.go:509-535 | in every run a watcher giving its lease back removes no key and adds no event, so not the winner's trigger |
| RingProtocol.NotificationsAreFull | backend/ringv2/ringv2.go:492-549 | in every run, however the ring changes, every trigger notification carries exactly the number of items asked for |
| RingAgreement.SameExpirySameValues | backend/ringv2/ringv2.go:492-549 | in every run on a ring with fixed items, watchers answering the same expiry hand out the same values: the window from the expired trigger's value |
| RingSchedule.ScheduleKeptExactly | backend/ringv2/ringv2.go:336-378 | from every state on schedule of every run on a fixed ring, a step leaves the k-th trigger k windows round the ring iff it writes no trigger, or one of a handler late by a number of expiries whose windows add up to whole rounds, or one of ensureActiveTrigger when all the windows so far do |
| RingSchedule.RunOnScheduleExactly | backend/ringv2/ringv2.go:492-549 | a run on a fixed ring is on schedule throughout iff all its trigger writes are harmless in that sense |
| RingSchedule.HarmlessRunsAreFair | backend/ringv2/ringv2.go:492-549 | in every such run, with no more values than items or whole rounds of them, any stretch of consecutive expiries answered by one watcher gives every item its share rounded down or up |
| RingUpsets.LateHandlerUpsets | backend/ringv2/ringv2.go:492-535 | for every fixed ring and fitting number of values that is not whole rounds, a run of two watchers on schedule until a handler one expiry late wins, and off schedule then |
| RingUpsets.EnsureStarves | backend/ringv2/ringv2.go:336-378 | for every fixed ring, smaller number of values and n, a run in which one watcher answers n expiries, each before the next, loses none, and never hands out the last item |
| RingAnswers.EveryExpiryAnsweredOnce | backend/ringv2/ringv2.go:537-549 | in every run, however the ring changes, a watcher notifies about every expiry it is done with exactly once, except those whose write failed because its lease had ended and those it found the ring empty for, about which it does not notify |
| RingAnswers.IdleOnlyWhenEmpty | backend/ringv2/ringv2.go:462-469 | a step makes a watcher give up an expiry as one with nothing to hand out only if that is its own read and the ring is empty |
| RingAnswers.LosesOnlyWithItsLease | backend/ringv2/ringv2.go:510-535 | in every run a watcher comes to lose an expiry only by giving back a lease that had already ended; losing the race for the trigger never costs a notification |
| RingAnswers.FairWithNothingLost | backend/ringv2/ringv2.go:260-283 | end to end: in every run on a fixed ring with harmless trigger writes, any stretch of the notifications of a watcher that lost no lease gives every item its share rounded down or up |
| RingProgress.NeverStuck | backend/ringv2/ringv2.go:492-549 | from every reachable state a watcher with an event in front of it is done with it after at most nine calls of its own, whatever the others have left behind |
| RingProgress.NoLeaseLeaks | backend/ringv2/ringv2.go:357-378 | in every run in which nobody else grants leases or deletes the trigger, a granted lease that lives is in a watcher's hands or carries the trigger |
| Liveness.LogStep | backend/liveness/liveness.go:198-220 | a step appends to the switch's log at most one event, which reports the value before it and, if a write, comes from an assertion, a burial or a revival |
| Liveness.LeaderExactly | backend/liveness/liveness.go:358-375 | in every run a dead callback reports leadership iff the switch was gone when its transaction decided |
| Liveness.LeaderWinsSeparated | backend/liveness/liveness.go:328-375 | in every interleaving of pings, expiries and late handlers two leading dead callbacks, of one client or of two, have a deletion of the switch between their writes |
| Liveness.PreviousStateExactly | backend/liveness/liveness.go:248-273 | in every run with previous values delivered, every callback reports Alive as the state before iff the value before its event was positive |
| Liveness.SignEncodesLife | backend/liveness/liveness.go:198-220 | with one ttl T and previous values delivered every value written is T, -T or the burial mark; in any run the positive values are exactly those asserted by Alive, each with its ttl |
| Liveness.DeathSpellsSeparated | backend/liveness/liveness.go:248-391 | on one client two dead callbacks reporting Alive before have an alive callback between them, unless the largest ttl is asserted |
| Liveness.LifeReportedExactly | backend/liveness/liveness.go:377-391 | in every run, of the events a client is done with exactly the writes of a positive ttl below 2^63 - 1 are called out as alive, and no event is called out twice |
| Liveness.SpellsSeparatedExactly | backend/liveness/liveness.go:328-391 | in every run two dead callbacks of one client have an alive callback between them iff Alive was called between the two expiries with a ttl other than 2^63 - 1 |
| DeathSpells.DeathsInARow | backend/liveness/liveness.go:377-391 | from every initial state a run, asserting life with the ttl 2^63 - 1 only and death with the smallest, in which a client calls out two deaths, each as a change from alive, and nothing in between |
| Burial.BuryIsFinal | backend/liveness/liveness.go:158-171 | with previous values delivered, nothing pending and no assertion around its two writes, Bury leaves the switch absent, and nobody is ever called back, however the run goes on without assertions |
| Burial.BurialExact | backend/liveness/liveness.go:158-196 | in every reachable state: no client there is called back in any continuation without assertions and with previous values delivered iff there is none, or none has an expiry or sign of life in front of it and the switch is gone or marked |
| Burial.AbsenceExact | backend/liveness/liveness.go:328-375 | in every reachable state: the switch stays absent in all continuations without assertions and burials and with previous values delivered iff it is absent and no client is reviving it or has an expiry in front of it |
| SwitchSets.SwitchSet.GetLeaseID | backend/liveness/liveness.go:222-246 | the lease is live; it is the recorded one iff there is one on record that lives, otherwise a new one, and no key or log changes |
| SwitchSets.SwitchSet.Ping | backend/liveness/liveness.go:198-220 | refused below the minimum without effect; otherwise one event, signed by its kind, on the lease on record |
| SwitchSets.SwitchSet.Bury | backend/liveness/liveness.go:158-171 | exactly two events, both carrying the mark, and the switch is gone; other keys stay |
| SwitchSets.SwitchSet.HandleEvent | backend/liveness/liveness.go:328-391 | burials pass in silence; an expiry is reported as leader iff the switch was still gone, and then it is back with the same ttl, negative, on a live lease that is the one on record; otherwise nothing is written |
| SwitchSets.LeaseEndDeletes | backend/liveness/liveness.go:314-327 | the end of the lease on record deletes the switch that is on it and appends exactly one event, its deletion |
| Revival.RevivedInKind | backend/liveness/liveness.go:342-368 | in every run a leading dead callback has written the ttl of the expired value, negative, on a lease; only where previous values can be missing may it be the fallback |
| Revival.ExpiryFollows | backend/liveness/liveness.go:314-327 | in every reachable state a switch that is there and not buried is on a live lease, and the end of that lease deletes it with exactly one more event, its deletion |
| Queue.TimeStampOrder | backend/queue/queue.go:272-281 | for all 64-bit clock readings keys are equal iff the readings are, and sort lexicographically iff the readings sort |
| Queue.SwapConservesExactly | backend/queue/queue.go:115-138 | moving an item between lanes keeps the multiset of values per backend iff the old key is still there with that value |
| Queue.LanesPartition | backend/queue/queue.go:46-50 | the contents are those of the work lane and those of the in-flight lane |
| Queue.NoSharedItems | backend/queue/queue.go:238-270 | in every interleaving in which each item is settled at most once, colliding stamps included, no two consumers hold the same in-flight item, and the in-flight lane is exactly what is held |
| Queue.QueueConserves | backend/queue/queue.go:104-138 | in every interleaving with fresh stamps in the work lanes and each item settled at most once, what was enqueued for a backend is in its work lane, in its in-flight lane or acknowledged, nothing lost and nothing twice |
| QueueTwice.ConservesExactly | backend/queue/queue.go:104-138 | in every interleaving with fresh stamps, items settled as often as one likes: the lanes and what was acknowledged hold what was enqueued and once more what second refusals wrote, so the contents are conserved iff no second refusal took effect |
| QueueTwice.RefusedAfterAck | backend/queue/queue.go:109-138 | for every backend and value a run with fresh stamps in which an acknowledged item is refused and waits in the work lane once more |
| Queue.FirstIsOldest | backend/queue/queue.go:203-220 | the key the sorted read finds first has the smallest timestamp of the lane |
| QueueFifo.FirstInFirstOut | backend/queue/queue.go:203-220 | in every run whose clock moves on between writes to a backend's work lane, the backend's consumers, however many race for it, reading the lane and refusing what they like, receive among them a prefix of what joined the line, enqueued or refused, in that order |
| QueueClients.QueueClient.EnqueueOps | backend/queue/queue.go:178-199 | one work key per backend with ascending stamps, or failure iff an identifier does not parse |
| QueueClients.QueueClient.Enqueue | backend/queue/queue.go:155-199 | success iff all identifiers parse and the stamps taken at first are free; then the value is under the work key of each backend named, with the i-th stamp from the clock, the work lane has it once more for each, the in-flight lane and all other keys are as they were; otherwise nothing changed |
| QueueClients.QueueClient.Dequeue | backend/queue/queue.go:203-236 | none iff the lane is empty; otherwise the oldest item, moved to a new in-flight key with the contents conserved; collisions with taken stamps end |
| QueueClients.QueueClient.TryDelete | backend/queue/queue.go:238-270 | moves the item iff it is still there and the new key is free, and otherwise changes nothing |
| QueueClients.QueueClient.SwapLane | backend/queue/queue.go:115-138 | the loop ends at a key that was free, and conserves the contents iff the item was still there |
| Sequence.StoredForm | backend/etcd/sequence.go:24-49 | every 64-bit counter is stored in eight bytes that decode to it, and stored counters are equal or sort as bytes iff the counters do |
| Sequence.AllocationExact | backend/etcd/sequence.go:53-102 | for any callers in any interleaving all identifiers in order of commit are 1, 2, 3, ... modulo 2^64, the counter shows how many, and they are pairwise different iff at most 2^64 were granted |
| Sequence.AllocationBelowWrap | backend/etcd/sequence.go:24-49 | below the wrap the identifiers granted are exactly 1 to the stored counter |
| Sequence.RetriesArePaidFor | backend/etcd/sequence.go:90-99 | in every run a caller is sent back at most as often as other callers were granted identifiers |
| Sequence.SequenceKey.BuildIds | backend/etcd/sequence.go:78-88 | the loop produces consecutive identifiers after the counter, wrapping, and the value to store |
| Sequence.SequenceKey.Sequences | backend/etcd/sequence.go:53-102 | negative and zero requests have no effect; otherwise the identifiers follow everything rivals took between read and write, and a retry happens only if they took something |
| MessageBus.Topic.Send | backend/messaging/wizard_topic.go:17-29 | every binding is sent to exactly once |
| MessageBus.Topic.Unsubscribe | backend/messaging/wizard_topic.go:60-73 | the binding goes; the topic closes when it was the last and never reopens |
| MessageBus.Bus.Subscribe | backend/messaging/wizard_bus.go:105-121 | the consumer is bound to the topic with this subscriber, on the open topic object or on a new one, and every other binding of any topic stays; no closed topic reopens; refused when not running |
| MessageBus.Bus.Cancel | backend/messaging/wizard_topic.go:60-73 | cancelling removes exactly the binding of its consumer to the present topic, and for a retired topic nothing at all |
| MessageBus.Bus.Publish | backend/messaging/wizard_bus.go:125-139 | reaches exactly the consumers bound at the moment, each once |
| MessageBus.Perform | backend/messaging/wizard_bus.go:84-139 | one operation on the objects has the effect and the answer of the same operation on the plain table |
| MessageBus.PublicationExactly | backend/messaging/wizard_bus.go:84-139 | for every sequence of operations a publication reaches a consumer with a subscriber iff an earlier subscription to the topic bound the two and since then the consumer has neither subscribed to it anew nor cancelled a subscription to the present life of the topic |
| MessageBus.Drive | backend/messaging/wizard_bus.go:84-139 | for every sequence of subscriptions, cancellations and publications the objects answer each publication with exactly the consumers that the operations so far leave bound, in that sense |
| Handlers.ExpandHandlers | backend/pipeline/handler.go:122-208 | for every handler graph, cyclic or not: fails iff a store failure is within reach, otherwise exactly the non-set handlers within the depth limit |
| Handlers.TwoNestedSets | backend/pipeline/handler.go:122-208 | at level 1, as it is called for an event, the result is exactly the non-set handlers that are named, listed by a named set, or listed by a set in a named set |
| Handlers.OrderDoesNotMatter | backend/pipeline/handler.go:122-208 | the result depends only on which names are given, not on order or repetition |
| Handlers.ReachOne | backend/pipeline/handler.go:178-196 | reachability through nested sets unfolds one set at a time, each costing one level |
| RoundRobin.WatcherExists | backend/schedulerd/roundrobin_interval.go:62-102 | after any updates a ring path has a watcher iff there is an update since which it has been subscribed to without a break |
| RoundRobin.WatcherOrigin | backend/schedulerd/roundrobin_interval.go:74-95 | after any updates a watcher runs with the interval of the first update since which its path was subscribed to with the same number of agents; with its matched entities and as many agents if it has proxy requests, with none and one agent otherwise; whatever later updates said |
| RoundRobinSchedulers.LosingExactly | backend/schedulerd/roundrobin_interval.go:74-95 | an update loses exactly one watcher for each ring path that comes up twice, is not retained and has no such watcher yet |
| RoundRobinSchedulers.NoRepeatsExactly | backend/ringv2/ringv2.go:283-295 | with nothing lost so far an update loses nothing iff every ring path that comes up twice is retained |
| RoundRobinSchedulers.TwiceLoses | backend/schedulerd/roundrobin_interval.go:74-95 | a scheduler whose first update names a subscription twice loses the watcher it starts for it |
| RoundRobin.EveryProxyHasAnAgent | backend/schedulerd/executor.go:311-318 | for every history of updates and every run of the ring, each notification has exactly one agent per proxy entity the watcher knows, if it knows any, so the index stays in range |
| RoundRobin.EveryMatchedEntityRequested | backend/schedulerd/executor.go:290-325 | from update to requests: a watcher set up by an update with proxy requests answers every notification, in every run of its ring, with exactly one request per matched entity, entity k for agent k |
| RoundRobin.OneAgentRequested | backend/schedulerd/executor.go:290-325 | one set up by an update without proxy requests answers every notification with exactly one request on one agent |
| RoundRobin.NewProxyCheckStaysMute | backend/schedulerd/roundrobin_interval.go:73-84 | for every check without proxies that gains one matching entity, the retained watchers know no entity and nothing is published |
| RoundRobin.ProcessRoundRobinCheck | backend/schedulerd/executor.go:290-325 | the requests pair entity i with agent i, published in order up to the first that fails; success iff none fails |
| RoundRobinSchedulers.RoundRobinIntervalScheduler.UpdateRings | backend/schedulerd/roundrobin_interval.go:62-102 | handles for exactly the subscriptions, each with the current number of agents and a running watcher; retained ones undisturbed, all others with the interval of the check and the entities matched now, their old watchers ended where their handle owns them; lost watchers stay, and there are any iff some update set up a path twice, otherwise exactly one runs per path |
| RoundRobinSchedulers.RoundRobinIntervalScheduler.Watch | backend/ringv2/ringv2.go:283-295 | afterwards the watcher runs, the new context owns it iff none ran before, and all other watchers are as they were |
| RoundRobinSchedulers.RoundRobinIntervalScheduler.Interrupt | backend/schedulerd/roundrobin_interval.go:161-165 | a changed check reaches the rings iff its interval or its subscriptions changed |
| RoundRobinSchedulers.RoundRobinIntervalScheduler.EntitiesChanged | backend/schedulerd/roundrobin_interval.go:166-170 | changed entities reach the rings iff the check has proxy requests |
| CheckWatchers.TypeSeparates | backend/schedulerd/interface.go:54-65 | the scheduler type says whether there is a cron schedule and whether the check goes round robin, and nothing else |
| CheckWatchers.TypesFollowConfig | backend/schedulerd/check_watcher.go:130-175 | after any events the registered keys are those last created or updated, and each scheduler has the type of the last configuration seen |
| CheckWatchers.ConfigIsCurrentExactly | backend/schedulerd/check_watcher.go:44-175 | after any events a scheduler runs the configuration last seen for its key iff that did not arrive as a creation for a scheduler of the same type running another |
| CheckWatchers.KeysCollide | backend/schedulerd/check_watcher.go:177-179 | two checks with different names and namespaces share a key |
| CheckWatchers.KeysCollideExactly | backend/schedulerd/check_watcher.go:177-179 | two checks share a key iff they are the same or the name of one runs over into the namespace of the other at a dash |
| CheckWatchers.CheckWatcher.StartScheduler | backend/schedulerd/check_watcher.go:44-85 | keeps the running schedulers exactly the registered ones, one per key; nothing happens during shutdown |
| CheckWatchers.CheckWatcher.HandleWatchEvent | backend/schedulerd/check_watcher.go:130-175 | the same, and the registry follows the reference, live or during shutdown |
| CheckWatchers.ShutdownStartsNothing | backend/schedulerd/check_watcher.go:44-175 | during shutdown no scheduler comes up or changes its type; exactly those go that are removed or would have had to be replaced |
| CheckWatchers.Follow | backend/schedulerd/check_watcher.go:109-175 | fed any sequence of events the registry of objects is the reference registry |
| CheckTimer.InitialOffset | backend/schedulerd/check_timer.go:81-86 | the first firing is less than one interval away, although the subtraction wraps |
| CheckTimer.FiringBeat | backend/schedulerd/check_timer.go:33-86 | every firing falls on the splay's beat, or on the beat 2^64 ns later if started after the splay value |
| CheckTimer.RestartKeepsBeatExactly | backend/schedulerd/check_timer.go:33-86 | two starts, any number of firings on, are congruent modulo the interval iff both are on the same side of the splay value |
| CheckTimer.IntervalTimer.Start | backend/schedulerd/check_timer.go:55-58 | the timer is set to the first firing, less than one interval away |
| CheckTimer.IntervalTimer.Next | backend/schedulerd/check_timer.go:61-68 | rearmed when it goes off, the timer keeps its beat |
| Keys.NamespaceIsolation | backend/store/key_builder.go:56-84 | a namespace's listing key prefixes a resource's key iff the resource is in that namespace |
| Keys.ExactMatchIsolation | backend/store/key_builder.go:44-84 | an exact-match key prefixes a sub-resource's key iff it belongs to that very resource |
| Keys.InexactMatchLeaks | backend/store/key_builder.go:44-53 | without exact match it does so iff the name is a prefix of the owner's name |
| Keys.AllNamespacesListed | backend/store/key_builder.go:56-84 | without a namespace the listing key prefixes a resource's key, in whatever namespace, iff its type is a prefix of the resource's type; with exact match iff it is the type |
| Keys.RingsApart | backend/ringv2/ringv2.go:62-64 | two rings have the same path iff they are of the same namespace and subscription |
| Keys.RoundTrip | backend/store/key_parser.go:18-44 | parsing a printed key with a namespace gives the key back |
| Keys.LeadingSeparator | backend/store/key_parser.go:18-44 | a key parses the same with and without its leading separator |
| Keys.RoundTripExact | backend/store/key_parser.go:18-44 | parsing undoes printing iff a name comes with a namespace |

## Left out

- The etcd client, networking, context cancellation and watch reconnection: transactions are atomic,
  lease numbers unique, and watch events complete and in order.
- Transactions whose outcome is unknown to the caller.
- Expiry of a backend's lease in the queue, which drops that backend's lanes by design.
- Waiting for a put in Dequeue: the steps `Notice` and `TryDelete` of the queue machine cover it for
  exclusivity and conservation, the ordering theorems are about reading the lane.
- QueueClients.QueueClient.Dequeue: returns no item for an empty lane, where the code goes on to wait for a put.
- QueueClients.QueueClient.Enqueue: one client with nobody else around; the number of attempts before
  the context ends is a parameter. Interleavings are in the queue machine.
- Queue.QueueConserves: assumes that work stamps are never used twice and each item is settled at most
  once; `QueueTwice.ConservesExactly` drops the second assumption.
- Queue.NoSharedItems: assumes that each item is settled at most once.
- Liveness.DeathSpellsSeparated: assumes that no assertion uses the ttl 2^63 - 1, which handlers skip in
  silence; `Liveness.SpellsSeparatedExactly` needs no assumption.
- RingAnswers.FairWithNothingLost: assumes harmless trigger writes; `RingSchedule.RunOnScheduleExactly`
  says that these are exactly the runs on schedule, and `RingUpsets` has runs that are not.
- QueueFifo.FirstInFirstOut: assumes consumers that do not wait for puts, a backend listed once per
  Enqueue, and stamps that grow from write to write of the backend's work lane.
- RingWatcher.GetInterval: the schedule is a parameter that gives the next fire time after a moment.
- MessageBus.Drive: operations are atomic; Stop, Close and finer interleavings of locks are not modelled.
- RoundRobinSchedulers.RoundRobinIntervalScheduler.Watch: a cancelled watcher leaves the ring's registry
  at once, and a watcher that fails to start is not modelled. Which of two contexts that share a watcher
  handles a notification is left open.
- RoundRobin.ProcessRoundRobinCheck: which requests fail is a parameter; token substitution and splay
  between requests are not modelled.
- Keys.RingsApart: for components without separators, like the other theorems about keys.
- Keys.RoundTrip: for components without separators, and other than the names that path cleaning removes.
- Which lease a ping or a revival ends up with is an open choice among the live ones in the machine of
  `Liveness`; `SwitchSets.SwitchSet.GetLeaseID` models the choice itself.
- The stored sequence value being too short to decode, and store errors in general.
- `backend/schedulerd/roundrobin_cron.go`: the same reconciliation as the interval version.
- `calculateSplayInterval` and metric transformers: floating point and library number parsing.
- The MD5 hash behind the splay value: any 64-bit number.
- `BuildPrefix` and its wildcard, `KeyFromResource`, `KeyFromArgs`: they would only add easy members.
- Extensions, gRPC, socket and pipe handlers: input and output only.
- JavaScript filters, assets, command execution, HTTP, GraphQL, the command line, configuration, logging and metrics.
