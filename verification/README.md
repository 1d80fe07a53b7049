# DynaRust, modelled and verified in Dafny

DynaRust is a replicated key-value store. Every node holds tables of versioned records; a record
carries a vector clock, a wall-clock timestamp and an owner. Writes are applied locally and sent to
the other nodes, conflicts are settled by vector-clock dominance first and by timestamp second,
reads repair stale replicas, and a SWIM-inspired gossip keeps track of the members. This project
models the parts of that design whose correctness is not obvious from the code, and proves what
holds of them for all inputs, all runs and all interleavings.

Check everything with `dafny verify dfyconfig.toml`.

## Layout

| file | contents |
|---|---|
| `Versions.dfy` | records, vector clocks, the two-loop dominance test, in-place update and patch |
| `Merge.dfy` | the "wins over" rule, folding it over arrivals, the read's `max_by` choice |
| `Stores.dfy` | one node's tables, the PUT, PATCH, DELETE and internal-PUT handlers, the bulk store merge |
| `ReadRepair.dfy` | resolving a read, the repairs it sends, and what any number of reads achieves |
| `Replication.dfy` | the cluster as a state machine over unreliable messages |
| `Lineage.dfy` | what every version's clock and owner say about the writes that made it |
| `Restarts.dfy` | restarts that rename or forge records |
| `Convergence.dfy`, `SingleWriter.dfy` | when replicas agree |
| `Divergence.dfy` | a run in which they do not |
| `Ring.dfy` | the consistent-hash ring |
| `Membership.dfy` | probes, gossip, joins, and runs of all three over many nodes |
| `Text.dfy`, `Persistence.dfy` | the snapshot format, chunked saving, loading, log replay |
| `SampleCodec.dfy` | encodings that meet what the persistence theorems ask of them |
| `Subscriptions.dfy` | the channel map and its two-phase clean-up under all interleavings |
| `Sequences.dfy`, `Options.dfy` | facts about sequences and the optional value, shared by the others |

State that the program changes in place is modelled by classes (`VersionedValue`, `AppState`,
`ClusterData`, `SubscriptionManager`), and its loops by loops that visit hash maps in an arbitrary
order. Each method is proved against a specification function; the state machines are built from
the same specification functions, so the theorems about runs are about what the methods do. What the
specification functions yield is proved separately, in terms of fields, counters, times, texts and
names, and is part of the methods' contracts where they change state.

## How runs are modelled

A run is any finite sequence of actions; an action that is not possible leaves the state as it is.
Messages, once sent, stay available, which covers delay, reordering, duplication and loss. In the
replication machine a record that leaves a node's memory (for a read's answer, for a peer that pulls
the store, for a save to disk) is copied out record by record, so a pulled store or a saved snapshot
may mix records of different moments. A restart replaces the node's store by what the snapshot
format yields from the saved records, so a key the format cannot carry comes back renamed or split;
theorems that need a key's records to come from its own writes say that the restarts are faithful to
that key: nothing comes back under it that was not saved under it. Deletes remove a record from any
node at any time, which covers the external delete whose ownership check happened earlier. Theorems
about what a node holds start from the last time a record of the key was taken away from it, by a
delete of that key at that node or a restart of that node; whatever happens to other keys and nodes
does not matter to them. Wall clocks are arbitrary inputs of the writes. Two history variables, the
log of writes and the versions each node has written or received, are never read by a handler.

## Where the code and its documentation disagree

The documentation promises eventual consistency (README.md:14, README.md:107), that reads repair
stale versions (README.md:35), and that little moves when a node joins (README.md:34). The code is
followed:

* Merging replaces a record together with its clock and never joins clocks, so a node can forget and
  reuse its own counter. `Divergence.PerfectClockDiverges` gives a run, under one perfect global
  clock, after which two nodes that received the same versions hold different records. The exact
  condition is that one of the versions beats all others (a "champion"): `Convergence.HeldIsFold`
  shows that in every run a node holds the merge, one by one, of what it had when a record was last
  taken away from it and of all it has written or received since, `Convergence.NodesHoldTheBest`
  that this is the best of those if and only if there is a champion, and
  `Convergence.DeliveryOrdersAgreeIffChampion` that two empty nodes agree after every order of
  delivery if and only if there is one.
* A repair is sent only to a responder whose timestamp is older than the winner's, so a dominated
  version with the same timestamp (`ReadRepair.TieIsNeverRepaired`), or a later one from a fast clock
  (`ReadRepair.SkewIsNeverRepaired`), is not repaired. The exact condition, for all responses, is that
  one version is strictly later than every other and dominated by none: one read then makes the
  responders agree (`ReadRepair.RepairsConvergeIffLatest`), and otherwise no number of reads is sure
  to, since the answers can arrive in an order that keeps them apart
  (`ReadRepair.ReadsSettleIffLatest`).
* Keys with '=', a newline or surrounding whitespace do not survive a save and a load;
  `Persistence.RoundTripIffKeysClean` and `Persistence.RestoredIffClean` give the exact condition. A
  restart can bring a record back under a key nobody wrote (`Restarts.PaddedKeyIsRenamed`) or bring
  back a version nobody wrote (`Restarts.KeyForgesRecord`).
* A write is meant to reach every active node, but a node all of whose virtual points are also points
  of nodes listed after it is not on the ring (`Ring.HiddenNodeIsNotNamed`).
  `Membership.ReplicationCoversActiveNodes` says that this is the only way to miss one.
* Consistent hashing is meant to change a key's targets by at most the new node when one joins, but
  a join that takes points away can push an old node back (`Ring.TakingAllPointsDisplaces`);
  `Ring.JoinOnlyInsertsIff` gives the exact condition.

## Model

| member | source | states |
|---|---|---|
| `Versions.DecideDominates` | src/storage/engine.rs:71-87 | the early-returning two-loop test decides exactly the strict pointwise clock order with absent counters read as 0, for any iteration order |
| `Versions.DominanceIsStrictOrder` | src/storage/engine.rs:71-87 | dominance is irreflexive, asymmetric and transitive |
| `Versions.DominanceByCounters` | src/storage/engine.rs:71-87 | a version dominates another exactly when, entry by entry, it has counted all that the other has and more for some node |
| `Versions.BumpDominates` | src/storage/engine.rs:55-69 | a write by any node on top of a version gives a version that dominates it |
| `Versions.Patched` | src/storage/engine.rs:62-69 | patched fields take the new value, all others keep theirs, the owner stays, exactly one write is counted for the node, the time is set |
| `Versions.VersionedValue.New` | src/storage/engine.rs:43-53 | a new record has exactly the given value, owner and time, and counter 1 for its node alone |
| `Versions.VersionedValue.Update` | src/storage/engine.rs:55-60 | the value becomes exactly the one given, one more write is counted for the node and no other counter moves, the time is set, the owner stays |
| `Versions.VersionedValue.Patch` | src/storage/engine.rs:62-69 | inserting the updates one by one in any order replaces their fields and no others, counts one write for the node, sets the time, keeps the owner |
| `Merge.WellStampedIsLinear` | src/storage/engine.rs:653-657 | if timestamps respect dominance and equal timestamps are ordered by it, "wins over" is total and transitive |
| `Merge.OrderFreeIffChampion` | src/storage/engine.rs:650-660 | merging a set of versions is independent of order and repetition if and only if one of them wins over all others |
| `Merge.OrderFreeIffLinear` | src/storage/engine.rs:650-660 | this holds for every part of a set if and only if "wins over" is total and transitive on the set |
| `Merge.ReadAgreesWithMerge` | src/storage/engine.rs:358-369 | the read's `max_by` picks what merging the same responses stores in every order if and only if one of them beats all others; it then picks that one, and no response dominates it |
| `Merge.WellStampedHasChampion` | src/storage/engine.rs:653-657 | well-stamped versions always contain one that wins over all others |
| `Stores.IncomingWins` | src/storage/engine.rs:653-655 | the guard of the merge decides the "wins over" relation |
| `Stores.PutIsAnswered` | src/storage/engine.rs:537-554 | what a PUT answers for any held record, in terms of the body, the user, the time and the counters |
| `Stores.PatchIsAnswered` | src/storage/engine.rs:439-455 | what a PATCH answers for any held record, field by field |
| `Stores.DeliverReplacesOnlyTheBeaten` | src/storage/engine.rs:650-660 | a held record is replaced by a version that dominates it or is strictly later and not dominated, and by no other |
| `Stores.MergeReplacesOnlyTheBeaten` | src/main.rs:37-57 | the same for every key of two merged stores, and a record on one side only is kept |
| `Stores.AppState.PutValue` | src/storage/engine.rs:537-554 | another user's record is refused; otherwise the record holds exactly the body, for the user, at its time, with one more write counted; no other record changes, and the table exists |
| `Stores.AppState.PatchValue` | src/storage/engine.rs:439-455 | a missing record is not found and another user's is refused; otherwise the fields of the body get its values and all others stay, with owner, time and one counted write; no other record changes, and the table exists |
| `Stores.AppState.PutValueInternal` | src/storage/engine.rs:646-660 | the incoming version is stored if there is no record, or if it dominates the held one or is strictly later and not dominated; otherwise, a tie included, the held one stays; the answer is what is held; nothing else changes |
| `Stores.AppState.DeleteInternal` | src/storage/engine.rs:686-690 | the record is gone, no other record changes, and no table goes |
| `Stores.AppState.DeleteValue` | src/storage/engine.rs:704-718 | removes exactly when the record exists and the user owns it; nothing else changes |
| `Stores.AppState.MergeTableState` | src/main.rs:33-47 | the loop, in any order, replaces a local record exactly by a remote one that dominates it or is strictly later and not dominated, adds those it lacks, and leaves other tables alone |
| `Stores.AppState.MergeGlobalStore` | src/main.rs:50-58 | the nested loops do so for every table of a whole remote store |
| `Stores.BulkMergeIsDeliveries` | src/main.rs:37-57 | merging a store holds the same records as delivering its records one by one through the internal PUT, in any order and with repeats |
| `Stores.BulkMergeIsIdempotent` | src/main.rs:37-57 | merging the same store twice equals merging it once |
| `Stores.ExchangeAgreesIffComparable` | src/main.rs:37-57 | two nodes that pull each other's store end up equal if and only if their versions of every shared key are comparable |
| `Stores.BulkMergeIsAssociative` | src/main.rs:37-57 | on comparable stores the bulk merge is associative |
| `Stores.WellStampedStoresAreComparable` | src/main.rs:41-43 | well-stamped stores are comparable |
| `ReadRepair.ResolveLatest` | src/storage/engine.rs:331-369 | collects the answers that hold a version and folds `max_by` over them; nothing found exactly when no replica has the key |
| `ReadRepair.LastUnbeatenIsPicked` | src/storage/engine.rs:358-369 | the read picks the answer that no earlier one beats and that beats all later ones: of versions that tie, the last to answer |
| `ReadRepair.RepairTargets` | src/storage/engine.rs:372-378 | exactly the responders that lack the key, or are not newer and have an older timestamp, are sent the winner |
| `ReadRepair.RepairTakesEffect` | src/storage/engine.rs:373-376 | a repair delivered to an unchanged responder replaces what it held |
| `ReadRepair.RepairsConvergeIffLatest` | src/storage/engine.rs:358-405 | for any responses, one round of repairs brings every responder to the version read if and only if some version is strictly later than all others and dominated by none |
| `ReadRepair.ChampionIsSpreadIffLatest` | src/storage/engine.rs:358-405 | if one version beats all others the read picks it, and repairs spread it if and only if no other version has its timestamp or a later one |
| `ReadRepair.RepairsConvergeIffNoTie` | src/storage/engine.rs:372-405 | on well-stamped responses the condition is that no other version shares the winner's timestamp |
| `ReadRepair.RoundSettlesIffLatest` | src/storage/engine.rs:352-405 | reading, delivering every repair and reading again leaves all responders equal, picks the same version and repairs nobody, if and only if one version is strictly latest and undominated |
| `ReadRepair.ReadsSettleIffLatest` | src/storage/engine.rs:331-405 | for any responses, some number of reads, each answered in any order and with its repairs delivered, is sure to leave all responders equal if and only if one version is strictly latest and undominated; the first read then does, for good |
| `ReadRepair.TieIsNeverRepaired` | src/storage/engine.rs:375-375 | two well-stamped versions of the same millisecond that reads leave unrepaired |
| `ReadRepair.SkewIsNeverRepaired` | src/storage/engine.rs:375-375 | a dominated version from a fast clock that reads leave unrepaired |
| `Replication.EffectIsExact` | src/storage/engine.rs:439-718 | every action changes a node's record of a key exactly as one of: keep, own write, merge of a received version, reset |
| `Replication.PutStoresTheBody` | src/storage/engine.rs:537-570 | from any state a PUT by the owner, or on a free key, stores the body it was sent and sends the version to exactly the targets; by anyone else it changes nothing |
| `Replication.PatchKeepsOtherFields` | src/storage/engine.rs:439-455 | from any state a PATCH by the owner gives the fields of its body their new values, keeps every other field and sends the version to exactly the targets; otherwise it changes nothing |
| `Replication.ReceivedUnlessBeaten` | src/storage/engine.rs:646-660 | a delivered version is held afterwards unless the node has one that dominates it, or one that it neither dominates nor is later than |
| `Replication.PulledUnlessBeaten` | src/main.rs:33-58 | the same for every key of a store that a node pulls, and no other node changes |
| `Replication.DeleteRemovesOneRecord` | src/storage/engine.rs:686-690 | a delete removes that record at that node and nothing else |
| `Replication.ReadRepairsOnlyTheStale` | src/storage/engine.rs:372-405 | a read changes no record and sends its result to exactly the responders that lack the key or hold an undominating, strictly earlier version |
| `Replication.ReachIsApplied` | src/storage/engine.rs:439-554 | in every run each logged write stored exactly the body it was sent, or put it over exactly the fields it found, counted one write, has its time, and was made by the owner |
| `Replication.ReachIsGenuine` | src/storage/engine.rs:439-660 | in every run whose restarts are faithful to the key, every stored, sent, copied or seen version of the key was produced by a logged write to it, and every such write built on one |
| `Replication.DeliveredRepairTakesEffect` | src/storage/engine.rs:372-405 | in any cluster state, a repair that reaches a replica still holding its answer installs the winner |
| `Lineage.EveryVersionHasLineage` | src/storage/engine.rs:537-554 | in every run whose restarts are faithful to the key, every version of it anywhere has a chain of logged writes to the key that made it |
| `Lineage.VersionRecordsItsLineage` | src/storage/engine.rs:43-69 | in every run, whatever that chain, the clock counts it node by node, the owner made every write of it, and the version dominates every earlier stage |
| `Lineage.PayloadReplaysLineage` | src/storage/engine.rs:43-69 | in every run a version's payload is what the requests of its lineage add up to: a field is there exactly if some write sent it and every later one was a PATCH without it, with the value sent; its time is that of the last write |
| `Lineage.NeverBackToAncestor` | src/storage/engine.rs:650-660 | in every run no action that does not take the record away from the node (write, delivery, repair, echo, store pull, any delete or restart elsewhere) replaces a stored version by one of its ancestors or loses the record |
| `Lineage.ClockCountsLineage` | src/storage/engine.rs:43-69 | a version's counters equal the numbers of writes by each node in its lineage |
| `Lineage.DerivedDominates` | src/storage/engine.rs:71-87 | a derived version dominates every version it was derived from |
| `Lineage.LineageHasOneOwner` | src/storage/engine.rs:540-546 | all writes of a lineage were made by the owner of its versions |
| `Convergence.HeldIsFold` | src/storage/engine.rs:537-660 | in every run, whatever the versions and clocks, a node holds the merge, one by one, of what it had when a record of the key was last taken away from it and of all it has written or received since |
| `Convergence.HeldSince` | src/storage/engine.rs:537-660 | the same from any cluster state: as long as no record of the key is taken away from a node, it holds what it had merged with all that actions bring it |
| `Convergence.HeldUntilReplaced` | src/storage/engine.rs:646-660 | over any actions a node keeps a record as long as nothing arrives that dominates it or is strictly later and not dominated; ties and stale versions have no effect |
| `Convergence.OnlyReplaced` | src/storage/engine.rs:646-660 | along every run, whatever takes the place of a held record dominates it or is strictly later and not dominated by it |
| `Convergence.KnownFromStart` | src/storage/engine.rs:646-660 | counted from the start of a run, what a node knows is what it has written or received in all |
| `Convergence.ChampionIsHeld` | src/storage/engine.rs:646-660 | a node that knows a version that beats all others it knows since then holds it |
| `Convergence.NodesHoldTheBest` | src/storage/engine.rs:646-660 | in every run a node holds the best of all versions it knows since then if and only if it knows none or one of them beats all others |
| `Convergence.Convergence` | src/storage/engine.rs:646-660 | nodes that know the same versions, each since its own last loss, one of which beats the others, hold the same record, the one every order of merging yields |
| `Convergence.LinearWritesConverge` | src/storage/engine.rs:646-660 | if "wins over" orders the versions written to a key, and restarts are faithful to it, every node holds the best it knows |
| `Convergence.WellStampedWritesConverge` | src/storage/engine.rs:646-660 | the same for well-stamped versions, and nodes that know the same agree |
| `Convergence.DeliveryOrdersAgreeIffChampion` | src/storage/engine.rs:646-660 | with the same versions on the way to two empty nodes, all orders of delivery, with repeats, leave the nodes equal if and only if one of the versions beats all others |
| `Convergence.RunsAgreeIffChampion` | src/storage/engine.rs:646-660 | so after any run that sends the versions, every continuation that delivers all of them leaves the two nodes equal if and only if one of the versions beats all others |
| `Divergence.PerfectClockDiverges` | src/storage/engine.rs:650-660 | a run without deletes and restarts, with strictly increasing write times after which two nodes that received the same versions differ |
| `Divergence.Cycle` | src/storage/engine.rs:653-655 | three versions of that run beat each other in a circle |
| `SingleWriter.ReplicasFollowTheWriter` | src/storage/engine.rs:537-554 | if one node makes all writes of a key and never loses it, every replica, whatever is deleted or restarted there, holds a version of the writer's history, never ahead of it, whatever the timestamps |
| `SingleWriter.ReceivingIsHolding` | src/storage/engine.rs:650-660 | a replica that has received the writer's latest version since it last lost a record of the key equals the writer |
| `SingleWriter.ReplicasOnlyMoveForward` | src/storage/engine.rs:650-660 | between losses a replica's version only moves forward in the writer's history |
| `Ring.GetReplicationNodes` | src/storage/engine.rs:158-199 | the method computes the targets that the rows below characterise; a count of 0 is never reached and yields all |
| `Ring.BuildRing` | src/storage/engine.rs:168-177 | the nested loops build the ring that the next row characterises, later insertions overwriting earlier ones |
| `Ring.RingIsTenPointsPerNode` | src/storage/engine.rs:168-177 | a point is on the ring exactly if it is the hash of a listed node's name, '#' and one decimal digit, and belongs to the last listed node with such a hash |
| `Ring.AloneHasTenPoints` | src/storage/engine.rs:168-177 | a single node has ten points if the ten hashes differ |
| `Ring.TargetsAreByNearestPoint` | src/storage/engine.rs:179-199 | for any hash, slice and factor each target has a point that is met, clockwise from the key's hash and round the end, before every point of every node that is not an earlier target |
| `Ring.FirstDistinct` | src/storage/engine.rs:183-198 | collecting with an early break yields a prefix of the first occurrences of the walk |
| `Ring.PreferenceIsByNearestPoint` | src/storage/engine.rs:185-189 | a node earlier in the order owns a ring point met, clockwise from the key, before every ring point of a later node, collisions or not |
| `Ring.TargetsAreDistinct` | src/storage/engine.rs:189-196 | for any hash the targets are different nodes, the first of the preference order, min(factor, nodes that keep a point) of them for a positive factor |
| `Ring.CollisionFreeTargets` | src/storage/engine.rs:189-196 | without collisions and repeats there are exactly min(factor, nodes) different targets for a positive factor, and all nodes for factor 0 |
| `Ring.TargetsIgnoreSliceOrder` | src/storage/engine.rs:171-177 | slices that build the same ring give the same targets; without collisions order and repeats in the slice never matter |
| `Ring.RingIgnoresOrderIffCollisionFree` | src/storage/engine.rs:171-177 | the ring is the same for every order of the same nodes if and only if no points of different nodes collide |
| `Ring.FullFactorNamesEveryNode` | src/storage/engine.rs:566-566 | replicating with the number of nodes as factor names exactly the nodes one of whose hashed points belongs to no node listed later, each once; every node if and only if all have such a point |
| `Ring.LastListedOwnsPoint` | src/storage/engine.rs:168-177 | a point is on the ring if and only if a listed node owns it, and belongs to the last such node |
| `Ring.HiddenNodeIsNotNamed` | src/storage/engine.rs:168-199 | a node whose points are all points of a later node is named for no key |
| `Ring.ZeroFactorNamesEveryNode` | src/storage/engine.rs:189-196 | with factor 0 the break never fires, so the result is that of the full factor |
| `Ring.JoinOnlyInsertsIff` | src/storage/engine.rs:158-199 | for any hash and any order of both slices, a join changes the preference order of every key only by inserting the new node if and only if from each old point the first point met that is not the new node's belongs to the old owner |
| `Ring.JoinDisplacesAtMostOne` | src/storage/engine.rs:158-199 | for every factor, where a join only inserts it adds at most the new node to the targets and displaces at most one |
| `Ring.TakingAllPointsDisplaces` | src/storage/engine.rs:168-199 | a join that takes all points of the only other node does more than insert, for every key |
| `Ring.CollisionFreeJoinsCleanly` | src/storage/engine.rs:168-177 | without collisions every join meets that condition, wherever the nodes are listed, and takes no point away |
| `Ring.FreshJoinsCleanly` | src/storage/engine.rs:168-177 | even if old nodes collide with each other, a node whose own points are unused meets it anywhere in the slice |
| `Ring.CollisionFreeKeepsPoints` | src/storage/engine.rs:168-177 | without collisions every node keeps a point |
| `Membership.ClusterData.RecordProbe` | src/network/broadcaster.rs:138-170 | only the target's entry changes: a success makes it active with the present time; a failure keeps the heartbeat, makes active suspect, and suspect down if the unsigned time since then exceeds 25 seconds |
| `Membership.ClusterData.UpdateMembership` | src/network/broadcaster.rs:283-309 | in whatever order the loop visits them, a member's entry is replaced exactly by a strictly later one under a name that is not empty and has no space; other such names are added as announced unless there are 100 members |
| `Membership.ClusterData.JoinCluster` | src/storage/engine.rs:847-881 | an unknown node is added as active from now, nobody else changes, and the answer is the table |
| `Membership.ClusterData.AdoptReply` | src/main.rs:130-133 | the start-up loop overwrites the table with every entry of the reply |
| `Membership.ClusterData.GetActiveNodes` | src/storage/engine.rs:149-155 | lists exactly the members whose status is active, each once, in any order |
| `Membership.ReplicationCoversActiveNodes` | src/storage/engine.rs:563-566 | whatever that order, a write's target list repeats no node, and names every active node if and only if none has all its hashed points taken by nodes listed later, as is the case without collisions |
| `Membership.MessageIsFollowed` | src/network/broadcaster.rs:283-309 | what a whole message does to every name, for any order of its entries |
| `Membership.ProbeIsFollowed` | src/network/broadcaster.rs:138-170 | from any state a probe changes its target's entry in the prober's table, by success or failure, and nothing else |
| `Membership.HearingIsFollowed` | src/network/broadcaster.rs:283-309 | from any state a heard message is followed name by name by the node that hears it, and no other table changes |
| `Membership.JoinIsFollowed` | src/storage/engine.rs:847-881 | from any state the join handshake lists the newcomer as active and fresh, answers with the whole table, and gives the newcomer all its entries over its own |
| `Membership.BootedNodeKnowsItself` | src/main.rs:99-105 | a node that starts lists itself as active from now, and nobody else |
| `Membership.GossipSendsTheTable` | src/network/broadcaster.rs:180-201 | gossip sends exactly the node's table and changes none; time passing changes no table |
| `Membership.SuccessRevives` | src/network/broadcaster.rs:138-170 | a successful probe makes a member active and fresh whatever it was, down included; over any later actions it stays so until later news, a failed probe, or a further one after more than 25 seconds |
| `Membership.GossipIsBounded` | src/network/broadcaster.rs:283-309 | for any gossip no member is dropped, no heartbeat goes back, and at most max(old size, 100) members result |
| `Membership.GossipKeepsNewest` | src/network/broadcaster.rs:283-309 | for any gossip a validly named member's entry is the newest of the local and received ones, a valid name is missing only if it was never heard or the table is full, and a member with any other name is left alone |
| `Membership.AllAdmittedIffTheyFit` | src/network/broadcaster.rs:290-301 | all valid names heard become members if and only if they fit within 100 or were members already |
| `Membership.GossipOrderFreeIff` | src/network/broadcaster.rs:283-309 | the same entries in any order and repetition give the same members and heartbeats if and only if the table was full from the start or all names fit within 100 |
| `Membership.CommonHeartbeatsAgree` | src/network/broadcaster.rs:283-309 | in whatever orders two tables absorb the same entries, members known to both get the same heartbeat, full or not |
| `Membership.MessagesKeepNewest` | src/network/broadcaster.rs:283-309 | after any sequence of messages to a node a validly named member's entry is the newest of the former one and all mentioned ones, and any other member is unchanged |
| `Membership.MessageOrderIsIrrelevant` | src/network/broadcaster.rs:283-309 | two equal tables that hear the same entries in different messages, groupings and orders agree on the heartbeats of common members, and on the members when the names fit |
| `Membership.DownMeansSilent` | src/network/broadcaster.rs:139-170 | in every run with one shared clock no heartbeat is in the future and every entry marked down, in tables and messages, is more than 25 seconds old |
| `Membership.SubtractionNeverWraps` | src/network/broadcaster.rs:163-164 | in every reachable state the unsigned subtraction does not wrap |
| `Membership.SilenceIsNoticed` | src/network/broadcaster.rs:155-170 | over any run in which an active member gives no sign of life, with probes of others, gossip and joins in between, it stays active exactly until a probe of it fails and is down exactly when a later probe fails more than 25 seconds after its last heartbeat |
| `Persistence.SaveTable` | src/storage/persistance.rs:135-162 | the buffer loop writes the encrypted chunks of the record grouping |
| `Persistence.LoadTable` | src/storage/persistance.rs:194-270 | decrypts and parses the snapshot line by line, stops on a chunk that does not decrypt, then replays the log |
| `Persistence.LoadSnapshot` | src/storage/persistance.rs:202-234 | the loop over cipher lines skips blank ones, inserts the records of each chunk, and stops at the first that does not decrypt |
| `Persistence.LoadLines` | src/storage/persistance.rs:214-224 | the inner loop splits each line at the first '=', trims both parts, and inserts what parses |
| `Persistence.ReplayWal` | src/storage/persistance.rs:243-268 | the replay loop, skipping unparsable lines, unknown operations and puts without a value |
| `Persistence.RecordsArePrinted` | src/storage/persistance.rs:140-145 | a chunk's text is, record by record, the key, " = ", the JSON and a newline |
| `Persistence.EveryChunkIsOneLine` | src/storage/persistance.rs:147-162 | the file has exactly one line per chunk, its whole text encrypted with a nonce of its own |
| `Persistence.LineIsSplitAtFirst` | src/storage/persistance.rs:214-224 | a line is split at its first '=', both parts are trimmed, what parses replaces the key's record, and other lines are skipped |
| `Persistence.ChunksAreLoadedInOrder` | src/storage/persistance.rs:202-234 | a blank line changes nothing, a line that decrypts has its lines inserted after those before it, one that does not fails the load |
| `Persistence.LoadFailsIffChunkDoes` | src/storage/persistance.rs:202-234 | a start fails if and only if some line of the snapshot is not blank and does not decrypt, whatever the log says |
| `Persistence.MissingFilesAreEmpty` | src/storage/persistance.rs:199-268 | without a snapshot the log is replayed over nothing, without a log the snapshot is all there is |
| `Persistence.LogEntryIsApplied` | src/storage/persistance.rs:246-268 | a put in the log stores its value, a delete removes its key and only that, everything else changes nothing |
| `Text.TrimRemovesSpaces` | src/storage/persistance.rs:206-218 | trimming removes all spaces at both ends and nothing else |
| `Text.SpacesByCode` | src/storage/persistance.rs:206-218 | the characters trimmed are the 25 with the Unicode White_Space property |
| `Text.LinesEndAtNewlines` | src/storage/persistance.rs:214-214 | lines end at a newline, with or without a carriage return, and the rest is a line of its own |
| `Text.LengthIsUtf8` | src/storage/persistance.rs:150-150 | the length compared with the limit is that of the UTF-8 encoding |
| `Persistence.ChunkSizes` | src/storage/persistance.rs:147-162 | every chunk but the last reaches the limit and every chunk is shorter than the limit plus the longest record |
| `Persistence.ChunksHoldAll` | src/storage/persistance.rs:140-162 | the chunks are whole records, all of them, in order, and no chunk is empty |
| `Persistence.RoundTripIffKeysClean` | src/storage/persistance.rs:135-235 | for any record order, chunk limit and nonces, saving and loading returns the table if and only if no key has '=', a newline or surrounding whitespace |
| `Persistence.LoadedKeysAreClean` | src/storage/persistance.rs:202-225 | whatever the file, every key that is loaded is of that kind |
| `Persistence.ReplayFollowsFate` | src/storage/persistance.rs:246-261 | after replay each key is what the last effective log entry for it says, or as before |
| `Persistence.ReplayIsIdempotent` | src/storage/persistance.rs:237-268 | replaying any log twice equals replaying it once |
| `Persistence.SaveThenLoad` | src/storage/persistance.rs:164-166 | after a complete save, with the log emptied, loading gives the saved table if and only if all keys are clean |
| `Persistence.UntruncatedLogIsHarmless` | src/storage/persistance.rs:164-166 | a snapshot that already contains the log's effects, loaded with the log not yet truncated, gives the saved table if and only if the keys the log leaves alone survive the snapshot; with clean keys it always does |
| `Persistence.RestoredIffClean` | src/storage/persistance.rs:135-235 | a whole disk of tables is restored as saved if and only if all keys are clean |
| `Persistence.RestoredRecordByRecord` | src/storage/persistance.rs:135-235 | whatever the keys, the chunk limit and the nonces, a start restores what the printed records parse to one by one |
| `Persistence.UnforgedIsFaithful` | src/storage/persistance.rs:214-224 | a start restores under a key only what was saved under it, unless the printed record of another key has a line that names it |
| `Persistence.CleanIsFaithful` | src/storage/persistance.rs:214-224 | so for every key of a table whose saved keys are clean |
| `SampleCodec.SampleIsSound` | src/storage/persistance.rs:135-235 | encodings that meet the requirements of the persistence theorems exist |
| `Restarts.PaddedKeyIsRenamed` | src/storage/persistance.rs:214-224 | a run of a write, a save and a restart after which a record is held under a key nobody wrote |
| `Restarts.KeyForgesRecord` | src/storage/persistance.rs:214-224 | such a run after which a version of the key's author's choosing, written by nobody, is held |
| `Subscriptions.SubscriptionManager.Subscribe` | src/storage/subscription.rs:30-40 | adds one live receiver on the channel of table, slash and key, creating the channel if needed; no other receiver or channel changes |
| `Subscriptions.SubscriptionManager.Send` | src/storage/subscription.rs:46-54 | reaches exactly the receivers on that channel and asks for clean-up exactly when the channel exists and has none |
| `Subscriptions.SubscriptionManager.CleanUp` | src/storage/subscription.rs:56-63 | removes that channel exactly when it still exists and still has no receiver |
| `Subscriptions.CleanUpNeverOrphans` | src/storage/subscription.rs:30-64 | in every interleaving of subscribing, the phases of notifications and dropped receivers, every live receiver is attached to the channel in the map |
| `Subscriptions.SendReachesAllSubscribers` | src/storage/subscription.rs:46-54 | in every interleaving a send reaches exactly the live receivers of its identifier |
| `Subscriptions.SubscriberIsReachedUntilDropped` | src/storage/subscription.rs:30-64 | in every interleaving a subscription adds one receiver, and whatever notifications, clean-ups and subscriptions follow, sends to its identifier reach it until it is dropped |
| `Subscriptions.AbandonedChannelIsRemoved` | src/storage/subscription.rs:46-63 | in every interleaving a notification of a channel without receivers removes that channel, if nobody subscribes meanwhile, and nothing else |
| `Subscriptions.OtherActionsKeepChannels` | src/storage/subscription.rs:30-63 | nobody subscribes under the write lock, a notification that finds a listener or no channel changes nothing, dropping a receiver removes it alone |
| `Subscriptions.FirstCheckAloneWouldOrphan` | src/storage/subscription.rs:56-63 | a run after which removing the channel without the second check would orphan a receiver |
| `Subscriptions.IdentifierIsUniqueIffNoSlash` | src/storage/subscription.rs:31-31 | a key shares its channel identifier with no other key if and only if neither its table nor its name contains a slash |

## Left out

- Convergence.Convergence: counts what a node knows from the last delete of the key at that node or restart of that node, because a delete removes the record without a tombstone and a restart may bring back an older one.
- Lineage.EveryVersionHasLineage: is for restarts that are faithful to the key, because `Restarts.PaddedKeyIsRenamed` and `Restarts.KeyForgesRecord` show restarts that end every lineage.
- Replication.ReachIsGenuine: is for the same runs, for the same reason.
- SingleWriter.ReplicasFollowTheWriter: is for runs in which the writing node does not lose the key, because after such a loss its counter starts again.
- Membership.GossipOrderFreeIff: does not claim agreement on statuses, because entries with equal heartbeats keep the local status.
- Membership.GossipIsBounded: is about gossip only; the start-up copy of a join reply overwrites entries unconditionally and may lower a heartbeat.
- Stores.AppState.MergeTableState: works on a copy of the table that is written back, so aliasing of the concurrent table handle is not modelled.
- Stores.AppState.DeleteValue: takes the check and the removal as one step; the replication machine allows a removal at any time instead.
- Persistence.SaveTable: takes the iteration order of the table and the nonces as inputs and returns the file as a string; directories, file creation and a crash in the middle of a write are not modelled.
- ReadRepair.ReadsSettleIffLatest: is about reads that all responders answer, between which nothing else reaches them.
- Persistence.RoundTripIffKeysClean: assumes that JSON parsing undoes printing (compact JSON has no raw newline, section 7 of RFC 8259), that decryption undoes encryption, and that cipher text is one word (sections 3.1 and 4 of RFC 4648).
- Ring.GetReplicationNodes: takes the hash as a parameter; how likely points of different nodes are to collide is not modelled.
- Counter overflow at 64 bits is not modelled; counters are unbounded naturals.
- The `auth` table, whose internal path re-stamps records, and administrator writes, which bypass ownership, are not modelled.
- HTTP handling, tokens, secrets, TLS, retries, back-off and concurrency limits are not modelled; their effect on messages is covered by loss, delay and duplication.
- Which nodes a health check or a gossip round picks at random is not modelled; the membership machine allows every choice.
- Channel capacity and lag inside the broadcast library, metrics, snapshots of the data directory and the dashboard are not modelled.
