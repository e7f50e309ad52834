# Verified models of Fledger

Fledger is a peer-to-peer system: nodes keep Kademlia tables, route messages over each
other, gossip events, replicate signed documents ("flos") in size-bounded stores, and talk
over brokers and WebRTC channels. This project models the algorithms of its Rust crates in
Dafny 4.11 and proves what they keep over every run.

Check it with `dafny verify dfyconfig.toml`.

## How the model is organised

| file | models |
|---|---|
| `Prelude.dfy` | Option, minimum and maximum, duplicate-free sequences |
| `NodeIds.dfy` | 256-bit ids and the depth (common prefix) of two ids |
| `Buckets.dfy`, `Table.dfy` | one bucket and the whole Kademlia table as values, with the invariant of every run |
| `Contents.dfy`, `Effects.dfy` | what every operation adds and takes away, and what a sign of life and a tick do to every node |
| `Ageing.dfy`, `Alive.dfy` | the age of active nodes over every run, and which of them stay active |
| `Kademlia.dfy` | the table as objects updated in place, tied to the values |
| `Routes.dfy`, `Routing.dfy` | next hops, message handlers, and runs of hops over arbitrary changing tables |
| `Gossip.dfy` | which events a bounded store converges to, as a theory of finite sets |
| `GossipStore.dfy`, `GossipExchange.dfy` | the event stores in place, the gossip messages, exchanges between nodes |
| `GossipTies.dfy` | events of equal times: which stores are possible, and when replicas agree |
| `Realm.dfy` | the size-bounded store of a realm: invariant, eviction, who survives |
| `RealmStorage.dfy`, `RealmSync.dfy`, `RealmNode.dfy` | that store in place, one round of synchronisation with a neighbour, and all realms of a node |
| `RealmRound.dfy` | a round without room: which reports are covered after all evictions |
| `Packets.dfy` | splitting, queueing and reassembling of messages over a data channel |
| `Broker.dfy` | brokers linked in arbitrary graphs: forwarding with trails, settling |
| `Rolling.dfy`, `RollingLoss.dfy` | rolling time buckets against a plain list of samples, and what samples out of order cost |
| `Access.dfy` | threshold conditions over signatures |
| `FloChain.dfy` | the signed version chain of a flo |
| `Hashing.dfy` | the length-prefixed bytes under every digest |

Where the source updates an object in place, a class does the same, and its methods
`ensure` that the new state is a function of the old one (`Model() == Op(old(Model()))`).
Lemmas and run functions then state what those functions keep. What such a function does is
also said without it, member by member, by lemmas whose names end in `Is` or `Iff`.

## Choices

* The depth of two ids is the length of their common prefix over the first 255 bits: the
  source returns 255 both for equal ids and for ids which differ in the last bit only. Two
  such ids are called siblings. `Routing.ClosestFiniteIff` shows that they are exactly what
  keeps a Closest message from ending.
* Hashes are collision-free: event ids and digests are terms that contain what they hash.
  `Hashing.FeedInjective` proves the part of this that the program itself is responsible for.
* Signatures are ideal: a signature names its key and the digest it signs.
* Iteration order of hash maps, random choices and the order in which messages arrive are
  arbitrary: a method picks any element, a run is any sequence.
* Sizes of serialised values are arbitrary functions of the value, fixed per store.
* The clock is read once per operation and is a parameter.
* A Kademlia configuration has `k`, the ping interval and the ping timeout at least 1.

## Where the code falls short of its comments or its purpose

The model follows the code.

* A bucket overflows from `2k` nodes on; the comments in
  `fledger/flmodules/src/dht_router/kademlia.rs` at lines 343-346 and 486-488 say more than `2k`. `Buckets.OverflowsAtTwice` gives an input,
  `Buckets.StatusDisagreesIff` the exact condition.
* `upsert_flo` answers that a new flo was stored also when it was refused for lack of space;
  the comment at line 488 of `fledger/flmodules/src/dht_storage/messages.rs` promises otherwise.
  `Realm.AnswerIsNotStoredAt` gives an input, `Realm.UpsertStores` the exact condition.
* The eviction loop of `upsert_flo` never ends if the realm's own entry is larger than the
  bound: `Realm.GrownRealmDivergesAt` gives a run that gets there, `Realm.EvictFits` and
  `Realm.EvictionDiverges` the exact condition, which `RealmStorage.RealmStorage.UpsertFlo` requires.
* `insert` of an event store answers true also when the new event is the oldest and is
  dropped at once: `GossipTies.DroppedAtOnce` gives an input, `GossipTies.AnsweredIsHeld` and
  `GossipTies.AnsweredIsHeldIff` the exact condition.
* Replicas do not converge for all events: `GossipTies.EqualTimesDiverge` gives an input,
  `GossipTies.ConvergesIff` the exact condition.
* A packet that arrives again after its message came out leaves an entry behind:
  `Packets.DoubledPacketStaysAt` gives an input, `Packets.LeftIff` the exact condition.
* A sample that comes late can push out a bucket that is still valid:
  `RollingLoss.LateSampleLosesBucket` gives an input, `RollingLoss.LosesIff` and
  `RollingLoss.SnapshotIsExact` the exact conditions.
* `equal_link` does not compare a condition with a link once thresholds or badges are involved.
  It finds nothing equal to a link to a badge, and it compares the whole condition with every
  part of a threshold: `Access.EqualToOtherLinks` gives inputs, `Access.EqualLinkIff` says exactly
  when it holds, `Access.EqualLinkIsExactIff` for which links it is right, and
  `Access.EqualToOwnLink` for which conditions it holds with their own link. What this means for a
  flo is in `FloChain.LeaflessTakesAnyData` (an input), `FloChain.OnlyByCondInForceIff` and
  `FloChain.AdoptableLinksIff`.
* `can_sign` can refuse a signer who would be enough: `Access.CanSignRefusesTwice` gives an
  input, `Access.CanSignDecidesIff` the exact condition.

## Model

| member | source | states |
|---|---|---|
| NodeIds.GetDepth | fledger/flmodules/src/dht_router/kademlia.rs:517-531 | The scan over bytes and bits computes the length of the common prefix, capped at 255. |
| NodeIds.Ultrametric | fledger/flmodules/src/dht_router/kademlia.rs:517-531 | Two sides of a triangle of ids bound the depth of the third from below. |
| NodeIds.Isosceles | fledger/flmodules/src/dht_router/kademlia.rs:517-531 | If two depths of a triangle differ, the third equals the smaller one. |
| NodeIds.SameDepthIsCloser | fledger/flmodules/src/dht_router/kademlia.rs:517-531 | Two ids that branch off a third at the same bit are strictly nearer to each other. |
| NodeIds.OneSibling | fledger/flmodules/src/dht_router/kademlia.rs:530-530 | An id has at most one other id at depth 255. |
| Buckets.SortSorts | fledger/flmodules/src/dht_router/kademlia.rs:296-298 | Pushing and sorting by depth keeps all nodes and leaves them sorted. |
| Buckets.FewerNeverOverflow | fledger/flmodules/src/dht_router/kademlia.rs:347-377 | A bucket that does not overflow does not start to by losing or reordering nodes, the imbalance rule included. |
| Buckets.MergedNeverOverflow | fledger/flmodules/src/dht_router/kademlia.rs:209-218 | Fewer than k nodes joined by any number of nodes of one shallower depth do not overflow. |
| Buckets.StatusDisagreesIff | fledger/flmodules/src/dht_router/kademlia.rs:343-377 | Exactly where the status differs from the commented one: balanced buckets of 2k nodes, and larger imbalanced ones. |
| Buckets.OverflowsAtTwice | fledger/flmodules/src/dht_router/kademlia.rs:349-355 | A bucket of 2k nodes that overflows. |
| Buckets.ExtractDepthMembers | fledger/flmodules/src/dht_router/kademlia.rs:313-330 | Taking out the nodes of one depth moves nodes only, active ones only when no cached one of that depth is left, and leaves at least k nodes, or all if there were fewer. |
| Buckets.NodeActiveCounts | fledger/flmodules/src/dht_router/kademlia.rs:435-450 | A sign of life keeps exactly the same nodes, whichever list they move between. |
| Buckets.TickMembers | fledger/flmodules/src/dht_router/kademlia.rs:386-433 | A tick keeps the order by depth and the bounds, and leaves no node it reported as deleted. |
| Table.SplitShape | fledger/flmodules/src/dht_router/kademlia.rs:195-205 | A split of an overflowing root bucket keeps the shape of the table and leaves at least k nodes in it. |
| Table.RebalanceOverflowOk | fledger/flmodules/src/dht_router/kademlia.rs:195-205 | The splitting loop ends, with the whole invariant, a stable root bucket and at least k nodes in it. |
| Table.MergeInv | fledger/flmodules/src/dht_router/kademlia.rs:207-218 | Merging the deepest bucket into a wanting root bucket keeps the invariant: it cannot overshoot to overflowing. |
| Table.RebalanceWantingOk | fledger/flmodules/src/dht_router/kademlia.rs:207-218 | The merging loop ends, keeps the invariant, and stops wanting or has no buckets left. |
| Table.RebalanceWantingKeepsAll | fledger/flmodules/src/dht_router/kademlia.rs:207-218 | Merging loses no node and adds none, of any kind. |
| Table.AddNodeInv | fledger/flmodules/src/dht_router/kademlia.rs:48-61 | Adding any id, also our own or a known one, keeps the invariant. |
| Table.RemoveNodeInv | fledger/flmodules/src/dht_router/kademlia.rs:94-104 | Removing any id keeps the invariant through the merges it causes. |
| Table.NodeDisconnectedInv | fledger/flmodules/src/dht_router/kademlia.rs:84-92 | A disconnection keeps the invariant, and does nothing for ids of the root bucket. |
| Table.NodeActiveInv | fledger/flmodules/src/dht_router/kademlia.rs:174-180 | A sign of life of any id keeps the invariant. |
| Table.TickInv | fledger/flmodules/src/dht_router/kademlia.rs:184-191 | A tick keeps the invariant. |
| Table.Step | fledger/flmodules/src/dht_router/kademlia.rs:48-191 | Every operation maps a table with the invariant to one with the invariant. |
| Table.Run | fledger/flmodules/src/dht_router/kademlia.rs:39-191 | Over every run: bucket i holds nodes of depth i, the root bucket deeper ones, ids are unique and never our own, at most k active and 2k cached, the root sorted by depth and never overflowing. |
| Ageing.RunRecent | fledger/flmodules/src/dht_router/kademlia.rs:174-450 | Over every run the age of every active node is exactly the number of ticks since the last sign of life of its id, and below the timeout. |
| Ageing.ActiveMeansSeen | fledger/flmodules/src/dht_router/kademlia.rs:143-191 | Over every run an id is reported as active only if it was seen fewer than the timeout ticks ago, through all splits and merges. |
| Alive.TickDecides | fledger/flmodules/src/dht_router/kademlia.rs:174-450 | Over every run the ticks since the last sign of life of an active id decide the next tick: it is deleted exactly at the timeout and otherwise stays active, and it is pinged exactly at every multiple of the interval. |
| Alive.StepKeepsActive | fledger/flmodules/src/dht_router/kademlia.rs:48-450 | Whatever happens, an active node stays active, older by a tick or with age zero after its sign of life, unless it is removed, is at the timeout, or more than k active nodes of its depth wait in the root bucket for a split. |
| Alive.SeenIsActive | fledger/flmodules/src/dht_router/kademlia.rs:435-450 | After a sign of life an id is active exactly if it was active, or is known and there is room. |
| Alive.MergingKeepsActive | fledger/flmodules/src/dht_router/kademlia.rs:207-218 | The merging loop changes no active node, and makes none of a cached one. |
| Alive.SplittingKeepsActive | fledger/flmodules/src/dht_router/kademlia.rs:195-205 | The splitting loop keeps active every node of a depth with at most k active nodes. |
| Alive.AddedIsCached | fledger/flmodules/src/dht_router/kademlia.rs:48-61 | A new id for which there is room is cached with age zero, behind the others of its bucket. |
| Contents.TickRemovesReported | fledger/flmodules/src/dht_router/kademlia.rs:184-191 | A tick takes away exactly the ids it reports as deleted, and each of them was in the table. |
| Contents.RemoveNodeExactly | fledger/flmodules/src/dht_router/kademlia.rs:94-104 | Removing takes away that id and no other, whatever is merged. |
| Contents.NodeDisconnectedExactly | fledger/flmodules/src/dht_router/kademlia.rs:84-92 | A disconnection takes away the id if its depth has a bucket of its own, and otherwise nothing. |
| Contents.NodeActiveExactly | fledger/flmodules/src/dht_router/kademlia.rs:174-180 | A sign of life keeps exactly the nodes of every kind. |
| Contents.NodeActiveAnswer | fledger/flmodules/src/dht_router/kademlia.rs:435-450 | The answer tells exactly whether the id just became active. |
| Effects.NodeActiveIs | fledger/flmodules/src/dht_router/kademlia.rs:435-450 | After a sign of life the id has age zero, is active if it was or if there is room and cached otherwise, and no other node changes. |
| Effects.TickIs | fledger/flmodules/src/dht_router/kademlia.rs:386-433 | What a tick makes of every node of a bucket: which ones grow older, which stay as they are, and which are gone. |
| Effects.TableReportIs | fledger/flmodules/src/dht_router/kademlia.rs:184-433 | Exactly which ids a tick reports to ping and as deleted: active ones by their age after the tick, of the cached ones those that are reached, pinged by their age before it. |
| Contents.AddToBucketExactly | fledger/flmodules/src/dht_router/kademlia.rs:48-54 | A new id goes to the bucket of its depth if there is room, and nothing else changes. |
| Contents.AddToRootExactly | fledger/flmodules/src/dht_router/kademlia.rs:55-60 | A new id goes to the root bucket, and nothing else changes but for nodes of the depths that are split off. |
| Contents.SplitKeepsOtherDepths | fledger/flmodules/src/dht_router/kademlia.rs:195-205 | A split loses no node of another depth. |
| Contents.RebalanceOverflowKeeps | fledger/flmodules/src/dht_router/kademlia.rs:195-205 | The splitting loop loses only nodes of the depths it splits off. |
| Contents.SplitLosesNoneIff | fledger/flmodules/src/dht_router/kademlia.rs:277-302 | A split loses no node exactly while the new bucket has room for the active and then the cached nodes taken out. |
| Contents.SplitsNoMore | fledger/flmodules/src/dht_router/kademlia.rs:195-205 | Every split was needed: 2k nodes or more were at its depth and deeper. |
| Contents.MergesNoMore | fledger/flmodules/src/dht_router/kademlia.rs:207-218 | Every merge was needed: fewer than k nodes were deeper than what it brought back. |
| Kademlia.KBucket.RemoveAllNodesAtDepth | fledger/flmodules/src/dht_router/kademlia.rs:313-330 | The draining loops take the first nodes of that depth, cached ones first, and leave at least k nodes. |
| Kademlia.KBucket.Tick | fledger/flmodules/src/dht_router/kademlia.rs:386-433 | Ageing, reporting and removing in place do what the value-level tick does, which `Effects.TickIs` says node by node. |
| Kademlia.KBucket.NodeActive | fledger/flmodules/src/dht_router/kademlia.rs:435-450 | Refreshing or promoting in place does what the value-level operation does, which `Effects.NodeActiveIs` says node by node. |
| Kademlia.Kademlia.AddNode | fledger/flmodules/src/dht_router/kademlia.rs:48-61 | The table afterwards is the value-level result, and valid. |
| Kademlia.Kademlia.RebalanceOverflow | fledger/flmodules/src/dht_router/kademlia.rs:195-205 | The loop over real buckets ends in the value-level result. |
| Kademlia.Kademlia.RebalanceWanting | fledger/flmodules/src/dht_router/kademlia.rs:209-218 | The loop over real buckets ends in the value-level result. |
| Kademlia.Kademlia.RemoveNode | fledger/flmodules/src/dht_router/kademlia.rs:94-104 | The table afterwards is the value-level result, and valid. |
| Kademlia.Kademlia.NodeDisconnected | fledger/flmodules/src/dht_router/kademlia.rs:84-92 | The table afterwards is the value-level result, and valid. |
| Kademlia.Kademlia.NodeActive | fledger/flmodules/src/dht_router/kademlia.rs:174-180 | The table and the answer are the value-level results (see `Effects.NodeActiveIs`, `Ageing.RunRecent`, `Contents.NodeActiveAnswer`). |
| Kademlia.Kademlia.Tick | fledger/flmodules/src/dht_router/kademlia.rs:184-191 | The table and the reported ids are the value-level results (see `Effects.TableReportIs`, `Alive.TickDecides`). |
| Kademlia.Kademlia.RouteClosest | fledger/flmodules/src/dht_router/kademlia.rs:108-124 | The chained loop over depths finds the value-level next hops, which `Routes.RouteClosestIs` determines. |
| Routes.RouteClosestIs | fledger/flmodules/src/dht_router/kademlia.rs:108-124 | Exactly which ids are hops: the active ones on the branch of the destination; or, if there are none and the message came from another node, those of the least depth that has any, deeper than destination and last hop and less deep than some active node of the root bucket. |
| Routes.NoHopIff | fledger/flmodules/src/dht_router/kademlia.rs:108-124 | There is no hop exactly if no active node is on any of these branches. |
| Routes.NodesAtDepthIs | fledger/flmodules/src/dht_router/kademlia.rs:134-140 | The ids at a depth are exactly those of all active nodes of that depth, in whatever bucket. |
| Routes.NodesAtDepth | fledger/flmodules/src/dht_router/kademlia.rs:134-140 | Only other nodes of exactly the asked depth are returned. |
| Routes.RouteKinds | fledger/flmodules/src/dht_router/kademlia.rs:108-124 | A next hop is on the branch of the destination, or on a branch deeper than both destination and last hop but not the deepest. |
| Routing.HopsIff | fledger/flmodules/src/dht_router/messages.rs:216-222 | A connected key is the only hop; otherwise the hops are exactly the active nodes on the branches above, each once. |
| Routing.Messages.MessageClosest | fledger/flmodules/src/dht_router/messages.rs:340-386 | Forwards to the first next hop, and otherwise ends here: as the destination or as the closest node. |
| Routing.Messages.MessageDirect | fledger/flmodules/src/dht_router/messages.rs:388-410 | Ends at the destination, is dropped without a next hop, and otherwise goes to one of the next hops. |
| Routing.Messages.NewClosest | fledger/flmodules/src/dht_router/messages.rs:224-234 | A new message goes to the first next hop, and nowhere without one. |
| Routing.Messages.NewDirect | fledger/flmodules/src/dht_router/messages.rs:236-246 | A new message goes to the first next hop, and nowhere without one. |
| Routing.MoveDecreases | fledger/flmodules/src/dht_router/messages.rs:216-222 | Every hop of an undelivered message decreases the lexicographic measure, the fallback included. |
| Routing.ClosestFiniteIff | fledger/flmodules/src/dht_router/messages.rs:340-386 | Closest messages make finitely many hops over all, also changing, tables if and only if no two nodes differ in the last bit only. |
| Routing.TwinIsReached | fledger/flmodules/src/dht_router/messages.rs:340-386 | The tables of two siblings that pass a message back and forth come about when each adds and sees the other. |
| Routing.DirectIsFinite | fledger/flmodules/src/dht_router/messages.rs:388-410 | Direct messages make finitely many hops over any tables, without any condition. |
| Routing.StopsAtClosest | fledger/flmodules/src/dht_router/messages.rs:351-385 | A Closest message that stops at a node with a covering table stops at a node of maximal depth with the key in the whole network. |
| Routing.DirectDelivers | fledger/flmodules/src/dht_router/messages.rs:388-410 | Over covering tables a Direct message stops only at its destination, after at most 256 hops. |
| Routing.ClosestDelivers | fledger/flmodules/src/dht_router/messages.rs:340-386 | Over covering tables without siblings a Closest message to an existing node stops exactly there, after at most 256 hops. |
| Gossip.NewestUnion | fledger/flmodules/src/gossip_events/core.rs:191-207 | Truncating to the newest n before or after a union gives the same events. |
| Gossip.InsertReduces | fledger/flmodules/src/gossip_events/core.rs:134-167 | Inserting into the reduction of a set gives the reduction of the larger set, whatever was superseded or pushed out before. |
| Gossip.InsertAgain | fledger/flmodules/src/gossip_events/core.rs:134-139 | Offering an event again, even one that was pushed out, changes nothing. |
| Gossip.HeldIsReduction | fledger/flmodules/src/gossip_events/core.rs:134-207 | After any insertions in any order with any repeats the store is the reduction of the set of all events offered. |
| Gossip.HeldAreNewest | fledger/flmodules/src/gossip_events/core.rs:134-207 | After any insertions a store holds n of the offered events, or all if there are fewer, each more recent than each that is missing. |
| Gossip.HeldAreLatest | fledger/flmodules/src/gossip_events/core.rs:134-207 | With unique sources it holds the most recent event of each of n sources, or of all if there are fewer, each more recent than all events of the other sources. |
| Gossip.ReplicasConverge | fledger/flmodules/src/gossip_events/core.rs:134-207 | Replicas that were offered the same set of events hold the same events. |
| Gossip.ReduceUnion | fledger/flmodules/src/gossip_events/core.rs:134-207 | Merging with a reduction is as good as merging with everything it stands for. |
| GossipStore.TruncatedIsNewest | fledger/flmodules/src/gossip_events/core.rs:191-207 | Keeping n events, none older than a dropped one, is keeping those with fewer than n newer ones. |
| GossipStore.InsertedIs | fledger/flmodules/src/gossip_events/core.rs:134-167 | With distinct times what the store may do is exactly the set-level insertion. |
| GossipStore.SortNewestFirst | fledger/flmodules/src/gossip_events/core.rs:195-201 | The sort puts every event once, newest first. |
| GossipStore.Events.Insert | fledger/flmodules/src/gossip_events/core.rs:134-143 | The held events afterwards, the size bound, one event per source, and the answer, also for equal times. |
| GossipStore.Events.InsertUnique | fledger/flmodules/src/gossip_events/core.rs:147-160 | Keeps the newer of the held and the new event of a source. |
| GossipStore.Events.Limit | fledger/flmodules/src/gossip_events/core.rs:191-207 | Drops the oldest events beyond the limit and nothing else. |
| GossipTies.OfferAll | fledger/flmodules/src/gossip_events/core.rs:134-167 | Inserting one event after the other is a run as the next rows mean it, ties broken somehow. |
| GossipTies.PossibleIff | fledger/flmodules/src/gossip_events/core.rs:134-207 | Exactly which stores are possible once a set was offered in some order, with repeats and equal times: some n newest of one latest event of every source, or of all events. |
| GossipTies.ConvergesIff | fledger/flmodules/src/gossip_events/core.rs:134-207 | Replicas that were offered the same events always agree if and only if no tie crosses the boundary and no source among the newest n has two latest events. |
| GossipTies.SettledHolds | fledger/flmodules/src/gossip_events/core.rs:134-207 | Then they hold the latest events of the newest sources, or the newest events. |
| GossipTies.DifferentTimesSettle | fledger/flmodules/src/gossip_events/core.rs:134-207 | Different times are enough for that. |
| GossipTies.EqualTimesDiverge | fledger/flmodules/src/gossip_events/core.rs:147-160 | Two events of one source and time: the last one offered stays, whatever the limit, so replicas differ for good. |
| GossipTies.AnsweredIsHeld | fledger/flmodules/src/gossip_events/core.rs:134-167 | An event answered with true is held for sure, or can be held, exactly if fewer than n others are at least as recent, or newer. |
| GossipTies.AnsweredIsHeldIff | fledger/flmodules/src/gossip_events/core.rs:134-167 | With different times it is held exactly if fewer than n held ones are newer. |
| GossipTies.DroppedAtOnce | fledger/flmodules/src/gossip_events/core.rs:163-167 | A full store that answers true for an event it never holds. |
| GossipExchange.AddAllReduces | fledger/flmodules/src/gossip_events/messages.rs:151-157 | Adding a list of events to both categories of a store gives the reduction of all of them. |
| GossipExchange.PassesKeeps | fledger/flmodules/src/gossip_events/messages.rs:151-157 | Adding events one after the other, ties broken somehow: nothing else gets in, with different times the result is determined, and nothing changes if all were known. |
| GossipExchange.StoreOfBoth | fledger/flmodules/src/gossip_events/core.rs:18-41 | The reduction of two reductions is the reduction of the union. |
| GossipExchange.EventsStorage.AddEvent | fledger/flmodules/src/gossip_events/core.rs:43-49 | Inserts into the category of the event and leaves the other; the answer is false exactly if the event was known, and then nothing changed. |
| GossipExchange.EventsInOrder | fledger/flmodules/src/gossip_events/core.rs:179-182 | One lookup per requested id finds exactly the held events among them. |
| GossipExchange.EventsOfMap | fledger/flmodules/src/gossip_events/core.rs:171-178 | Filtering the held events by requested ids finds exactly those. |
| GossipExchange.EventsStorage.GetEventsByIds | fledger/flmodules/src/gossip_events/core.rs:70-75 | Returns exactly the held events whose ids are requested. |
| GossipExchange.EventsStorage.EventIds | fledger/flmodules/src/gossip_events/core.rs:77-82 | Lists the id of every held event once. |
| GossipExchange.Offers | fledger/flmodules/src/gossip_events/messages.rs:159-185 | Exactly the neighbours other than the sender and this node are offered, each, the new events that are not its own. |
| GossipExchange.OffersAre | fledger/flmodules/src/gossip_events/messages.rs:159-185 | Each of them gets one offer, in their order. |
| GossipExchange.News | fledger/flmodules/src/gossip_events/messages.rs:183-183 | Every new event is announced once, in order. |
| GossipExchange.Asks | fledger/flmodules/src/gossip_events/messages.rs:257-264 | Every neighbour is asked for its ids once. |
| GossipExchange.Messages.AddEvent | fledger/flmodules/src/gossip_events/messages.rs:141-147 | A known event changes and sends nothing; any other is inserted and offered to all neighbours. |
| GossipExchange.Messages.AddEvents | fledger/flmodules/src/gossip_events/messages.rs:151-157 | Adds the events one after the other, clears them from the outstanding ids, and returns, in order, exactly those that were not known when they arrived. |
| GossipExchange.Messages.NodeList | fledger/flmodules/src/gossip_events/messages.rs:187-196 | Exactly the new neighbours are asked for their ids. |
| GossipExchange.Messages.NodeKnownEventIds | fledger/flmodules/src/gossip_events/messages.rs:201-211 | Asks for exactly the offered events that are neither held nor outstanding, and notes them. |
| GossipExchange.Messages.NodeEvents | fledger/flmodules/src/gossip_events/messages.rs:214-224 | The same, and offers on exactly the events that were not known when they arrived. |
| GossipExchange.Messages.NodeRequestEvents | fledger/flmodules/src/gossip_events/messages.rs:228-235 | Sends exactly the requested events that are held, or nothing. |
| GossipExchange.Messages.NodeRequestEventList | fledger/flmodules/src/gossip_events/messages.rs:238-243 | Sends the ids of all held events. |
| GossipExchange.Messages.Tick | fledger/flmodules/src/gossip_events/messages.rs:113-121 | From the third tick on forgets the outstanding ids and asks all neighbours again. |
| GossipExchange.PulledStore | fledger/flmodules/src/gossip_events/messages.rs:201-224 | Storing what the other holds and one lacks gives the reduction of all either was offered. |
| GossipExchange.Pull | fledger/flmodules/src/gossip_events/messages.rs:201-243 | The four messages in one direction leave the asking node with the reduction of both, and nothing outstanding. |
| GossipExchange.FullExchange | fledger/flmodules/src/gossip_events/messages.rs:201-252 | Both directions leave the two nodes with identical events: the reduction of the union. |
| GossipExchange.GossipSpreads | fledger/flmodules/src/gossip_events/messages.rs:201-252 | After any meetings in any order a node holds the reduction of what reached it along chains of meetings. |
| Realm.RemoveEntryInv | fledger/flmodules/src/dht_storage/core.rs:301-309 | Removing an entry keeps the size and the depth index exact. |
| Realm.PutInv | fledger/flmodules/src/dht_storage/core.rs:282-299 | Putting a flo, new or known, keeps the size and the depth index exact. |
| Realm.StoreCuckooIdInv | fledger/flmodules/src/dht_storage/core.rs:187-195 | Noting a cuckoo keeps the size exact, notes it at its parent, and changes no other entry. |
| Realm.RunInv | fledger/flmodules/src/dht_storage/core.rs:116-343 | Over every run the size is the sum of the entries, every stored id is listed once under its depth and nothing else is, and the realm keeps its own flo. |
| Realm.EvictKeepsRealm | fledger/flmodules/src/dht_storage/core.rs:311-343 | Eviction only removes, changes no surviving entry, and never removes the realm's flo. |
| Realm.EvictFits | fledger/flmodules/src/dht_storage/core.rs:249-253 | The eviction loop reaches the bound if and only if the realm's own entry is within it. |
| Realm.EvictionDiverges | fledger/flmodules/src/dht_storage/core.rs:249-253 | Otherwise no number of turns of the loop reaches the bound. |
| Realm.GrownRealmDiverges | fledger/flmodules/src/dht_storage/core.rs:187-253 | A run after which the loop never ends: cuckoos that make the realm's entry larger than the bound. |
| Realm.GrownRealmDivergesAt | fledger/flmodules/src/dht_storage/core.rs:187-253 | At one node one cuckoo is enough. |
| Realm.EvictedAreFarthest | fledger/flmodules/src/dht_storage/core.rs:311-343 | Every evicted flo is at most as deep as every surviving one that is not the realm's. |
| Realm.LastListedSurvives | fledger/flmodules/src/dht_storage/core.rs:311-343 | A flo last in its list is evicted if and only if dropping everything strictly farther, except the realm's flo, is not enough; if it stays only strictly farther flos went. |
| Realm.SurvivesIff | fledger/flmodules/src/dht_storage/core.rs:249-343 | Exactly which flos stay when the store is cut to its bound: the realm's, and those for which dropping everything farther, and everything as far but listed behind, is enough. |
| Realm.UpsertStores | fledger/flmodules/src/dht_storage/core.rs:213-269 | Exactly when upsert_flo leaves a new or newer flo stored with its new content: three times its size is within the bound; if new, it fits into the bound or into the size of everything strictly farther; and it fits once all strictly farther flos but the realm's are gone. |
| Realm.StoredIs | fledger/flmodules/src/dht_storage/core.rs:229-248 | What is stored before anything is evicted: the flo replaces an older version, or is new and fits in one of these two ways; otherwise nothing changes. |
| Realm.ParentNotedIs | fledger/flmodules/src/dht_storage/core.rs:187-227 | The parent of a cuckoo, if it is stored, lists it afterwards, and nothing else changes. |
| Realm.NearerFloIsStored | fledger/flmodules/src/dht_storage/core.rs:236-248 | A new flo that fits into the bound, or into the size of everything strictly farther, stays and only strictly farther flos go, if the store was within the bound and the realm's flo is not among them. |
| Realm.AnswerIsNotStored | fledger/flmodules/src/dht_storage/core.rs:229-269 | At any node whose bound leaves no room beside the realm's flo, upsert_flo answers true for a flo that is not nearer, and changes nothing. |
| Realm.AnswerIsNotStoredAt | fledger/flmodules/src/dht_storage/core.rs:229-269 | Such a node and such flos. |
| RealmStorage.WantedMembers | fledger/flmodules/src/dht_storage/core.rs:198-211 | Exactly the ids whose report is not covered by what is held are asked for. |
| RealmStorage.WantedIff | fledger/flmodules/src/dht_storage/core.rs:198-211 | They are the ids of flos that are not held, held in an older version, or held with fewer cuckoos. |
| RealmStorage.StoreAllCuckoosIs | fledger/flmodules/src/dht_storage/core.rs:182-195 | A list of cuckoos adds just these to its flo and changes nothing else. |
| RealmStorage.RealmStorage.constructor | fledger/flmodules/src/dht_storage/core.rs:116-130 | A new store holds just the realm's flo. |
| RealmStorage.RealmStorage.Put | fledger/flmodules/src/dht_storage/core.rs:282-299 | The store afterwards is the value-level result, and valid. |
| RealmStorage.RealmStorage.RemoveEntry | fledger/flmodules/src/dht_storage/core.rs:301-309 | The store afterwards is the value-level result, and valid. |
| RealmStorage.RealmStorage.RemoveFurthest | fledger/flmodules/src/dht_storage/core.rs:311-343 | Removes the last listed flo of the least depth that has one besides the realm's. |
| RealmStorage.LeastWithOther | fledger/flmodules/src/dht_storage/core.rs:312-320 | The search over all depths finds the least one with a flo besides the realm's. |
| RealmStorage.RealmStorage.SizeAbove | fledger/flmodules/src/dht_storage/core.rs:240-243 | The sum over depths is the total size of everything strictly farther. |
| RealmStorage.RealmStorage.EvictFurthest | fledger/flmodules/src/dht_storage/core.rs:251-253 | The loop ends within the bound. |
| RealmStorage.RealmStorage.UpsertFlo | fledger/flmodules/src/dht_storage/core.rs:213-269 | The store is the value-level result, which `Realm.StoredIs` and `Realm.SurvivesIff` determine, within the bound unless the flo was too large; the answer is true exactly for a flo that is not too large and new or newer. |
| RealmStorage.RealmStorage.StoreCuckooId | fledger/flmodules/src/dht_storage/core.rs:187-195 | The store afterwards is the value-level result, and valid. |
| RealmStorage.RealmStorage.SyncAvailable | fledger/flmodules/src/dht_storage/core.rs:198-211 | Nothing is asked if and only if every reported flo is held at that version and with as many cuckoos. |
| RealmStorage.MetasOf | fledger/flmodules/src/dht_storage/core.rs:167-176 | One report for every stored flo, with its version and number of cuckoos. |
| RealmStorage.RealmStorage.GetFloMetas | fledger/flmodules/src/dht_storage/core.rs:167-176 | The reports of all stored flos. |
| RealmSync.ReceiveWithRoom | fledger/flmodules/src/dht_storage/messages.rs:440-453 | With room, a received flo is held at its version or newer with all its cuckoos, and every other entry only grew. |
| RealmSync.ReceiveAllWithRoom | fledger/flmodules/src/dht_storage/messages.rs:440-453 | The same for a whole list of received flos. |
| RealmSync.SyncRound | fledger/flmodules/src/dht_storage/messages.rs:389-456 | After one round with room everything the neighbour holds is held, at its version or newer and with as many cuckoos, so the same report asks for nothing. |
| RealmSync.ReceivedIsCoveredIff | fledger/flmodules/src/dht_storage/messages.rs:440-453 | Without room: a received new or newer flo covers its report exactly if it is not too big, fits into the bound or into what is strictly farther, and still fits once that is gone. |
| RealmSync.RefusedIsAskedAgain | fledger/flmodules/src/dht_storage/messages.rs:389-456 | A refused flo that the same report asks for again. |
| RealmRound.StaysIff | fledger/flmodules/src/dht_storage/messages.rs:440-453 | Exactly when a stored flo outlives a list of arriving ones. |
| RealmRound.HeldReportIff | fledger/flmodules/src/dht_storage/messages.rs:389-453 | Exactly when a report that was covered before a reply is covered after it. |
| RealmRound.AskedReportIff | fledger/flmodules/src/dht_storage/messages.rs:440-453 | Exactly when a report is covered after a reply that brings its flo: it arrives, and stays through all that follow. |
| RealmRound.RoundCoversIff | fledger/flmodules/src/dht_storage/messages.rs:389-456 | A round with or without room: exactly which reports are covered afterwards. |
| RealmSync.RoomEnds | fledger/flmodules/src/dht_storage/messages.rs:440-453 | With room every eviction on the way comes to an end. |
| RealmSync.RequestFlos | fledger/flmodules/src/dht_storage/messages.rs:410-435 | Replies with what is held of the requested flos. |
| RealmSync.Flos | fledger/flmodules/src/dht_storage/messages.rs:440-453 | The store afterwards is the value-level result of all received flos. |
| RealmSync.AvailableFlos | fledger/flmodules/src/dht_storage/messages.rs:389-456 | The handlers together end in the value-level store, with room or without; with room it covers every report. |
| RealmSync.RunKeeps | fledger/flmodules/src/dht_storage/core.rs:187-299 | Over every run no cuckoo is noted twice and all flos are of the realm. |
| RealmSync.ReceivedKeeps | fledger/flmodules/src/dht_storage/messages.rs:440-453 | Whatever is received, flos of other realms never get in and no cuckoo is noted twice. |
| RealmNode.Messages.UpsertFlo | fledger/flmodules/src/dht_storage/messages.rs:489-543 | A known realm takes the flo, an accepted new realm gets a store, all other stores stay as they are, and the answer. |
| RealmNode.Messages.Flos | fledger/flmodules/src/dht_storage/messages.rs:440-453 | Received flos of any realms end in the stores of their realms. |
| RealmNode.RealmsAreApart | fledger/flmodules/src/dht_storage/messages.rs:440-453 | Each store ends up with what it would have made of the received flos alone, those of other realms ignored. |
| RealmNode.NodeSyncRound | fledger/flmodules/src/dht_storage/messages.rs:389-456 | The fixed point of a round holds for a realm among others. |
| RealmNode.NewRealmsAreAccepted | fledger/flmodules/src/dht_storage/messages.rs:526-542 | Only received flos that are accepted realms add stores, and none goes away. |
| RealmNode.NewRealmIs | fledger/flmodules/src/dht_storage/messages.rs:526-543 | A flo of an unknown realm adds a store exactly if it is an accepted realm; the store has its bound and holds just the flo, and nothing else changes. |
| Packets.Chunks | fledger/flarch/src/web_rtc/node_connection.rs:290-296 | The chunks join to the message, each not empty and of at most the limit in characters. |
| Packets.SplitMsgIs | fledger/flarch/src/web_rtc/node_connection.rs:280-312 | Exactly what is sent for a message: one plain packet up to 16384 bytes of UTF-8, else its pieces of 16384 characters, numbered, each with the id and their number. |
| Packets.AddPacketInv | fledger/flarch/src/web_rtc/node_connection.rs:320-343 | For any packets, also malformed ones, no entry is complete between calls. |
| Packets.AddPacketIs | fledger/flarch/src/web_rtc/node_connection.rs:320-343 | What any packet does, also a malformed one: a plain one comes out, another is kept with the known parts of its message, or brings it out exactly if it was the only one missing; parts beyond the first total are ignored, other messages left alone. |
| Packets.PacketCollector.NewPacket | fledger/flarch/src/web_rtc/node_connection.rs:320-343 | The search for a full entry finds exactly the one just completed. |
| Packets.OutputAtLastPacket | fledger/flarch/src/web_rtc/node_connection.rs:280-343 | For any order and interleaving, a packet brings out its message, unchanged, exactly when it is its last one to arrive. |
| Packets.NothingLeft | fledger/flarch/src/web_rtc/node_connection.rs:320-343 | When all packets arrived no entry is left. |
| Packets.DeliveredOnce | fledger/flarch/src/web_rtc/node_connection.rs:280-343 | Every message comes out exactly once. |
| Packets.CollectOpen | fledger/flarch/src/web_rtc/node_connection.rs:320-343 | With any repeats the collector keeps exactly the parts that came since their message came out last. |
| Packets.OutputOpen | fledger/flarch/src/web_rtc/node_connection.rs:320-343 | With any repeats a message comes out, unchanged, exactly when its parts are whole again. |
| Packets.LeftIff | fledger/flarch/src/web_rtc/node_connection.rs:320-343 | Something of a split message is left exactly if a part came since it came out last. |
| Packets.DoubledPacketStays | fledger/flarch/src/web_rtc/node_connection.rs:320-343 | A packet of a finished message starts an entry that is never finished unless all other parts come again. |
| Packets.DoubledPacketStaysAt | fledger/flarch/src/web_rtc/node_connection.rs:280-343 | A message of 16385 characters and its first part again. |
| Packets.NodeConnection.SendQueue | fledger/flarch/src/web_rtc/node_connection.rs:170-179 | The queue goes out over the outgoing connection if open, else over the incoming one, else stays. |
| Packets.NodeConnection.Process | fledger/flarch/src/web_rtc/node_connection.rs:181-247 | Queue, connection states and sent packets after each input. |
| Packets.QueueWaitsForChannel | fledger/flarch/src/web_rtc/node_connection.rs:181-234 | After a text or a new connection packets wait only if no channel is open. |
| Packets.SentOverOpen | fledger/flarch/src/web_rtc/node_connection.rs:150-234 | Packets leave only after a text or a new connection, and only over an open channel: the outgoing one if that is open, otherwise the incoming one. |
| Packets.StateIsReported | fledger/flarch/src/web_rtc/node_connection.rs:181-247 | Over any run the state of a connection is the one reported last. |
| Packets.SendingConserves | fledger/flarch/src/web_rtc/node_connection.rs:150-247 | Over any run what was sent and what is queued are together the packets asked for, in order: nothing lost, doubled or reordered. |
| Broker.Intern.TranslateQueue | fledger/flarch/src/broker.rs:644-705 | Every message goes to every translator with its trail extended, unless its trail has this broker; `Broker.TranslatedAllIs` says what is sent. |
| Broker.TranslatedAllIs | fledger/flarch/src/broker.rs:644-986 | Exactly what is sent: for each queued message whose trail lacks this broker and each translator, an input of its broker by iTi or oTi and an output by iTo or oTo, as the message is an input or an output, on the old trail with this broker at its end. |
| Broker.TappedIs | fledger/flarch/src/broker.rs:707-765 | A tap sees, in order, exactly the messages that are not hidden from taps. |
| Broker.HandedIs | fledger/flarch/src/broker.rs:774-788 | A handler is given, in order, exactly the messages that are not its own answers. |
| Broker.AnsweredIs | fledger/flarch/src/broker.rs:774-799 | The answers are exactly those of all handlers to what they were given, under their names. |
| Broker.Intern.ProcessHandleMessages | fledger/flarch/src/broker.rs:768-799 | Every handler gets all messages but its own, and its answers are queued under its name. |
| Broker.Intern.ProcessOnce | fledger/flarch/src/broker.rs:623-642 | What is sent, what the taps see, and the queues afterwards. |
| Broker.Intern.Process | fledger/flarch/src/broker.rs:522-532 | Both queues end empty after at most two rounds. |
| Broker.ProcessSendsIs | fledger/flarch/src/broker.rs:522-642 | Exactly what one call sends: the translations of both queues, and of the answers of the handlers, whose trails start here. |
| Broker.QuietProcess | fledger/flarch/src/broker.rs:522-532 | With quiet handlers processing a message sends just its translations. |
| Broker.TrailGrows | fledger/flarch/src/broker.rs:942-959 | A translation adds this broker at the end of the trail, which stays free of repeats, and one broker fewer is ahead. |
| Broker.RunTrails | fledger/flarch/src/broker.rs:644-705 | In every run trails follow links and pass no broker twice. |
| Broker.TranslationsAreFinite | fledger/flarch/src/broker.rs:644-705 | On any finite, also cyclic, graph, for any translations and any order of delivery, the number of steps is bounded by a weight known at the start. |
| Broker.Settle | fledger/flarch/src/broker.rs:557-574 | The recursion over translators ends and visits what the specification says. |
| Broker.SettleVisitsReachable | fledger/flarch/src/broker.rs:988-994 | One settle visits exactly the brokers that can be reached over translators. |
| Rolling.AddInv | fledger/metrics-exporter-influx/src/distribution.rs:172-237 | Whatever the timestamps, buckets stay strictly newest first, at least a bucket apart, on one grid, and few. |
| Rolling.BucketsInv | fledger/metrics-exporter-influx/src/distribution.rs:172-237 | The same over every run. |
| Rolling.AddedInFront | fledger/metrics-exporter-influx/src/distribution.rs:197-228 | For a sample newer than every bucket, truncation drops nothing that is still valid. |
| Rolling.SnapshotIsFilteredList | fledger/metrics-exporter-influx/src/distribution.rs:246-265 | With non-decreasing timestamps a snapshot is the list of all samples whose start is later than the length of all buckets ago. |
| RollingLoss.LosesIff | fledger/metrics-exporter-influx/src/distribution.rs:172-237 | A sample costs a bucket that is valid at its time exactly if it needs a new bucket and finds as many valid ones as there may be. |
| RollingLoss.SampleIsFiled | fledger/metrics-exporter-influx/src/distribution.rs:172-237 | Whatever the order, a sample ends up in a bucket that spans its instant. |
| RollingLoss.RunLosesIff | fledger/metrics-exporter-influx/src/distribution.rs:172-237 | Over any run, in any order, valid buckets are lost exactly if some sample comes to such crowded buckets. |
| RollingLoss.NothingElseIsLost | fledger/metrics-exporter-influx/src/distribution.rs:172-265 | Over any run the snapshot and what truncation took out of it are together all samples with a valid start. |
| RollingLoss.SnapshotIsExact | fledger/metrics-exporter-influx/src/distribution.rs:172-265 | A snapshot is the filtered list of all samples, in whatever order they came, if and only if no sample pushed out a bucket that is valid then. |
| RollingLoss.InOrderIsNotCrowded | fledger/metrics-exporter-influx/src/distribution.rs:172-237 | Samples in order never come to crowded buckets. |
| RollingLoss.LateSampleLosesBucket | fledger/metrics-exporter-influx/src/distribution.rs:229-237 | Three samples of which the late one pushes out a valid bucket. |
| Rolling.RollingSummary.AddSample | fledger/metrics-exporter-influx/src/distribution.rs:172-237 | The buckets and the count afterwards. |
| Rolling.RollingSummary.PushNew | fledger/metrics-exporter-influx/src/distribution.rs:197-237 | The loops that move the start up or down find the start on the grid. |
| Rolling.RollingSummary.Snapshot | fledger/metrics-exporter-influx/src/distribution.rs:246-265 | Merges exactly the buckets that are valid at that instant. |
| Access.VerifyCondition | fledger/flcrypto/src/access.rs:317-340 | The counting loop computes the recursive verification, errors included. |
| Access.VerifyIsFormula | fledger/flcrypto/src/access.rs:317-340 | Verification fails if and only if one of the condition's keys has an invalid signature; otherwise it is the threshold formula over the keys that signed. |
| Access.Monotone | fledger/flcrypto/src/access.rs:317-340 | More signers never break a satisfied condition. |
| Access.OnlyItsKeys | fledger/flcrypto/src/access.rs:317-340 | Signatures of keys outside the condition do not matter. |
| Access.HasVerifierIff | fledger/flcrypto/src/access.rs:222-231 | Let in to sign are exactly the keys of the condition, and all keys if some part of it is pass. |
| Access.CanSignIsEnough | fledger/flcrypto/src/access.rs:233-249 | What can_sign promises: this signer's signature is accepted and the condition then verifies. |
| Access.NobodyCanSign | fledger/flcrypto/src/access.rs:246-248 | Without a signer can_sign accepts just pass, which verifies unsigned; so does a threshold of none, which it refuses. |
| Access.CanSignIff | fledger/flcrypto/src/access.rs:233-249 | A signer is enough exactly if can_sign accepts it or the condition is of the refused kind: a threshold other than one which the signer reaches, or, inside thresholds of one that accept in no other part, and badges, such a one. |
| Access.CanSignIsExactIff | fledger/flcrypto/src/access.rs:233-249 | The answer of can_sign is that of the threshold formula for this one signer if and only if the condition is not of that kind. |
| Access.CanSignDecidesIff | fledger/flcrypto/src/access.rs:233-282 | It answers whether this one signer can sign and make the condition verify if and only if the condition is not of that kind, or does not have the signer. |
| Access.CanSignIsExact | fledger/flcrypto/src/access.rs:233-249 | Where all thresholds are one, can_sign answers exactly whether the signer is enough. |
| Access.CanSignRefusesTwice | fledger/flcrypto/src/access.rs:240-240 | A condition for which it refuses a signer who would be enough. |
| Access.SignersSign | fledger/flcrypto/src/access.rs:292-300 | Signing succeeds exactly when every signer is a key of the condition, or some part of it is pass; then exactly their signatures are there, and valid. |
| Access.BadgeNeverEqual | fledger/flcrypto/src/access.rs:197-201 | Nothing is ever found equal to a link to a badge. |
| Access.EqualToOwnLink | fledger/flcrypto/src/access.rs:192-208 | A condition is found equal to its own link if and only if it is a key, pass, fail, or a threshold without leaves. |
| Access.EqualLinkIff | fledger/flcrypto/src/access.rs:192-208 | A condition is found equal to a link exactly if it is a key, pass or fail and every leaf of the link is its own link, or if the link has no leaf. |
| Access.EqualLinkIsExactIff | fledger/flcrypto/src/access.rs:192-208 | equal_link finds exactly the conditions with that link if and only if the link is a key, pass or fail. |
| Access.EqualToOtherLinks | fledger/flcrypto/src/access.rs:202-204 | Any condition is found equal to an empty threshold, and a key to a threshold of itself. |
| Access.SignsForLinkIff | fledger/flcrypto/src/access.rs:192-208 | A condition that is found equal to a link and is satisfied has that link, except exactly for thresholds whose leaves are all one key or pass, or that have none. |
| FloChain.Verify | fledger/flmodules/src/flo/flo.rs:308-343 | The loop over the history succeeds exactly when genesis, every update and the data hold against the condition in force. |
| FloChain.VerifiedIff | fledger/flmodules/src/flo/flo.rs:308-391 | What that means: the first condition signed the genesis, every condition its successor under the next number, and the last one the data under its version, each with satisfying keys and no signature of anything else. |
| FloChain.NewSigner | fledger/flmodules/src/flo/flo.rs:134-164 | Succeeds exactly when every signer is a key of the condition, or some part of it is pass; the new flo has the given realm, type, configuration, data and nonce, and verifies exactly when the signers satisfy the condition and it equals its own link. |
| FloChain.ApplyKeeps | fledger/flmodules/src/flo/flo.rs:228-306 | An operation that succeeds keeps the id and all earlier conditions, raises one version by one, and changes just the content or the condition in force. |
| FloChain.StepVerifies | fledger/flmodules/src/flo/flo.rs:213-343 | From a flo that verifies, a step succeeds and verifies if and only if it uses a condition that equal_link finds equal to the link in force and satisfying signers, and a new condition is found equal to its own link and is signed by its own signers. |
| FloChain.UpdateDataChecks | fledger/flmodules/src/flo/flo.rs:228-244 | A signed update is taken exactly if it is signed for just this content as the next version; the flo then verifies exactly if its condition is the one in force. |
| FloChain.UpdateCondChecks | fledger/flmodules/src/flo/flo.rs:280-288 | A new condition is taken unchecked; the flo verifies exactly if the old condition signed it as the next one and the new one signed the data again. |
| FloChain.RunCounts | fledger/flmodules/src/flo/flo.rs:184-306 | Over any run the id never changes and the versions count the operations. |
| FloChain.RunVerifies | fledger/flmodules/src/flo/flo.rs:308-343 | Any run of proper updates keeps the whole history verified. |
| FloChain.BrokenStaysBroken | fledger/flmodules/src/flo/flo.rs:325-335 | A condition chain that is broken once is never repaired. |
| FloChain.AdoptableConditions | fledger/flmodules/src/flo/flo.rs:257-306 | The conditions a flo can be moved to by update_cond_signers are keys, pass, and thresholds without leaves. |
| FloChain.AdoptableLinksIff | fledger/flmodules/src/flo/flo.rs:280-343 | The links a flo can be moved to by update_cond are exactly those whose leaves, if any, are all one key or pass. |
| FloChain.OnlyByCondInForceIff | fledger/flmodules/src/flo/flo.rs:228-343 | New data that verifies was signed under the very condition in force, except exactly under thresholds whose leaves are all one key or pass, or that have none. |
| FloChain.LeaflessTakesAnyData | fledger/flmodules/src/flo/flo.rs:228-343 | Under a threshold without leaves data signed under pass, by no one, verifies. |
| FloChain.HolderCanWrite | fledger/flmodules/src/flo/flo.rs:246-255 | The holder of the key in force can always write data that verifies. |
| FloChain.IdFixesGenesis | fledger/flmodules/src/flo/flo.rs:184-369 | Two flos have the same id exactly if both are forced to the same one, or neither is forced and type, configuration, first condition and nonce are the same. |
| FloChain.SignatureIsBound | fledger/flmodules/src/flo/flo.rs:381-391 | A key's signature of the data holds for one flo, content, version and number of conditions only. |
| FloChain.SuccessorIsSigned | fledger/flmodules/src/flo/flo.rs:280-335 | A verified successor of a flo in force under a key carries that key's signature of the new condition as the next. |
| FloChain.HistoriesAgree | fledger/flmodules/src/flo/flo.rs:308-391 | Of two verified versions of one flo under keys one condition history continues the other, or up to some update they agree and there a key in force signed two different next conditions. |
| Hashing.VarintRoundTrip | fledger/flarch/src/nodeids.rs:52-62 | Every 64-bit length is read back from its encoding, whatever follows. |
| Hashing.VarintPrefixFree | fledger/flarch/src/nodeids.rs:52-62 | No encoded length is a prefix of another. |
| Hashing.VarintIsShortest | fledger/flarch/src/nodeids.rs:52-62 | No bytes that are read as a length are shorter than its encoding. |
| Hashing.FeedRoundTrip | fledger/flarch/src/nodeids.rs:76-87 | The bytes fed to the hasher are read back as the domain and the exact list of parts. |
| Hashing.FeedInjective | fledger/flarch/src/nodeids.rs:76-87 | Different domains or parts never feed the same bytes. |
| Hashing.DataIsNoDomain | fledger/flarch/src/nodeids.rs:69-74 | Data hashed without a domain is never confused with a domain and parts. |
| Hashing.HashDomainParts | fledger/flarch/src/nodeids.rs:76-87 | The loop feeds the hasher exactly these bytes. |
| Hashing.HashData | fledger/flarch/src/nodeids.rs:69-74 | Data is fed with its length before it. |

## Left out

- Kademlia: `ticks_active` and `ticks_last` are unbounded; the testing-only `add_nodes_active` of the table is not modelled.
- Routing: blacklisting, whitelisting and requests in flight are arbitrary changes of the tables; `randomly_whitelist` after the choice of the next hop is one of them.
- Gossip: reading and writing the events to disk and the formats of older versions are not part of this model.
- GossipExchange.FullExchange: the order of the messages is fixed, one direction after the other, and no other node interferes.
- Gossip.ReplicasConverge: asks for different times within a category, the exact condition is that of `GossipTies.ConvergesIff`.
- RealmNode: requests for lists of realms, messages routed to or from other nodes, and the statistics are not modelled; whether a flo is a realm, and its bound, is a parameter.
- RealmStorage.RealmStorage.UpsertFlo: sizes and versions are unbounded numbers; a call whose eviction loop never ends in the source has no result, and a precondition excludes exactly these calls (`Realm.EvictFits`).
- RealmStorage.RealmStorage.EvictFurthest: the loop itself, with the same precondition.
- RealmSync.Flos: the same precondition for every received flo.
- RealmSync.AvailableFlos: the same precondition for every flo of the reply.
- RealmNode.Messages.UpsertFlo: the same precondition.
- RealmNode.Messages.Flos: the same precondition for every received flo.
- RealmSync.SyncRound: asks for room for every received flo; without room the exact statement is `RealmRound.RoundCoversIff`, and a refused flo is asked for again (`RealmSync.RefusedIsAskedAgain`).
- Packets: JSON and YAML are the identity; a text that is not a packet is ignored by the source and not an input here.
- Packets.DeliveredOnce: every packet arrives once; `Packets.CollectOpen` and `Packets.OutputOpen` say what happens otherwise.
- Broker: failing taps and the removal of subsystems, channels that are closed, and the counting of copies are not modelled; a broker that is gone loses its messages.
- Broker.Settle: states which brokers are visited, not which messages are still on their way back to a broker that waits.
- Rolling: quantile sketches are bags of values; an old sample close to the origin of the clock, where an instant would underflow, gives a negative start.
- Rolling.RollingSummary.PushNew: sorting the pushed bucket into buckets that are sorted is an insertion.
- Access: a condition signature is a value that signing replaces, not an object; `can_sign` with more than one signer, where the source panics, is not modelled.
- Access.EqualToOwnLink: a condition that contains an unavailable one has no link, where the source panics.
- FloChain.RunCounts: `data_version` is unbounded, the 32-bit overflow is not modelled.
- FloChain.IdFixesGenesis: a forced id fixes nothing.
- Hashing: `hash_domain_hashmap` depends on the iteration order of a map and is left out, as are the other operations on lists of ids.
- Everything else of the repository: the browser and command-line interfaces, the experiments, the WebSocket and WebRTC back ends, and the asynchronous runtime.
