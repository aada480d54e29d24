# OpenDHT engine: model and proofs

A Dafny model of the hard parts of the OpenDHT engine bundled as `opendht-2.1.4`, with
proofs about all inputs, all reachable states and all runs. `dafny verify dfyconfig.toml`
checks it.

What is modelled, in the engine's own terms:

* **Routing table** (`InfoHash`, `TableBounds`, `RoutingTable`, `RoutingRuns`,
  `RoutingOutcomes`, `RoutingTableObject`, `RandomIds`). A table is a list of lower bounds. `depth` reads only the
  low bits of two neighbouring bounds, yet on every table reached by insertions, splits
  and expiries it is the prefix length of the bucket; the buckets tile the id space;
  `onNewNode` returns exactly when it is not stuck on copies of the own id; the table of a
  full node is the path to its own id. The object form updates the bucket list in place and
  is proved against the function form.
* **Nearest nodes** (`ClosestNodes`, `NodeCache`, `SearchNodes`, `SearchInserts`): the walk over
  buckets, the two-iterator walk over the node cache, the trimmed list of a search.
* **Listen caches** (`Values`, `ValueCaches`, `CacheOutcomes`, `OpCaches`, `ListenRuns`, `SharedOps`,
  `SearchCaches`):
  one cache per remote node, a reference-counted union, listeners, sharing by query
  subsumption. Callbacks are recorded as logs of batches; a log is right when replaying it
  turns the old contents into the new ones, which makes adds and expiries of an id alternate.
* **Fragments** (`Fragments`, `FragmentRuns`): values cut to packets and put together again under loss,
  duplication and reordering.
* **Storage and signed edits** (`Storages`, `DhtStores`, `DhtObject`, `SecureTypes`,
  `SignedEdits`, `StoreOutcomes`): byte and value totals, what is found after each operation, and what
  remote peers can do to a signed value.
* **Get over two address families** (`GetOps`), **getopt's block exchange** (`Exchange`),
  **Base64** (`Base64`, section 4 of RFC 4648).

Shared objects that the engine compares by address carry a `ref`. Clocks, random bytes, node
status, signature verification, packing and the answers of user callbacks are parameters, so
the results hold for all of them. Where the engine walks a map in key order, the order is a
parameter or is the order of the keys.

## Where the code and its promises differ

The model follows the code; each case has a lemma.

* `onNewNode` does not look at whether `split` succeeded
  (`opendht-2.1.4/src/routing_table.cpp:249-250`). It recurses for ever exactly when the node
  has the own id and eight other nodes in the table have it too: `RoutingRuns.EndsIffNotStuck`;
  `RoutingRuns.StuckIsReached` gives the calls that lead there. This is a fact about `RoutingTable`
  alone: the engine drops messages that carry its own id
  (`opendht-2.1.4/src/network_engine.cpp:471`) and keeps one live node per id
  (`opendht-2.1.4/src/node_cache.cpp:107-122`).
* `findClosestNodes` is not globally nearest; `ClosestNodes.GloballyNearestIff` says when it is,
  `ClosestNodes.StopsTooEarly` shows a table where it is not.
* `insertNode` can pop the node it has just inserted and still write through its iterator
  (`opendht-2.1.4/src/search.h:815-823`): `SearchNodes.InsertedIsKeptIff`, `SearchNodes.CrowdedOut`.
* `Value::Filter::filter` passes a shared pointer where a value is expected
  (`opendht-2.1.4/include/opendht/value.h:216-224`), so the filter is asked about a
  fresh value that holds the packed one (`value.h:316-321`, `value.h:427-430`). If the senders may report
  any value, a listener is served exactly if and only if its filter cannot tell the two apart
  (`ListenRuns.ExactIffAgrees`), and no filter made from a query field is of that kind
  (`ListenRuns.FieldFilterDisagrees`). If they report only what the operation's query accepts, as remote nodes do
  (`opendht-2.1.4/src/dht.cpp:1199-1201`), it need only agree on those values: `SharedOps.ServedIff`.
  A listener with a query of type 0 is then served exactly, one with a query of type 1 is shown nothing
  that arrives later: `SharedOps.QueryServedIff`.
* `secureType` compares owners by address (`opendht-2.1.4/src/securedht.cpp:90`), while every
  unpacked value has an owner object of its own (`opendht-2.1.4/src/value.cpp:169`), so
  a rightful successor from the network is refused: `SecureTypes.FreshOwnerIsRefused`, `SecureTypes.SameKeyIsRefused`;
  `SecureTypes.EditAcceptedIff` says exactly which edits are accepted.
* Sharing an operation of a satisfying query does not always show what a dedicated one would, since
  the fan-out asks the listener's filter, its query included, about boxes. A query for type 0 that
  joins an operation for everything is shown values of all types (`SharedOps.TypeQueryLeaks`); the exact
  conditions are `SharedOps.SharesFromStartIff`, `SharedOps.SharesAlwaysIff` and `SharedOps.QuerySharesIff`; they too
  assume that senders report what a query accepts.
* `base64_decode("")` is two zero bytes: the round trip holds exactly for non-empty input,
  `Base64.DecodeOfEncode`.

## Model

| member | source | states |
|---|---|---|
| InfoHash.CommonIs | opendht-2.1.4/include/opendht/infohash.h:155-177 | commonBits is the number of leading bits in which two ids agree: all before it agree, the one at it differs |
| InfoHash.Ultrametric | opendht-2.1.4/include/opendht/infohash.h:155-177 | of three ids, the smallest number of common bits occurs at least twice |
| InfoHash.CloserIsXorLess | opendht-2.1.4/include/opendht/infohash.h:180-195 | xorCmp orders two ids as the numeric order of their XORs with the target |
| InfoHash.CloserTotal | opendht-2.1.4/include/opendht/infohash.h:180-195 | any two different ids are strictly ordered by distance, one way only |
| InfoHash.PrefixDecides | opendht-2.1.4/include/opendht/infohash.h:180-195 | sharing a longer prefix with the target means being strictly closer to it |
| TableBounds.DepthIsPrefixLength | opendht-2.1.4/src/routing_table.cpp:98-106 | on a tiled table, a bucket contains an id exactly when the id agrees with its bound on depth many leading bits |
| TableBounds.FindBucketUnique | opendht-2.1.4/src/routing_table.cpp:151-174 | findBucket's bucket is the only one whose interval holds the id |
| TableBounds.HalvingKeepsTiling | opendht-2.1.4/src/routing_table.cpp:86-96 | inserting the middle of a bucket as a new bound leaves a tiling of the whole id space |
| TableBounds.HalvingDepths | opendht-2.1.4/src/routing_table.cpp:86-106 | both halves are one deeper, all other buckets keep their depth |
| TableBounds.HalvingDeepens | opendht-2.1.4/src/routing_table.cpp:86-106 | an id of the halved bucket is found in one of its halves, one level deeper; every other id in its old bucket |
| TableBounds.OwnPathBuckets | opendht-2.1.4/src/routing_table.cpp:216-251 | along the own path there is for each k below the own depth exactly the bucket of the ids sharing k bits with the own id, and no more |
| RoutingRuns.SplitKeeps | opendht-2.1.4/src/routing_table.cpp:176-201 | split keeps every invariant of the table and the multiset of nodes, and adds exactly the middle bound |
| RoutingRuns.ActivateKeeps | opendht-2.1.4/src/routing_table.cpp:203-261 | one activation keeps tiling, placement, bucket sizes and distinctness, and adds at most the new node for at most one expired node |
| RoutingRuns.AgainDeepens | opendht-2.1.4/src/routing_table.cpp:245-251 | unless stuck, an activation that recurses has moved the target exactly one level down and changed no node |
| RoutingRuns.DescentEnds | opendht-2.1.4/src/routing_table.cpp:203-261 | unless stuck, the recursion ends within 161 minus the target's depth activations, whatever the node status does meanwhile |
| RoutingRuns.DescentDiverges | opendht-2.1.4/src/routing_table.cpp:245-251 | when stuck, with all nodes good, the recursion does not end after any number of activations |
| RoutingRuns.EndsIffNotStuck | opendht-2.1.4/src/routing_table.cpp:203-261 | the call returns for every node status if and only if it is not stuck: own id inserted over eight other nodes with that id |
| RoutingRuns.StuckIsReached | opendht-2.1.4/src/routing_table.cpp:245-251 | eight calls with the own id, all of which return, lead from the initial table to one on which a ninth does not |
| RoutingRuns.DistinctIdsEnd | opendht-2.1.4/src/routing_table.cpp:203-261 | a table whose nodes have distinct ids is never stuck (pigeonhole over the deepest bucket) |
| RoutingRuns.OnNewNodeKeeps | opendht-2.1.4/src/routing_table.cpp:203-261 | the whole call keeps the invariant and changes the nodes only by adding the new one, possibly for an expired one |
| RoutingRuns.OnNewNodeIsDescent | opendht-2.1.4/src/routing_table.cpp:203-261 | the recursive function is the bounded chain of activations whenever that chain is long enough |
| RoutingRuns.ExpireKeeps | opendht-2.1.4/src/dht.cpp:217-232 | expiring keeps the invariant and the bounds, and leaves no expired node |
| RoutingOutcomes.NewNodeSettles | opendht-2.1.4/src/routing_table.cpp:203-261 | for the whole call, whatever the status at each level: the node is in afterwards if and only if it was, or the bucket it comes to has room (then at its front), or a node there has expired (then for one such); otherwise it is cached if confirmed or nothing else is; a split happens exactly if needed; growth, bucket time and pings are those stated |
| RoutingOutcomes.NewNodeSplits | opendht-2.1.4/src/routing_table.cpp:245-251 | a needed split halves the bucket of the node, keeps all nodes, and the call goes on as the same call one level down |
| RoutingOutcomes.AgainIffNeedsSplit | opendht-2.1.4/src/routing_table.cpp:221-251 | an activation recurses exactly for a node that is not there, into a full bucket without expired nodes, that is the own one or a client's shallow one, and all good or the only one |
| RoutingOutcomes.ExpireExact | opendht-2.1.4/src/dht.cpp:217-232 | exactly the nodes that have not expired stay, each as often as it was there |
| RoutingOutcomes.ExpirePings | opendht-2.1.4/src/dht.cpp:217-232 | a bucket that loses a node has its cached node pinged and forgotten, any other stays as it is, and nobody else is pinged |
| RoutingOutcomes.EventOutcomes | opendht-2.1.4/src/routing_table.cpp:203-261 | what each event of a run does to the table |
| RoutingRuns.ReachableTable | opendht-2.1.4/src/routing_table.cpp:86-106 | every reachable table: aligned power-of-two intervals that partition the ids, depth is the prefix length of each, each node in its bucket, none twice, at most eight per bucket |
| RoutingRuns.ReachableOwnPath | opendht-2.1.4/src/routing_table.cpp:216-251 | every reachable table of a full node has depth(own bucket)+1 buckets, one for each shorter common prefix with the own id |
| RoutingTableObject.Buckets.FindBucket | opendht-2.1.4/src/routing_table.cpp:151-165 | the loop finds the last bucket whose bound is not above the id |
| RoutingTableObject.Buckets.SplitBucket | opendht-2.1.4/src/routing_table.cpp:176-201 | the in-place split with its splicing loop gives the specified buckets, or changes nothing and says so |
| RoutingTableObject.Buckets.OnFull | opendht-2.1.4/src/routing_table.cpp:221-258 | eviction, pings, split or caching on a full bucket, as specified |
| RoutingTableObject.Buckets.ActivateOnce | opendht-2.1.4/src/routing_table.cpp:203-261 | one pass through the body of onNewNode, in place, as specified |
| RoutingTableObject.Buckets.OnNewNode | opendht-2.1.4/src/routing_table.cpp:203-261 | the in-place recursion terminates when not stuck and leaves the specified table |
| RoutingTableObject.Buckets.ExpireNodes | opendht-2.1.4/src/dht.cpp:217-232 | expired nodes are removed bucket by bucket and cached nodes of changed buckets pinged |
| RandomIds.RandomId | opendht-2.1.4/src/routing_table.cpp:60-84 | every bit of the id comes from the bound or from the stated bit of the drawn bytes |
| RandomIds.DrawnIdInBucket | opendht-2.1.4/src/routing_table.cpp:60-84 | whatever is drawn, findBucket maps the id back to the bucket |
| RandomIds.EveryIdIsDrawn | opendht-2.1.4/src/routing_table.cpp:60-84 | every id of the bucket is produced by some draw |
| ClosestNodes.FindClosestNodes | opendht-2.1.4/src/routing_table.cpp:108-149 | the result is the nearest count of the good nodes collected: those of the buckets visited outwards from the target's in the first rounds that give enough, or of the whole table |
| ClosestNodes.ResultOrder | opendht-2.1.4/src/routing_table.cpp:108-149 | at most count distinct good nodes, sorted by distance; a node from another bucket comes only after every good node of the target's own bucket |
| ClosestNodes.ShortResultIsAll | opendht-2.1.4/src/routing_table.cpp:133-149 | a result shorter than count holds every good node of the table |
| ClosestNodes.BucketsDecide | opendht-2.1.4/src/routing_table.cpp:108-149 | ids of two different buckets compare by distance as the bounds of the buckets do |
| ClosestNodes.GloballyNearestIff | opendht-2.1.4/src/routing_table.cpp:133-149 | for every count, the result is the globally nearest one if and only if each bucket left out that holds a good node has count collected nodes in buckets whose lower bounds are nearer; a condition on table, target, good nodes and count alone |
| ClosestNodes.StopsTooEarly | opendht-2.1.4/src/routing_table.cpp:133-149 | a table of the invariant with buckets 0*, 10*, 11* on which the result is not the globally nearest node |
| NodeCache.GetCachedNodes | opendht-2.1.4/src/node_cache.cpp:50-81 | entries are visited once each, by non-increasing common prefix, no unvisited entry shares more bits than a visited one; the eligible ones are returned, all of them when fewer than count |
| NodeCache.PickedExact | opendht-2.1.4/src/node_cache.cpp:62-78 | the result lists exactly the visited nodes that are alive, not expired and no clients, each at its turn |
| NodeCache.TakeNearer | opendht-2.1.4/src/node_cache.cpp:57-71 | the nearer of the two border entries has the longest common prefix of all entries left |
| SearchNodes.InsertKeeps | opendht-2.1.4/src/search.h:745-831 | insertNode leaves the list sorted and duplicate-free, adds only the node, and drops no usable node closer than a kept one |
| SearchInserts.InsertedIff | opendht-2.1.4/src/search.h:770-804 | a node is inserted if and only if it has the right family, is not in the list, and there is room or it is no farther than some node within the limit |
| SearchInserts.InsertContents | opendht-2.1.4/src/search.h:770-831 | after an insertion a node of the list is left if and only if it is still within the first SEARCH_NODES that count, and is not the farthest removable one |
| SearchInserts.RefusalContents | opendht-2.1.4/src/search.h:793-798 | a call that inserts nothing leaves the list of a known node as it is, and cuts a full one to the nodes within the limit |
| SearchInserts.EntriesAfter | opendht-2.1.4/src/search.h:822-828 | a node that brings a token is no candidate afterwards, has replied now and has the token if it is at most 64 bytes; all other entries are as they were |
| SearchInserts.FlagsAfter | opendht-2.1.4/src/search.h:800-828 | when the search counts as expired afterwards, and when its timer is reset |
| SearchNodes.InsertBound | opendht-2.1.4/src/search.h:745-831 | a new node inserted in a search that is not expired leaves at most SEARCH_NODES usable nodes |
| SearchNodes.InsertedIsKeptIff | opendht-2.1.4/src/search.h:808-823 | the inserted node is still in the list if and only if it was not crowded out |
| SearchNodes.CrowdedOut | opendht-2.1.4/src/search.h:808-823 | a concrete list, with distinct ids, from which the new node is popped at once |
| SearchNodes.Search.InsertNode | opendht-2.1.4/src/search.h:745-831 | the in-place scan, trimming, insertion and popping compute the specified list |
| SearchNodes.Search.RemoveExpiredNode | opendht-2.1.4/src/search.h:644-654 | the last removable node, and no other, is erased |
| SearchNodes.CountBad | opendht-2.1.4/src/search.h:619-623 | the number of bad nodes is the length minus the usable ones |
| Values.SatisfyingIsWeaker | opendht-2.1.4/src/value.cpp:501-524 | a value a query accepts is accepted by every query that satisfies it, and every field selected is selected there too |
| Values.SatisfiedByItself | opendht-2.1.4/src/value.cpp:501-524 | a query is satisfied by itself if and only if it is none or names no field that does not exist |
| Values.MoreIsSatisfied | opendht-2.1.4/src/value.cpp:501-524 | a query with more conditions and fewer fields is satisfied by one with less conditions and more fields |
| Values.FilterCompares | opendht-2.1.4/src/value.cpp:281-299 | which part of a value each field's filter compares, and how it is narrowed |
| Values.SameValueIff | opendht-2.1.4/include/opendht/value.h:442-453 | which parts of two values are equal exactly when the values are |
| Values.CoveredIffNotNone | opendht-2.1.4/src/value.cpp:522-524 | all that a query accepts is accepted by whatever satisfies it, if and only if it is not none or accepts nothing |
| Values.ChainAccepts | opendht-2.1.4/src/dht.cpp:872-873 | the filter of a listener accepts what its own filter and its query accept |
| Values.SatisfactionTransitive | opendht-2.1.4/src/value.cpp:501-524 | satisfaction composes |
| ValueCaches.AddValuesReports | opendht-2.1.4/src/value_cache.h:169-189 | the values reported as new turn the old contents into the new ones |
| ValueCaches.ExpireIdsReports | opendht-2.1.4/src/value_cache.h:191-203 | the expiries reported for listed ids turn the old contents into the new ones |
| ValueCaches.ValueCache.Add | opendht-2.1.4/src/value_cache.h:169-189 | known ids are refreshed, new ones added and reported in one batch |
| ValueCaches.ValueCache.ExpireDue | opendht-2.1.4/src/value_cache.h:79-89 | exactly the values that are due go, are reported, and the earliest remaining expiration is returned |
| ValueCaches.ValueCache.EvictOldest | opendht-2.1.4/src/value_cache.h:90-103 | the oldest values go until MAX_VALUES are left, and are reported |
| ValueCaches.ValueCache.ExpireValues | opendht-2.1.4/src/value_cache.h:79-112 | due and surplus values go in one reported batch; at most MAX_VALUES stay |
| ValueCaches.ValueCache.OnValues | opendht-2.1.4/src/value_cache.h:114-134 | the batches of one message, replayed in order, turn the old contents into the new ones |
| CacheOutcomes.MessageOutcome | opendht-2.1.4/src/value_cache.h:114-134 | id by id, what the cache holds after a message: nothing listed as expired, nothing neither held nor sent, else the value held or the first sent, with a new life if sent or refreshed, unless that is over; of more than 4096 the newest stay |
| CacheOutcomes.EvictedAre | opendht-2.1.4/src/value_cache.h:90-103 | eviction keeps as many values as fit and none older than one it drops |
| CacheOutcomes.TickOutcome | opendht-2.1.4/src/value_cache.h:79-89 | with time alone exactly the values that are not due stay |
| ValueCaches.ValueCache.Clear | opendht-2.1.4/src/value_cache.h:42-67 | every value still held is reported expired |
| ValueCaches.ValueCache.OnSynced | opendht-2.1.4/src/value_cache.h:136-143 | whatever has been told before, the statuses told so far add up to one node, synced exactly if the cache is |
| ValueCaches.ValueCache.Destroy | opendht-2.1.4/src/value_cache.h:42-51 | every value still held is reported expired, then all that was told is taken back: the statuses of the whole life add up to nothing |
| ValueCaches.StatusesAddUp | opendht-2.1.4/src/value_cache.h:31-56 | what the statuses of a change of sync, and of the end of a cache, do to the two counters |
| OpCaches.CountBatchReports | opendht-2.1.4/src/op_cache.cpp:24-57 | the values handed on are a right report of the change of the known values |
| OpCaches.OnBatchBoxed | opendht-2.1.4/src/op_cache.cpp:108-130 | whatever batch arrives and whatever the filter, a listener's outstanding values stay those whose boxes the filter accepts |
| OpCaches.OnBatchExact | opendht-2.1.4/src/op_cache.cpp:108-130 | whatever batch arrives, every listener whose filter agrees on boxes keeps an orderly log that leaves outstanding exactly the known values it accepts |
| OpCaches.OpCache.Count | opendht-2.1.4/src/op_cache.cpp:24-57 | reference counts and the values that came first or went last, as specified |
| OpCaches.OpCache.OnValue | opendht-2.1.4/src/op_cache.h:97-100 | counting and the fan-out to all listeners, as specified |
| OpCaches.OpCache.Get | opendht-2.1.4/src/op_cache.cpp:80-89 | each known value the filter accepts once, and nothing else |
| OpCaches.OpCache.AddListener | opendht-2.1.4/src/op_cache.h:108-115 | a listener that accepts what is known is added with that as its first batch; one that refuses is not |
| ListenRuns.StepKeeps | opendht-2.1.4/src/value_cache.h:31-143 | every upstream event keeps counts, counters and listeners exact |
| ListenRuns.RunCounts | opendht-2.1.4/src/op_cache.cpp:24-57 | in every state of every run an id is present exactly when some live cache holds it, its count is the number of those caches, and the two counters are the numbers of live and of synced caches |
| ListenRuns.NoUnderflow | opendht-2.1.4/src/op_cache.h:62-71 | in every run, also between the statuses that one event gives rise to, the unsigned counters never go below zero nor the synced nodes above the nodes |
| ListenRuns.RunListener | opendht-2.1.4/src/op_cache.cpp:108-130 | in every state of every run a listener's deliveries alternate per id and leave outstanding exactly the cached values its filter accepts |
| ListenRuns.BoxedFilterIsWrong | opendht-2.1.4/include/opendht/value.h:216-224 | if a filter answers differently for a value and its box, a run of three events leaves its listener wrong |
| ListenRuns.ExactIffAgrees | opendht-2.1.4/include/opendht/value.h:216-224 | with senders that report any values at all, a filter serves its listeners exactly in every run if and only if it cannot tell values from their boxes |
| SharedOps.ServedIff | opendht-2.1.4/src/op_cache.cpp:108-130 | with senders that report what the operation's query accepts, a listener, whenever it joins and whatever arrives, has outstanding exactly the known values its filter accepts, if and only if the filter answers about the values of the query as about their boxes |
| SharedOps.QueryServedIff | opendht-2.1.4/src/dht.cpp:872-884 | a listener with no filter but its query is so served by an operation of its own if and only if the query accepts boxes or accepts nothing |
| ListenRuns.FieldFilterDisagrees | opendht-2.1.4/src/value.cpp:281-299 | every filter a query field produces can tell some value from its box |
| SharedOps.SharesFromStartIff | opendht-2.1.4/src/op_cache.cpp:108-190 | whatever arrives, also different values under one id, a listener there from the start sees on an operation of a satisfying query what it would see on one of its own, if and only if each value the shared query accepts and the fan-out hands on is accepted by its own query, and no value handed on shares its id with one only the shared query accepts |
| SharedOps.SharesAlwaysIff | opendht-2.1.4/src/op_cache.h:108-115 | whatever arrives before and after it joins, a listener does so if and only if, besides, its filter answers about the values of the shared query as about their boxes |
| SharedOps.SharesWithoutEditsIff | opendht-2.1.4/src/op_cache.cpp:24-57 | among batches in which an id names one value, the first of these conditions alone is necessary and sufficient from the start |
| SharedOps.QuerySharesIff | opendht-2.1.4/src/dht.cpp:872-884 | for a listener with no filter but its query: from the start, if and only if the query refuses boxes or accepts all that the shared one accepts; at any time, if and only if it accepts each value of the shared one exactly if it accepts boxes |
| SharedOps.TypeQueryLeaks | opendht-2.1.4/src/op_cache.cpp:108-130 | a query for type 0 that joins an operation for everything is shown a value of any other type |
| SharedOps.BatchesTrack | opendht-2.1.4/src/op_cache.cpp:24-57 | after any batches, under every id for which the two queries accept the same, the shared and the dedicated operation hold the same value with the same count |
| SearchCaches.GetOpFinds | opendht-2.1.4/src/op_cache.cpp:139-169 | an operation is found if and only if the query itself or a satisfying one is there, and then it is one of these |
| SearchCaches.RunFromStart | opendht-2.1.4/src/op_cache.cpp:171-230 | from the empty cache, in every state of every run of listen, cancel, expire and arriving batches, each listener is attached to exactly one operation, one whose query is or satisfies its own, is exact if its filter agrees on boxes, and stays attached until it is cancelled |
| SearchCaches.RunServes | opendht-2.1.4/src/op_cache.cpp:171-230 | the same from any sound cache |
| SearchCaches.RunLeavesAttached | opendht-2.1.4/src/op_cache.cpp:171-230 | a listener stays attached with its query until it is cancelled itself; expiry never takes it away |
| SearchCaches.CancelDetaches | opendht-2.1.4/src/op_cache.cpp:192-201 | cancelling answers whether the listener was attached, and leaves it attached nowhere |
| SearchCaches.ListenAttaches | opendht-2.1.4/src/op_cache.cpp:171-190 | a listener is attached under a fresh token exactly if there is nothing to show it or it accepts that; an operation is made exactly if none is found; no other is changed |
| SearchCaches.ExpiresIff | opendht-2.1.4/src/op_cache.cpp:213-230 | an operation goes exactly if it has no listener and more than a minute has passed since one was last looked for |
| SearchCaches.CancelMarks | opendht-2.1.4/src/op_cache.cpp:192-201 | cancelling marks every operation up to the one that had the listener, and none after it |
| SearchCaches.EventOutcomes | opendht-2.1.4/src/op_cache.cpp:171-230 | what each event of a run does to the operations |
| SearchCaches.JoinerSees | opendht-2.1.4/src/op_cache.cpp:171-190 | what a listener sees of the operation it joins is what the shared-against-dedicated results speak of, whoever else listens |
| SearchCaches.SearchCache.FindOp | opendht-2.1.4/src/op_cache.cpp:139-153 | exact match first, then the first satisfying query in map order |
| SearchCaches.SearchCache.AddListener | opendht-2.1.4/src/op_cache.cpp:171-190 | joins the found operation or makes one, shows what it knows and the filter accepts; the token is new, or 0 when the listener refused that |
| SearchCaches.SearchCache.CancelListener | opendht-2.1.4/src/op_cache.cpp:192-201 | marks every operation looked at and removes the token from the first that has it |
| SearchCaches.SearchCache.ExpireOps | opendht-2.1.4/src/op_cache.cpp:213-230 | exactly the operations without listeners and past their time go |
| Fragments.SendValueParts | opendht-2.1.4/src/network_engine.cpp:935-962 | the nested loops send, value by value, its pieces of at most MTU bytes in order, an empty value as one empty piece |
| Fragments.SentArePieces | opendht-2.1.4/src/network_engine.cpp:935-962 | every fragment sent is the stated slice of its value at a multiple of MTU |
| Fragments.AnyArrivalIsSound | opendht-2.1.4/src/parsed_message.h:126-162 | under any loss, duplication and reordering each buffer is a prefix of the sent value, and a delivered message is exactly what was sent (values over the size limit left out) |
| Fragments.ResendCompletes | opendht-2.1.4/src/parsed_message.h:126-162 | from any incomplete state reached by any arrivals one in-order resend delivers every value exactly |
| Fragments.WaitingIsIncomplete | opendht-2.1.4/src/network_engine.cpp:443-469 | a message with a value that is not empty is incomplete as long as it waits |
| Fragments.HeaderSound | opendht-2.1.4/src/parsed_message.h:325-335 | the entries made from the header are empty prefixes of the values announced |
| Fragments.PartialMessage.Append | opendht-2.1.4/src/parsed_message.h:126-145 | only fragments that continue their buffer exactly are taken, in order; the result says whether any was |
| Fragments.PartialMessage.CollectValues | opendht-2.1.4/src/parsed_message.h:147-162 | nothing while some buffer is short, else all buffers in index order |
| Fragments.RxTable.OnValueData | opendht-2.1.4/src/network_engine.cpp:443-469 | a fragment changes only the message of its transaction and peer; a complete message is delivered and forgotten |
| FragmentRuns.TableIsSessions | opendht-2.1.4/src/network_engine.cpp:443-469 | over any arrivals of any transactions from any peers, the entry of a transaction is the session made by its own fragments from its own peer; its values are handed over exactly once, when that is done, and the entry is gone |
| FragmentRuns.TableResendCompletes | opendht-2.1.4/src/network_engine.cpp:443-469 | with foreign fragments interleaved anywhere, one in-order resend by the peer hands every value over exactly, once |
| Storages.StoreKeeps | opendht-2.1.4/src/storage.h:191-230 | store reports the change it makes, keeps the total equal to the sum of sizes, ids distinct, at most MAX_VALUES values |
| Storages.RemoveKeeps | opendht-2.1.4/src/storage.h:232-246 | remove does the same |
| Storages.ExpireKeeps | opendht-2.1.4/src/storage.h:258-297 | expire, which also drops silent listeners, does the same |
| Storages.StoreFinds | opendht-2.1.4/src/storage.h:191-230 | storing changes only what is found under the value's id, and there only if it says so |
| StoreOutcomes.StoreChangesIff | opendht-2.1.4/src/storage.h:191-230 | a change is made if and only if the first entry sharing id or object is another object, or none shares and there are fewer than 1024 |
| StoreOutcomes.StoreWrites | opendht-2.1.4/src/storage.h:191-230 | which entry is written with what, and that no other is |
| StoreOutcomes.RefreshExtends | opendht-2.1.4/src/storage.h:146-154 | the entry of the id is created now and expires at the later of its old time and a new life; no other changes |
| StoreOutcomes.ExpireLeaves | opendht-2.1.4/src/storage.h:258-297 | which values and which listeners are left |
| StoreOutcomes.ClearEmpties | opendht-2.1.4/src/storage.h:248-256 | nothing is found afterwards, the total is zero and the difference is all that was there |
| Storages.RemoveFinds | opendht-2.1.4/src/storage.h:232-246 | the removed id is no longer found, all others as before |
| Storages.ExpireFinds | opendht-2.1.4/src/storage.h:280-297 | an id is still found exactly when its value has not expired |
| Storages.StorageObject.StoreValue | opendht-2.1.4/src/storage.h:191-230 | in-place replace, refresh or append, and the difference, as specified |
| Storages.StorageObject.RemoveValue | opendht-2.1.4/src/storage.h:232-246 | in-place removal and the difference |
| Storages.StorageObject.ClearValues | opendht-2.1.4/src/storage.h:248-256 | everything goes and the difference is minus all of it |
| Storages.StorageObject.ExpireValues | opendht-2.1.4/src/storage.h:258-297 | expired listeners and values go; exactly the data of the expired values are returned, and the difference is summed over them |
| Storages.StorageObject.ExpireListeners | opendht-2.1.4/src/storage.h:261-278 | exactly the remote listeners not heard of for NODE_EXPIRE_TIME go |
| Storages.StorageObject.RefreshValue | opendht-2.1.4/src/storage.h:146-154 | the value's creation is set and its expiration only extended |
| DhtStores.StepKeeps | opendht-2.1.4/src/dht.cpp:1218-1267 | every event on the store keeps each storage accounted and both totals equal to the sums over all storages |
| DhtStores.RunBalanced | opendht-2.1.4/src/dht.cpp:1218-1267 | so does every run, whatever values the eviction loop picks |
| DhtStores.TotalsAreSums | opendht-2.1.4/src/dht.cpp:1294-1301 | from the empty store, in every state of every run, the totals are the sums and never negative |
| DhtStores.SweepKeeps | opendht-2.1.4/src/dht.cpp:1341-1355 | the sweep with the removal of unused storages keeps the balance |
| StoreOutcomes.StoreAtAnswers | opendht-2.1.4/src/dht.cpp:1218-1255 | the answer is true if and only if the value has not expired, there is a storage or room for one, and that makes a change |
| StoreOutcomes.StoreAtFound | opendht-2.1.4/src/dht.cpp:1218-1255 | a value stored within the size limit is found under its hash and id with its creation and expiration; nothing else is changed |
| StoreOutcomes.NewValueIsStored | opendht-2.1.4/src/dht.cpp:1218-1255 | a new value that has not expired, with room for hash, entry and bytes, is found afterwards |
| StoreOutcomes.SweepLeaves | opendht-2.1.4/src/dht.cpp:1341-1355 | after a sweep over all hashes exactly the values that have not expired are found, and exactly the storages in use are there |
| StoreOutcomes.EvictStops | opendht-2.1.4/src/dht.cpp:1358-1386 | eviction erases picks in order until the size fits and no further |
| StoreOutcomes.ExpireAllStops | opendht-2.1.4/src/dht.cpp:1341-1386 | a full expiry is a sweep followed by such an eviction |
| StoreOutcomes.EraseExact | opendht-2.1.4/src/dht.cpp:1257-1267 | the erased id is not found, everything else as before |
| StoreOutcomes.WatchExact | opendht-2.1.4/src/dht.cpp:1269-1292 | the listener is there with the current time, others as before, values untouched |
| StoreOutcomes.EventOutcomes | opendht-2.1.4/src/dht.cpp:1218-1267 | what each event of a run does to what is found |
| StoreOutcomes.AnnounceStores | opendht-2.1.4/src/dht.cpp:2431-2443 | a new value that its policy accepts is found afterwards, one that it refuses changes nothing |
| StoreOutcomes.AnnounceRefreshes | opendht-2.1.4/src/dht.cpp:2413-2417 | a value equal to the stored one sets its creation, extends its expiration and changes nothing else |
| StoreOutcomes.AnnounceEdits | opendht-2.1.4/src/dht.cpp:2418-2430 | another value under a known id is stored exactly if the policy of the stored value accepts it |
| DhtObject.DhtNode.StorageStore | opendht-2.1.4/src/dht.cpp:1218-1255 | in place: expired or over the key limit is refused, a missing storage is made, totals follow, the sweep and eviction happen over the size limit |
| DhtObject.DhtNode.StorageErase | opendht-2.1.4/src/dht.cpp:1257-1267 | in place, with the totals; answers whether the value was there |
| DhtObject.DhtNode.ExpireStorageAt | opendht-2.1.4/src/dht.cpp:1294-1301 | in place, with the totals |
| DhtObject.DhtNode.ExpireStores | opendht-2.1.4/src/dht.cpp:1341-1386 | the sweep over all storages, then eviction until the size fits or no pick is left |
| DhtObject.DhtNode.ClearStorage | opendht-2.1.4/src/dht.cpp:1947-1953 | the values of one hash go and the totals follow |
| DhtObject.DhtNode.StorageRefresh | opendht-2.1.4/src/dht.cpp:2470-2501 | refreshes the value; answers whether the hash has a storage |
| DhtObject.DhtNode.StorageAddListener | opendht-2.1.4/src/dht.cpp:1269-1292 | adds or refreshes a remote listener, making a storage for it while there is room |
| DhtObject.DhtNode.OnAnnounce | opendht-2.1.4/src/dht.cpp:2401-2445 | the loop is the run of one announce event per value before the first invalid id; it ends in an error exactly if there is one |
| DhtObject.AnnounceEventsAre | opendht-2.1.4/src/dht.cpp:2401-2410 | one event for each value before the first that has no valid id, in order |
| DhtObject.DhtNode.AnnounceValue | opendht-2.1.4/src/dht.cpp:2411-2443 | refresh when equal, else edit or store as the policies decide |
| SecureTypes.EditAcceptedIff | opendht-2.1.4/src/securedht.cpp:87-115 | a secure type accepts an edit of a signed value if and only if it has the same owner object and a good signature, and a larger number, or the same number and the same signed content |
| SecureTypes.StoreAcceptedIff | opendht-2.1.4/src/securedht.cpp:73-86 | what is accepted as new: by a secure type only with a good signature if signed, by an unknown type if at most 65536 bytes, else as the policy underneath says |
| SecureTypes.EditElsewhere | opendht-2.1.4/src/securedht.cpp:87-89 | edits of unsigned values, and of values of insecure or unknown types, are left to the policy underneath |
| SecureTypes.DecisionsStayHonest | opendht-2.1.4/src/securedht.cpp:73-115 | the cached signature check stays the outcome of a check with the value's own owner |
| SecureTypes.SucceedsTransitive | opendht-2.1.4/src/securedht.cpp:87-115 | being a rightful successor composes |
| SecureTypes.FreshOwnerIsRefused | opendht-2.1.4/src/securedht.cpp:90-94 | a value with another owner object never edits a signed one |
| SecureTypes.SameKeyIsRefused | opendht-2.1.4/src/securedht.cpp:90-94 | a well signed successor with the same key in another object is refused |
| SignedEdits.StepFinds | opendht-2.1.4/src/dht.cpp:2401-2445 | after any step but a local put an id holds what it held, nothing, or the accepted incoming value |
| SignedEdits.StepSucceeds | opendht-2.1.4/src/dht.cpp:2401-2445 | with rightful policies and any store, a step of a remote peer leaves a signed value, removes it, or puts a rightful successor in its place |
| SignedEdits.KeepsSignedIffRightful | opendht-2.1.4/src/dht.cpp:2401-2445 | for announces of any set of types and any store, every remote run keeps a signed value, as long as its id stays stored with such a type, if and only if policies keep ids and accept only rightful edits of signed values of these types |
| SignedEdits.SecureIsRightfulIff | opendht-2.1.4/src/securedht.cpp:70-118 | for announces of secure types nothing but the keeping of ids is left to ask of the policies |
| SignedEdits.SignedValueIsKeptIff | opendht-2.1.4/src/securedht.cpp:70-118 | from any store, over any run of remote events of secure types, while the id stays stored, a signed value of a secure type keeps its owner, never gets a smaller number, and changes its signed content only with a larger one, if and only if the policies keep the ids of what they accept |
| GetOps.DoneOnceAndLast | opendht-2.1.4/src/dht.cpp:986-1053 | for every interleaving the done callback has been called if and only if the get callback refused or both searches ended; once, and nothing is called after it |
| GetOps.DoneTells | opendht-2.1.4/src/dht.cpp:986-997 | it is told success if and only if the get callback refused or a search succeeded, and all nodes reported so far |
| GetOps.NothingTwice | opendht-2.1.4/src/dht.cpp:1014-1034 | no get call holds a value equal to the last one delivered for its id by an earlier call |
| GetOps.NothingWithheld | opendht-2.1.4/src/dht.cpp:1014-1034 | until the end every other value of a batch is delivered |
| GetOps.NewOnesInOrder | opendht-2.1.4/src/dht.cpp:1022-1030 | a batch is filtered value by value, in order |
| GetOps.NewOnesCount | opendht-2.1.4/src/dht.cpp:1022-1030 | each new value is delivered as often as the batch holds it |
| GetOps.GetStatus.CallbackWrapper | opendht-2.1.4/src/dht.cpp:999-1012 | the shared status after a batch, and whether to go on, as specified |
| GetOps.GetStatus.DoneCallbackWrapper | opendht-2.1.4/src/dht.cpp:986-997 | the shared status after the done check, as specified |
| GetOps.GetStatus.SearchEnded | opendht-2.1.4/src/dht.cpp:1043-1052 | the shared status after a family ended, as specified |
| GetOps.GetStatus.AddValues | opendht-2.1.4/src/dht.cpp:1022-1030 | the values that are new with respect to earlier batches, in order |
| Exchange.ExchangeArgs | opendht-2.1.4/MSVC/wingetopt.c:74-109 | in place, for all lengths: the two blocks change places, each keeps its order, all else stays, and the indices delimit the moved block |
| Exchange.ExchangeBlocks | opendht-2.1.4/MSVC/wingetopt.c:84-103 | the inner loops exchange two equally long blocks |
| Exchange.ShortLeft | opendht-2.1.4/MSVC/wingetopt.c:82-93 | the branch for a shorter left block leaves a smaller exchange with the same outcome |
| Exchange.ShortRight | opendht-2.1.4/MSVC/wingetopt.c:94-105 | so does the other branch |
| Exchange.SwapUndoes | opendht-2.1.4/MSVC/wingetopt.c:74-109 | exchanging at the new border restores the arguments |
| Exchange.SwapIsPermutation | opendht-2.1.4/MSVC/wingetopt.c:74-109 | no argument is lost or doubled |
| Base64.EncodeInto | opendht-2.1.4/src/base64.cpp:37-63 | the buffer holds the RFC 4648 encoding, written in place and then padded; too small or missing output is refused with the length needed |
| Base64.EncodeBytes | opendht-2.1.4/src/base64.cpp:114-132 | the vector form gives the RFC 4648 encoding |
| Base64.PaddedRaw | opendht-2.1.4/src/base64.cpp:37-63 | the encoding has length 4*ceil(n/3) and is the zero-filled one with its last characters turned into pads |
| Base64.DecodeInto | opendht-2.1.4/src/base64.cpp:65-112 | wrong lengths and small buffers are refused; else the buffer holds the decoded bytes and nothing beyond them is touched |
| Base64.DecodeText | opendht-2.1.4/src/base64.cpp:134-143 | the vector form, with zeros for a text of the wrong length |
| Base64.DecodedBytes | opendht-2.1.4/src/base64.cpp:65-143 | what any text decodes to, canonical or not, byte by byte from the sextets of its group, and its length |
| Base64.BuildTable | opendht-2.1.4/src/base64.cpp:69-73 | the loop inverts the alphabet and leaves all other entries as they were |
| Base64.DecodeOfEncode | opendht-2.1.4/src/base64.cpp:37-143 | decoding undoes encoding if and only if the input is not empty |
| Base64.EncodeIsCanonical | opendht-2.1.4/src/base64.cpp:37-63 | every encoding has the form section 4 of RFC 4648 asks for |
| Base64.CanonicalIsEncoded | opendht-2.1.4/src/base64.cpp:37-63 | every text of that form is the encoding of some bytes |
| Base64.EncodeOfDecode | opendht-2.1.4/src/base64.cpp:37-143 | encoding undoes decoding if and only if the text is of that form and not empty |

## Left out

- The layer under `verified-blockchain`: it rests on a trie that is not part of this model.
- The per-source quota ledger: the eviction loop takes the values it removes as a parameter, so the totals hold for any choice; which source loses a value is not modelled.
- `Dht::listen`'s outer cache over local storage and both families, and what storage listeners are told; of remote storage listeners only the time they were last heard of is kept, of local ones their number.
- Reuse of search slots in `Dht::search`, announces, refills and request scheduling of a search.
- Sockets, threads, HTTP, proxies, peer discovery, logging, tools, C bindings.
- Cryptography and certificates: verification is an arbitrary function that refuses the empty signature.
- msgpack and JSON: packing is a parameter; the signed bytes are represented by the fields they hold.
- The decision of `packValueHeader` to send small values in one packet: only the split form is modelled.
- SignedEdits.SignedValueIsKeptIff: takes for granted that a type's life is not negative and that verification refuses an empty signature; local puts are not remote events and are not bound by it.
- SharedOps.SharesAlwaysIff: compares operations, above the caches per remote node; that a cache over its limit of values may evict for a shared operation what it would keep for a dedicated one is not modelled.
- Storages.StorageObject.ExpireValues: keeps the order of the values, which `std::partition` leaves open.
- OpCaches.OpCache.Count: the `updated` times are always the minimum on this path and are not modelled, nor is the width of the counters.
- SearchCaches.SearchCache.AddListener: the token counter is unbounded, so its wrap past zero is not modelled.
- Base64.DecodeText: characters index the table as unsigned bytes; where `char` is signed, codes from 128 on read memory before the table instead, whose bytes are then what the parameter for unset entries stands for.
- SearchNodes.Search.InsertNode: the write through an iterator whose element was popped is modelled as having no effect on the list.
- `SearchCache::get`: answering a get from cached operations, and merging operations by id, is not modelled.
- `Dht::query`: its replacement of field indices by larger ones is not modelled; its completion goes through the same wrappers as a get.
- `exchange_w`: the same statements as `exchange_a` on wide characters.
- DhtObject.DhtNode.ExpireStores: the values the eviction loop picks are a parameter, since the quota ledger is left out.
