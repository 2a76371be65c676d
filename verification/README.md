# A verified model of the cache

This project models a small distributed cache written in Go and proves what it guarantees. Five parts
are covered.

* **The two-level bucketed store** (`pkg/store/lru2.go`). `ArrayCache.Cache` is one level: slots, a doubly
  linked list threaded through an array of 16-bit indices with slot 0 as sentinel, and a key index.
  `Recency` is the same level as a sequence of nodes, most recent first. `TwoLevel` and `Sweep` say what
  each operation does to each key of a bucket, `StoreModel` and `Guarantees` what every run of operations
  guarantees, `Window` that the survival bound is tight, `Reports` what the eviction callback is told.
  `Lru2Store.Lru2Store` is the store over mutable levels. `Words` is the bucket arithmetic.
* **The consistent-hash ring** (`internal/consistenthash/con_hash.go`). `RingModel`, `RingOwners`, `RingNames`,
  `RingBalance` and `RingLoads` treat the ring as a value; `ConsistentHash.Map` is the mutable one. The hash
  function is any function into 32 bits.
* **Singleflight** (`internal/singleflight/singleflight.go`). `SingleFlight` is a machine in which callers of
  `Do` take their steps in any order; `FlightGroup.Group` takes those steps over call objects on the heap,
  to which callers hold references.
* **The cache-aside protocol** (`internal/server/server.go`). `Server.Server` serves and forwards requests, also
  when the rings of the nodes disagree, and `Walks` says when a request then comes to an end; `Cluster` proves
  coherence when requests take effect one at a time, `Network` that requests at linked servers take the steps
  of that model, and `Joining` that nodes which start and join one after the other are linked; `Interleaved`
  breaks requests into steps and proves what survives any interleaving, `Freshness` when the caches stay
  current there, and `Requests` that no request gets stuck.
* **The byte-bounded LRU cache** (`pkg/store/lru.go`). `LruModel`, `LruReads` and `LruCache.LruCache`.

In each part the mutable class is proved to compute a function of its old abstract value, and the results
are proved about that function.

## What the code requires

Level capacities are 1 to 65534 after defaulting (`cap+1` is 16-bit arithmetic, and an empty level cannot be
written), and `BucketCount` is at most 32768 (`mask+1` is 16-bit arithmetic). The clock is a parameter of each
operation; `Get` reads it twice, and the two readings are separate parameters with no order assumed between
them. The eviction callback is modelled by the list of its calls; a nil callback is the same run with the
list ignored. A value may be nil, in which case `delete` does not report it. Rebalancing divides by the
number of load counts, so there must be one. While the rebalancing loop runs it deletes and re-inserts map
entries, and Go may then produce a re-inserted entry again: the order of the iteration is a parameter, and
the invariants are proved for every order, with repeats. Loads are compared as real numbers.

## Where the code and its description differ

* `Get` is described as deleting an expired level-2 entry. The level-2 lookup has already turned an expired
  entry into a miss, so the entry stays unless the clock steps back between the two readings:
  `Guarantees.ExpiredStays` is a run, in any store, and `TwoLevel.LateGetIff` the exact condition.
* A deletion is described as calling the eviction callback once. A `Get` that finds its entry expired in level 1
  has already deleted it there when it calls `delete`, so the entry goes without a call, or with one for an
  older value in level 2: `Reports.SilentRun` is a run, `Reports.ExpiredGoesSilently` the effect, and
  `Reports.LostIsReportedIff` says exactly when an entry with a value goes silently.
* `Do` is described as running `fn` once for concurrent callers of a key. `SingleFlight.BothRun` is a run in
  which it runs twice, and `SingleFlight.ExclusiveIff` says exactly when callers do not overlap.
* `evict` subtracts an evicted entry's size and then removes it, which subtracts the size again.
  `LruModel.DriftLaw` is the exact effect, and `LruModel.CounterExactIff` says when the counter is still the live
  bytes. `LruModel.OverLimitRun` is a run after which the cache holds any number of bytes over its limit;
  `LruModel.WriteWithinIff` says exactly when a write leaves the live bytes within the limit, and
  `LruModel.AlwaysWithinIff` exactly when they are within it throughout a run.
* `Get` of the byte-bounded cache decides on an expiry time under one lock and deletes under another.
  `LruModel.LateDeleteDrops` is a write that is lost in between, and `LruModel.LateDeleteIff` says exactly when an
  unexpired entry is deleted.
* A write with a non-positive expiration uncovers an older copy in level 2. `Guarantees.DeadWriteUncovers` shows it
  in every store, and `Guarantees.LiveWritesAreSafeIff` and `Guarantees.SetKeepsLossyIff` give the exact conditions.
* A cleanup tick also drops an unexpired level-1 entry whose stale level-2 copy has expired:
  `Guarantees.TickDropsFresh` is a run, in any store, and `Sweep.SweepDropsFreshIff` the exact condition.
* When two members share a position on the ring, removing one leaves a key without an owner entry:
  `RingOwners.Orphaned` is the effect and `RingOwners.RemoveIndexedIff` the exact condition.
* A rebalancing pass that meets a node again reads the load count it has just reset: `RingBalance.SecondVisitUndoes`
  is a pass that gives an overloaded node its replicas back, and `RingBalance.BusyNotUpIff` says exactly when a
  pass leaves an overloaded node with no more replicas than it had.
* Requests that interleave can leave an old value in a cache: `Interleaved.StaleFill` is a run, and
  `Freshness.CurrentIff` says exactly when a node's copies stay current.
* A `Set` or `Delete` that is forwarded is reported as done whatever the peer answers. The contracts of
  `Server.Server.Set` and `Server.Server.Delete` say what is answered and what is done: they differ exactly
  when the request was forwarded and the last node it comes to has nobody on its ring. `Joining.LostSet` is such
  a request, to a node that has registered and not yet put itself on its ring.
* When the rings of the nodes disagree, a request can be forwarded in a circle for ever. `Walks.AnsweredIff` says
  exactly when a request is answered.

## Model

| member | source | states |
|---|---|---|
| Base.WrapIs | pkg/store/lru2.go:164-167 | 32-bit and 64-bit results wrap around: each is the residue that fits the word |
| Words.HashBKRD | pkg/store/lru2.go:324-330 | the loop over wrapping 32-bit arithmetic computes the wrapped unbounded polynomial, for strings of any length |
| Words.MaskIsLeastPower | pkg/store/lru2.go:338-350 | the smeared mask plus one is the least power of two that reaches the argument |
| Words.BucketArithmetic | pkg/store/lru2.go:62-77 | the masked hash, negative or not, is the polynomial modulo the number of buckets, so the index is always in range |
| ArrayCache.Cache.constructor | pkg/store/lru2.go:401-408 | a new level is valid and empty |
| ArrayCache.Cache.Adjust | pkg/store/lru2.go:533-546 | with either pair of columns, the slot moves to one end of the list and the links in both directions stay exact inverses |
| ArrayCache.Cache.MoveToBack | pkg/store/lru2.go:526-546 | adjust with the columns exchanged moves a slot to the back, and the list still lists slots 1..last once each |
| ArrayCache.Cache.PutKnown | pkg/store/lru2.go:422-426 | a known key keeps its slot and moves to the front with the new value and expiry |
| ArrayCache.Cache.PutOverTail | pkg/store/lru2.go:429-445 | in a full level the tail slot changes key and becomes the head; index, slots and links stay consistent |
| ArrayCache.Cache.PutFresh | pkg/store/lru2.go:448-466 | a fresh slot becomes the head, also when it is the first |
| ArrayCache.Cache.Put | pkg/store/lru2.go:420-467 | the array put is move-or-insert-to-front on the recency sequence, reports exactly an overwritten live tail, and keeps index and slots mutually inverse |
| ArrayCache.Cache.Get | pkg/store/lru2.go:477-483 | the array get is move-to-front, tombstones included, and shows the node found |
| ArrayCache.Cache.Del | pkg/store/lru2.go:494-503 | the array del tombstones a live node and moves it to the back, and returns its old expiry |
| ArrayCache.Cache.Walk | pkg/store/lru2.go:510-516 | the traversal ends and shows the live nodes head to tail, up to the first one the walker refuses |
| Recency.LiveNodesExact | pkg/store/lru2.go:505-516 | a full walk shows every live node once and nothing else |
| Recency.LiveNodesInOrder | pkg/store/lru2.go:505-516 | and from head to tail |
| Recency.WalkedIs | pkg/store/lru2.go:510-516 | a walk shows them in that order up to and including the first one the walker refuses |
| Recency.PutAt | pkg/store/lru2.go:410-467 | for every key: put puts its key in front, loses only the last key of a full level, changes no other node, and moves no key back by more than one place |
| Recency.TouchAt | pkg/store/lru2.go:469-483 | for every key: get changes no node and moves no other key back by more than one place |
| Recency.DelAt | pkg/store/lru2.go:485-503 | for every key: del leaves one tombstone, at the back, and moves no other key back at all |
| Recency.OrderKept | pkg/store/lru2.go:410-503 | put, get and del move one key: any two others stay in their order |
| Recency.PutReportsIff | pkg/store/lru2.go:430-436 | put reports exactly the live node it overwrites, with that node's key and value |
| TwoLevel.GetAt | pkg/store/lru2.go:102-141 | Get hits exactly an unexpired visible copy, returns its value, keeps it visible, and never brings a hidden copy of any key to the surface |
| TwoLevel.HitIff | pkg/store/lru2.go:102-141 | Get hits if and only if the visible copy has not expired by the first clock reading and, in level 2, by the second |
| TwoLevel.GetMoves | pkg/store/lru2.go:113-137 | a level-1 hit leaves the entry at the front of level 2 and an expired one nowhere; without a level-1 copy level 2's node for the key, dead or alive, moves to its front |
| TwoLevel.SetMoves | pkg/store/lru2.go:176-200 | a write leaves its node at the front of level 1 and, if level 1 was full without its key, a live tail at the front of level 2; in any other case level 2 stays as it is |
| TwoLevel.LateGetIff | pkg/store/lru2.go:108-137 | a Get that finds its copy expired misses, and deletes it if and only if it is in level 1 or the second clock reading is before its expiry |
| TwoLevel.SetOwn | pkg/store/lru2.go:161-203 | a live write is what becomes visible, with the whole survival budget; a dead write shows whatever level 2 still holds |
| TwoLevel.SetOther | pkg/store/lru2.go:176-200 | a write changes no other key's visible copy except by losing it, and costs a key at most one of its budget, also when it migrates it |
| TwoLevel.DeleteAt | pkg/store/lru2.go:577-591 | deletion hides its key in both levels and costs no other key anything |
| TwoLevel.DeleteReportsIff | pkg/store/lru2.go:577-591 | a deletion reports its key at most once: with the value of the visible copy, or if that is nil of the one it hides |
| Sweep.SweepExact | pkg/store/lru2.go:600-637 | a tick kills exactly the keys with an expired live copy in either level, reports each once with the value of its visible copy (if that is nil, of the one it hides), keeps every other node and their order, and leaves no live node that has expired |
| Sweep.SweepOrder | pkg/store/lru2.go:608-632 | it takes level 1 from head to tail and then what level 2 adds, from head to tail |
| Sweep.SweepKeepsOrder | pkg/store/lru2.go:600-637 | and any two keys it leaves stay in their order in both levels |
| Sweep.SweepDropsFreshIff | pkg/store/lru2.go:610-632 | an unexpired visible copy is lost to a tick if and only if it is in level 1 and hides an expired level-2 copy |
| Sweep.SetSuffixIff | pkg/store/lru2.go:180-194 | a write keeps the tombstones of level 1 at its back if and only if it is live, level 1 is a single slot, or no node of another key was live |
| StoreModel.LastWriteIs | pkg/store/lru2.go:143-215 | the recursive last write is the write at some position that no later write, deletion or clear of the key follows |
| StoreModel.RunSound | pkg/store/lru2.go:102-279 | after every run each level holds each key at most once, within capacity, in the bucket its hash selects |
| StoreModel.TickLeavesUnexpired | pkg/store/lru2.go:600-637 | a tick leaves no expired live node in any bucket |
| StoreModel.RunSeen | pkg/store/lru2.go:102-279 | after every run of live writes the visible copy of a key is its latest write, or there is none |
| StoreModel.GetReturnsLastWrite | pkg/store/lru2.go:102-215 | after every run from an empty store a hit returns the value last written and not since deleted or cleared, and the clock is before the sum of that write's clock reading and expiration |
| StoreModel.LiveWriteIff | pkg/store/lru2.go:164-167 | for every clock reading, a write is live if and only if its expiration is positive and the sum of the two is positive and below 2^63, and then it expires at that sum |
| StoreModel.CollectedExact | pkg/store/lru2.go:224-246 | Clear collects each key with a live copy once, and no other |
| Guarantees.Survival | pkg/store/lru2.go:161-203 | a write stays readable at every clock reading before the sum of its own and its expiration, through any c1+c2-1 operations on other keys of its bucket, any number in other buckets, and any ticks before the expiry of its copies |
| Guarantees.ReadOwn | pkg/store/lru2.go:113-137 | a hit leaves the entry at the front of level 2 with the survival budget of level 2 alone, whatever it had before |
| Guarantees.SurvivalWithReads | pkg/store/lru2.go:102-203 | a write and every read of it are answered up to that sum through c1+c2-1 operations on other keys of its bucket before the first read and c2-1 after each read |
| Guarantees.CostIs | pkg/store/lru2.go:161-203 | what survival counts is the number of those operations |
| Guarantees.LeftIs | pkg/store/lru2.go:102-203 | and with reads, the number of them since the last read |
| Window.SlidingWindow | pkg/store/lru2.go:161-203 | distinct live writes into an empty bucket leave exactly the newest c1 in level 1 and the c2 before them in level 2 |
| Window.BudgetIsTight | pkg/store/lru2.go:161-203 | one more write than the survival bound loses the key |
| Guarantees.RunTombstones | pkg/store/lru2.go:176-194 | after every run of live writes the tombstones of level 1 are at its back, so a live entry migrates only when all of level 1 is live |
| Guarantees.LiveWritesAreSafeIff | pkg/store/lru2.go:161-167 | a write keeps every bucket a lossy last-write map if and only if the expiry it stores is positive |
| Guarantees.SetKeepsLossyIff | pkg/store/lru2.go:161-203 | in a given bucket it does if and only if it is live, or its key has no live copy in level 2, or the entry it displaces overwrites that copy |
| Guarantees.DeadWriteUncovers | pkg/store/lru2.go:127-137 | in every store, write, read, then write with a non-positive expiration, and the next read returns the first value |
| Guarantees.ExpiredStays | pkg/store/lru2.go:127-137 | in every store, write, read, then read after the expiry: the last read misses and the expired entry is still there |
| Guarantees.TickDropsFresh | pkg/store/lru2.go:600-637 | in every store, write, read, write with a later expiry: a tick between the two expiries drops the readable second write |
| Guarantees.ClearEmpties | pkg/store/lru2.go:224-279 | Clear leaves no live node in any bucket, and Len is 0 |
| Guarantees.ClearReportsOnce | pkg/store/lru2.go:233-250 | Clear deletes each visible key once, and reports each once even when both levels hold it: with the value of its visible copy, if that is nil of the one it hides, and not at all if both are |
| Guarantees.ClearUnderTraffic | pkg/store/lru2.go:224-250 | with other operations between its collections and its deletions, Clear still leaves a key hidden unless somebody writes it after its bucket was collected |
| Reports.SetReportsIff | pkg/store/lru2.go:180-200 | a write reports exactly the live level-2 copy that its displaced entry pushes out, if there is one |
| Reports.GetReportsIff | pkg/store/lru2.go:113-137 | a read reports exactly the live level-2 copy it takes away: the one its entry pushes out, or an expired one of its own key that has a value |
| Reports.ExpiredGoesSilently | pkg/store/lru2.go:113-120 | an expired entry that a read finds in level 1 goes without a report, or with one of the older value in level 2 |
| Reports.SilentRun | pkg/store/lru2.go:113-120 | in every store without a copy of the key in level 2, write, then read after the expiry: the entry is gone and nothing was reported |
| Reports.TickReportsIff | pkg/store/lru2.go:600-637 | a tick over all buckets reports exactly the keys with an expired copy in either level, with the value of the visible copy (if that is nil, of the one it hides) |
| Reports.TickReportsOnce | pkg/store/lru2.go:600-637 | and no key twice |
| Reports.LostIsReportedIff | pkg/store/lru2.go:102-279 | any operation that makes a visible value invisible, but not by overwriting it, reports key and value if and only if it is not a read that finds it expired in level 1, or level 2 has the same value |
| Reports.ReportIsLoss | pkg/store/lru2.go:102-279 | every report is of a copy that was live with that value and is gone from level 2, and after a deletion, Clear or tick from both levels |
| Reports.CollectedInOrder | pkg/store/lru2.go:224-246 | Clear goes bucket by bucket, level 1 from head to tail, then what level 2 adds |
| Reports.LenIs | pkg/store/lru2.go:253-279 | Len is the number of visible keys, plus that of the keys live in both levels |
| Lru2Store.Lru2Store.constructor | pkg/store/lru2.go:48-85 | defaults are applied and the store starts valid and empty, with the least power of two of buckets |
| Lru2Store.Lru2Store.Index | pkg/store/lru2.go:103-103 | hash and mask select the key's bucket, which is the polynomial modulo the number of buckets |
| Lru2Store.Lru2Store.Get | pkg/store/lru2.go:102-141 | the mutable Get takes the model's step on the whole store, answers the model's hit, and makes the model's reports |
| Lru2Store.Lru2Store.SetWithExpiration | pkg/store/lru2.go:161-203 | the mutable write takes the model's step, with the wrapped 64-bit expiry |
| Lru2Store.Lru2Store.Set | pkg/store/lru2.go:147-149 | Set is a write with a lifetime of 9999999999999999 nanoseconds |
| Lru2Store.Lru2Store.Delete | pkg/store/lru2.go:209-215 | Delete answers whether a live copy was visible, and reports it once |
| Lru2Store.Lru2Store.Tick | pkg/store/lru2.go:600-637 | one round of the cleanup loop sweeps every bucket at one clock reading |
| Lru2Store.Lru2Store.Clear | pkg/store/lru2.go:224-251 | Clear takes the model's step and makes the model's reports |
| Lru2Store.Lru2Store.Len | pkg/store/lru2.go:260-279 | Len counts the live nodes of every level |
| RingModel.NamesInjective | internal/consistenthash/con_hash.go:409-409 | "addr-i" names are injective in address and number, also for addresses that contain dashes and digits |
| RingNames.NameReads | internal/consistenthash/con_hash.go:409-409 | the name of virtual node i is the one string whose part before the last dash is the address and whose rest is the decimal numeral of i, without leading zeros |
| RingNames.KeysAreNames | internal/consistenthash/con_hash.go:407-456 | after every run the keys are the hashes of the names that read as a member and a number from 0 up to its replicas |
| RingNames.MembersAre | internal/consistenthash/con_hash.go:384-456 | the members after a run are the addresses added or rebalanced and not removed since |
| RingNames.ReplicasAre | internal/consistenthash/con_hash.go:384-418 | a member has the replicas of its last rebalancing since it joined, or the default number |
| RingModel.SliceRemoveExact | internal/consistenthash/con_hash.go:464-470 | a binary-search removal from a sorted slice deletes exactly one occurrence of its value, if there is one |
| RingModel.RunConserves | internal/consistenthash/con_hash.go:407-456 | for every hash function and every run, the keys are sorted, are exactly the members' positions with multiplicity, and number as many as the replicas |
| RingOwners.RouteIsOwner | internal/consistenthash/con_hash.go:482-508 | Get returns an address if and only if that address has the nearest virtual node clockwise, with wrap-around |
| RingNames.RouteByNames | internal/consistenthash/con_hash.go:482-508 | the same in terms of names: a key goes to addr if and only if the hash of a name that reads as addr and one of its replicas is the nearest clockwise |
| RingOwners.RouteEmpty | internal/consistenthash/con_hash.go:486-488 | with no virtual node Get returns the empty address |
| RingOwners.AddKeepsExactIff | internal/consistenthash/con_hash.go:407-418 | adding a member keeps the owner map exact if and only if none of its positions is taken by another member |
| RingOwners.RemoveExact | internal/consistenthash/con_hash.go:446-456 | removing a member keeps an exact owner map exact |
| RingOwners.AddMovesOnlyToNew | internal/consistenthash/con_hash.go:384-418 | a key whose owner changes when a member is added moves to that member |
| RingOwners.RemoveMovesOnlyItsOwn | internal/consistenthash/con_hash.go:424-456 | a key whose owner changes when a member is removed belonged to that member |
| RingOwners.RebalanceMonotone | internal/consistenthash/con_hash.go:569-582 | rebalancing moves no key between two other members, takes none from a growing one and gives none to a shrinking one |
| RingOwners.RunExact | internal/consistenthash/con_hash.go:384-456 | on a collision-free universe every run keeps the owner map exact |
| RingOwners.HistoryIndependent | internal/consistenthash/con_hash.go:384-508 | runs that end with the same replica counts end with the same keys and owners and route every key alike |
| RingOwners.AddThenRemove | internal/consistenthash/con_hash.go:384-456 | adding a new member and removing it restores the ring |
| RingOwners.RemoveIndexedIff | internal/consistenthash/con_hash.go:448-452 | after a removal every key still has an owner entry if and only if the removed member shared no position with another |
| RingOwners.Orphaned | internal/consistenthash/con_hash.go:448-507 | a shared position keeps its key without an owner, and what hashes there is routed to the empty address |
| RingNames.LastAddedOwns | internal/consistenthash/con_hash.go:407-418 | a position that several members share routes to the one added last |
| RingBalance.PassKeeps | internal/consistenthash/con_hash.go:522-562 | for every order of visits, with repeats, a pass keeps the members, the replica bounds and the agreement of ring and counts |
| RingBalance.PassExact | internal/consistenthash/con_hash.go:522-562 | and on a collision-free universe it keeps the owner map exact |
| RingBalance.OneVisitEach | internal/consistenthash/con_hash.go:534-560 | with one visit each, every count moves to the target of its own load, by at most ten, not up for a busy node and not down for an idle one |
| RingBalance.SecondVisitUndoes | internal/consistenthash/con_hash.go:534-554 | a second visit in one pass reads the count the first one reset and undoes its decrease |
| RingBalance.RepeatedVisits | internal/consistenthash/con_hash.go:534-560 | for every order of visits, with any repeats, where each node ends: its load decides the first visit, and every later one adds ten up to the bound |
| RingBalance.BusyNotUpIff | internal/consistenthash/con_hash.go:534-560 | an overloaded node ends with no more replicas than it had if and only if it is visited at most once, or was at the upper bound, or is visited twice and the first visit took the full ten |
| RingBalance.IdleByTenIff | internal/consistenthash/con_hash.go:534-560 | an underloaded node never loses replicas, and gains at most ten if and only if it is visited at most once or the upper bound is within ten |
| RingLoads.AverageIs | internal/consistenthash/con_hash.go:523-529 | while the loads add up within 64 bits, the average is their sum divided by the number of nodes, rounded toward zero |
| RingLoads.LoadIs | internal/consistenthash/con_hash.go:538-544 | overloaded is above tooBusy times the average; underloaded is not that, and below tooIdle times the average |
| RingLoads.ResizesIff | internal/consistenthash/con_hash.go:534-560 | a pass resizes some node if and only if it visits one that was out of balance before it, and otherwise leaves the ring as it was |
| RingLoads.BalancedStays | internal/consistenthash/con_hash.go:522-560 | equal positive loads are their own average, and with thresholds on either side of one no pass resizes anybody |
| ConsistentHash.Search | internal/consistenthash/con_hash.go:493-495 | bisection finds the first key not below the hash |
| ConsistentHash.RemoveFromSlice | internal/consistenthash/con_hash.go:464-470 | the method removes what the model's removal does |
| ConsistentHash.Map.AddNode | internal/consistenthash/con_hash.go:407-418 | the loop and the final sort take the model's step |
| ConsistentHash.Map.RemoveNoLock | internal/consistenthash/con_hash.go:446-456 | the loop of removals takes the model's step |
| ConsistentHash.Map.Add | internal/consistenthash/con_hash.go:384-398 | a member is left alone, anything else is added with the default replicas |
| ConsistentHash.Map.Remove | internal/consistenthash/con_hash.go:424-437 | a non-member is ignored, a member is removed |
| ConsistentHash.Map.RebalanceReplicas | internal/consistenthash/con_hash.go:569-582 | remove everything, then add the new count |
| ConsistentHash.Map.Get | internal/consistenthash/con_hash.go:482-508 | the lookup routes as the model does and counts a hit on this node |
| ConsistentHash.Map.TotalLoad | internal/consistenthash/con_hash.go:523-526 | the 64-bit sum of the loads does not depend on the iteration order |
| ConsistentHash.Map.CheckAndRebalance | internal/consistenthash/con_hash.go:522-562 | the method is the model's pass over the order the runtime picks, does nothing when the truncated average is 0, and says whether a node was resized |
| SingleFlight.MapHoldsActiveCalls | internal/singleflight/singleflight.go:20-41 | in every interleaving a call is in the map only between its Store and its owner's Delete, and the map is empty when everybody has returned |
| SingleFlight.ReturnsACompletedRun | internal/singleflight/singleflight.go:22-26 | a waiter returns exactly the answer of a completed run for its key whose owner had not returned when it looked the call up |
| SingleFlight.RunsAreMisses | internal/singleflight/singleflight.go:28-40 | the runs of fn are the callers that missed at Load, less those still on their way |
| SingleFlight.BothRun | internal/singleflight/singleflight.go:19-34 | two callers that both Load before either Stores both run fn |
| SingleFlight.ExclusiveIff | internal/singleflight/singleflight.go:22-38 | callers of a key never overlap if and only if no Load misses while another caller is between its missed Load and its Store |
| SingleFlight.NoDeadlock | internal/singleflight/singleflight.go:20-41 | unless everybody has returned some caller can take a step |
| SingleFlight.BoundedSteps | internal/singleflight/singleflight.go:20-41 | every caller takes at most six steps, so every schedule ends |
| FlightGroup.Group.Load | internal/singleflight/singleflight.go:22-26 | a caller that finds an entry holds a reference to a call of its key whose owner has stored it and not yet deleted it; the heap takes the machine's step |
| FlightGroup.Group.Store | internal/singleflight/singleflight.go:29-31 | the caller's fresh call object is in the map whatever was there, and every other call object and reference is as before; the heap takes the machine's step |
| FlightGroup.Group.Delete | internal/singleflight/singleflight.go:38-38 | no entry is left under the key, and the caller still holds its own call although another's may have been taken out; the heap takes the machine's step |
| FlightGroup.Group.StillWaits | internal/singleflight/singleflight.go:22-38 | a step of any other caller, storing over the entry or deleting it included, leaves a waiter waiting for the call object it joined |
| FlightGroup.Group.Wake | internal/singleflight/singleflight.go:24-25 | a released waiter returns the results in the object it joined, which fn wrote for its key, whether or not the object is still in the map |
| FlightGroup.Group.Do | internal/singleflight/singleflight.go:20-41 | a caller nobody makes wait gets the results of a released call without running fn, or runs it and gets its answer; the map ends as it began |
| Cluster.GetCoherent | internal/server/server.go:100-124 | a Get answers Redis's value or an error, and leaves every copy equal to Redis and only at its owner |
| Cluster.ChangeCoherent | internal/server/server.go:137-164 | Set and Delete keep every copy equal to Redis |
| Cluster.ChangeTakesEffect | internal/server/server.go:143-159 | Set and Delete change Redis at their key as asked and nowhere else, leave no copy at the owner, and touch no other store |
| Cluster.MissIsCached | internal/server/server.go:110-122 | a Get that misses leaves Redis's value in the owner's cache for the lifetime of a fill |
| Cluster.TickTakesEffect | pkg/store/lru2.go:600-637 | a tick at a node leaves nothing expired there, and touches neither Redis nor any other store |
| Cluster.ClusterCoherent | internal/server/server.go:100-164 | after every run of requests and ticks at any nodes a Get answers exactly Redis's current value or an error, and only the owner holds live copies of a key |
| Cluster.RingClusterCoherent | internal/server/peer.go:188-194 | the same with the owner that an agreed ring of cluster nodes computes |
| Server.Server.PickPeer | internal/server/peer.go:188-194 | on any ring, the picked peer is where the ring sends the key, and self says whether it is this node |
| Server.Server.GetOwn | internal/server/server.go:106-124 | cache, flight, Redis and cache fill together answer as the model does, with Redis's value or the results of a call that was in flight and has been released |
| Server.Server.Get | internal/server/server.go:100-135 | for rings that agree or not: the request is served at the node where the forwards end, after one forward for each node before it, or is an error when that node has nobody on its ring |
| Server.Server.Set | internal/server/server.go:137-150 | Redis is written and the copies of the node where the forwards end go, unless that node has nobody on its ring; the answer depends on this node's ring alone |
| Server.Server.Delete | internal/server/server.go:152-164 | likewise with the Redis entry deleted |
| Server.Server.AddService | internal/server/peer.go:154-172 | a new node is connected and takes the ring's step, and every other member of the ring stays connected |
| Server.Server.RemoveService | internal/server/peer.go:174-184 | a node that has gone is disconnected and leaves the ring, and every other member of the ring stays connected |
| Server.Server.PicksConnected | internal/server/peer.go:188-194 | on an exact ring such a node picks nobody, itself, or a connected peer |
| Network.Get | internal/server/server.go:100-135 | among linked servers a Get at any node takes the cluster model's step, leaves every other node's store untouched, and is forwarded once unless the node owns the key |
| Network.Set | internal/server/server.go:137-150 | a Set at any node takes the cluster model's step, with at most one forward |
| Network.Delete | internal/server/server.go:152-164 | a Delete at any node takes the cluster model's step, with at most one forward |
| Network.Tick | pkg/store/lru2.go:600-637 | a cleanup tick at a node takes the cluster model's step |
| Joining.Start | internal/server/server.go:60-60 | a node that has put itself on its ring is a cluster of one |
| Joining.RingsAgree | internal/consistenthash/con_hash.go:482-508 | two rings of the same members, however they came about, route every key alike, to a member |
| Joining.Admit | internal/server/peer.go:102-184 | when a newcomer and every node of a cluster discover each other, in any order, they are a cluster |
| Joining.Join | internal/server/peer.go:102-184 | a cluster of any size stays one when a node comes up and joins it, on a collision-free universe |
| Joining.SetForwarded | internal/server/server.go:137-150 | a Set that is forwarded to a node with nobody on its ring is reported as done and writes nothing |
| Joining.LostSet | internal/server/server.go:57-60 | such a Set, from two fresh nodes of which one has not yet put itself on its ring |
| Walks.EndsSoon | internal/server/server.go:126-133 | a walk of forwards that ends at all has ended after as many forwards as there are nodes |
| Walks.AnsweredIff | internal/server/server.go:100-135 | over connected nodes whose rings need not agree, a request comes to a node that answers it if and only if the walk of picks has met, after as many forwards as there are nodes, one that picks itself or nobody |
| Interleaved.NoInventedValues | internal/server/server.go:106-148 | in every interleaving of the steps, at whichever nodes a changing ring picks, what a Get answers is what Redis held for the key at an earlier point of the run: the value, or an error if it held none |
| Interleaved.HeldIsAnswered | internal/server/server.go:110-122 | while Redis holds a value for the key throughout, every answered Get carries a value |
| Requests.RedisIs | internal/server/server.go:143-159 | in every interleaving Redis holds what the last Set or Delete of the key left there |
| Requests.RedisStays | internal/server/server.go:143-159 | and what it held at first if there was none |
| Requests.LookupMoves | internal/server/server.go:107-107 | a lookup that hits leaves the entry at the front of level 2 of that node's cache |
| Requests.FillCaches | internal/server/server.go:121-121 | a value that Do returned is cached at its node for the lifetime of a fill |
| Requests.FilledIsAnswered | internal/server/server.go:117-122 | once its flight has ended a request is answered, for good |
| Requests.TickSweeps | pkg/store/lru2.go:600-637 | a cleanup tick leaves nothing expired in the node's cache |
| Requests.NobodyStuck | internal/server/server.go:106-124 | as long as a request is unanswered some request can take a step, in Do, in fn or to its answer |
| Interleaved.StaleFill | internal/server/server.go:110-145 | without atomicity coherence fails: a fill after a completed Set makes later Gets answer the old value |
| Freshness.FillCurrentIff | internal/server/server.go:121-121 | a fill leaves a node's copies equal to what Redis holds if and only if it writes that, or writes a node that is dead at once |
| Freshness.CurrentIff | internal/server/server.go:106-148 | in every interleaving a node's copies of a key are what Redis holds at every moment outside the gaps between a change in Redis and the node's deletion, if and only if no fill outside the gaps carries an answer Redis no longer holds |
| Freshness.HitsAreCurrent | internal/server/server.go:107-123 | without such a fill, a lookup outside the gaps that hits answers what Redis holds at that moment |
| LruModel.EvictExact | pkg/store/lru.go:171-182 | evict ends within the limit or empty, removes a suffix of the recency order and exactly its entries, and keeps the books |
| LruModel.EvictReportsExact | pkg/store/lru.go:171-182 | evict reports exactly the entries it removes, each once, from the back of the list |
| LruReads.EvictStops | pkg/store/lru.go:171-182 | evict leaves the most recent entries up to the first number of them at which the counter, with every evicted entry subtracted twice, is within the limit, or none |
| LruModel.DriftLaw | pkg/store/lru.go:53-182 | after every run the list holds each entry once and the counter is the live bytes less the bytes evicted for capacity since the last Clear |
| LruReads.CounterIs | pkg/store/lru.go:53-182 | the same with the live bytes as the bytes of all keys and values, whatever the order |
| LruModel.SetExactIff | pkg/store/lru.go:112-136 | a write whose counter was the live bytes keeps it so if and only if there is no limit or the counter with the new entry is within it |
| LruModel.SetTimedExactIff | pkg/store/lru.go:53-77 | the same for a write with an expiration |
| LruModel.CounterExactIff | pkg/store/lru.go:53-182 | after every run the counter is the live bytes if and only if no write since the last Clear found it over the limit |
| LruModel.EvictWithinIff | pkg/store/lru.go:171-182 | eviction ends with the live bytes within the limit if and only if wherever its loop may stop, with every evicted entry subtracted twice, the entries left fit |
| LruModel.WriteWithinIff | pkg/store/lru.go:53-136 | a write leaves the live bytes within the limit if and only if that holds with the new entry in front |
| LruModel.AlwaysWithinIff | pkg/store/lru.go:53-182 | the live bytes are within the limit throughout a run if and only if every write of the run fits in that sense |
| LruModel.WithinLimit | pkg/store/lru.go:171-182 | so they are while no write since the last Clear has found the counter over the limit |
| LruModel.OverLimitRun | pkg/store/lru.go:171-182 | for every limit, a write larger than the limit and then an entry larger than the limit by as much: the entry is kept |
| LruModel.LateDeleteIff | pkg/store/lru.go:80-98 | whatever happens between finding k expired and deleting it, an unexpired entry is deleted if and only if some operation renewed k and every later one spared it |
| LruModel.LateDeleteDrops | pkg/store/lru.go:80-98 | in every cache without a limit, the value another caller writes in between is lost |
| LruReads.ReadFindsLastWrite | pkg/store/lru.go:53-154 | after every run a read that hits finds the value last written and not since deleted or cleared, and not after the lifetime that write gave it |
| LruReads.StaysIff | pkg/store/lru.go:53-229 | without a limit an entry is lost to nothing but a deletion, Clear, or a read or cleanup that finds it expired |
| LruReads.ReadRefreshes | pkg/store/lru.go:80-109 | a read that hits moves its key to the front, leaves the others in their order, and changes nothing else |
| LruReads.ReadMisses | pkg/store/lru.go:80-98 | any other read removes the expired entry, if there is one, and changes nothing else |
| LruReads.ReadOutlives | pkg/store/lru.go:80-182 | the key just read is evicted by the next write of another key only if every older entry is |
| LruReads.ReportsAreRemovals | pkg/store/lru.go:80-208 | every operation but Clear reports exactly the entries that go, each once with its value, and no entry that is only overwritten |
| LruModel.CleanupExact | pkg/store/lru.go:199-208 | in whatever order it iterates, cleanup removes exactly the expired entries |
| LruModel.CleanupReportsExact | pkg/store/lru.go:199-208 | cleanup reports exactly the expired entries it meets, with their values |
| LruModel.CleanupReportsOnce | pkg/store/lru.go:199-208 | and reports no entry twice |
| LruCache.LruCache.Set | pkg/store/lru.go:112-136 | the method takes the model's step and reports what the model's eviction removes |
| LruCache.LruCache.SetWithExpiration | pkg/store/lru.go:53-77 | the method takes the model's step, with the expiry set or removed, and reports what the model's eviction removes |
| LruCache.LruCache.Get | pkg/store/lru.go:80-109 | an expired entry is deleted, reported and missed, any other is moved to the front and returned |
| LruCache.LruCache.Refresh | pkg/store/lru.go:100-107 | the last locked section moves the entry to the front if it is still there |
| LruCache.LruCache.Delete | pkg/store/lru.go:138-154 | the entry goes, its size is subtracted once, and it is reported once |
| LruCache.LruCache.RemoveElement | pkg/store/lru.go:157-168 | list, entry, expiry and counter change together and the callback fires once |
| LruCache.LruCache.EvictEntries | pkg/store/lru.go:171-182 | the loop takes the model's step and makes the model's reports |
| LruCache.LruCache.CleanupExpired | pkg/store/lru.go:199-208 | the loop takes the model's step in the order the runtime picks and makes the model's reports |
| LruCache.LruCache.Clear | pkg/store/lru.go:221-229 | everything is forgotten and nothing reported |

## Left out

- Leader election, watches, leases, registration and the JSON snapshot of the ring (`internal/consistenthash/con_hash.go:185-378`, `internal/registry/registry.go`): calls into the etcd client. Installing a snapshot replaces keys and owners but not the replica counts, so it is not a step of the ring model.
- gRPC, generated code, the Redis client, logging and the command line: plumbing. Redis is a map, a remote call is a call on the peer object, and Redis and the peers do not fail.
- Locks, tickers and the clock goroutine: a locked store or ring operation is one atomic step and takes the time as a parameter. Interleaving is modelled for `Do` and for the steps of server requests.
- `SetToCache` (`internal/server/server.go:167-169`): it writes the cache without Redis by design.
- LruCache.LruCache.Get: puts its three locked sections together without interruption; `LruModel.LateDeleteIff` says what others may do before the deletion, and which value a Get that is not interrupted by a deletion reads from its entry after the last section is not modelled.
- Lru2Store.Lru2Store.Clear: is one atomic step; `Guarantees.ClearUnderTraffic` says what holds when other operations come in between, and the reports of such a run are not modelled.
- FlightGroup.Group.Do: runs from beginning to end, so it asks that the call in flight for its key, if any, has been released; callers that have to wait are the steps `Load` and `Wake`.
- Server.Server.GetOwn: likewise asks that it need not wait in `Do`; requests that wait are steps of `Interleaved`.
- Server.Server.Get: asks for a finite way of forwards, as a method must end; when there is one is `Walks.AnsweredIff`. A picked peer without a client is not modelled.
- LruModel.DriftLaw: does not model 64-bit wrap-around of the byte counter, which takes evictions of 2^63 bytes in all since the last Clear.
- LruCache.LruCache.Unlink: the linked list of the container package is the sequence of its keys, so its pointers are not modelled.
- RingBalance.OneVisitEach: does not model the rounding of 64-bit floating point, because the comparison of a load ratio with a threshold is not about rounding.
- RingModel.Sort: sorting is the library's, modelled by an insertion sort with the same result.
- SingleFlight.NoDeadlock: assumes that `fn` returns, and does not model a panic inside it.
- `ByteView`, `Group`, configuration structs and `NewStore`: they would add only easy members.
