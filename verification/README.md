# PeerCache: a verified model

PeerCache is a peer-to-peer cache for KV-cache pages. A C++ engine moves pages over RDMA
through pooled channels; a Python layer decides where pages live: in a slot map that peers
write directly, in a published pool with a replicated directory over a consistent-hash
ring, and in a disk tier behind the pool. This project models that logic in Dafny and
proves what it keeps over every input, every interleaving and every run.

How to check it: `dafny verify dfyconfig.toml`.

## What is modelled

- **Channel leases** (`ChannelPool`, `LeaseProtocol`, `LeaseTheorems`, `PoolOrder`,
  `RailGroups`). Threads run batches; a step is one critical section of `lease`, `release`
  or `discard`, one handshake outcome, or a spurious wake-up. The invariant says that
  channels are conserved and capped, that a channel has one holder, and that no wake-up is
  lost. From it follow deadlock freedom and the completion of every batch.
- **Completions** (`Completions`, `Endpoint`). The same machine with queue pairs: posts,
  completions in any order, polls, timeouts. A batch sees its own results and no others.
- **Slot map** (`Bytes`, `SlotHeader`, `WayChoice`, `SlotGeometry`, `SlotMemory`,
  `SlotWrites`, `SlotLocalRuns`, `SlotRegion`, `SlotBatch`, `SlotFailedRead`). Byte-level
  memory of a region, the seqlock write store by store, the two way choosers and what they
  replace, and the batched remote publish with READs that may fail.
- **Ring and directory** (`Sequences`, `HashRing`, `RingObject`, `Directory`,
  `DirectoryObjects`, `DirectoryFallback`). The ring, its walk under departures, and the
  replicated shards under put, delete, crash and ring shrink.
- **Published pool** (`PoolValue`, `PoolBounds`, `PoolTiling`, `PoolLru`, `PoolObject`). The
  allocator tiles its memory; with one page length it is an LRU cache.
- **Directory and pool together** (`P2P`, `P2PPublish`, `P2PPromote`, `P2PRuns`,
  `P2PEntries`, `P2PObject`). What the directory says is resident here can be read here, and
  what is published here is in the directory.
- **Disk tier** (`DiskTier`, `DiskFiles`, `DiskRestart`, `DiskObject`, `DiskOrder`). Callers and the
  writer thread interleaved, the files they leave, and the restart scan.
- **Location caches** (`LocationCache`, `LocationCacheObject`). How old a location can be
  when it is used.

Code that updates objects in place is a class whose methods are proved equal to functions
on values; the theorems are about those functions. Interleavings are step machines.
Hash functions are function-valued parameters. Where a law needs them not to collide, the
premise is stated for the finite set of keys or nodes in play (`InjectiveOn`,
`NoCollisions`, `Named`).

## Where the code does not do what its comments say

Each item names the lemma at a failing input and the lemma with the exact condition.

- "rkey is constant within a group" (`cpp/src/transfer_engine.cpp:147`) fails for two nodes
  sharing an endpoint with different rkeys (`RailGroups.RkeysMayDisagree`) and holds exactly
  when the tables never pair one endpoint with two rkeys (`RailGroups.GroupRkeysRightIff`).
- "strictly fresher than what the slot held" (`python/peercache/store.py:575`) fails for a
  refresh of the newest page (`WayChoice.RefreshMayRepeatStamp`) and holds exactly when the
  key is in no way yet or its way's number is below the stamp that follows the bucket's
  smallest (`WayChoice.StampFresherIff`).
- A promote of several keys has no reconcile pass. Two pages promoted into a one-page pool
  leave a false claim (`P2PPromote.DoublePromoteLies`). With one page length the directory
  stays true exactly when an LRU cache run on the keys alone keeps what it inserts
  (`P2PPromote.PromoteCoherentIff`); for keys on disk and not pooled, exactly when the
  distinct ones fit into the pool together or no page fits (`P2PPromote.FreshPromoteIff`).
- A page that leaves the disk while pooled loses its noted length
  (`python/peercache/store.py:836-838`). Re-published and then pushed out of the pool it
  leaves a false claim (`P2PRuns.ForgottenLengthLies`); a publish keeps the directory true
  exactly when it pushes out no claimed page of forgotten length
  (`P2PRuns.PushingOutCoherentIff`).
- A group of keys falls back to the replicas of its first key only
  (`python/peercache/directory.py:131`). Two keys with one crashed primary and different
  second replicas make the second key miss (`DirectoryFallback.FallbackMisses`); a key is
  found exactly when the node answering for its group was one of its own owners at its last
  put (`Directory.FoundIffResponderOwned`).
- "never serves a location older than one prefetch handoff"
  (`python/peercache/store.py:207`) fails for every age below the sum of the two times to
  live (`LocationCache.StalenessReached`) and holds exactly when the directory read cache is
  off (`LocationCache.HandoffBoundIff`).
- A disk write that overlaps an earlier removal of the same page can leave the key indexed
  with no file (`DiskFiles.OverlapHappens`). A write leaves every indexed page readable from
  then on exactly when no such removal is due (`DiskFiles.WriteServesIff`).
- A failed bucket READ makes the remote publisher choose by its own batch alone. A page
  published again behind one ends in two ways (`SlotFailedRead.FailedReadRepeatsKey`); it
  ends in one exactly when ways 1 and up of the bucket did not hold it
  (`SlotFailedRead.FailedReadDuplicatesIff`).

## Model

| member | source | states |
|---|---|---|
| `PoolOrder.LessTrichotomy` | cpp/src/transfer_engine.cpp:155 | any two (rail, endpoint) keys are equal or ordered one way only |
| `PoolOrder.LessTransitive` | cpp/src/transfer_engine.cpp:155 | the order in which the group map is walked is transitive |
| `PoolOrder.Highest` | cpp/src/transfer_engine.cpp:189 | a nonempty set of pools has one that no other is above; the deadlock argument starts there |
| `ChannelPool.ErasedRemovesOne` | cpp/src/connection_manager.cpp:266-271 | erasing a channel from a duplicate-free owner list removes that channel and nothing else |
| `ChannelPool.TriedKeeps` | cpp/src/connection_manager.cpp:228-251 | a pass of the lease loop keeps the pool sound; a channel it hands out was not on lease, and is the only one added to the leased channels |
| `ChannelPool.TriedDecides` | cpp/src/connection_manager.cpp:228-251 | a free channel is taken before a new one is made; a caller waits exactly when none is free and the cap is reached |
| `ChannelPool.ReleaseThenLease` | cpp/src/connection_manager.cpp:228-260 | the channel released last is the next one handed out |
| `ChannelPool.AdoptedKeeps` | cpp/src/connection_manager.cpp:245-247 | a freshly connected channel becomes owned and leased, nothing else changes hands |
| `ChannelPool.ReleasedKeeps` | cpp/src/connection_manager.cpp:254-260 | releasing a leased channel takes exactly it off lease and keeps free and owned duplicate-free |
| `ChannelPool.DiscardedKeeps` | cpp/src/connection_manager.cpp:262-275 | discarding a leased channel takes exactly it out of the pool and one off the created count |
| `ChannelPool.PeerPool.constructor` | cpp/src/connection_manager.cpp:90-97 | a configured cap of zero becomes one |
| `ChannelPool.PeerPool.TryLease` | cpp/src/connection_manager.cpp:228-251 | one pass under the mutex is the specified attempt: newest free channel, else a reserved slot, else wait |
| `ChannelPool.PeerPool.FinishConnect` | cpp/src/connection_manager.cpp:238-247 | a handshake's outcome adopts the channel or gives the slot back |
| `ChannelPool.PeerPool.Release` | cpp/src/connection_manager.cpp:254-260 | the channel goes to the end of the free list |
| `ChannelPool.PeerPool.Discard` | cpp/src/connection_manager.cpp:262-275 | the search loop drops the first occurrence and the count goes down, not below zero |
| `LeaseProtocol.InitialInv` | cpp/src/connection_manager.cpp:90-97 | empty pools and threads about to run disciplined batches satisfy the invariant |
| `LeaseProtocol.StepCounts` | cpp/src/connection_manager.cpp:225-275 | a step moves its own thread between program counters, and a notifying step moves exactly one sleeper of that pool, when there is one, to woken |
| `LeaseProtocol.StepOnPool` | cpp/src/connection_manager.cpp:225-275 | whatever the step, the leased channels of its pool change exactly as the stepping thread's own holding does |
| `LeaseProtocol.StepKeepsPool` | cpp/src/connection_manager.cpp:225-275 | created stays equal to owned channels plus handshakes under way, and within the cap |
| `LeaseProtocol.StepKeepsWakeups` | cpp/src/connection_manager.cpp:225-275 | no lost wake-up: while somebody sleeps on a pool, every free channel and unused slot of it has a woken thread on its way |
| `LeaseProtocol.StepKeepsLeases` | cpp/src/connection_manager.cpp:225-275 | a channel on lease has exactly one holder, and only channels on lease have one |
| `LeaseProtocol.StepKeepsPoolsApart` | cpp/src/connection_manager.cpp:225-275 | no channel ever belongs to two pools |
| `LeaseProtocol.StepKeepsThread` | cpp/src/transfer_engine.cpp:189-240 | a thread keeps leasing above everything it holds, also after a failed lease |
| `LeaseProtocol.StepKeepsInv` | cpp/src/connection_manager.cpp:225-275 | every step of every thread keeps all of the above at once |
| `LeaseTheorems.ReachableInv` | cpp/src/connection_manager.cpp:225-275 | the invariant holds in every reachable state, spurious wake-ups included |
| `LeaseTheorems.SomeoneAwake` | cpp/src/transfer_engine.cpp:179-240 | while some batch is unfinished, some unfinished thread is not asleep |
| `LeaseTheorems.NoDeadlock` | cpp/src/transfer_engine.cpp:179-240 | in every such state everything is finished or some thread can step without a spurious wake-up |
| `LeaseTheorems.RunsAreBounded` | cpp/src/transfer_engine.cpp:179-240 | a run is no longer than its starting work allows, but for two steps per spurious wake-up |
| `LeaseTheorems.MaximalRunsFinish` | cpp/src/transfer_engine.cpp:179-240 | a run that cannot go on has finished every batch, with no channel on lease and created equal to owned |
| `LeaseTheorems.MultiBatchDisciplined` | cpp/src/transfer_engine.cpp:189-240 | a multi-rail batch over groups in map order leases only upwards and ends holding nothing |
| `LeaseTheorems.SingleRailBatchDisciplined` | cpp/src/transfer_engine.cpp:92-112 | a single-rail batch does so in whatever order it visits its peers |
| `RailGroups.GroupRequests` | cpp/src/transfer_engine.cpp:155-177 | a request is in some group exactly when its node is in both tables with nonempty lists; its rail is its index modulo the rails, or 0 if the node advertises fewer; the group has that rail's endpoint and the rkey of its first request's node; requests keep their order and groups ascend |
| `RailGroups.GroupsSpread` | cpp/src/transfer_engine.cpp:155-177 | the same, for any groups that list every route under its pool |
| `RailGroups.GroupsMakeDisciplinedBatch` | cpp/src/transfer_engine.cpp:189-240 | the batch built from those groups is disciplined and no request sits in two groups |
| `RailGroups.GroupRkeysRightIff` | cpp/src/transfer_engine.cpp:147-177 | every request is posted with its own node's rkey exactly when the tables never pair one endpoint with two rkeys |
| `RailGroups.RkeysMayDisagree` | cpp/src/transfer_engine.cpp:147-177 | two nodes sharing an endpoint with rkeys 1 and 2 break it |
| `Endpoint.RdmaEndpoint.Drain` | cpp/src/rdma_endpoint.cpp:170-212 | true exactly when count completions were reaped; a flag turns true exactly for a reaped success of that request; errors and the last status are those reaped; polling stops as soon as the count is reached |
| `Endpoint.RdmaEndpoint.Account` | cpp/src/rdma_endpoint.cpp:189-208 | flags and error counters after one poll are those of all completions so far |
| `Completions.DrainedIsClean` | cpp/src/transfer_engine.cpp:221-234 | a channel whose posts were all reaped has nothing in flight and nothing queued |
| `Completions.PostKeeps` | cpp/src/transfer_engine.cpp:198-216 | posting keeps all work on a channel accounted to the lease that posted it |
| `Completions.CompleteKeeps` | cpp/src/rdma_endpoint.cpp:180 | a completion arriving at any time, in any order, keeps the accounting |
| `Completions.PollKeeps` | cpp/src/rdma_endpoint.cpp:177-210 | polling marks successes of this batch only and loses none |
| `Completions.LockKeeps` | cpp/src/transfer_engine.cpp:219-240 | release after a full drain and discard after a timeout leave only clean channels in the free lists |
| `Completions.TraceKeeps` | cpp/src/transfer_engine.cpp:157-241 | the accounting holds after every interleaving of locks, posts, completions and polls |
| `Completions.BatchIsolation` | cpp/src/transfer_engine.cpp:157-241 | in every reachable state free channels carry no work, a flag is true only if that request of that batch succeeded, and a batch without a timeout ends with exactly its successes flagged |
| `Bytes.LittleEndianRoundTrip` | python/peercache/slotmap.py:41-47 | an unsigned field that fits its width is read back as written |
| `Bytes.BigEndianRoundTrip` | python/peercache/diskstore.py:142-145 | the same for the big-endian key length of a disk file |
| `SlotHeader.HeaderRoundTrip` | python/peercache/slotmap.py:68-83 | decoding an encoded header gives back the digest, the length and the sequence number |
| `SlotHeader.ZeroIsBlank` | python/peercache/slotmap.py:74-83 | zeroed memory decodes to an empty slot |
| `WayChoice.RemoteChoiceSpec` | python/peercache/slotmap.py:127-161 | own way first, else the first empty way, else the first way with the smallest number; the stamp is even and fresher than the smallest number by at most two |
| `WayChoice.LocalChoiceSpec` | python/peercache/slotmap.py:234-255 | own way first, else the first empty way, else the first way with the smallest number in the owner's table |
| `WayChoice.ChoosersAgree` | python/peercache/slotmap.py:127-255 | the two choosers take the same way when the table mirrors the headers |
| `WayChoice.StampFresherIff` | python/peercache/store.py:572-577 | for any bucket, the stamp is fresher than the chosen slot's exactly when the last way holding the key, if any, has a number below the stamp that follows the smallest |
| `WayChoice.EvenStampFresherIff` | python/peercache/store.py:572-577 | with even numbers that is when the chosen slot had the smallest number |
| `WayChoice.RefreshMayRepeatStamp` | python/peercache/store.py:572-577 | refreshing the newest page of a two-way bucket stamps it with the number it already had |
| `WayChoice.RunsStayLeveled` | python/peercache/slotmap.py:127-161 | after any run of remote writes to a fresh bucket all stamps are within one generation and no key is in two ways |
| `WayChoice.RoundRobinHolds` | python/peercache/slotmap.py:127-161 | distinct keys fill the ways round robin: whole rounds of `ways` entries with one stamp each, then the rest |
| `WayChoice.FifoReplacement` | python/peercache/slotmap.py:127-161 | after any run of distinct keys the bucket holds exactly the last `ways` of them, the j-th in way j mod `ways` |
| `SlotGeometry.BucketSpec` | python/peercache/slotmap.py:186-187 | a hash below the bucket count is its own bucket, and one whole round more changes nothing |
| `SlotGeometry.StrideHoldsSlot` | python/peercache/slotmap.py:168-181 | the stride is the header and payload rounded up to the next multiple of 64 |
| `SlotGeometry.SlotInside` | python/peercache/slotmap.py:172-193 | every slot lies inside its bucket and every bucket inside the region |
| `SlotGeometry.SlotsApart` | python/peercache/slotmap.py:172-193 | different slots never overlap |
| `SlotMemory.OtherSlotKept` | python/peercache/slotmap.py:257-280 | a store into one slot leaves every other slot's header and payload as they were |
| `SlotMemory.OwnSlotRead` | python/peercache/slotmap.py:257-291 | the stored slot reads back the header and the page |
| `SlotMemory.OddStoreRefines` | python/peercache/slotmap.py:264-271 | part of a page behind an odd stamp changes no key's meaning |
| `SlotMemory.PageStoreRefines` | python/peercache/slotmap.py:257-280 | a whole page behind an even stamp becomes that key's page and no other key's |
| `SlotWrites.HitIsLast` | python/peercache/slotmap.py:282-291 | a slot accepted for a key and length holds the last completed page of that key, whole |
| `SlotWrites.ProbeIffReadable` | python/peercache/slotmap.py:293-304 | the existence probe reports a length exactly when a read with that length would hit |
| `SlotWrites.WriteRefines` | python/peercache/slotmap.py:257-272 | a local or remote write, refused or not, keeps the region a lossy map of the completed pages |
| `SlotWrites.RunRefines` | python/peercache/slotmap.py:257-304 | so does any serialised run of local and remote writes |
| `SlotWrites.NeverADirtyHit` | python/peercache/slotmap.py:282-291 | after any run from blank memory a read misses or gives the bytes of that key's last completed write |
| `SlotWrites.WriteThenRead` | python/peercache/slotmap.py:257-291 | a completed write can be read at once, whole |
| `SlotWrites.EveryInstantRefines` | python/peercache/slotmap.py:257-272 | between any two stores of a local write the region still stands for the old map, and after the last one for the new |
| `SlotWrites.CleanSnapshots` | python/peercache/slotmap.py:86-124 | a snapshot taken at any instant of a write accepts only a whole page of the asked key, the last one completed by then |
| `SlotRegion.PickWayFromBucket` | python/peercache/slotmap.py:127-161 | the scanning loop over a bucket READ makes the specified remote choice |
| `SlotRegion.SnapshotShowsBucket` | python/peercache/store.py:501-516 | a READ of a bucket shows the same slots as the owner's memory |
| `SlotRegion.SlotStore.constructor` | python/peercache/slotmap.py:210-217 | the region starts with an empty sequence table |
| `SlotRegion.SlotStore.PickWay` | python/peercache/slotmap.py:234-255 | the owner's scan, with its early return, makes the specified local choice |
| `SlotRegion.SlotStore.WriteLocal` | python/peercache/slotmap.py:257-272 | odd header, payload, even header and table update add up to the specified write, or to nothing when the page is too big or a field does not fit |
| `SlotLocalRuns.LocalWriteMirrors` | python/peercache/slotmap.py:257-272 | from a table that has every header's number, every local write, completed or refused, leaves such a table |
| `SlotLocalRuns.NewKeyWritten` | python/peercache/slotmap.py:234-272 | a local write of a new key does to its bucket what a remote write does |
| `SlotLocalRuns.LocalRunView` | python/peercache/slotmap.py:234-272 | after any run of local writes, with other buckets and refused writes mixed in, a bucket is what its completed entries make of it in order |
| `SlotLocalRuns.LocalFifo` | python/peercache/slotmap.py:234-272 | after any run of local writes on a blank region, no key completed twice in the bucket, it holds exactly the last `ways` completed pages, the j-th in way j mod `ways` |
| `SlotLocalRuns.LastOnesReadable` | python/peercache/slotmap.py:257-291 | and each of those can be read back, with the bytes last completed for its key |
| `SlotRegion.SlotStore.ReadLocal` | python/peercache/slotmap.py:282-291 | hits exactly when some way matches key and length, and then copies the key's last completed page |
| `SlotRegion.SlotStore.ExistsLocal` | python/peercache/slotmap.py:293-304 | the stored length of the key's page, or none |
| `SlotBatch.Fold` | python/peercache/store.py:536-542 | folding replaces exactly the claimed headers of the snapshot |
| `SlotBatch.ClaimStaysInStep` | python/peercache/store.py:530-546 | stale snapshots plus claims keep showing the headers the memory has once the queued WRITEs have landed |
| `SlotBatch.FailedReadIsBlanked` | python/peercache/store.py:536 | a failed READ shows the bucket of an empty region |
| `SlotBatch.PublishRemote` | python/peercache/store.py:521-557 | whichever READs are served, the batch issues exactly the specified WRITEs, or raises and issues none exactly when one of their headers is unpackable |
| `SlotBatch.PickFolded` | python/peercache/store.py:535-543 | a served READ picks as the up-to-date memory would; a failed one as a memory holding only this batch's pages would |
| `SlotBatch.QueueOne` | python/peercache/store.py:534-557 | one turn of the loop queues the specified WRITE and keeps snapshots and claims up to date |
| `SlotBatch.BatchLands` | python/peercache/store.py:489-570 | the WRITEs, landing in order, leave byte for byte the memory of the specified run |
| `SlotBatch.ServedIsOneByOne` | python/peercache/store.py:489-570 | with every READ served the run is that of writing the keys one at a time, and raises exactly when that writer meets an unpackable header |
| `SlotBatch.BatchEqualsOneByOne` | python/peercache/store.py:489-570 | so the WRITEs of a fully served batch leave byte for byte the memory that writing the keys one at a time leaves |
| `SlotFailedRead.DuplicatesIff` | python/peercache/store.py:536-546 | an item leaves its key in one way exactly when no way but the one it takes held the key; one with a served READ always does |
| `SlotFailedRead.FailedReadDuplicatesIff` | python/peercache/store.py:536-546 | the first item of a batch in its bucket takes way 0 with stamp 2 when its READ fails, and its key ends in one way exactly when ways 1 and up did not hold it before |
| `SlotFailedRead.FailedReadRepeatsKey` | python/peercache/store.py:536-546 | a page published second into an empty bucket and again behind a failed READ ends in ways 0 and 1 |
| `HashRing.RingIsUnique` | python/peercache/hashring.py:35-63 | the point map depends on the membership alone |
| `HashRing.AddedKeeps` | python/peercache/hashring.py:35-42 | adding a node that collides with no member gives the ring of the larger membership |
| `HashRing.RemovedKeeps` | python/peercache/hashring.py:44-50 | removing a member gives the ring of the smaller membership |
| `HashRing.AddRemoveRestoresIff` | python/peercache/hashring.py:35-50 | adding a node to any ring and removing it again restores the ring exactly when it shares no point with a member |
| `HashRing.SortedIsUnique` | python/peercache/hashring.py:64-65 | the sorted key list is determined by the points |
| `HashRing.BisectSpec` | python/peercache/hashring.py:67-74 | the search splits the points at or below the hash from those above it |
| `HashRing.ClockwiseSpec` | python/peercache/hashring.py:67-93 | the walk meets every point once: those above the hash in ascending order, then the rest in ascending order |
| `HashRing.WalkSpec` | python/peercache/hashring.py:76-93 | the i-th node of a walk is met at a point whose predecessors all belong to nodes met before it |
| `HashRing.WalkAfterRemoval` | python/peercache/hashring.py:76-93 | for every hash, the clockwise walk after a removal is the walk before it with that node deleted |
| `RingObject.WalkMeetsAll` | python/peercache/hashring.py:76-93 | every walk meets every member once and nobody else |
| `RingObject.LeftWalk` | python/peercache/hashring.py:44-93 | a departure deletes the node from every key's walk and changes nothing else |
| `RingObject.OnlyItsKeysMove` | python/peercache/hashring.py:67-93 | only the departed node's keys get a new primary, namely their second replica |
| `RingObject.MembershipDeterminesRing` | python/peercache/hashring.py:35-65 | two rings of the same members are equal, whatever their histories |
| `RingObject.ConsistentHashRing.constructor` | python/peercache/hashring.py:19-24 | a new ring is the ring of no members |
| `RingObject.ConsistentHashRing.Rebuild` | python/peercache/hashring.py:64-65 | the key list becomes the points in ascending order, each once |
| `RingObject.ConsistentHashRing.AddNode` | python/peercache/hashring.py:35-42 | the ring of the membership plus this node, with every one of its virtual nodes leading to it; a known node changes nothing |
| `RingObject.ConsistentHashRing.RemoveNode` | python/peercache/hashring.py:44-50 | the ring of the membership without this node; an unknown node changes nothing |
| `RingObject.ConsistentHashRing.SetNodes` | python/peercache/hashring.py:52-62 | the ring of exactly the given membership |
| `RingObject.ConsistentHashRing.GetNode` | python/peercache/hashring.py:67-74 | the owner of the point that a clockwise walk from the key meets before every other, or none on an empty ring |
| `RingObject.ConsistentHashRing.GetNodes` | python/peercache/hashring.py:76-93 | the first n distinct nodes of the key's walk, none for n of zero or less |
| `RingObject.Collect` | python/peercache/hashring.py:83-93 | the collecting loop gives the first distinct nodes of the walk, as many as wanted or all of them |
| `Directory.PutKeeps` | python/peercache/directory.py:101-115 | a put leaves every live shard holding only current values of keys it owns; a live shard holds a current key exactly when it was an owner at the key's last put |
| `Directory.DeleteKeeps` | python/peercache/directory.py:160-172 | a delete keeps that and leaves no live copy |
| `Directory.CrashKeeps` | python/peercache/directory.py:37-58 | losing a shard keeps it |
| `Directory.ShrinkKeeps` | python/peercache/directory.py:81-89 | taking a crashed node off the ring keeps it, with one more loss counted per key |
| `Directory.RunKeeps` | python/peercache/directory.py:85-172 | it holds after every run of put, delete, crash and shrink |
| `Directory.FlatIsLastSaid` | python/peercache/directory.py:101-172 | the current value of a key after any run is the one last put, unless deleted since |
| `Directory.NeverStale` | python/peercache/directory.py:117-144 | after any run, and in whatever batch, a lookup gives the value last put and not deleted since, or nothing |
| `Directory.SurvivesLosses` | python/peercache/directory.py:85-144 | with the primary up and fewer nodes lost than replicas since the key's last put, a lookup gives its current value with no re-publish |
| `Directory.GroupFallsBack` | python/peercache/directory.py:126-144 | any key of a group is found when the node answering for the group is near enough on the key's own walk, counting the departures since its last put |
| `Directory.LeaderFallsBack` | python/peercache/directory.py:126-144 | a key that leads its group is found at its first live replica while that one was an owner at its last put |
| `Directory.FoundIffResponderOwned` | python/peercache/directory.py:126-144 | after any losses, a current key is found exactly when the node answering for its group was among its owners at its last put |
| `DirectoryFallback.SecondKeyMisses` | python/peercache/directory.py:126-144 | with the common primary down and different second replicas, the second of two keys misses in one call while its own replica holds it |
| `DirectoryFallback.FallbackMisses` | python/peercache/directory.py:126-144 | a three-node ring, a put and a crash that end that way |
| `DirectoryObjects.DirectoryServer.OnPut` | python/peercache/directory.py:37-41 | the shard gains exactly the entries |
| `DirectoryObjects.DirectoryServer.OnGet` | python/peercache/directory.py:43-46 | the stored value or nothing, in request order |
| `DirectoryObjects.DirectoryServer.OnDelete` | python/peercache/directory.py:53-59 | the shard loses exactly the keys |
| `DirectoryObjects.DirectoryClient.Owners` | python/peercache/directory.py:85-89 | the first `replicas` nodes of the key's walk |
| `DirectoryObjects.DirectoryClient.Split` | python/peercache/directory.py:103-107 | each node's dictionary is exactly its share of the entries |
| `DirectoryObjects.DirectoryClient.Put` | python/peercache/directory.py:101-115 | every reachable owner's shard changes as the specified put says, and no other shard changes |
| `DirectoryObjects.DirectoryClient.Delete` | python/peercache/directory.py:160-172 | every reachable owner's shard loses its keys, and no other shard changes |
| `DirectoryObjects.DirectoryClient.GroupByOwner` | python/peercache/directory.py:91-99 | keys by primary owner in request order, none for keys without an owner |
| `DirectoryObjects.DirectoryClient.GetFromOwner` | python/peercache/directory.py:126-144 | the answers of the first candidate that is up, or nothing |
| `DirectoryObjects.DirectoryClient.Get` | python/peercache/directory.py:117-124 | the specified lookup for each key, in input order |
| `PoolValue.EvictForPrefix` | python/peercache/pool.py:99-107 | eviction takes a prefix of the recency order and leaves the rest as it was; it fails only after evicting everything |
| `PoolValue.EvictForStops` | python/peercache/pool.py:99-107 | eviction stops at the first page of the wanted length and not before |
| `PoolValue.EvictForFinds` | python/peercache/pool.py:99-107 | eviction succeeds exactly when some page has the wanted length, and hands out that page's block |
| `PoolValue.ReserveEvictsPrefix` | python/peercache/pool.py:85-157 | nothing is evicted for a resident key, or while a free block or room to carve is left |
| `PoolValue.ReserveRefusedIff` | python/peercache/pool.py:85-157 | for any lengths, a page is refused exactly when it is not resident and is larger than the pool, or no free block, no room to carve and no page of its length is left |
| `PoolValue.ReserveEvictsExactly` | python/peercache/pool.py:85-157 | nothing is evicted unless a new page no larger than the pool meets a full one; then exactly the front of the order up to the first page of its length, or all of it if there is none |
| `PoolValue.ReserveBlock` | python/peercache/pool.py:85-157 | the block is the resident page's own, else the free one given back last, else the next to carve, else that of the last page evicted |
| `PoolTiling.LiveApart` | python/peercache/pool.py:85-133 | a live page lies within the carved space and overlaps no other live page, no free block and no block being handed out |
| `PoolTiling.NothingLeaks` | python/peercache/pool.py:85-107 | every byte below the bump pointer is in a live page or a free block |
| `PoolTiling.ReserveKeeps` | python/peercache/pool.py:109-157 | publish and reserve keep live and free blocks tiling the carved space, with used the sum of the live lengths |
| `PoolTiling.LookedKeeps` | python/peercache/pool.py:75-83 | so does a lookup |
| `PoolTiling.RemovedKeeps` | python/peercache/pool.py:167-173 | so does a removal |
| `PoolTiling.EntriesNeverMove` | python/peercache/pool.py:75-173 | no operation moves a page |
| `PoolTiling.AllocateApart` | python/peercache/pool.py:85-107 | a fresh block lies inside the memory and touches no page that stays |
| `PoolTiling.PublishIsStable` | python/peercache/pool.py:109-133 | a publish overwrites no page whose key stays resident and lays its own down whole |
| `PoolTiling.RunsStayTiled` | python/peercache/pool.py:75-173 | the tiling holds after every run from an empty pool |
| `PoolLru.ReserveIsLruAdd` | python/peercache/pool.py:109-157 | with one page length, publish is the LRU insert: same order, same evictions, refused only when no page fits |
| `PoolLru.LookedIsLruTouch` | python/peercache/pool.py:75-83 | a lookup is the LRU touch |
| `PoolLru.RemovedIsLruRemove` | python/peercache/pool.py:167-173 | a removal is the LRU removal |
| `PoolLru.LookedOrder` | python/peercache/pool.py:75-83 | for any lengths, a lookup moves its page to the end of the order and no other |
| `PoolLru.RemovedOrder` | python/peercache/pool.py:167-173 | for any lengths, a removal takes its page out of the order and moves no other |
| `PoolLru.ReserveOrder` | python/peercache/pool.py:109-157 | for any lengths, a resident page moves to the end and a new page comes last behind those not evicted |
| `PoolLru.PoolRefinesLru` | python/peercache/pool.py:75-173 | over any run the pool holds the keys of an LRU cache of floor(capacity / length) entries, in its order, and has evicted the same keys in the same order |
| `PoolBounds.ReserveBounded` | python/peercache/pool.py:85-157 | every block the pool knows stays within its memory and no key is entered twice |
| `PoolObject.PublishedPool.constructor` | python/peercache/pool.py:25-44 | a new pool is empty |
| `PoolObject.PublishedPool.AddressOf` | python/peercache/pool.py:75-83 | the page's address and length, touching it; none if it is not resident |
| `PoolObject.PublishedPool.Allocate` | python/peercache/pool.py:85-107 | free list, then bump pointer, then the eviction loop, as specified |
| `PoolObject.PublishedPool.EvictUntil` | python/peercache/pool.py:99-107 | the eviction loop is the specified eviction, with the evicted keys in order |
| `PoolObject.PublishedPool.Publish` | python/peercache/pool.py:109-133 | the specified reservation, and the memory with the page copied into its block |
| `PoolObject.PublishedPool.Reserve` | python/peercache/pool.py:135-157 | the specified reservation, memory untouched |
| `PoolObject.PublishedPool.Remove` | python/peercache/pool.py:167-173 | the page's block goes to the free list of its length |
| `P2P.PublishKeepsPool` | python/peercache/store.py:1319-1339 | after a pool publish every pooled page still holds its key's bytes |
| `P2P.PublishCoherent` | python/peercache/store.py:802-830 | whatever a publish evicts is disclaimed in the directory before it returns |
| `P2P.PublishBatchCoherent` | python/peercache/store.py:1304-1361 | a publish batch leaves every resident claim of this node true, even when it evicts its own earlier pages |
| `P2PPublish.PublishedIsClaimed` | python/peercache/store.py:1304-1361 | a key of the batch that the directory did not know and that is pooled afterwards is claimed as resident here |
| `P2PPublish.TakenIsAdvertised` | python/peercache/store.py:1304-1361 | every page the pool took has its length noted and, with a disk, its disk copy; its entry gives its address while it is pooled and is non-resident with its length if it was pushed out |
| `P2PPublish.UntakenIsKept` | python/peercache/store.py:1304-1361 | every other key keeps its entry, its noted length and its disk copy; if its page left the pool the entry is dropped, or with a disk and a known length turned non-resident |
| `P2PPublish.TookIff` | python/peercache/store.py:1319-1339 | the pool took a page exactly when some turn of an unknown key found it resident or found room |
| `P2PPublish.KnownIsNotTaken` | python/peercache/store.py:1311-1322 | a key the directory knew, or not in the batch, is not published |
| `P2PEntries.BatchOrder` | python/peercache/store.py:1304-1361 | the batch leaves the pool in the order of publishing in turn, with the pages taken moved to the end in the order first taken |
| `P2PPromote.PromoteCoherentIff` | python/peercache/store.py:887-921 | with one page length, a promote of any keys leaves the directory true exactly when an LRU cache of that many slots, run on the keys alone, keeps what it inserts |
| `P2PPromote.FreshPromoteIff` | python/peercache/store.py:887-921 | for keys on disk and not pooled that is when the distinct ones fit into the pool together, or no page fits at all |
| `P2PPromote.FewPromotesCoherent` | python/peercache/store.py:887-921 | with one page length, no more distinct keys than slots is always safe |
| `P2PPromote.RoomyPromotesCoherent` | python/peercache/store.py:887-921 | with any lengths, pages that fit into the space not yet carved are always safe |
| `P2PPromote.SafePromoteCoherent` | python/peercache/store.py:887-921 | a guard on the state before the call under which a promote keeps every claim true |
| `P2PPromote.SinglePromoteCoherent` | python/peercache/store.py:887-921 | a single-key promote always leaves it true |
| `P2PPromote.DoublePromoteLies` | python/peercache/store.py:887-921 | two promotes into a one-page pool leave a false claim |
| `P2PEntries.LoadedIsAdvertised` | python/peercache/store.py:887-921 | every page loaded from disk is put as resident with its length, and at its address while it is pooled |
| `P2PEntries.UnloadedIsKept` | python/peercache/store.py:887-921 | a promote leaves every other key's entry, length and disk copy alone, unless its page left the pool |
| `P2PEntries.RepublishPuts` | python/peercache/store.py:939-968 | pooled pages at their addresses, with a disk every other noted key as non-resident with its length, and no other entry |
| `P2PRuns.RepublishClaims` | python/peercache/store.py:939-968 | re-publishing claims exactly the pooled pages, and truthfully |
| `P2PRuns.RepublishCoherent` | python/peercache/store.py:939-968 | while every pooled page has a noted length, re-publishing keeps the whole invariant |
| `P2PRuns.DiskEvictCoherent` | python/peercache/store.py:832-842 | a page leaving the disk takes its claim and its length along and keeps every claim true |
| `P2PEntries.DiskEvictForgets` | python/peercache/store.py:832-842 | the evicted keys leave the directory, the noted lengths and the disk; pooled pages and other keys stay |
| `P2PRuns.PushingOutCoherentIff` | python/peercache/store.py:802-842 | a publish keeps the directory true exactly when it pushes out no claimed page whose length is forgotten |
| `P2PRuns.ForgottenLengthLies` | python/peercache/store.py:832-968 | a page evicted from disk while pooled, re-published and pushed out leaves a false claim |
| `P2PRuns.ClearCoherent` | python/peercache/store.py:1835-1849 | clear empties the pool and leaves no resident claim of this node |
| `P2PEntries.ClearForgets` | python/peercache/store.py:1835-1849 | every noted or pooled key leaves the pool, the directory, the lengths and the disk; no other key is touched |
| `P2PRuns.RunsStayCoherent` | python/peercache/store.py:802-968 | every run of publishes, guarded promotes of any number of keys, re-publishes with known lengths, disk evictions, clears and other nodes' directory changes keeps it |
| `P2PRuns.StartCoherent` | python/peercache/store.py:788-800 | a node starts coherent |
| `P2PObject.PeerStore.OnPoolEvict` | python/peercache/store.py:802-830 | without a disk the evicted keys leave the directory; with one, those of known length become non-resident |
| `P2PObject.PeerStore.OnDiskEvict` | python/peercache/store.py:832-842 | the evicted keys lose their noted lengths and leave the directory |
| `P2PObject.PeerStore.StageAll` | python/peercache/store.py:1319-1339 | the publishing loop is the specified one; a key is reported exactly when it was known or the pool took it |
| `P2PObject.PeerStore.Reconcile` | python/peercache/store.py:1343-1359 | each staged entry gets its page's present address or becomes non-resident, and only then reaches the directory |
| `P2PObject.PeerStore.PublishP2P` | python/peercache/store.py:1304-1361 | the whole publish is the specified batch, with the results as above |
| `P2PObject.PeerStore.Promote` | python/peercache/store.py:892-914 | pool hit, disk load or miss; the answer is where the page is by then |
| `P2PObject.PeerStore.EnsureResident` | python/peercache/store.py:887-921 | the specified promote call, each answer being where that page was when its turn ended |
| `P2PObject.PeerStore.Republish` | python/peercache/store.py:939-968 | pooled pages as resident, disk-only pages as non-resident, everything else untouched |
| `P2PObject.PeerStore.Clear` | python/peercache/store.py:1835-1849 | exactly the known and pooled keys are forgotten everywhere |
| `DiskTier.TrimSplits` | python/peercache/diskstore.py:155-162 | enforcing the cap only drops from the front and never drops the newest page |
| `DiskTier.IndexKeepsAccounts` | python/peercache/diskstore.py:148-162 | a write leaves every key once, an exact total, the new page newest, and the total within the cap when the page is |
| `DiskTier.TrimCuts` | python/peercache/diskstore.py:155-162 | the cap drops exactly the first n pages: each while the pages from it onwards exceed the cap, stopping as soon as they do not or one is left |
| `DiskTier.CutIsUnique` | python/peercache/diskstore.py:155-162 | there is only one such n |
| `DiskTier.IndexStepCuts` | python/peercache/diskstore.py:148-162 | a write drops exactly those pages and their files |
| `DiskTier.FittingWriteKeepsAll` | python/peercache/diskstore.py:148-162 | a page that fits below the cap is appended and drops no page and no file |
| `DiskTier.StepKeepsWay` | python/peercache/diskstore.py:113-135 | items between put and index are for distinct keys, none indexed, none over the cap, all in flight |
| `DiskTier.StepKeepsFlight` | python/peercache/diskstore.py:113-135 | nothing is in flight but those items and the key being finished, also after a failed write |
| `DiskTier.StepKeepsAccounts` | python/peercache/diskstore.py:137-203 | the running total is the sum of the indexed lengths after every step, and a completed write brings it within the cap |
| `DiskTier.CapHolds` | python/peercache/diskstore.py:113-203 | all of it holds in every interleaving of callers and the writer thread |
| `DiskOrder.TouchOrder` | python/peercache/diskstore.py:172-187 | a get makes its page the most recent one and moves no other |
| `DiskOrder.PopOrder` | python/peercache/diskstore.py:193-203 | a removal takes out its page and moves no other |
| `DiskOrder.DrainInOrder` | python/peercache/diskstore.py:123-162 | while pages fit below the cap, the writer indexes them in the order they were queued, behind all earlier ones, and drops nothing |
| `DiskFiles.FileRoundTrip` | python/peercache/diskstore.py:137-187 | a page file gives back its key and length to the scan and its bytes to get |
| `DiskFiles.StepKeepsFiles` | python/peercache/diskstore.py:137-203 | an indexed page has its file, of the indexed length, and a page file is there only for an indexed page, the page being written or a page being removed |
| `DiskFiles.GetGivesLastPut` | python/peercache/diskstore.py:172-187 | after any run without an overlap, get of an indexed key gives exactly the bytes of the last accepted put of that key |
| `DiskFiles.WriteServesIff` | python/peercache/diskstore.py:137-203 | after a write, every indexed page reads back as last laid down in every continuation, exactly when no removal of the same page is still due |
| `DiskFiles.OverlapLosesPage` | python/peercache/diskstore.py:137-203 | from any state with such an overlap, indexing and then unlinking leaves the key indexed with no file |
| `DiskFiles.OverlapHappens` | python/peercache/diskstore.py:113-203 | some run from an empty store ends that way |
| `DiskRestart.RestartFinds` | python/peercache/diskstore.py:84-101 | killed at any instant, the scan finds every indexed page with its length, and beyond those only a page being written or removed |
| `DiskRestart.ScanOrder` | python/peercache/diskstore.py:84-101 | the scan lists the pages in the order of the directory listing |
| `DiskRestart.RestartKeeps` | python/peercache/diskstore.py:84-101 | the reopened store satisfies every invariant again |
| `DiskRestart.QuietRestart` | python/peercache/diskstore.py:84-101 | between writes and removals a restart gives the same pages, the same total and the same bytes |
| `DiskRestart.RestartGivesLastLaid` | python/peercache/diskstore.py:84-187 | killed at any instant of any run without an overlap and reopened, every page the scan indexes reads back whole, as the page last laid down for its key |
| `DiskObject.DiskStore.constructor` | python/peercache/diskstore.py:37-61 | a store on an empty directory is empty |
| `DiskObject.DiskStore.Put` | python/peercache/diskstore.py:113-121 | the item joins the end of the queue and the flight exactly when running, within the cap, not indexed and not in flight; otherwise nothing changes |
| `DiskObject.DiskStore.EnforceCap` | python/peercache/diskstore.py:155-162 | the eviction loop drops the specified entries and their files and reports their keys in order |
| `DiskObject.DiskStore.Write` | python/peercache/diskstore.py:137-169 | file first, then the index section, as the two specified steps; it reports exactly the keys the cap pushed out, in order |
| `DiskObject.DiskStore.RunOnce` | python/peercache/diskstore.py:123-135 | one turn of the writer thread is dequeue, write, index and finish; a failed write only takes the key off the flight |
| `DiskObject.DiskStore.Get` | python/peercache/diskstore.py:172-187 | a miss changes nothing; a hit touches the entry and reads at most its length from its file |
| `DiskObject.DiskStore.Remove` | python/peercache/diskstore.py:193-203 | pops the entry, its length and its file; an unknown key changes nothing |
| `DiskObject.DiskStore.RebuildFromScan` | python/peercache/diskstore.py:84-101 | the scan loop gives the specified reopened store |
| `LocationCache.DirAfterSpec` | python/peercache/store.py:1363-1389 | a lookup caches exactly the resident answers to its misses and leaves every other entry alone |
| `LocationCache.ProbedPrimed` | python/peercache/store.py:1398-1408 | a probe primes exactly the resident locations of its hit prefix; over the cap it drops exactly the expired primes, otherwise none |
| `LocationCache.ForgottenIsAsked` | python/peercache/store.py:1391-1396 | an invalidated key is answered by the directory at the next lookup, and no other key is affected |
| `LocationCache.TakesOnce` | python/peercache/store.py:1410-1433 | however often a fetch names a key, it uses a live prime of it exactly once |
| `LocationCache.BoundedStaleness` | python/peercache/store.py:1363-1433 | in every run a fetch is given the directory's answer of that moment, or a resident location that was its answer less than the two times to live ago |
| `LocationCache.EachPrimeUsedOnce` | python/peercache/store.py:1398-1433 | over any run the primes of a key that fetches use are no more than the primes made |
| `LocationCache.StalenessReached` | python/peercache/store.py:199-213 | with the read cache on, every age below that bound is reached by some run |
| `LocationCache.HandoffBoundIff` | python/peercache/store.py:199-213 | "never older than one hand-off" holds for all runs exactly when the read cache is off |
| `LocationCacheObject.LocationCaches.constructor` | python/peercache/store.py:196-212 | both caches start empty, with a one-second prime and a cap of 65536 |
| `LocationCacheObject.LocationCaches.DirGet` | python/peercache/store.py:1363-1389 | each answer in its place: the cached location while live, else the directory's, and the specified read cache afterwards |
| `LocationCacheObject.LocationCaches.Invalidate` | python/peercache/store.py:1391-1396 | exactly the named keys leave the read cache |
| `LocationCacheObject.LocationCaches.Prime` | python/peercache/store.py:1398-1408 | sweep over the cap, then the specified primes |
| `LocationCacheObject.LocationCaches.TakePrimed` | python/peercache/store.py:1410-1433 | every named prime is gone, live ones are used once, the rest go through the lookup |
| `LocationCacheObject.LocationCaches.Probe` | python/peercache/store.py:1111-1138 | lookup of all keys, then priming of the hit prefix |

## Left out

- Verbs, queue-pair set-up, TCP bootstrap and the QpInfo wire format: a handshake is one step with two outcomes.
- Memory ordering of RDMA against CPU stores: a slot write is a sequence of stores seen in order.
- Exceptions inside `connect_new`, which would leak a reserved slot.
- Local key lookup and lazy registration: a request that cannot be posted is one that is never posted.
- blake2b and sha1: function parameters, with collision-freedom as a premise where a law needs it.
- Slot-map `_publish_slotmap`, `_fetch_slotmap` and `_exists_slotmap` routing, and the per-key results of the final WRITE batch.
- Concurrent remote writers to one bucket: remote writes are serialised with respect to one another.
- Directory `exists`, RPC transport and server plumbing, discovery heartbeats.
- Ring growth in directory runs: a joining node has no entries until they are re-published.
- The replicated directory inside P2P: there the directory is one flat map, and a known key is a key of that map.
- Concurrency between pool and directory operations of one node: they run one after another.
- `update_directory=False` publishes, the batching of re-published entries by 512, and `_on_data_promote`.
- P2PRuns.RunsStayCoherent: failed directory RPCs are not events.
- P2PPromote.PromoteCoherentIff: needs one page length; for mixed lengths `P2PPromote.RoomyPromotesCoherent` gives one direction, since which blocks are evicted then depends on the order of all lengths.
- The disk tier's `index.json` sidecar and its flush counter: a restart is the scan of the page files.
- DiskFiles.GetGivesLastPut: the lookup and the read of a get happen at one instant; a removal between them is not modelled.
- UTF-8 decoding of keys in the disk scan: keys are byte strings.
- LocationCache.BoundedStaleness: each operation happens at one time; the gap inside a probe between lookup and priming is not modelled.
- How many probed keys are hits (`_hit_prefix`) and the raw or suffixed keyspace probe: the primed prefix may be any length.
- Pool `snapshot` as a method of its own, centralised and hybrid storage servers, metrics, configuration, benchmarks and the SGLang interface.
