# A model of pylogstream in Dafny

pylogstream is a replicated log: producers publish messages to topics, brokers store them in segment files and
replicate them, a controller places replicas on a consistent hash ring and elects leaders. This project models the parts
of it that carry its guarantees and proves those guarantees for all inputs and all runs.

- **Segmented log** (`paths.dfy`, `segments.dfy`, `log.dfy`, `registry.dfy`, `storage.dfy`, `logwriter.dfy`, `logreader.dfy`, `consumer.dfy`). One
  topic is one flat list of framed records. `LogState.Refines` says how the registry's segments, the files and the cached
  file entries represent it; every write, rollover, read, reload and eviction keeps that relation. On top stands the
  consumer that follows a topic and misses nothing.
- **Entry cache** (`lru.dfy`, `cacheprotocol.dfy`). The cache once as a sequential LRU map, and once as a system of
  interleaved steps with reference counts, a cleanup queue, the cleanup thread and both kinds of eviction.
- **Hash ring and metastore** (`ring.dfy`, `metastore.dfy`). The ring's map and sorted key list, replica placement, refill
  after a broker leaves, election, versions.
- **Replication** (`leader.dfy`, `replicamanager.dfy`). High watermark, in-sync set, and a broker that tracks the
  controller's metadata.
- **Wire format** (`packets.dfy`, `text.dfy`, `decimal.dfy`, `bytes.dfy`, `codec.dfy`, `responses.dfy`, `metalist.dfy`,
  `publish.dfy`). Which packets survive encoding and parsing, exactly, and the path of a message from producer to consumer.
- **Batching** (`batching.dfy`). The collector in front of the log and the workers that write batches concurrently.

Code that changes state is modelled as classes whose methods are tied to a specification function of the old state; the
theorems are about those functions and about runs of them. Times are integers, the part of a decision that depends on the
clock is an argument, the hash and the check value are function parameters.

Five places where the code does less than its callers may hope, with the exact condition:

- Cache keys are the topic followed by the base offset. They identify a segment if and only if no topic name continues
  another by a numeral without a leading zero (`Segments.KeysUniqueIff`, with an example of a clash). The theorems about
  several topics assume this of the topic names; topics whose names do not end in a digit always satisfy it.
- Topic names become path components as they are. Two topics whose names lead to one directory, such as "a" and "a/",
  write into one file. The segment files of a set of topics are different files that can exist side by side if and only
  if the resolved directories differ and no way to one passes a place where another may have a segment file
  (`Paths.FilesIndependentIff`; `FlatLog.SharedDirectoryConfuses` shows that the log cannot do without). The theorems about
  several topics assume this too; names that are one ordinary component always satisfy it.
- An exception in `Entry.load` leaves a reference that nobody gives back, so whoever waits to release that entry waits
  forever. Otherwise nobody does (`CacheProtocol.RunFinishesIff`).
- A ring position that two virtual nodes share is lost when either broker leaves (`Ring.CollisionLosesMember`). The ring
  represents its members if and only if no positions collide (`Ring.AddRepresentsIff`), and adding then removing a broker
  restores the ring if and only if its positions are distinct and were free (`Ring.AddRemoveRestoresIff`).
- Text fields are not escaped. The round-trip theorems state exactly which packets survive; for instance an empty ISR
  list does not.

`dafny verify dfyconfig.toml` checks everything.

## Model

| member | source | states |
|---|---|---|
| `Consuming.Consumer.Consume` | broker/src/pylogstream_broker/log/log_reader.py:57-82 | a consumer that has received everything up to a record boundary, follows any run of appends (to any topics whose names neither share cache keys nor lead to the same or clashing files, with any rollover decisions), polls of any size, cache evictions and turns of the cleanup thread, and then polls until the latest offset, ends, and has received every record stored before and during the run once and in order |
| `Consuming.Consumer.CatchUp` | broker/src/pylogstream_broker/log/log_reader.py:57-82 | polling with arbitrary sizes until the latest offset terminates, and splitting the received bytes gives exactly the records of the topic |
| `Consuming.Consumer.Follow` | broker/src/pylogstream_broker/log/log_writer.py:25-51 | for topic names with distinct cache keys and files: after any interleaving of appends, polls, evictions and cleanups the topic holds what it held before followed by what was appended to it, across segments and file reloads |
| `Consuming.Consumer.Poll` | broker/src/pylogstream_broker/log/log_reader.py:57-68 | one poll keeps the consumer at a record boundary and makes progress whenever there is something to read |
| `Reading.LogReader.ReadBytes` | broker/src/pylogstream_broker/log/log_reader.py:57-68 | fails exactly when the topic is unknown or the offset is at or past the end; otherwise returns whole records of one segment from the offset on, as many as fit and at least one, with the next boundary and the latest offset; it leaves no handle behind |
| `Reading.LogReader.CalcReadSize` | broker/src/pylogstream_broker/log/log_reader.py:70-82 | the scan ends, reads no header beyond the committed records, and its result is the longest run of whole records within the size, or exactly the first record |
| `Reading.LongestRunIsMaximal` | broker/src/pylogstream_broker/log/log_reader.py:70-82 | no longer run of whole records fits, so a batch never stops early |
| `Reading.LongestRunUnique` | broker/src/pylogstream_broker/log/log_reader.py:70-82 | so the size of the batch is determined |
| `Reading.LogReader.LookUp` | broker/src/pylogstream_broker/log/log_reader.py:57-61 | the segment search answers an offset exactly as the flat log says: unknown topic, past the end, at the end, or the segment that contains it |
| `Reading.OffsetListed` | broker/src/pylogstream_broker/log/segment_registry.py:93-127 | exactly the offsets below the end of the flat log lie in a segment |
| `Reading.Locate` | broker/src/pylogstream_broker/log/log_reader.py:57-62 | a record boundary of the flat log is a record boundary of its segment, at the corresponding place |
| `Writing.LogWriter.Write` | broker/src/pylogstream_broker/log/log_writer.py:25-51 | for topic names with distinct cache keys and files: appends one record to the flat log of its topic and returns the old length, leaves every other topic alone, and refuses exactly a record whose length does not fit the prefix; segments, files and cached entries keep representing the log, and no handle is left |
| `Writing.LogWriter.WriteBatch` | broker/src/pylogstream_broker/log/log_writer.py:53-59 | under the same condition on the topic names, appends the records in order; each offset is where its record stands |
| `Writing.LogWriter.Rollover` | broker/src/pylogstream_broker/log/log_writer.py:61-72 | seals the active segment and opens an empty one at its end; the overlap check of the registry never trips |
| `Writing.LogWriter.StoreRecord` | broker/src/pylogstream_broker/log/log_writer.py:47-50 | the frame lands behind the committed bytes of the active segment and the registry advances by the same length; the representation of all topics, which lie in different files, is kept |
| `Writing.LogWriter.WriteFrame` | broker/src/pylogstream_broker/log/log_writer.py:48-49 | through eviction, reload and growth of the file buffer, the segment file holds its records followed by the new frame |
| `Writing.LogView.AcquireSegment` | broker/src/pylogstream_broker/log/segment_memory.py:225-243 | acquiring a listed segment finds the entry of that segment and no other, whatever the cache evicts or reloads, and changes nothing of the log |
| `Writing.LogView.Evict` | broker/src/pylogstream_broker/log/segment_memory.py:280-295 | evicting changes nothing of the log; between operations no handle is left, so what is cached is evicted |
| `Writing.LogView.Cleanup` | broker/src/pylogstream_broker/log/segment_memory.py:297-303 | a turn of the cleanup thread changes nothing of the log; between operations no handle is left, so the oldest queued entry goes |
| `FlatLog.AppendedIsFlatAppend` | broker/src/pylogstream_broker/log/log_writer.py:43-50 | with either rollover decision the segments concatenate to the old records followed by the new one |
| `FlatLog.AppendedKeepsSizes` | broker/src/pylogstream_broker/log/segment_policy.py:14-16 | a segment exceeds the maximum size only when it holds a single record |
| `FlatLog.RollsOverIff` | broker/src/pylogstream_broker/log/log_writer.py:43-50 | a write opens a new segment if and only if the active one holds something and is too old or would exceed the maximum size; otherwise the record joins the active one |
| `FlatLog.LayoutRollover` | broker/src/pylogstream_broker/log/log_writer.py:61-72 | sealing and opening keep the layout: bases start at 0 and each equals the end before it, all but the last segment are non-empty and sealed, only the last is active |
| `FlatLog.LayoutGrow` | broker/src/pylogstream_broker/log/segment_registry.py:67-91 | advancing the active segment keeps the layout |
| `FlatLog.LayoutOrdered` | broker/src/pylogstream_broker/log/segment_registry.py:143-163 | in such a layout bases increase and segments do not overlap, which is what the binary search needs |
| `FlatLog.OffsetCovered` | broker/src/pylogstream_broker/log/segment_registry.py:93-127 | segments without gaps cover every offset below the end |
| `FlatLog.StoredGrow` | broker/src/pylogstream_broker/log/segment_memory.py:108-119 | writing a frame into the active file disturbs no other segment: no two segments share a file |
| `FlatLog.GrowRefines` | broker/src/pylogstream_broker/log/log_writer.py:47-50 | a stored frame and the advanced size together refine appending one record to the flat log, and leave the other topics, whose directories differ, as they are |
| `FlatLog.RolloverRefines` | broker/src/pylogstream_broker/log/log_writer.py:61-72 | a rollover leaves the flat log as it is |
| `FlatLog.CacheRefines` | broker/src/pylogstream_broker/log/segment_memory.py:78-101 | loading and growing files and changing the cached entries leaves the flat log as it is |
| `Registry.SegmentRegistry.GetSegment` | broker/src/pylogstream_broker/log/segment_registry.py:93-127 | on ordered segments it succeeds if and only if some segment contains the offset, and returns that one; each error is raised exactly in its case, and -1 asks for the last segment |
| `Registry.SegmentRegistry.FindSegmentIndex` | broker/src/pylogstream_broker/log/segment_registry.py:143-163 | the binary search returns the last segment whose base offset is at most the offset, or -1 |
| `Registry.SegmentRegistry.CreateSegment` | broker/src/pylogstream_broker/log/segment_registry.py:35-65 | appends a segment unless it would overlap or repeat the last one, or the topic has been emptied, in which cases nothing changes |
| `Registry.SegmentRegistry.AdvanceOffset` | broker/src/pylogstream_broker/log/segment_registry.py:67-91 | adds the length to the segment in whose range the base offset falls, even when the caller holds a stale copy; before the first segment Python's index -1 makes it the last one; unknown and emptied topics are errors |
| `Registry.SegmentRegistry.ProgressState` | broker/src/pylogstream_broker/log/segment_registry.py:183-214 | replaces or removes exactly the named segment, only for the allowed transitions |
| `Registry.AllowedIsNextStage` | broker/src/pylogstream_broker/log/segment_registry.py:13-18 | a segment goes through its states one after the other and never back |
| `Registry.SegmentRegistry.GetLatestOffset` | broker/src/pylogstream_broker/log/segment_registry.py:219-225 | the end of the last segment, or the error |
| `Registry.BisectLeftFinds` | broker/src/pylogstream_broker/log/segment_registry.py:183-214 | the bisection on base offsets finds a listed segment |
| `Segments.KeysUniqueIff` | broker/src/pylogstream_broker/log/segment.py:20-21 | cache keys tell all segments of a set of topics apart if and only if no topic name continues another by a numeral without leading zero |
| `Segments.KeyInjectiveInTopic` | broker/src/pylogstream_broker/log/segment.py:20-21 | within one topic the cache key determines the base offset |
| `Segments.SharedKeyExample` | broker/src/pylogstream_broker/log/segment.py:20-21 | two topics whose segments share a cache key, so uniqueness fails in general |
| `Paths.FilesIndependentIff` | broker/src/pylogstream_broker/log/segment_registry.py:32-33 | the segment files of a set of topics are different files, none where another needs a directory, if and only if the resolved directories of the topics differ and no way to one leads past a place where another may have a segment file |
| `Paths.SegmentLocation` | broker/src/pylogstream_broker/log/segment_registry.py:32-33 | where the printed path leads once empty and "." components are dropped and ".." is followed: the resolved directory of the topic, and a file named by the base offset |
| `Paths.FileNameForm` | broker/src/pylogstream_broker/log/segment_registry.py:32-33 | exactly which names segment files have |
| `Paths.PlainNamesApart` | broker/src/pylogstream_broker/log/segment_registry.py:32-33 | topic names that are one ordinary component always satisfy the condition |
| `Segments.SharedFileExample` | broker/src/pylogstream_broker/log/segment_registry.py:32-33 | the topics "a" and "a/" have different cache keys and one file, so they violate it |
| `FlatLog.SharedDirectoryConfuses` | broker/src/pylogstream_broker/log/segment_memory.py:78-101 | the condition is needed: no state of the files represents two topics in one directory unless their first records are equal |
| `FlatLog.FirstRecordLost` | broker/src/pylogstream_broker/log/segment_memory.py:108-119 | what happens instead: the first write to the second topic overwrites the first record of the first |
| `Storage.SegmentMemory.Acquire` | broker/src/pylogstream_broker/log/segment_memory.py:225-243 | returns the cached entry or a new one with one more reference, loaded and mapping the file as it is; the key order follows the LRU rule and the files are only opened |
| `Storage.SegmentMemory.CleanupLocked` | broker/src/pylogstream_broker/log/segment_memory.py:248-256 | drops the least recently acquired keys until the capacity holds, queues exactly their entries in that order, and keeps the other entries |
| `Storage.SegmentMemory.HandleWrite` | broker/src/pylogstream_broker/log/segment_memory.py:178-179 | changes the file of its segment as the buffer growth and overwrite rules say, and no other |
| `Storage.SegmentMemory.TryEvict` | broker/src/pylogstream_broker/log/segment_memory.py:280-295 | a missing key is an error, an entry in use stays, and otherwise the entry leaves the cache and is unmapped; files are unchanged |
| `Storage.Entry.Load` | broker/src/pylogstream_broker/log/segment_memory.py:78-101 | maps the existing file, or a new one of the initial size; loading again changes nothing |
| `Storage.Entry.Write` | broker/src/pylogstream_broker/log/segment_memory.py:108-119 | refuses on an immutable segment; otherwise the mapping grows if it must and holds the message at the offset, all other bytes kept |
| `Storage.Entry.IncreaseCapacity` | broker/src/pylogstream_broker/log/segment_memory.py:138-161 | a larger mapping with the same contents, of the required or the incremented capacity, whichever is larger |
| `Storage.WrittenIs` | broker/src/pylogstream_broker/log/segment_memory.py:108-161 | a write byte by byte: the message at its offset, every other byte kept, new bytes zero, and the length that growth by the increment gives |
| `Storage.OpenedIs` | broker/src/pylogstream_broker/log/segment_memory.py:85-92 | opening touches one file, and that only if it is missing or empty |
| `Lru.RunHoldsNewest` | broker/src/pylogstream_broker/log/segment_memory.py:225-256 | after any trace of acquisitions the cache holds the last distinct keys, as many as the capacity allows, ordered by last acquisition |
| `Lru.RecentIsByLastUse` | broker/src/pylogstream_broker/log/segment_memory.py:225-243 | moving to the end keeps the keys ordered by last acquisition |
| `Lru.ByLastUseUnique` | broker/src/pylogstream_broker/log/segment_memory.py:225-256 | that order is unique |
| `Lru.LargerCacheHoldsMore` | broker/src/pylogstream_broker/log/segment_memory.py:248-256 | a cache of capacity k+1 holds whatever the one of capacity k holds |
| `Lru.JustAcquiredStays` | broker/src/pylogstream_broker/log/segment_memory.py:225-243 | with room for one entry the entry just acquired is never the one evicted; without room it always is |
| `CacheProtocol.EveryInterleaving` | broker/src/pylogstream_broker/log/segment_memory.py:225-303 | in every reachable state, under any interleaving: references equal the acquisitions in use and those whose load raised, a live handle is on a loaded entry that is neither released nor about to be, and every created entry is in exactly one place (cached, queued, awaiting its release, released) |
| `CacheProtocol.StepSafe` | broker/src/pylogstream_broker/log/segment_memory.py:225-303 | each step of any thread keeps these properties |
| `CacheProtocol.ZeroStaysZero` | broker/src/pylogstream_broker/log/segment_memory.py:280-295 | an entry outside the cache never gains a reference and never returns to the cache, so a seen zero stays zero |
| `CacheProtocol.ReleasedAtMostOnce` | broker/src/pylogstream_broker/log/segment_memory.py:258-303 | no run releases an entry twice |
| `CacheProtocol.RunFinishesIff` | broker/src/pylogstream_broker/log/segment_memory.py:240-243 | from the start, or any safe state without a lost reference: a run that cannot go on without new requests has all threads done, an empty queue, and every entry cached and unused or released exactly once, if and only if no load of the run raised |
| `CacheProtocol.StartIsSafe` | broker/src/pylogstream_broker/log/segment_memory.py:204-223 | the cache starts safe, with nothing lost |
| `CacheProtocol.NothingStuckIff` | broker/src/pylogstream_broker/log/segment_memory.py:22-47 | no lost wake-up: the same for any safe state, where a failed load is seen by the reference it left behind |
| `CacheProtocol.WhoIsLeft` | broker/src/pylogstream_broker/log/segment_memory.py:44-47 | otherwise the only threads left sleep for an entry whose load raised |
| `CacheProtocol.FinishingEnds` | broker/src/pylogstream_broker/log/segment_memory.py:258-303 | without new requests, the threads finish in a bounded number of steps |
| `CacheProtocol.AcquireOrdersKeys` | broker/src/pylogstream_broker/log/segment_memory.py:225-256 | under any interleaving an acquisition orders and cuts the keys as the sequential LRU cache does |
| `CacheProtocol.LeavesForGood` | broker/src/pylogstream_broker/log/segment_memory.py:258-269 | no single step brings a removed entry back or gives it a reference |
| `CacheProtocol.AcquireTakes` | broker/src/pylogstream_broker/log/segment_memory.py:225-243 | an acquisition takes the cached entry of the key or a new one, adds one reference and one thread that will load it, and changes no other entry |
| `CacheProtocol.EvictTakes` | broker/src/pylogstream_broker/log/segment_memory.py:258-295 | `force_evict` always takes the key out of the cache, `try_evict` only if nobody uses it; otherwise nothing changes |
| `Ring.LabelInjective` | controller/src/pylogstream_controller/metastore/manager.py:18-20 | different virtual nodes have different labels, so only the hash can make them collide |
| `Ring.RemoveKeysKeeps` | controller/src/pylogstream_controller/metastore/manager.py:24-32 | removal keeps list and map together and removes exactly the broker's positions, whatever the hash |
| `Ring.AddKeepsIff` | controller/src/pylogstream_controller/metastore/manager.py:15-22 | adding a broker keeps the sorted list and the map together if and only if its own positions are distinct |
| `Ring.AddRepresentsIff` | controller/src/pylogstream_controller/metastore/manager.py:15-22 | adding a broker, new or known, gives the ring of the enlarged member set if and only if no positions collide |
| `Ring.RemoveRepresentsIff` | controller/src/pylogstream_controller/metastore/manager.py:24-32 | removing a broker gives the ring of the remaining members if and only if no other member owns one of its positions, which always holds when it is a member itself |
| `Ring.CollisionLosesMember` | controller/src/pylogstream_controller/metastore/manager.py:15-32 | with colliding positions a newcomer that leaves again takes the old member with it |
| `Ring.RepresentsUnique` | controller/src/pylogstream_controller/metastore/manager.py:6-32 | the ring state is a function of the member set alone |
| `Ring.AddRemoveRestoresIff` | controller/src/pylogstream_controller/metastore/manager.py:15-32 | adding and then removing a broker restores the exact state if and only if its positions are distinct and none was taken |
| `Ring.RingOfMembers` | controller/src/pylogstream_controller/metastore/manager.py:15-32 | after any run of joins, re-joins and departures the ring is the ring of its members |
| `Ring.OrderIrrelevant` | controller/src/pylogstream_controller/metastore/manager.py:15-32 | runs that leave the same members leave the same state |
| `Ring.RemovalFiltersPreference` | controller/src/pylogstream_controller/metastore/manager.py:43-58 | when a broker leaves that shares no position with another member, as no member of a represented ring does, every topic's preference list just loses that broker |
| `Ring.RemovalMovesOnlyItsTopics` | controller/src/pylogstream_controller/metastore/manager.py:43-58 | when a broker leaves, the replicas of a topic change only if it was one of them; then the next broker in line moves up |
| `Ring.AdditionMovesOnlyToNew` | controller/src/pylogstream_controller/metastore/manager.py:43-58 | when a broker joins, a topic gains at most that broker and nothing moves between the others |
| `Ring.PreferenceHoldsMembers` | controller/src/pylogstream_controller/metastore/manager.py:43-58 | every preference list holds every member exactly once |
| `Ring.PreferenceIsClockwise` | controller/src/pylogstream_controller/metastore/manager.py:46-57 | what the list is without the walk: a broker stands before another because one of its positions comes clockwise before all positions of the other |
| `Ring.FirstIsSuccessor` | controller/src/pylogstream_controller/metastore/manager.py:37-41 | the first broker owns the next position after the topic's, or else the smallest |
| `Ring.ConsistentHashRing.AddNode` | controller/src/pylogstream_controller/metastore/manager.py:15-22 | the loop of insertions, after removing what was there |
| `Ring.ConsistentHashRing.RemoveNode` | controller/src/pylogstream_controller/metastore/manager.py:24-32 | the loop of deletions |
| `Ring.ConsistentHashRing.GetNode` | controller/src/pylogstream_controller/metastore/manager.py:34-41 | the head of the preference list, or nothing for an empty ring |
| `Ring.ConsistentHashRing.GetReplicas` | controller/src/pylogstream_controller/metastore/manager.py:43-58 | the first `count` of the preference list, or all of it for a count below one |
| `Metastore.Run` | controller/src/pylogstream_controller/metastore/manager.py:81-154 | over all runs the stored nodes are the ring members, replica lists are free of repetition, within the live brokers and bounded, and a non-empty ISR contains the leader |
| `Metastore.StepValid` | controller/src/pylogstream_controller/metastore/manager.py:81-154 | each operation keeps these properties |
| `Metastore.AfterDeparture` | controller/src/pylogstream_controller/metastore/manager.py:87-124 | at the end of any run, a departing broker neither leads nor replicates any topic; a topic that loses it keeps its other replicas in order and has exactly min(replicas_per_topic, live brokers) |
| `Metastore.WithIsrUpdates` | controller/src/pylogstream_controller/metastore/manager.py:144-154 | the stored topic before and after an ISR update: list, leader, version, and nothing else |
| `Metastore.SurviveBereaved` | controller/src/pylogstream_controller/metastore/manager.py:99-122 | the stored topic before and after a departure: what stays, who leads, which ISR remains, and the version |
| `Metastore.ElectIsChosen` | controller/src/pylogstream_controller/metastore/manager.py:67-79 | the election takes the first of the ISR, else the first replica, else the owner of the ring position after the topic's, else nobody |
| `Metastore.ChangedHolds` | controller/src/pylogstream_controller/metastore/manager.py:96-124 | exactly the topics with other contents are reported |
| `Metastore.LostReplicaIsReplaced` | controller/src/pylogstream_controller/metastore/manager.py:100-112 | the refill keeps the remaining replicas first, appends the best missing candidates in order, and reaches min(replicas_per_topic, live brokers) |
| `Metastore.RefilledSize` | controller/src/pylogstream_controller/metastore/manager.py:102-109 | pigeonhole: the candidates suffice to fill the list |
| `Metastore.RefillAppendsBest` | controller/src/pylogstream_controller/metastore/manager.py:102-109 | what is appended is the beginning of the candidates that are missing |
| `Metastore.DepartedIsGone` | controller/src/pylogstream_controller/metastore/manager.py:113-117 | through all three fallbacks of the election the departed broker is not elected |
| `Metastore.ElectedIsSound` | controller/src/pylogstream_controller/metastore/manager.py:67-79 | a leader elected while the ISR is not empty is in the ISR |
| `Metastore.NewTopicOk` | controller/src/pylogstream_controller/metastore/manager.py:126-142 | a new topic gets min(replicas_per_topic, live brokers) distinct live replicas |
| `Metastore.VersionsIdentify` | controller/src/pylogstream_controller/metastore/manager.py:119-122 | versions of a topic never decrease in a run, and equal versions mean equal metadata |
| `Metastore.StepVersion` | controller/src/pylogstream_controller/metastore/manager.py:119-154 | one operation leaves a topic as it is or stores it with the next version |
| `Metastore.MetastoreManager.DeregisterBroker` | controller/src/pylogstream_controller/metastore/manager.py:87-124 | the loops over topics and candidates compute the specified store and return exactly the changed topics in order; an unaffected topic stays, an affected one gets the next version, and one that lost its leader the remaining ISR and a leader by the same three choices |
| `Metastore.MetastoreManager.RegisterBroker` | controller/src/pylogstream_controller/metastore/manager.py:81-85 | stores the node under its id and adds it to the ring; topics stay |
| `Metastore.MetastoreManager.RegisterTopic` | controller/src/pylogstream_controller/metastore/manager.py:126-142 | returns the existing topic and changes nothing, or stores a new one on the first replicas of its preference list, led by the first, all in sync, at version 1 |
| `Metastore.MetastoreManager.UpdateTopicIsr` | controller/src/pylogstream_controller/metastore/manager.py:144-154 | stores exactly the new list and the next version; keeps the leader if it is in the list, and otherwise makes the first of the list, the first replica, the owner of the next ring position or nobody the leader; replicas and everything else stay |
| `Metastore.Refill` | controller/src/pylogstream_controller/metastore/manager.py:104-109 | the refill loop with its early stop |
| `Metastore.MetastoreStorage.AddTopic` | controller/src/pylogstream_controller/metastore/storage.py:32-36 | refuses a known topic, otherwise appends it |
| `Metastore.MetastoreStorage.UpdateTopic` | controller/src/pylogstream_controller/metastore/storage.py:38-42 | refuses an unknown topic, otherwise replaces it in place |
| `Leader.WatermarkIsMax` | broker/src/pylogstream_broker/replication/leader.py:116-131 | the high watermark is the largest, over all evaluations of the run, of the smallest offset in the in-sync set of that moment; set and offsets are those that the events alone determine |
| `Leader.MinOffsetIsLeast` | broker/src/pylogstream_broker/replication/leader.py:124-124 | the minimum over the in-sync set is a lower bound and attained |
| `Leader.WatermarkNeverDecreases` | broker/src/pylogstream_broker/replication/leader.py:126-131 | it never decreases, whatever offsets replicas fetch and whenever the set is recomputed |
| `Leader.WatermarkWithinLog` | broker/src/pylogstream_broker/replication/leader.py:116-131 | it never exceeds the log end offset |
| `Leader.WatermarkWasReplicated` | broker/src/pylogstream_broker/replication/leader.py:116-131 | a raised high watermark had been reached by the log end and by the last fetch of every other member of one in-sync set |
| `Leader.LeaderInSync` | broker/src/pylogstream_broker/replication/leader.py:139-169 | the leader is always the first of the in-sync set |
| `Leader.StateIsHistory` | broker/src/pylogstream_broker/replication/leader.py:66-71 | over any events: the recorded offset of a follower is that of its last fetch, and the time when a replica caught up that of its last fetch from the log end |
| `Leader.InSyncIsHistory` | broker/src/pylogstream_broker/replication/leader.py:139-169 | the in-sync set is the one that the fetches before the last recomputation determine |
| `Leader.FetchTouchesOnly` | broker/src/pylogstream_broker/replication/leader.py:53-71 | a fetch changes nothing of any other follower, and one from outside the replica list nothing at all |
| `Leader.NewIsrIsExact` | broker/src/pylogstream_broker/replication/leader.py:139-169 | the recomputed set is the leader, the minimum number of freshest followers and every follower within the lag bound, and nobody else; no repetition, and no one left out is fresher than one taken |
| `Leader.StalestFirstSorts` | broker/src/pylogstream_broker/replication/leader.py:152-155 | the sort orders the replicas by age and neither loses nor repeats one |
| `Leader.StalestFirstIsStable` | broker/src/pylogstream_broker/replication/leader.py:152-155 | and it is stable |
| `Leader.ReplicaLeader.UpdateInSync` | broker/src/pylogstream_broker/replication/leader.py:139-169 | popping the freshest and scanning the rest up to the first stale replica computes that set; it raises exactly when the leader is not a replica |
| `Leader.ReplicaLeader.Handle` | broker/src/pylogstream_broker/replication/leader.py:53-75 | the state changes of a fetch: unauthorised replicas change nothing; otherwise the fetched offset is recorded, the time only for a fetch from the log end, and nothing of other followers changes; the reply carries the high watermark from before the fetched offset counts |
| `Leader.ReplicaLeader.ComputeHighWatermark` | broker/src/pylogstream_broker/replication/leader.py:116-124 | the smallest offset of the in-sync set, with the leader at the log end |
| `Leader.ReplicaLeader.GetHighWatermark` | broker/src/pylogstream_broker/replication/leader.py:126-131 | evaluates and keeps the maximum |
| `Replication.BrokerFollows` | broker/src/pylogstream_broker/replication/manager.py:67-123 | fed in version order, repeats and whole lists allowed, after every prefix a broker hosts a topic if and only if the last word names it as a replica, in the role, under the leader and with the replica set of that last word |
| `Replication.BrokerTracksController` | broker/src/pylogstream_broker/replication/manager.py:67-123 | fed copies of what a run of the controller stored, in order, the broker agrees with what the controller stored at the last copy |
| `Replication.CopiesInOrder` | controller/src/pylogstream_controller/metastore/manager.py:113-154 | copies of one controller run satisfy the order that the broker needs |
| `Replication.AppliedAgrees` | broker/src/pylogstream_broker/replication/manager.py:67-109 | one metadata message re-establishes the agreement, although equal content is skipped without storing its version |
| `Replication.ChangesIffNewAndDifferent` | broker/src/pylogstream_broker/replication/manager.py:91-107 | for a hosted topic and a word that names this broker, the state changes if and only if the word is newer and differs |
| `Replication.VersionNeverDecreases` | broker/src/pylogstream_broker/replication/manager.py:95-97 | over any deliveries, in order or not, the stored version never decreases as long as the words about the topic name this broker |
| `Replication.HostedMeansKept` | broker/src/pylogstream_broker/replication/manager.py:67-109 | which is the case whenever the topic stays hosted through deliveries with one word about it |
| `Replication.ReplicaManager.ApplyMetadata` | broker/src/pylogstream_broker/replication/manager.py:67-109 | one word removes a topic that this broker does not replicate, adopts a new one, changes a hosted one if and only if it is newer and differs in leader, address, port, role or replica set, and then stores all of the word; other topics stay |
| `Replication.ReplicaManager.ApplyMetadataList` | broker/src/pylogstream_broker/replication/manager.py:111-123 | drops the topics that the list does not name, then applies each entry |
| `Replication.ReplicaManager.Receive` | broker/src/pylogstream_broker/network/controller.py:362-365 | each response of the controller is applied as specified, so the hosted topics are what the deliveries say |
| `Replication.ReplicaManager.GetLeader` | broker/src/pylogstream_broker/replication/manager.py:125-138 | when the controller's words arrived in order, it answers exactly when the last word names this broker as replica and leader, and knows the topic exactly when the last word names it as replica |
| `Codec.CommandRoundTripIff` | protocol/src/pylogstream_protocol/parser.py:13-34 | for every command and correlation id, parsing the encoded text gives both back if and only if the id is non-empty without `]` and the non-final fields are free of spaces, acks are -1, 0 or 1, and an ISR list is not empty, not just "-", and free of commas |
| `Codec.BodyRoundTrip` | protocol/src/pylogstream_protocol/parser.py:36-130 | the same without the header, command by command |
| `Codec.HeaderRoundTrip` | protocol/src/pylogstream_protocol/parser.py:13-27 | a correlation header is found and stripped exactly when it is well formed |
| `Codec.PublishRoundTrip` | protocol/src/pylogstream_protocol/parser.py:66-81 | a published payload keeps its check value in front |
| `Codec.PublishCheckedIff` | protocol/src/pylogstream_protocol/parser.py:66-81 | with checksums on, a publication with any number in the check value's place is accepted if and only if the number is the check value of the message, and otherwise refused for its checksum |
| `Codec.CommandCheckedIff` | protocol/src/pylogstream_protocol/parser.py:29-34 | the same behind a correlation header |
| `Codec.AcceptedIsIntact` | protocol/src/pylogstream_protocol/parser.py:74-81 | whatever the text, an accepted payload is a message behind its own check value |
| `Codec.BadTextsAreRefused` | protocol/src/pylogstream_protocol/parser.py:36-130 | unknown commands, and no others, are reported as unknown; a command with a field missing is malformed |
| `Codec.NumbersAreChecked` | protocol/src/pylogstream_protocol/parser.py:52-111 | anything but a number, or one of the three levels, in their places is malformed |
| `Codec.ParsedIsSafe` | protocol/src/pylogstream_protocol/parser.py:36-130 | whatever was parsed can be sent again, except an empty ISR list |
| `Codec.HeaderFoundIff` | protocol/src/pylogstream_protocol/parser.py:13-27 | for any text: a header is found if and only if the text begins with one, and without one the text stays as it is |
| `Codec.IsrChangeRoundTrip` | protocol/src/pylogstream_protocol/parser.py:123-128 | the ISR list survives if and only if it is not empty, not just "-", and free of commas |
| `Codec.AcksRoundTrip` | protocol/src/pylogstream_protocol/parser.py:52-58 | exactly -1, 0 and 1 are accepted |
| `Codec.ListRoundTrip` | protocol/src/pylogstream_protocol/parser.py:123-128 | a comma-joined list comes back if and only if it is not empty, not just "-", and free of commas |
| `Responses.ResponseRoundTripIff` | protocol/src/pylogstream_protocol/parser.py:132-220 | for every response with a header line and every correlation id, parsing gives back the response (its header, if a payload follows) if and only if the non-final fields are free of their separators |
| `Responses.MetaRoundTrip` | protocol/src/pylogstream_protocol/parser.py:196-206 | topic metadata survives if and only if its fields hold no space, its broker ids no comma, and its replica list is not just "-" |
| `Responses.MetaWireOrder` | protocol/src/pylogstream_protocol/parser.py:198-207 | the seven fields of topic metadata in the order of the wire |
| `Responses.PayloadLengthIsStated` | protocol/src/pylogstream_protocol/encoder.py:71-156 | a response with a payload announces exactly the length of that payload |
| `Responses.ListOfSafe` | protocol/src/pylogstream_protocol/parser.py:205-205 | whatever was read can be sent again |
| `Responses.BadResponsesAreRefused` | protocol/src/pylogstream_protocol/parser.py:139-220 | unknown responses, and no others, are reported as unknown; a response with a field missing is malformed |
| `Responses.ResponseNumbersAreChecked` | protocol/src/pylogstream_protocol/parser.py:151-194 | anything but a number, or one of the three levels, in their places is malformed |
| `Responses.ParsedResponseIsSafe` | protocol/src/pylogstream_protocol/parser.py:139-220 | whatever was parsed can be sent again |
| `MetadataList.MetaListRoundTripIff` | protocol/src/pylogstream_protocol/encoder.py:146-156 | a metadata list survives if and only if no text in it holds a space, a line break or, in a broker id, a comma, and no replica list is just "-" |
| `MetadataList.ParseMetadataListPayload` | protocol/src/pylogstream_protocol/parser.py:252-267 | the parsing loop: blank lines are skipped, the first malformed line fails the list |
| `MetadataList.LinesReadIff` | protocol/src/pylogstream_protocol/parser.py:257-267 | a list is read if and only if every line that is not blank can be read, and then it is what those lines hold |
| `Text.SplitMaxJoin` | protocol/src/pylogstream_protocol/parser.py:36-130 | splitting with a maximum count undoes joining when only the last part may hold the separator |
| `Text.SplitJoinIff` | protocol/src/pylogstream_protocol/parser.py:252-267 | splitting undoes joining if and only if there is a part and none holds the separator |
| `Text.JoinSplit` | protocol/src/pylogstream_protocol/encoder.py:146-156 | joining undoes splitting |
| `Decimal.ParseDec` | protocol/src/pylogstream_protocol/parser.py:59-59 | `int` undoes `str` |
| `Decimal.DigitsOfValue` | broker/src/pylogstream_broker/log/segment.py:20-21 | a canonical numeral is the print of its value |
| `Bytes.PrefixRoundTrip` | protocol/src/pylogstream_protocol/framer.py:3-6 | the length prefix is read back as it was written |
| `Bytes.ParseRecords` | protocol/src/pylogstream_protocol/parser.py:222-234 | the generator yields what `SplitRecords` says for any bytes, cut short at the end |
| `Bytes.SplitFrames` | protocol/src/pylogstream_protocol/parser.py:222-234 | splitting a framed log gives exactly its records, whatever they hold |
| `Bytes.SplitCut` | protocol/src/pylogstream_protocol/parser.py:222-234 | a log cut inside a record yields its whole records and what there is of the last one |
| `Bytes.RecordAt` | protocol/src/pylogstream_protocol/framer.py:3-4 | record k of a framed log stands at its offset, prefix first |
| `Bytes.CutAtRecord` | protocol/src/pylogstream_protocol/parser.py:222-234 | cutting at record boundaries leaves framed records |
| `Publishing.PublishAndConsume` | protocol/src/pylogstream_protocol/parser.py:222-250 | end to end: the consumer of a new topic decodes exactly the published messages with their check values, once and in order, whatever is published to other topics with distinct cache keys and files, polled, evicted or cleaned up |
| `Publishing.AcceptedIsRecord` | protocol/src/pylogstream_protocol/encoder.py:216-227 | encoding, framing, length reading and parsing deliver the message behind its check value under its topic |
| `Publishing.CorruptIsRefused` | protocol/src/pylogstream_protocol/parser.py:74-81 | a publication whose check value does not fit its message is refused by the broker and not stored |
| `Publishing.RecordDecodes` | protocol/src/pylogstream_protocol/parser.py:236-250 | `decode_record` removes the check value and confirms it |
| `Publishing.RecordCheckedIff` | protocol/src/pylogstream_protocol/parser.py:236-250 | a record with any number in front decodes if and only if the number is the check value of the message, and otherwise fails for its checksum |
| `Publishing.DecodedIsIntact` | protocol/src/pylogstream_protocol/parser.py:236-250 | whatever the bytes, what decodes has the check value it says, and a record without a space never decodes |
| `Batching.EverySchedule` | broker/src/pylogstream_broker/network/writer.py:57-100 | for any schedule of submissions, arrivals and timeouts: flushed batches, open batch and queue are the submissions in order, and every flushed batch is non-empty with at most max(2, max_batch_size) requests |
| `Batching.BatchesAreGrouped` | broker/src/pylogstream_broker/network/writer.py:64-100 | for any schedule the batches handed out and the open batch are those that the arrivals and timeouts determine: a batch is closed by a timeout, or by a request that makes it at least two long and reaches one of the limits |
| `Batching.TimeOutHandsOut` | broker/src/pylogstream_broker/network/writer.py:94-100 | after a timeout the open batch is empty and everything that has arrived, in order of submission, is in the batches handed out |
| `Batching.TopicCollector.Collect` | broker/src/pylogstream_broker/network/writer.py:57-100 | the collector loop computes the state of the schedule, and after a timeout holds no open batch |
| `Batching.EveryInterleavingTiles` | broker/src/pylogstream_broker/network/writer.py:102-111 | however the workers' writes interleave, each request's offset is where its own payload stands, and requests and records of the log correspond one to one |
| `Batching.RangesTile` | broker/src/pylogstream_broker/network/writer.py:102-111 | the ranges of different requests are disjoint and follow each other without a gap |
| `Batching.RunWorkers` | broker/src/pylogstream_broker/network/writer.py:102-111 | executed against the log writer, any interleaving of the workers gives the log and the offsets of the model, so they tile the log of the topic |
| `Batching.FlushBatch` | broker/src/pylogstream_broker/network/writer.py:102-111 | one worker alone, for topic names with distinct cache keys and files: every request gets the offset where its payload stands |

## Left out

- Sockets, asyncio scheduling, sendfile, mmap and fadvise, real files and clocks: a file is an array of bytes that a map of paths names, time is an input.
- Threads inside the log: each append and each read is one atomic step of the log model, so two mappings of one file held by overlapping readers and writers are not modelled. The threads of the cache have their own model in `cacheprotocol.dfy`, which leaves out file contents.
- `AtomicInt`'s lock is one step; `wait_until_zero` is split into looking, sleeping and being woken. Of the exceptions only the one in `load` is a step: `release` is taken to succeed.
- `force_evict` blocks, so only the step system has it; the cache class has `try_evict` and one turn of the cleanup thread.
- Writing.LogWriter.Write: the topic names of the log must keep cache keys and files apart, as `Segments.TopicsSafe` says; with clashing names the cache can return another topic's entry, or two topics write into one file.
- Storage.SegmentMemory.Acquire: the initial segment size must be positive, since an empty file cannot be mapped.
- Registry.SegmentRegistry.GetSegment: on lists that are not ordered, which only calls that bypass the writer can produce, the result of the binary search is not described; the same holds for FindSegmentIndex, AdvanceOffset and ProgressState.
- `created_at` of a segment is evaluated once per process in the source; only the truth of "older than the rollover time" is an input here.
- `LogReader.read` returns a file slice; it makes the same cut as `read_bytes` and is not modelled separately. Offset -1 as a read position is not modelled.
- Retention, the cleaner service, `list_segments`, `get_segment_by_base_offset`.
- Paths.SegmentLocation: symbolic links, file systems that ignore case, and names that the file system refuses.
- ZooKeeper storage and controller election: the ring is not rebuilt from stored nodes there.
- Metastore.MetastoreManager.DeregisterBroker: topic metadata are values stored back into the map, so aliasing between the store and the returned objects is not modelled; storage calls are serialized.
- Ring.ConsistentHashRing.GetReplicas: on a ring whose positions collide only the facts named above are proved; lookups on a list that holds a key the map has lost are not modelled.
- A leader that is always alive: an ISR list may keep a broker that left while it did not lead, as in the source.
- Replication.BrokerTracksController: versions across a removal and a later re-hosting rest on in-order delivery, because the removal branch checks no version; the leader's address and port are not part of the agreement.
- `ReplicaFetcher`, log cleanup after a topic is removed, failing fetcher creation, the leader's background loop and its notification of the controller.
- Leader.ReplicaLeader.Handle: the bytes of the answer are the reader's business; the state changes happen even when that read fails. `wait_for_hw` and `_notify_hw_waiters` are left out; the latter has no caller.
- `docs/replicatin-design.md` says that pulls are clipped at the high watermark; the code does not clip, and neither does the model.
- Non-ASCII text, and integers of more digits than Python converts.
- The memory-mapped response variants, which are encoded like the byte variants.
- Codec.CommandRoundTripIff: `BrokerMetadataListCommand` has no encoding in the source; the `state` of topic metadata is not sent.
- Batching.TopicCollector.Collect: when the wait times out is an input; the executor may start batches in any order. `Writer.close` is left out.
- Client, benchmarks, configuration, `offsets_manager`, reconnection to the controller.
