/** Appending records: framing, rollover, and the write through the cached entry. */
module Writing {
  import opened Seqs
  import opened Bytes
  import opened Paths
  import opened Segments
  import opened Registry
  import opened Storage
  import opened FlatLog

  datatype WriteResult = Written(offset: nat) | TooLong

  /** The log component: what `LogManager` wires together, and the records it stands for. */
  class LogView {
    const registry: SegmentRegistry
    const memory: SegmentMemory
    const maxSegmentSize: int
    /** Per topic and segment, the records appended so far. */
    ghost var chunks: ChunkLists

    constructor (registry: SegmentRegistry, memory: SegmentMemory, maxSegmentSize: int)
      requires registry.registry == map[] && memory.AtRest() && memory.cache == map[]
      ensures Valid() && chunks == map[]
      ensures this.registry == registry && this.memory == memory && this.maxSegmentSize == maxSegmentSize
    {
      this.registry, this.memory, this.maxSegmentSize := registry, memory, maxSegmentSize;
      chunks := map[];
    }

    ghost function State(): LogState
      reads this, registry, memory, memory.disk, memory.disk.files.Values
    {
      LogState(registry.place, maxSegmentSize, memory.disk.Snapshot(), registry.registry, memory.Owners(), chunks)
    }

    ghost predicate Valid()
      reads this, registry, memory, memory.disk, memory.disk.files.Values, memory.cache.Values, memory.cleanupQueue
    {
      memory.AtRest() && State().Refines()
    }

    /** `s` is what the registry, the disk and the cache hold now. */
    ghost predicate Holds(s: LogState)
      reads registry, memory, memory.disk, memory.disk.files.Values
    {
      && s.place == registry.place
      && s.registry == registry.registry
      && s.disk == memory.disk.Snapshot()
      && s.owners == memory.Owners()
    }

    lemma CacheFits(meta: SegmentMeta, i: nat, s: LogState)
      requires memory.Valid() && s.owners == memory.Owners() && s.Refines()
      requires meta.topic in s.chunks && i < |s.registry[meta.topic]| && meta == s.registry[meta.topic][i]
      ensures memory.Fits(meta)
      ensures meta.GetId() in memory.cache ==> SameSegment(memory.cache[meta.GetId()].owner, meta)
    {
      forall k | k in memory.cache
        ensures k == meta.GetId() <==> memory.cache[k].filepath == meta.path
        ensures k == meta.GetId() ==> SameSegment(memory.cache[k].owner, meta)
      {
        assert memory.EntryOk(k, memory.cache[k]);
        ListedFits(s, meta.topic, i, k);
      }
    }

    /** Takes note of what has been stored. */
    ghost method Remember(s: LogState)
      requires memory.AtRest() && Holds(s) && s.Refines() && s.maxSegmentSize == maxSegmentSize
      modifies this`chunks
      ensures Valid() && chunks == s.chunks
    {
      hide LogState.Refines, SegmentMemory.Valid;
      chunks := s.chunks;
      assert State() == s;
    }

    /** `acquire` of a listed segment: whatever the cache evicts or reloads, the log stays the same. */
    method AcquireSegment(meta: SegmentMeta, ghost i: nat, ghost s: LogState) returns (entry: Entry, ghost s': LogState)
      requires memory.AtRest() && Holds(s) && s.Refines()
      requires meta.topic in s.chunks && i < |s.registry[meta.topic]| && meta == s.registry[meta.topic][i]
      modifies memory, memory.disk, if meta.GetId() in memory.cache then {memory.cache[meta.GetId()]} else {}
      ensures memory.Valid() && memory.IdleBut(entry) && Holds(s') && s'.Refines() && memory.Holds(entry)
      ensures s' == s.(disk := Opened(s.disk, meta.path, memory.initSegmentSize), owners := memory.Owners())
      ensures entry.filepath == meta.path && (meta.state == ACTIVE ==> entry.mutable)
      ensures fresh(entry) || entry in old(memory.cache.Values)
      ensures fresh(entry.mv) || entry.mv in old(memory.disk.files.Values)
      ensures memory.OnlyNew()
    {
      hide LogState.Refines, SegmentMemory.Valid, SegmentMemory.Fits, TopicsSafe, Opened, CacheKey;
      CacheFits(meta, i, s);
      entry := memory.Acquire(meta);
      ghost var owners := memory.Owners();
      OwnersStay(s, memory.disk.Snapshot(), memory.initSegmentSize, owners, meta, i);
      s' := s.(disk := memory.disk.Snapshot(), owners := owners);
    }

    /** `try_evict` leaves the log as it is; between operations no entry is in use, so it evicts what is cached. */
    method Evict(segment: SegmentMeta) returns (r: EvictResult)
      requires Valid()
      modifies memory, memory.cache.Values
      ensures Valid() && memory.OnlyNew()
      ensures r == if segment.GetId() in old(memory.cache) then Evicted else KeyError
      ensures memory.cache == old(memory.cache) - {segment.GetId()} && memory.cleanupQueue == old(memory.cleanupQueue)
    {
      hide LogState.Refines, SegmentMemory.Valid;
      ghost var s := State();
      r := memory.TryEvict(segment);
      EvictRefines(s, memory.Owners());
    }

    /** One turn of the cleanup thread leaves the log as it is; it would wait while the oldest queued entry is in use, but
        between operations none is. */
    method Cleanup()
      requires Valid()
      modifies memory, memory.cleanupQueue
      ensures Valid() && memory.OnlyNew()
      ensures memory.cleanupQueue ==
              if old(memory.cleanupQueue) != [] then old(memory.cleanupQueue)[1..] else []
    {
      hide LogState.Refines, SegmentMemory.Valid;
      ghost var s := State();
      if memory.cleanupQueue != [] && memory.cleanupQueue[0].refcount == 0 {
        memory.CleanupStep();
        EvictRefines(s, memory.Owners());
      }
    }

    /** The records of a topic in append order. */
    ghost function Records(topic: string): seq<Payload>
      reads this
    {
      if topic in chunks then Flatten(chunks[topic]) else []
    }
  }

  lemma OwnersStay(s: LogState, disk: Contents, size: nat, owners: map<string, SegmentMeta>, meta: SegmentMeta, i: nat)
    requires s.Refines() && meta.topic in s.chunks && i < |s.registry[meta.topic]| && meta == s.registry[meta.topic][i]
    requires forall k | k in owners :: (k in s.owners && owners[k] == s.owners[k]) || owners[k] == meta
    requires disk == Opened(s.disk, meta.path, size)
    ensures s.(disk := disk, owners := owners).Refines()
  {
    forall k | k in owners
      ensures OwnerListed(owners[k], s.registry)
    {
      if owners[k] == meta {
        assert SameSegment(owners[k], s.registry[meta.topic][i]);
      }
    }
    CacheRefines(s, disk, owners);
  }

  lemma EvictRefines(s: LogState, owners: map<string, SegmentMeta>)
    requires s.Refines() && forall k | k in owners :: k in s.owners && owners[k] == s.owners[k]
    ensures s.(owners := owners).Refines()
  {
    CacheRefines(s, s.disk, owners);
  }

  /** A listed segment and its cache entry find each other. */
  lemma ListedFits(s: LogState, topic: string, i: nat, key: string)
    requires s.Refines() && topic in s.chunks && i < |s.registry[topic]| && key in s.owners
    requires key == s.owners[key].GetId()
    ensures
      var segment, owner := s.registry[topic][i], s.owners[key];
      && (key == segment.GetId() <==> owner.path == segment.path)
      && (key == segment.GetId() ==> SameSegment(owner, segment))
  {
    var segment, owner := s.registry[topic][i], s.owners[key];
    var j :| 0 <= j < |s.registry[owner.topic]| && SameSegment(owner, s.registry[owner.topic][j]);
    assert s.TopicOk(topic) && s.TopicOk(owner.topic);
    KeysUniqueIff(s.chunks.Keys);
    LayoutOrdered(topic, s.registry[topic], s.chunks[topic]);
    assert Laid(topic, segment, s.chunks[topic][i]);
    assert Laid(owner.topic, s.registry[owner.topic][j], s.chunks[owner.topic][j]);
    if key == segment.GetId() {
      assert CacheKey(owner.topic, owner.baseOffset) == CacheKey(topic, segment.baseOffset);
      SameBaseSameIndex(s.registry[topic], i, j);
    }
  }

  lemma SameBaseSameIndex(segments: seq<SegmentMeta>, i: nat, j: nat)
    requires Ordered(segments) && i < |segments| && j < |segments| && segments[i].baseOffset == segments[j].baseOffset
    ensures i == j
  {
  }

  /** The chunks a record of this length is added to. */
  function Prepared(chunks: seq<Chunk>, length: nat, maxSegmentSize: int, expired: bool): seq<Chunk>
    requires chunks != []
  {
    var last := chunks[|chunks| - 1];
    if (expired || |Frames(last)| + length + 4 > maxSegmentSize) && last != [] then chunks + [[]] else chunks
  }

  /** The chunks once the topic is known to exist. */
  function Created(chunks: ChunkLists, topic: string): ChunkLists {
    if topic in chunks then chunks else chunks[topic := [[]]]
  }

  /** Growing the prepared chunks is what `Appended` says. */
  lemma WriteSizes(s: LogState, topic: string, data: Payload, expired: bool)
    requires s.Refines() && topic in s.chunks && s.chunks[topic] != []
    ensures
      var prepared := Prepared(s.chunks[topic], |data|, s.maxSegmentSize, expired);
      && prepared != []
      && GrownChunks(prepared, data) == Appended(s.chunks[topic], data, s.maxSegmentSize, expired)
      && SizesBounded(GrownChunks(prepared, data), s.maxSegmentSize)
      && TotalSize(prepared) == |Frames(Flatten(s.chunks[topic]))|
  {
    var cs := s.chunks[topic];
    assert s.TopicOk(topic);
    GrowNew(cs, data);
    AppendedKeepsSizes(cs, data, s.maxSegmentSize, expired);
    TotalSizeIsFlat(cs);
  }

  lemma GrowNew(chunks: seq<Chunk>, data: Payload)
    ensures GrownChunks(chunks + [[]], data) == chunks + [[data]]
    ensures TotalSize(chunks + [[]]) == TotalSize(chunks)
  {
    assert [] + [data] == [data];
    assert (chunks + [[]])[..|chunks|] == chunks;
  }

  lemma CreatedFlat(chunks: ChunkLists, topic: string)
    ensures Flatten(Created(chunks, topic)[topic]) == if topic in chunks then Flatten(chunks[topic]) else []
  {
    FlattenNew<Payload>();
  }

  lemma FlattenNew<T>()
    ensures Flatten<T>([[]]) == []
  {
    FlattenSnoc<T>([], []);
    var none: seq<seq<T>> := [];
    assert none + [[]] == [[]];
  }

  function GrownSegments(segments: seq<SegmentMeta>, length: nat): seq<SegmentMeta>
    requires segments != []
  {
    segments[|segments| - 1 := segments[|segments| - 1].(size := segments[|segments| - 1].size + length)]
  }

  lemma StoreRefines(s: LogState, topic: string, data: Payload, content: seq<byte>)
    requires s.Refines() && topic in s.chunks && s.chunks[topic] != [] && s.registry[topic] != []
    requires Frames(s.chunks[topic][|s.chunks[topic]| - 1]) + Frame(data) <= content
    requires SizesBounded(GrownChunks(s.chunks[topic], data), s.maxSegmentSize)
    ensures s.(disk := s.disk[s.registry[topic][|s.registry[topic]| - 1].path := content],
               registry := s.registry[topic := GrownSegments(s.registry[topic], 4 + |data|)],
               chunks := s.chunks[topic := GrownChunks(s.chunks[topic], data)]).Refines()
  {
    hide LogState.Refines, Frames, Frame, SizesBounded, Ordered;
    ActiveIsLast(s, topic);
    GrowRefines(s, topic, data, content, GrownSegments(s.registry[topic], 4 + |data|), GrownChunks(s.chunks[topic], data));
  }

  lemma TopicLaidOut(s: LogState, topic: string)
    requires s.Refines() && topic in s.chunks
    ensures topic in s.registry && Layout(topic, s.registry[topic], s.chunks[topic])
  {
    assert s.TopicOk(topic);
  }

  /** Where the records of a batch stand behind those that were there before. */
  lemma BatchOffsets(before: seq<Payload>, batch: seq<Payload>)
    ensures forall i | 0 <= i < |batch| :: |Frames(before + batch[..i])| == OffsetOf(before + batch, |before| + i)
  {
    hide Frames;
    forall i | 0 <= i < |batch|
      ensures (before + batch)[..|before| + i] == before + batch[..i]
    {
    }
  }

  lemma SegmentOf(s: LogState, topic: string, i: nat)
    requires s.Refines() && topic in s.chunks && i < |s.registry[topic]| == |s.chunks[topic]|
    ensures
      var meta := s.registry[topic][i];
      && Laid(topic, meta, s.chunks[topic][i])
      && (meta.path in s.disk ==> Frames(s.chunks[topic][i]) <= s.disk[meta.path])
  {
    assert s.TopicOk(topic);
    assert SegmentStored(s.disk, s.registry[topic][i], s.chunks[topic][i]);
  }

  /** What the file holds after the frame is written behind the segment's records. */
  lemma FrameLands(s: LogState, meta: SegmentMeta, i: nat, data: Payload, segmentSizeInc: int) returns (content: seq<byte>)
    requires s.Refines() && meta.topic in s.chunks && i < |s.registry[meta.topic]| == |s.chunks[meta.topic]|
    requires meta == s.registry[meta.topic][i] && meta.size >= 0 && meta.path in s.disk
    ensures content == Storage.Written(s.disk[meta.path], meta.size, Frame(data), segmentSizeInc)
    ensures Frames(s.chunks[meta.topic][i]) + Frame(data) <= content
  {
    hide LogState.Refines, Frames, Frame, Storage.Written;
    SegmentOf(s, meta.topic, i);
    AfterWrite(s.disk[meta.path], s.chunks[meta.topic][i], data, segmentSizeInc);
    content := Storage.Written(s.disk[meta.path], meta.size, Frame(data), segmentSizeInc);
  }

  lemma ActiveIsLast(s: LogState, topic: string)
    requires s.Refines() && topic in s.chunks
    ensures topic in s.registry && |s.registry[topic]| == |s.chunks[topic]| > 0 && Ordered(s.registry[topic])
    ensures
      var n := |s.registry[topic]| - 1;
      var meta := s.registry[topic][n];
      && meta.topic == topic && meta.state == ACTIVE && meta.size == |Frames(s.chunks[topic][n])|
      && (meta.path in s.disk ==> Frames(s.chunks[topic][n]) <= s.disk[meta.path])
      && meta.baseOffset >= 0 && meta.GetEndOffset() == TotalSize(s.chunks[topic])
  {
    var n := |s.registry[topic]| - 1;
    assert s.TopicOk(topic);
    LayoutOrdered(topic, s.registry[topic], s.chunks[topic]);
    assert Laid(topic, s.registry[topic][n], s.chunks[topic][n]);
    assert SegmentStored(s.disk, s.registry[topic][n], s.chunks[topic][n]);
  }

  function GrownChunks(chunks: seq<Chunk>, data: Payload): seq<Chunk>
    requires chunks != []
  {
    chunks[|chunks| - 1 := chunks[|chunks| - 1] + [data]]
  }

  /** The written file starts with the old frames, then the new one. */
  lemma AfterWrite(before: seq<byte>, chunk: Chunk, data: Payload, increment: int)
    requires Frames(chunk) <= before
    ensures Frames(chunk) + Frame(data) <= Storage.Written(before, |Frames(chunk)|, Frame(data), increment)
  {
    hide Overlay, Extended, CapacityFor, Frames, Frame;
    var after := Storage.Written(before, |Frames(chunk)|, Frame(data), increment);
    assert before[..|Frames(chunk)|] == Frames(chunk);
  }

  class LogWriter {
    const view: LogView
    const registry: SegmentRegistry
    const memory: SegmentMemory

    constructor (view: LogView)
      ensures this.view == view && registry == view.registry && memory == view.memory
    {
      this.view, registry, memory := view, view.registry, view.memory;
    }

    /** The last segment of the topic, which is created at offset 0 if the topic is new. */
    method ActiveSegment(topic: string, ghost s: LogState) returns (meta: SegmentMeta, ghost s': LogState)
      requires s.Refines() && s.registry == registry.registry && TopicsSafe(s.place, s.chunks.Keys + {topic}) && s.place == registry.place
      modifies registry
      ensures s'.Refines() && s'.registry == registry.registry
      ensures s' == if topic in s.chunks then s else s.(registry := registry.registry, chunks := s.chunks[topic := [[]]])
      ensures registry.registry[topic] != [] && meta == registry.registry[topic][|registry.registry[topic]| - 1]
    {
      assert topic in s.chunks ==> s.TopicOk(topic) && Ordered(s.registry[topic]) by {
        if topic in s.chunks {
          LayoutOrdered(topic, s.registry[topic], s.chunks[topic]);
        }
      }
      var r := registry.GetSegment(topic, -1);
      if r == Err(TopicDoesntExist) {
        var created := registry.CreateSegment(topic, 0);
        meta := created.value;
        assert [] + [meta] == [meta];
        CreateRefines(s, topic, meta);
        s' := s.(registry := registry.registry, chunks := s.chunks[topic := [[]]]);
      } else {
        meta, s' := r.value, s;
      }
    }

    /** Seals the active segment and opens the next one at its end; the overlap check never trips. */
    method Rollover(topic: string, ghost s: LogState) returns (meta: SegmentMeta, ghost s': LogState)
      requires s.Refines() && s.registry == registry.registry && s.place == registry.place && topic in s.chunks
      requires s.chunks[topic] != [] && s.chunks[topic][|s.chunks[topic]| - 1] != []
      modifies registry
      ensures s'.Refines() && s'.registry == registry.registry
      ensures s' == s.(registry := registry.registry, chunks := s.chunks[topic := s.chunks[topic] + [[]]])
      ensures topic in registry.registry && registry.registry[topic] != []
      ensures meta == registry.registry[topic][|registry.registry[topic]| - 1]
    {
      hide LogState.Refines, TopicsSafe, Place.DirOf, Stored, Housed, SizesBounded, Sealed, OneActive, AllLaid, Contiguous;
      TopicLaidOut(s, topic);
      ghost var segments := s.registry[topic];
      LayoutOrdered(topic, segments, s.chunks[topic]);
      meta := RollSegments(topic, s.chunks[topic]);
      RolloverRefines(s, topic, meta);
      s' := s.(registry := registry.registry, chunks := s.chunks[topic := s.chunks[topic] + [[]]]);
    }

    method RollSegments(topic: string, ghost chunks: seq<Chunk>) returns (meta: SegmentMeta)
      requires topic in registry.registry && Layout(topic, registry.registry[topic], chunks)
      requires chunks[|chunks| - 1] != []
      modifies registry
      ensures LastEnd(old(registry.registry)[topic]) >= 0
      ensures meta == registry.NewSegment(topic, LastEnd(old(registry.registry)[topic]))
      ensures registry.registry ==
              old(registry.registry)[topic := Sealed(old(registry.registry)[topic]) + [meta]]
    {
      ghost var segments := registry.registry[topic];
      LayoutOrdered(topic, segments, chunks);
      var r := registry.GetSegment(topic, -1);
      var active := r.value;
      assert active == segments[|segments| - 1];
      var sealed := registry.ProgressState(active, SEALED);
      assert registry.registry[topic] == Sealed(segments);
      var created := registry.CreateSegment(topic, active.GetEndOffset());
      meta := created.value;
    }

    /** The write through the handle; the registry does not know of it yet. */
    method WriteFrame(meta: SegmentMeta, ghost i: nat, data: Payload, ghost s: LogState)
      returns (ghost s': LogState, ghost content: seq<byte>)
      requires view.memory == memory && view.registry == registry
      requires memory.AtRest() && view.Holds(s) && s.Refines()
      requires meta.topic in s.chunks && i < |s.registry[meta.topic]| == |s.chunks[meta.topic]|
      requires meta == s.registry[meta.topic][i] && meta.state == ACTIVE && meta.size >= 0
      modifies memory, memory.disk, memory.disk.files.Values, memory.cache.Values
      ensures memory.AtRest() && s'.Refines()
      ensures s' == s.(disk := s'.disk, owners := memory.Owners())
      ensures memory.disk.Snapshot() == s'.disk[meta.path := content]
      ensures Frames(s.chunks[meta.topic][i]) + Frame(data) <= content
      ensures memory.OnlyNew()
    {
      hide LogState.Refines, SegmentMemory.Valid, SegmentMemory.Holds, Entry.Maps, Frames, Frame, Storage.Written, TopicsSafe,
           Opened, CacheKey;
      var entry;
      entry, s' := view.AcquireSegment(meta, i, s);
      content := FrameLands(s', meta, i, data, memory.segmentSizeInc);
      WriteAndRelease(entry, meta.size, Frame(data));
    }

    method WriteAndRelease(entry: Entry, offset: nat, message: seq<byte>)
      requires memory.Valid() && memory.Holds(entry) && memory.IdleBut(entry) && entry.mutable
      modifies memory.disk, entry, entry.mv
      ensures memory.AtRest()
      ensures memory.disk.Snapshot() == old(memory.disk.Snapshot())[entry.filepath :=
                Storage.Written(old(memory.disk.Snapshot())[entry.filepath], offset, message, memory.segmentSizeInc)]
      ensures entry.mv != null && memory.disk.files == old(memory.disk.files)[entry.filepath := entry.mv]
      ensures entry.mv == old(entry.mv) || fresh(entry.mv)
    {
      hide SegmentMemory.Valid, SegmentMemory.Holds, Storage.Written;
      memory.HandleWrite(entry, offset, message);
      memory.ReleaseEntry(entry);
    }

    method Advance(meta: SegmentMeta, length: nat)
      requires meta.topic in registry.registry && Ordered(registry.registry[meta.topic])
      requires registry.registry[meta.topic] != []
      requires meta == registry.registry[meta.topic][|registry.registry[meta.topic]| - 1]
      modifies registry
      ensures registry.registry == old(registry.registry)[meta.topic := GrownSegments(old(registry.registry)[meta.topic], length)]
    {
      assert SearchEnds(registry.registry[meta.topic], meta.baseOffset, |registry.registry[meta.topic]| - 1);
      var advanced := registry.AdvanceOffset(meta, length);
    }

    /** Writes the framed record at the end of the active segment and advances the segment's size. */
    method StoreRecord(meta: SegmentMeta, data: Payload, ghost s: LogState) returns (ghost s': LogState)
      requires view.registry == registry && view.memory == memory
      requires memory.AtRest() && view.Holds(s) && s.Refines() && meta.topic in s.chunks && meta.topic in s.registry
      requires s.registry[meta.topic] != [] && meta == s.registry[meta.topic][|s.registry[meta.topic]| - 1]
      requires s.chunks[meta.topic] != [] && SizesBounded(GrownChunks(s.chunks[meta.topic], data), s.maxSegmentSize)
      modifies registry, memory, memory.disk, memory.disk.files.Values, memory.cache.Values
      ensures memory.AtRest() && s'.Refines()
      ensures s' == s.(disk := memory.disk.Snapshot(), registry := registry.registry, owners := memory.Owners(),
                       chunks := s.chunks[meta.topic := GrownChunks(s.chunks[meta.topic], data)])
      ensures memory.OnlyNew()
    {
      hide LogState.Refines, SegmentMemory.Valid, Frames, Frame, SizesBounded, GrownChunks, TopicsSafe;
      ActiveIsLast(s, meta.topic);
      var s1, content := WriteFrame(meta, |s.registry[meta.topic]| - 1, data, s);
      Advance(meta, 4 + |data|);
      s' := s1.(disk := s1.disk[meta.path := content],
                registry := s1.registry[meta.topic := GrownSegments(s1.registry[meta.topic], 4 + |data|)],
                chunks := s1.chunks[meta.topic := GrownChunks(s1.chunks[meta.topic], data)]);
      StoreRefines(s1, meta.topic, data, content);
    }

    /** Appends one record and returns where it starts; `expired` is the clock's part of the rollover rule. */
    method Write(topic: string, data: seq<byte>, expired: bool) returns (r: WriteResult)
      requires view.registry == registry && view.memory == memory
      requires view.Valid() && TopicsSafe(registry.place, view.chunks.Keys + {topic})
      modifies view, registry, memory, memory.disk, memory.disk.files.Values, memory.cache.Values
      ensures view.Valid()
      ensures r.TooLong? <==> |data| >= FRAME_LIMIT
      ensures r.TooLong? ==> view.chunks == Created(old(view.chunks), topic)
      ensures r.Written? ==>
                view.chunks == Created(old(view.chunks), topic)[topic :=
                  Appended(Created(old(view.chunks), topic)[topic], data, view.maxSegmentSize, expired)]
      ensures view.chunks.Keys == old(view.chunks).Keys + {topic}
      ensures r.Written? ==> r.offset == |Frames(old(view.Records(topic)))|
      ensures r.Written? ==> view.Records(topic) == old(view.Records(topic)) + [data]
      ensures forall t | t != topic :: view.Records(t) == old(view.Records(t))
      ensures memory.OnlyNew()
    {
      hide LogState.Refines, SegmentMemory.Valid, Appended, Frames, Flatten;
      ghost var chunks0 := view.chunks;
      var meta, s := EnsureTopic(topic);
      CreatedFlat(chunks0, topic);
      if |data| >= FRAME_LIMIT {
        return TooLong;
      }
      ActiveIsLast(s, topic);
      var offset := WriteActive(meta, data, expired, s);
      AppendedIsFlatAppend(s.chunks[topic], data, view.maxSegmentSize, expired);
      return Written(offset);
    }

    /** Appends the messages one by one; each offset is where its own message stands. */
    method WriteBatch(topic: string, batch: seq<Payload>, expired: seq<bool>) returns (offsets: seq<nat>)
      requires view.registry == registry && view.memory == memory && |expired| == |batch|
      requires view.Valid() && TopicsSafe(registry.place, view.chunks.Keys + {topic})
      modifies view, registry, memory, memory.disk, memory.disk.files.Values, memory.cache.Values
      ensures view.Valid()
      ensures view.Records(topic) == old(view.Records(topic)) + batch
      ensures forall t | t != topic :: view.Records(t) == old(view.Records(t))
      ensures |offsets| == |batch|
      ensures forall i | 0 <= i < |batch| ::
                offsets[i] == OffsetOf(view.Records(topic), |old(view.Records(topic))| + i)
      ensures memory.OnlyNew()
    {
      hide LogState.Refines, SegmentMemory.Valid, LogView.Valid, LogView.Records, Frames, OffsetOf, TopicsSafe;
      ghost var before := view.Records(topic);
      offsets := [];
      for i := 0 to |batch|
        invariant view.Valid() && TopicsSafe(registry.place, view.chunks.Keys + {topic}) && memory.OnlyNew()
        invariant view.Records(topic) == before + batch[..i]
        invariant forall t | t != topic :: view.Records(t) == old(view.Records(t))
        invariant |offsets| == i
        invariant forall k | 0 <= k < i :: offsets[k] == |Frames(before + batch[..k])|
      {
        ghost var keys := view.chunks.Keys;
        var r := Write(topic, batch[i], expired[i]);
        offsets := offsets + [r.offset];
        assert (keys + {topic}) + {topic} == keys + {topic};
        assert batch[..i + 1] == batch[..i] + [batch[i]];
      }
      assert batch[..|batch|] == batch;
      BatchOffsets(before, batch);
    }

    method EnsureTopic(topic: string) returns (meta: SegmentMeta, ghost s: LogState)
      requires view.registry == registry && view.memory == memory
      requires view.Valid() && TopicsSafe(registry.place, view.chunks.Keys + {topic})
      modifies view, registry
      ensures memory.AtRest() && view.Holds(s) && s.Refines()
      ensures view.chunks == s.chunks == Created(old(view.chunks), topic) && s.maxSegmentSize == view.maxSegmentSize
      ensures topic in s.registry && s.registry[topic] != [] && meta == s.registry[topic][|s.registry[topic]| - 1]
      ensures meta.topic == topic
    {
      hide LogState.Refines, SegmentMemory.Valid, TopicsSafe;
      meta, s := ActiveSegment(topic, view.State());
      view.chunks := s.chunks;
      ActiveIsLast(s, topic);
    }

    /** The segment the record goes to: the active one, or a new one after a rollover. */
    method ChooseSegment(active: SegmentMeta, length: nat, expired: bool, ghost s: LogState)
      returns (meta: SegmentMeta, ghost s': LogState)
      requires s.Refines() && s.registry == registry.registry && active.topic in s.chunks && active.topic in s.registry
      requires s.maxSegmentSize == view.maxSegmentSize && s.place == registry.place
      requires s.registry[active.topic] != [] && active == s.registry[active.topic][|s.registry[active.topic]| - 1]
      requires s.chunks[active.topic] != []
      modifies registry
      ensures s'.Refines() && s'.registry == registry.registry && active.topic in s'.registry
      ensures s' == s.(registry := registry.registry,
                       chunks := s.chunks[active.topic := Prepared(s.chunks[active.topic], length, s.maxSegmentSize, expired)])
      ensures s'.registry[active.topic] != []
      ensures meta == s'.registry[active.topic][|s'.registry[active.topic]| - 1]
    {
      hide LogState.Refines;
      ActiveIsLast(s, active.topic);
      if ShouldRollover(active, 4 + length, view.maxSegmentSize, expired) && active.size != 0 {
        meta, s' := Rollover(active.topic, s);
      } else {
        meta, s' := active, s;
        assert s.chunks == s.chunks[active.topic := s.chunks[active.topic]];
      }
    }

    /** The rest of a write, once the topic exists and the record is known to fit a frame. */
    method WriteActive(active: SegmentMeta, data: Payload, expired: bool, ghost s: LogState) returns (offset: nat)
      requires view.registry == registry && view.memory == memory
      requires memory.AtRest() && view.Holds(s) && s.Refines() && active.topic in s.chunks && active.topic in s.registry
      requires s.maxSegmentSize == view.maxSegmentSize && s.chunks[active.topic] != []
      requires s.registry[active.topic] != [] && active == s.registry[active.topic][|s.registry[active.topic]| - 1]
      modifies view, registry, memory, memory.disk, memory.disk.files.Values, memory.cache.Values
      ensures view.Valid()
      ensures offset == |Frames(Flatten(s.chunks[active.topic]))|
      ensures view.chunks ==
              s.chunks[active.topic := Appended(s.chunks[active.topic], data, s.maxSegmentSize, expired)]
      ensures memory.OnlyNew()
    {
      hide LogState.Refines, SegmentMemory.Valid, LogView.Valid, SizesBounded, Ordered, Prepared, Appended, GrownChunks, TotalSize,
           Frames, Flatten;
      var meta, s2 := ChooseSegment(active, |data|, expired, s);
      ActiveIsLast(s2, active.topic);
      WriteSizes(s, active.topic, data, expired);
      offset := meta.GetEndOffset();
      var s3 := StoreRecord(meta, data, s2);
      view.Remember(s3);
    }
  }
}
