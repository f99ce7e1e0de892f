/** How the segments of a topic make up one flat log of framed records. */
module FlatLog {
  import opened Seqs
  import opened Bytes
  import opened Paths
  import opened Segments
  import opened Registry
  import opened Storage

  /** The records of one segment. */
  type Chunk = seq<Payload>

  function TotalSize(chunks: seq<Chunk>): nat {
    if chunks == [] then 0 else TotalSize(chunks[..|chunks| - 1]) + |Frames(chunks[|chunks| - 1])|
  }

  /** Segment bases are the sizes of what came before: the flat log is cut, nothing is lost. */
  lemma {:induction false} TotalSizeIsFlat(chunks: seq<Chunk>)
    ensures TotalSize(chunks) == |Frames(Flatten(chunks))|
  {
    if chunks != [] {
      TotalSizeIsFlat(chunks[..|chunks| - 1]);
      FramesConcat(Flatten(chunks[..|chunks| - 1]), chunks[|chunks| - 1]);
    }
  }

  lemma {:induction false} TotalSizePrefix(chunks: seq<Chunk>, i: nat, j: nat)
    requires i <= j <= |chunks|
    ensures TotalSize(chunks[..i]) <= TotalSize(chunks[..j])
    ensures i < j ==> TotalSize(chunks[..i]) + |Frames(chunks[i])| <= TotalSize(chunks[..j])
    decreases j
  {
    if i < j {
      assert chunks[..j][..j - 1] == chunks[..j - 1];
      if i < j - 1 {
        TotalSizePrefix(chunks, i, j - 1);
      }
    }
  }

  /** What a write does to the chunks of its topic. */
  function Appended(chunks: seq<Chunk>, data: Payload, maxSegmentSize: int, expired: bool): seq<Chunk> {
    if chunks == [] then [[data]]
    else
      var n := |chunks| - 1;
      if (expired || |Frames(chunks[n])| + |data| + 4 > maxSegmentSize) && chunks[n] != []
      then chunks + [[data]]
      else chunks[n := chunks[n] + [data]]
  }

  /** However segments roll over, the flat log grows by exactly the new record. */
  lemma AppendedIsFlatAppend(chunks: seq<Chunk>, data: Payload, maxSegmentSize: int, expired: bool)
    ensures Flatten(Appended(chunks, data, maxSegmentSize, expired)) == Flatten(chunks) + [data]
  {
    if chunks == [] {
      FlattenSnoc<Payload>([], [data]);
      assert [] + [[data]] == [[data]];
    } else {
      FlattenSnoc(chunks, [data]);
      FlattenGrowLast(chunks, data);
    }
  }

  /** A segment outgrows the limit only when it holds a single record. */
  ghost predicate SizesBounded(chunks: seq<Chunk>, maxSegmentSize: int) {
    forall i | 0 <= i < |chunks| :: |Frames(chunks[i])| <= maxSegmentSize || |chunks[i]| <= 1
  }

  lemma AppendedKeepsSizes(chunks: seq<Chunk>, data: Payload, maxSegmentSize: int, expired: bool)
    requires SizesBounded(chunks, maxSegmentSize)
    ensures SizesBounded(Appended(chunks, data, maxSegmentSize, expired), maxSegmentSize)
  {
    if chunks != [] {
      FramesSnoc(chunks[|chunks| - 1], data);
    }
  }

  /** The registry's list for a topic lays the chunks out contiguously from offset 0: only the last
      segment is active, and every earlier one is sealed and holds a record. */
  ghost predicate Layout(topic: string, segments: seq<SegmentMeta>, chunks: seq<Chunk>) {
    && |segments| == |chunks| > 0
    && AllLaid(topic, segments, chunks)
    && Contiguous(segments)
    && OneActive(segments, chunks)
  }

  ghost predicate AllLaid(topic: string, segments: seq<SegmentMeta>, chunks: seq<Chunk>)
    requires |segments| == |chunks|
  {
    forall i {:trigger segments[i]} | 0 <= i < |segments| :: Laid(topic, segments[i], chunks[i])
  }

  ghost predicate Laid(topic: string, segment: SegmentMeta, chunk: Chunk) {
    && segment.topic == topic
    && segment.baseOffset >= 0
    && segment.path.baseOffset == segment.baseOffset
    && segment.size == |Frames(chunk)|
  }

  ghost predicate Contiguous(segments: seq<SegmentMeta>)
    requires segments != []
  {
    && segments[0].baseOffset == 0
    && forall i, j | 0 <= i < |segments| && 0 <= j < |segments| && j == i + 1 ::
         segments[j].baseOffset == segments[i].GetEndOffset()
  }

  ghost predicate OneActive(segments: seq<SegmentMeta>, chunks: seq<Chunk>)
    requires |segments| == |chunks| > 0
  {
    && segments[|segments| - 1].state == ACTIVE
    && (forall i {:trigger segments[i]} | 0 <= i < |segments| - 1 :: segments[i].state == SEALED && chunks[i] != [])
  }

  /** Every base offset is the size of the records before it. */
  lemma {:induction false} BaseIsTotal(topic: string, segments: seq<SegmentMeta>, chunks: seq<Chunk>, i: nat)
    requires Layout(topic, segments, chunks) && i < |segments|
    ensures segments[i].baseOffset == TotalSize(chunks[..i])
    ensures segments[i].GetEndOffset() == TotalSize(chunks[..i + 1])
  {
    hide OneActive, Frames;
    if i > 0 {
      BaseIsTotal(topic, segments, chunks, i - 1);
    }
    assert chunks[..i + 1][..i] == chunks[..i];
  }

  lemma LayoutOrdered(topic: string, segments: seq<SegmentMeta>, chunks: seq<Chunk>)
    requires Layout(topic, segments, chunks)
    ensures Ordered(segments)
    ensures segments[|segments| - 1].GetEndOffset() == TotalSize(chunks)
  {
    forall i, j | 0 <= i < j < |segments|
      ensures segments[i].baseOffset < segments[j].baseOffset && segments[i].GetEndOffset() <= segments[j].baseOffset
    {
      BaseIsTotal(topic, segments, chunks, i);
      BaseIsTotal(topic, segments, chunks, j);
      TotalSizePrefix(chunks, i + 1, j);
    }
    BaseIsTotal(topic, segments, chunks, |segments| - 1);
    assert chunks[..|chunks|] == chunks;
  }

  /** Every offset of the log lies in a segment. */
  lemma {:induction false} OffsetCovered(chunks: seq<Chunk>, offset: nat) returns (i: nat)
    requires offset < TotalSize(chunks)
    ensures i < |chunks|
    ensures TotalSize(chunks[..i]) <= offset < TotalSize(chunks[..i]) + |Frames(chunks[i])|
  {
    var front := chunks[..|chunks| - 1];
    if offset < TotalSize(front) {
      i := OffsetCovered(front, offset);
      assert front[..i] == chunks[..i];
    } else {
      i := |front|;
    }
  }

  function Sealed(segments: seq<SegmentMeta>): (r: seq<SegmentMeta>)
    ensures |r| == |segments|
    ensures forall i | 0 <= i < |r| :: r[i] == segments[i].(state := SEALED)
  {
    seq(|segments|, i requires 0 <= i < |segments| => segments[i].(state := SEALED))
  }

  function LastEnd(segments: seq<SegmentMeta>): int
    requires segments != []
  {
    segments[|segments| - 1].GetEndOffset()
  }

  lemma ContiguousSnoc(segments: seq<SegmentMeta>, next: SegmentMeta)
    requires segments != [] && Contiguous(segments) && next.baseOffset == LastEnd(segments)
    ensures Contiguous(segments + [next])
  {
  }

  lemma LaidSealed(topic: string, segments: seq<SegmentMeta>, chunks: seq<Chunk>)
    requires |segments| == |chunks| > 0 && AllLaid(topic, segments, chunks) && Contiguous(segments)
    ensures AllLaid(topic, Sealed(segments), chunks) && Contiguous(Sealed(segments))
  {
  }

  lemma LaidSnoc(topic: string, segments: seq<SegmentMeta>, chunks: seq<Chunk>,
                 next: SegmentMeta, chunk: Chunk)
    requires |segments| == |chunks| && AllLaid(topic, segments, chunks) && Laid(topic, next, chunk)
    ensures AllLaid(topic, segments + [next], chunks + [chunk])
  {
  }

  lemma ActiveSnoc(segments: seq<SegmentMeta>, chunks: seq<Chunk>, next: SegmentMeta, chunk: Chunk)
    requires |segments| == |chunks| && next.state == ACTIVE && forall c | c in chunks :: c != []
    ensures OneActive(Sealed(segments) + [next], chunks + [chunk])
  {
    assert forall i | 0 <= i < |chunks| :: (chunks + [chunk])[i] == chunks[i] && chunks[i] in chunks;
  }

  /** Sealing the active segment and opening one at its end keeps the layout. */
  lemma LayoutRollover(topic: string, segments: seq<SegmentMeta>, chunks: seq<Chunk>, next: SegmentMeta)
    requires Layout(topic, segments, chunks) && chunks[|chunks| - 1] != []
    requires Laid(topic, next, []) && next.state == ACTIVE && next.baseOffset == LastEnd(segments)
    ensures Layout(topic, Sealed(segments) + [next], chunks + [[]])
  {
    LaidSealed(topic, segments, chunks);
    ContiguousSnoc(Sealed(segments), next);
    LaidSnoc(topic, Sealed(segments), chunks, next, []);
    forall i | 0 <= i < |chunks|
      ensures chunks[i] != []
    {
      assert segments[i] == segments[i];
    }
    ActiveSnoc(segments, chunks, next, []);
  }

  lemma LayoutGrow(topic: string, segments: seq<SegmentMeta>, chunks: seq<Chunk>, data: Payload)
    requires Layout(topic, segments, chunks)
    ensures
      var n := |segments| - 1;
      Layout(topic, segments[n := segments[n].(size := segments[n].size + 4 + |data|)],
             chunks[n := chunks[n] + [data]])
  {
    var n := |segments| - 1;
    var segs, cs := segments[n := segments[n].(size := segments[n].size + 4 + |data|)], chunks[n := chunks[n] + [data]];
    FramesSnoc(chunks[n], data);
    forall i | 0 <= i < n
      ensures segs[i].state == SEALED && cs[i] != []
    {
      assert segs[i] == segments[i];
    }
  }

  /** The file of a segment starts with the frames of its records. */
  predicate SegmentStored(disk: Contents, segment: SegmentMeta, chunk: Chunk) {
    segment.size > 0 ==> segment.path in disk && Frames(chunk) <= disk[segment.path]
  }

  ghost predicate Stored(disk: Contents, segments: seq<SegmentMeta>, chunks: seq<Chunk>)
    requires |segments| == |chunks|
  {
    forall i {:trigger segments[i]} | 0 <= i < |segments| :: SegmentStored(disk, segments[i], chunks[i])
  }

  predicate SameSegment(owner: SegmentMeta, segment: SegmentMeta) {
    && owner.topic == segment.topic && owner.baseOffset == segment.baseOffset && owner.path == segment.path
    && (segment.state == ACTIVE ==> owner.state == ACTIVE)
  }

  /** All segments lie in this directory. */
  ghost predicate Housed(segments: seq<SegmentMeta>, dir: Dir) {
    forall i {:trigger segments[i]} | 0 <= i < |segments| :: segments[i].path.dir == dir
  }

  type SegmentLists = map<string, seq<SegmentMeta>>
  type ChunkLists = map<string, seq<Chunk>>

  ghost predicate OwnerListed(owner: SegmentMeta, registry: SegmentLists) {
    owner.topic in registry
    && exists i :: 0 <= i < |registry[owner.topic]| && SameSegment(owner, registry[owner.topic][i])
  }

  /** What the log component holds at rest, with the records of each topic beside it. */
  datatype LogState = LogState(
    place: Place,
    maxSegmentSize: int,
    disk: Contents,
    registry: SegmentLists,
    owners: map<string, SegmentMeta>,
    chunks: ChunkLists)
  {
    /** The representation invariant: the registry, the files and the cache stand for `chunks`. */
    ghost predicate Refines() {
      match this
      case LogState(place, _, _, registry, owners, chunks) =>
        && TopicsSafe(place, chunks.Keys)
        && registry.Keys == chunks.Keys
        && (forall t | t in chunks :: TopicOk(t))
        && (forall k | k in owners :: OwnerListed(owners[k], registry))
    }

    ghost predicate TopicOk(topic: string)
      requires topic in registry && topic in chunks
    {
      && Layout(topic, registry[topic], chunks[topic])
      && Housed(registry[topic], place.DirOf(topic))
      && SizesBounded(chunks[topic], maxSegmentSize)
      && Stored(disk, registry[topic], chunks[topic])
    }
  }

  /** Replacing one topic's lists: what has to be shown. */
  lemma TopicUpdate(s: LogState, topic: string, segments: seq<SegmentMeta>, cs: seq<Chunk>)
    requires s.Refines() && TopicsSafe(s.place, s.chunks.Keys + {topic})
    requires Layout(topic, segments, cs) && SizesBounded(cs, s.maxSegmentSize)
    requires Housed(segments, s.place.DirOf(topic))
    requires Stored(s.disk, segments, cs)
    requires topic in s.registry ==> ListKeeps(s.registry[topic], segments)
    ensures s.(registry := s.registry[topic := segments], chunks := s.chunks[topic := cs]).Refines()
  {
    hide Layout, SizesBounded, Stored, OwnerListed, ListKeeps, TopicsSafe, Housed;
    var next := s.(registry := s.registry[topic := segments], chunks := s.chunks[topic := cs]);
    assert next.chunks.Keys == s.chunks.Keys + {topic};
    TopicsUpdate(s, topic, segments, cs);
    OwnersUpdate(s.owners, s.registry, topic, segments);
  }

  lemma TopicsUpdate(s: LogState, topic: string, segments: seq<SegmentMeta>, cs: seq<Chunk>)
    requires s.registry.Keys == s.chunks.Keys && forall t | t in s.chunks :: s.TopicOk(t)
    requires Layout(topic, segments, cs) && SizesBounded(cs, s.maxSegmentSize)
    requires Housed(segments, s.place.DirOf(topic))
    requires Stored(s.disk, segments, cs)
    ensures
      var next := s.(registry := s.registry[topic := segments], chunks := s.chunks[topic := cs]);
      forall t | t in next.chunks :: next.TopicOk(t)
  {
    var next := s.(registry := s.registry[topic := segments], chunks := s.chunks[topic := cs]);
    forall t | t in next.chunks
      ensures next.TopicOk(t)
    {
      assert t != topic ==> s.TopicOk(t);
    }
  }

  lemma OwnersUpdate(owners: map<string, SegmentMeta>, registry: SegmentLists, topic: string, segments: seq<SegmentMeta>)
    requires forall k | k in owners :: OwnerListed(owners[k], registry)
    requires topic in registry ==> ListKeeps(registry[topic], segments)
    ensures forall k | k in owners :: OwnerListed(owners[k], registry[topic := segments])
  {
    forall k | k in owners
      ensures OwnerListed(owners[k], registry[topic := segments])
    {
      OwnerKept(owners[k], registry, topic, segments);
    }
  }

  /** Every segment is still listed at its place, and none became active again. */
  ghost predicate ListKeeps(before: seq<SegmentMeta>, after: seq<SegmentMeta>) {
    && |before| <= |after|
    && forall i | 0 <= i < |before| ::
         && after[i].topic == before[i].topic
         && after[i].baseOffset == before[i].baseOffset
         && after[i].path == before[i].path
         && (after[i].state == ACTIVE ==> before[i].state == ACTIVE)
  }

  lemma OwnerKept(owner: SegmentMeta, registry: SegmentLists, topic: string, segments: seq<SegmentMeta>)
    requires OwnerListed(owner, registry)
    requires topic in registry ==> ListKeeps(registry[topic], segments)
    ensures OwnerListed(owner, registry[topic := segments])
  {
    var i :| 0 <= i < |registry[owner.topic]| && SameSegment(owner, registry[owner.topic][i]);
    assert SameSegment(owner, registry[topic := segments][owner.topic][i]);
  }

  // -- The three moves of a write ------------------------------------------------------------------

  lemma CreateRefines(s: LogState, topic: string, first: SegmentMeta)
    requires s.Refines() && TopicsSafe(s.place, s.chunks.Keys + {topic}) && topic !in s.registry
    requires first.path.dir == s.place.DirOf(topic)
    requires Laid(topic, first, []) && first.baseOffset == 0 && first.state == ACTIVE
    ensures s.(registry := s.registry[topic := [first]], chunks := s.chunks[topic := [[]]]).Refines()
  {
    TopicUpdate(s, topic, [first], [[]]);
  }

  lemma RolloverRefines(s: LogState, topic: string, next: SegmentMeta)
    requires s.Refines() && topic in s.chunks
    requires s.chunks[topic] != [] && s.chunks[topic][|s.chunks[topic]| - 1] != []
    requires Laid(topic, next, []) && next.state == ACTIVE && next.path.dir == s.place.DirOf(topic)
    requires s.registry[topic] != [] && next.baseOffset == LastEnd(s.registry[topic])
    ensures s.(registry := s.registry[topic := Sealed(s.registry[topic]) + [next]],
               chunks := s.chunks[topic := s.chunks[topic] + [[]]]).Refines()
  {
    hide Layout, Laid, SizesBounded, Stored, OwnerListed, ListKeeps, TopicsSafe, Housed, Sealed;
    var segments, chunks := s.registry[topic], s.chunks[topic];
    assert s.TopicOk(topic) && s.chunks.Keys + {topic} == s.chunks.Keys;
    LayoutRollover(topic, segments, chunks, next);
    EmptyChunkFits(chunks, s.maxSegmentSize);
    SealedKeeps(segments, next);
    SealedHoused(segments, next, s.place.DirOf(topic));
    LaidIsEmpty(topic, next);
    StoredRollover(s.disk, segments, chunks, next);
    TopicUpdate(s, topic, Sealed(segments) + [next], chunks + [[]]);
  }

  lemma EmptyChunkFits(chunks: seq<Chunk>, maxSegmentSize: int)
    requires SizesBounded(chunks, maxSegmentSize)
    ensures SizesBounded(chunks + [[]], maxSegmentSize)
  {
  }

  lemma SealedKeeps(segments: seq<SegmentMeta>, next: SegmentMeta)
    ensures ListKeeps(segments, Sealed(segments) + [next])
  {
  }

  lemma SealedHoused(segments: seq<SegmentMeta>, next: SegmentMeta, dir: Dir)
    requires Housed(segments, dir) && next.path.dir == dir
    ensures Housed(Sealed(segments) + [next], dir)
  {
  }

  lemma LaidIsEmpty(topic: string, next: SegmentMeta)
    requires Laid(topic, next, [])
    ensures next.size == 0
  {
  }

  lemma StoredRollover(disk: Contents, segments: seq<SegmentMeta>, chunks: seq<Chunk>, next: SegmentMeta)
    requires |segments| == |chunks| && Stored(disk, segments, chunks) && next.size == 0
    ensures Stored(disk, Sealed(segments) + [next], chunks + [[]])
  {
    forall i | 0 <= i < |segments|
      ensures SegmentStored(disk, Sealed(segments)[i], chunks[i])
    {
      assert SegmentStored(disk, segments[i], chunks[i]);
    }
  }

  /** Files only grow, or keep what they had; entries come and go for listed segments. */
  lemma CacheRefines(s: LogState, disk: Contents, owners: map<string, SegmentMeta>)
    requires s.Refines()
    requires forall p | p in s.disk :: p in disk && s.disk[p] <= disk[p]
    requires forall k | k in owners :: OwnerListed(owners[k], s.registry)
    ensures s.(disk := disk, owners := owners).Refines()
  {
    var next := s.(disk := disk, owners := owners);
    forall t | t in s.chunks
      ensures next.TopicOk(t)
    {
      assert s.TopicOk(t);
      StoredLonger(s.disk, disk, s.registry[t], s.chunks[t]);
    }
  }

  lemma StoredLonger(before: Contents, after: Contents, segments: seq<SegmentMeta>, chunks: seq<Chunk>)
    requires |segments| == |chunks| && Stored(before, segments, chunks)
    requires forall p | p in before :: p in after && before[p] <= after[p]
    ensures Stored(after, segments, chunks)
  {
    forall i | 0 <= i < |segments|
      ensures SegmentStored(after, segments[i], chunks[i])
    {
      assert SegmentStored(before, segments[i], chunks[i]);
    }
  }

  lemma StoredElsewhere(disk: Contents, segments: seq<SegmentMeta>, chunks: seq<Chunk>, path: FilePath, content: seq<byte>)
    requires |segments| == |chunks| && Stored(disk, segments, chunks)
    requires forall i | 0 <= i < |segments| :: segments[i].path != path
    ensures Stored(disk[path := content], segments, chunks)
  {
    forall i | 0 <= i < |segments|
      ensures SegmentStored(disk[path := content], segments[i], chunks[i])
    {
      assert SegmentStored(disk, segments[i], chunks[i]);
    }
  }

  /** The record lands after the frames of the active segment, and no other segment shares its file. */
  lemma StoredGrow(disk: Contents, topic: string, segments: seq<SegmentMeta>, chunks: seq<Chunk>,
                   data: Payload, content: seq<byte>)
    requires Layout(topic, segments, chunks) && Stored(disk, segments, chunks)
    requires Frames(chunks[|chunks| - 1]) + Frame(data) <= content
    ensures
      var n := |segments| - 1;
      Stored(disk[segments[n].path := content],
             segments[n := segments[n].(size := segments[n].size + 4 + |data|)],
             chunks[n := chunks[n] + [data]])
  {
    var n := |segments| - 1;
    var after, segs := disk[segments[n].path := content], segments[n := segments[n].(size := segments[n].size + 4 + |data|)];
    var cs := chunks[n := chunks[n] + [data]];
    FramesSnoc(chunks[n], data);
    LayoutOrdered(topic, segments, chunks);
    forall i | 0 <= i < |segs|
      ensures SegmentStored(after, segs[i], cs[i])
    {
      assert SegmentStored(disk, segments[i], chunks[i]);
      if i < n {
        assert segments[i].path != segments[n].path;
      }
    }
  }

  /** Segments of different topics lie in different directories. */
  lemma OtherFiles(s: LogState, t: string, topic: string, n: nat)
    requires s.Refines() && t in s.chunks && topic in s.chunks && t != topic && n < |s.registry[topic]|
    ensures forall i | 0 <= i < |s.registry[t]| :: s.registry[t][i].path != s.registry[topic][n].path
  {
    hide Layout, Stored, SizesBounded, OwnerListed, Place.DirOf, KeySafe, WaysFree;
    assert s.TopicOk(t) && s.TopicOk(topic);
  }

  /** Writing beyond the committed bytes of the active segment disturbs no record. */
  lemma OverwriteRefines(s: LogState, topic: string, content: seq<byte>)
    requires s.Refines() && topic in s.chunks && |s.registry[topic]| == |s.chunks[topic]| > 0
    requires Frames(s.chunks[topic][|s.chunks[topic]| - 1]) <= content
    ensures s.(disk := s.disk[s.registry[topic][|s.registry[topic]| - 1].path := content]).Refines()
  {
    hide AllLaid, Contiguous, OneActive, Stored, Housed, SizesBounded, OwnerListed, TopicsSafe, Place.DirOf, Frames;
    var segments, n := s.registry[topic], |s.registry[topic]| - 1;
    var next := s.(disk := s.disk[segments[n].path := content]);
    forall t | t in s.chunks
      ensures next.TopicOk(t)
    {
      assert s.TopicOk(t) && s.TopicOk(topic);
      if t != topic {
        OtherFiles(s, t, topic, n);
        StoredElsewhere(s.disk, s.registry[t], s.chunks[t], segments[n].path, content);
      } else {
        StoredOver(s.disk, topic, segments, s.chunks[topic], content);
      }
    }
  }

  lemma StoredOver(disk: Contents, topic: string, segments: seq<SegmentMeta>, chunks: seq<Chunk>, content: seq<byte>)
    requires Layout(topic, segments, chunks) && Stored(disk, segments, chunks)
    requires Frames(chunks[|chunks| - 1]) <= content
    ensures Stored(disk[segments[|segments| - 1].path := content], segments, chunks)
  {
    var after, n := disk[segments[|segments| - 1].path := content], |segments| - 1;
    LayoutOrdered(topic, segments, chunks);
    forall i | 0 <= i < |segments|
      ensures SegmentStored(after, segments[i], chunks[i])
    {
      assert SegmentStored(disk, segments[i], chunks[i]);
      if i < n {
        assert segments[i].path != segments[n].path;
      }
    }
  }

  /** The active segment takes one more record. */
  predicate GrowsBy(segments: seq<SegmentMeta>, chunks: seq<Chunk>, data: Payload, segs: seq<SegmentMeta>, cs: seq<Chunk>) {
    && |segments| == |chunks| > 0
    && segs == segments[|segments| - 1 := segments[|segments| - 1].(size := segments[|segments| - 1].size + 4 + |data|)]
    && cs == chunks[|chunks| - 1 := chunks[|chunks| - 1] + [data]]
  }

  lemma GrownTopic(disk: Contents, topic: string, segments: seq<SegmentMeta>, chunks: seq<Chunk>, data: Payload,
                   content: seq<byte>, segs: seq<SegmentMeta>, cs: seq<Chunk>)
    requires Layout(topic, segments, chunks) && Stored(disk, segments, chunks)
    requires Frames(chunks[|chunks| - 1]) + Frame(data) <= content
    requires GrowsBy(segments, chunks, data, segs, cs)
    ensures Layout(topic, segs, cs) && ListKeeps(segments, segs)
    ensures Stored(disk[segments[|segments| - 1].path := content], segs, cs)
  {
    LayoutGrow(topic, segments, chunks, data);
    StoredGrow(disk, topic, segments, chunks, data, content);
  }

  lemma GrowRefines(s: LogState, topic: string, data: Payload, content: seq<byte>, segs: seq<SegmentMeta>, cs: seq<Chunk>)
    requires s.Refines() && topic in s.chunks && GrowsBy(s.registry[topic], s.chunks[topic], data, segs, cs)
    requires Frames(s.chunks[topic][|s.chunks[topic]| - 1]) + Frame(data) <= content
    requires SizesBounded(cs, s.maxSegmentSize)
    ensures s.(disk := s.disk[s.registry[topic][|s.registry[topic]| - 1].path := content],
               registry := s.registry[topic := segs],
               chunks := s.chunks[topic := cs]).Refines()
  {
    hide AllLaid, Contiguous, OneActive, SizesBounded, Stored, OwnerListed, TopicsSafe, Frames, Frame, ListKeeps, Place.DirOf;
    assert s.TopicOk(topic);
    GrownTopic(s.disk, topic, s.registry[topic], s.chunks[topic], data, content, segs, cs);
    OverwriteRefines(s, topic, content);
    assert s.chunks.Keys + {topic} == s.chunks.Keys;
    TopicUpdate(s.(disk := s.disk[s.registry[topic][|s.registry[topic]| - 1].path := content]), topic, segs, cs);
  }

  /** A write opens a new segment exactly when the active one holds something and is too old or would grow too large;
      otherwise the record joins the active one. */
  lemma RollsOverIff(before: LogState, after: LogState, topic: string, data: Payload, expired: bool)
    requires before.Refines() && after.Refines() && topic in before.chunks && topic in after.chunks
    requires after.chunks[topic] == Appended(before.chunks[topic], data, before.maxSegmentSize, expired)
    ensures topic in before.registry && before.registry[topic] != [] && topic in after.registry
    ensures
      var segments := before.registry[topic];
      var active := segments[|segments| - 1];
      if active.size != 0 && (expired || active.size + 4 + |data| > before.maxSegmentSize)
      then |after.registry[topic]| == |segments| + 1
           && after.registry[topic][|segments|].baseOffset == active.GetEndOffset()
           && after.registry[topic][|segments|].size == 4 + |data|
      else |after.registry[topic]| == |segments|
           && after.registry[topic][|segments| - 1].size == active.size + 4 + |data|
  {
    hide Stored, SizesBounded, OwnerListed, TopicsSafe, Housed, Layout, Frames, Frame;
    AppendedEnds(before, after, topic, data, expired);
    var chunk := before.chunks[topic][|before.chunks[topic]| - 1];
    FramesOne(data);
    FramesSnoc(chunk, data);
    EmptyHasNoFrames(chunk);
  }

  lemma EmptyHasNoFrames(chunk: Chunk)
    ensures |Frames(chunk)| == 0 <==> chunk == []
  {
  }

  lemma AppendedEnds(before: LogState, after: LogState, topic: string, data: Payload, expired: bool)
    requires before.Refines() && after.Refines() && topic in before.chunks && topic in after.chunks
    requires after.chunks[topic] == Appended(before.chunks[topic], data, before.maxSegmentSize, expired)
    ensures
      var n, m := |before.chunks[topic]| - 1, |after.chunks[topic]| - 1;
      && n >= 0 && m >= 0 && topic in after.registry && |after.registry[topic]| == m + 1
      && topic in before.registry && |before.registry[topic]| == n + 1
      && before.registry[topic][n].size == |Frames(before.chunks[topic][n])|
      && after.registry[topic][m].size == |Frames(after.chunks[topic][m])|
      && (m == n + 1 ==> after.registry[topic][m].baseOffset == before.registry[topic][n].GetEndOffset())
  {
    hide Stored, SizesBounded, OwnerListed, TopicsSafe, Housed, Frames;
    assert before.TopicOk(topic) && after.TopicOk(topic);
    var n, m := |before.chunks[topic]| - 1, |after.chunks[topic]| - 1;
    assert Laid(topic, before.registry[topic][n], before.chunks[topic][n]);
    assert Laid(topic, after.registry[topic][m], after.chunks[topic][m]);
    BaseIsTotal(topic, before.registry[topic], before.chunks[topic], n);
    BaseIsTotal(topic, after.registry[topic], after.chunks[topic], m);
    if m == n + 1 {
      assert after.chunks[topic][..m] == before.chunks[topic] == before.chunks[topic][..n + 1];
    }
  }

  // -- Topics that share a directory -----------------------------------------------------------

  lemma FirstRecord(content: seq<byte>, rs: seq<Payload>)
    requires rs != [] && Frames(rs) <= content
    ensures |content| >= 4 && |content| >= 4 + FromBytes(content[..4])
    ensures rs[0] == content[4..4 + FromBytes(content[..4])]
  {
    hide Frames, FromBytes, OffsetOf;
    RecordAt(rs, 0);
    StartsAtZero(rs);
    var w := Frames(rs);
    assert w[0..4] == content[..4] && w[4..4 + |rs[0]|] == content[4..4 + |rs[0]|];
  }

  /** No files can stand for two topics in one directory, unless their first records are the same: both have their
      first segment in the same file. So the log keeps both topics only if their directories differ. */
  lemma SharedDirectoryConfuses(state: LogState, s: string, t: string)
    requires s in state.registry && s in state.chunks && state.TopicOk(s) && state.chunks[s][0] != []
    requires t in state.registry && t in state.chunks && state.TopicOk(t) && state.chunks[t][0] != []
    requires state.place.DirOf(s) == state.place.DirOf(t)
    ensures state.chunks[s][0][0] == state.chunks[t][0][0]
  {
    hide Frames, FromBytes, Place.DirOf;
    var first, other := state.registry[s][0], state.registry[t][0];
    assert Laid(s, first, state.chunks[s][0]) && Laid(t, other, state.chunks[t][0]);
    assert SegmentStored(state.disk, first, state.chunks[s][0]) && SegmentStored(state.disk, other, state.chunks[t][0]);
    FirstRecord(state.disk[first.path], state.chunks[s][0]);
    FirstRecord(state.disk[first.path], state.chunks[t][0]);
  }

  /** What then happens: the first write to either topic goes to the start of the file, over the other's record. */
  lemma FirstRecordLost(file: seq<byte>, p: Payload, q: Payload, segmentSizeInc: int)
    requires p != q
    ensures
      var one := Storage.Written(file, 0, Frame(p), segmentSizeInc);
      var both := Storage.Written(one, 0, Frame(q), segmentSizeInc);
      Frame(p) <= one && Frame(q) <= both && !(Frame(p) <= both)
  {
    hide Frame, FromBytes;
    var one := Storage.Written(file, 0, Frame(p), segmentSizeInc);
    var both := Storage.Written(one, 0, Frame(q), segmentSizeInc);
    if Frame(p) <= both {
      FramesOne(p);
      FramesOne(q);
      FirstRecord(both, [p]);
      FirstRecord(both, [q]);
    }
  }
}
