/** Reading a batch of whole records from one segment. */
module Reading {
  import opened Seqs
  import opened Bytes
  import opened Segments
  import opened Registry
  import opened Storage
  import opened FlatLog
  import opened Writing

  datatype ReadResult = ReadResult(data: seq<byte>, nextOffset: nat, latest: nat)

  /** `rs[k..j]` is the longest run of whole records from `k` that fits `size` bytes, or just record `k`
      when even that does not fit. */
  ghost predicate LongestRun(rs: seq<Payload>, k: nat, j: nat, size: int) {
    && k < j <= |rs|
    && (j == k + 1 || |Frames(rs[k..j])| <= size)
    && (j == |rs| || |Frames(rs[k..j + 1])| > size)
  }

  lemma RunGrows(rs: seq<Payload>, k: nat, i: nat, j: nat)
    requires k <= i <= j <= |rs|
    ensures |Frames(rs[k..j])| == |Frames(rs[k..i])| + |Frames(rs[i..j])|
    ensures |Frames(rs[k..j])| == OffsetOf(rs, j) - OffsetOf(rs, k)
  {
    CutAtRecord(rs, k, i);
    CutAtRecord(rs, i, j);
    CutAtRecord(rs, k, j);
  }

  /** No longer run fits, so the end of the batch is determined. */
  lemma LongestRunIsMaximal(rs: seq<Payload>, k: nat, j: nat, size: int, other: nat)
    requires LongestRun(rs, k, j, size)
    requires k < other <= |rs| && |Frames(rs[k..other])| <= size
    ensures other <= j
  {
    if j < other {
      RunGrows(rs, k, j + 1, other);
    }
  }

  /** The end of the longest run is unique. */
  lemma LongestRunUnique(rs: seq<Payload>, k: nat, j: nat, e: nat, size: int)
    requires LongestRun(rs, k, j, size) && LongestRun(rs, k, e, size)
    ensures j == e
  {
    hide Frames;
    if j < e {
      RunGrows(rs, k, j + 1, e);
    }
    if e < j {
      RunGrows(rs, k, e + 1, j);
    }
  }

  lemma OnlyRun(rs: seq<Payload>, k: nat, j: nat, size: int)
    requires LongestRun(rs, k, j, size)
    ensures forall e: nat | LongestRun(rs, k, e, size) :: |Frames(rs[k..e])| == |Frames(rs[k..j])|
  {
    hide LongestRun, Frames;
    forall e: nat | LongestRun(rs, k, e, size)
      ensures e == j
    {
      LongestRunUnique(rs, k, j, e, size);
    }
  }

  /** The record boundary inside a segment. */
  lemma Locate(chunks: seq<Chunk>, k: nat, i: nat)
    requires k <= |Flatten(chunks)| && i < |chunks|
    requires TotalSize(chunks[..i]) <= OffsetOf(Flatten(chunks), k) < TotalSize(chunks[..i]) + |Frames(chunks[i])|
    ensures |Flatten(chunks[..i])| <= k < |Flatten(chunks[..i])| + |chunks[i]| <= |Flatten(chunks)|
    ensures OffsetOf(Flatten(chunks), k) == TotalSize(chunks[..i]) + OffsetOf(chunks[i], k - |Flatten(chunks[..i])|)
    ensures forall n | 0 <= n < |chunks[i]| :: Flatten(chunks)[|Flatten(chunks[..i])| + n] == chunks[i][n]
  {
    hide Flatten, TotalSize, Frames, OffsetOf;
    var after := FlattenSplit(chunks, i);
    TotalSizeIsFlat(chunks[..i]);
    LocateIn(Flatten(chunks[..i]), chunks[i], after, k);
  }

  lemma LocateIn(before: seq<Payload>, c: seq<Payload>, after: seq<Payload>, k: nat)
    requires k <= |before + c + after|
    requires |Frames(before)| <= OffsetOf(before + c + after, k) < |Frames(before)| + |Frames(c)|
    ensures |before| <= k < |before| + |c|
    ensures OffsetOf(before + c + after, k) == |Frames(before)| + OffsetOf(c, k - |before|)
  {
    hide Frames, OffsetOf;
    var rs := before + c + after;
    PartBefore(before, c, after, |before|);
    PartBefore(before, c, after, |before| + |c|);
    WholeLog(c);
    StartsAtZero(c);
    if k < |before| {
      OffsetsIncrease(rs, k, |before|);
    } else if k > |before| + |c| {
      OffsetsIncrease(rs, |before| + |c|, k);
    }
    PartBefore(before, c, after, k);
  }

  lemma PartBefore(before: seq<Payload>, c: seq<Payload>, after: seq<Payload>, k: nat)
    requires |before| <= k <= |before| + |c|
    ensures OffsetOf(before + c + after, k) == |Frames(before)| + OffsetOf(c, k - |before|)
  {
    hide Frames;
    assert (before + c + after)[..k] == before + c[..k - |before|];
    FramesConcat(before, c[..k - |before|]);
  }

  lemma FlattenSplit(chunks: seq<Chunk>, i: nat) returns (after: seq<Payload>)
    requires i < |chunks|
    ensures Flatten(chunks) == Flatten(chunks[..i]) + chunks[i] + after
  {
    assert chunks == chunks[..i + 1] + chunks[i + 1..] && chunks[..i + 1] == chunks[..i] + [chunks[i]];
    FlattenConcat(chunks[..i + 1], chunks[i + 1..]);
    FlattenSnoc(chunks[..i], chunks[i]);
    after := Flatten(chunks[i + 1..]);
  }

  class LogReader {
    const view: LogView
    const registry: SegmentRegistry
    const memory: SegmentMemory

    constructor (view: LogView)
      ensures this.view == view && registry == view.registry && memory == view.memory
    {
      this.view, registry, memory := view, view.registry, view.memory;
    }

    /** Cuts the batch at a record boundary; every header it reads lies inside the committed records. */
    method CalcReadSize(entry: Entry, offset: nat, maxBatchSize: int, ghost rs: seq<Payload>, ghost k: nat)
      returns (batchSize: nat, ghost j: nat)
      requires entry.mv != null && Frames(rs) <= entry.mv[..]
      requires k < |rs| && offset == OffsetOf(rs, k) && maxBatchSize <= |Frames(rs)| - offset
      ensures LongestRun(rs, k, j, maxBatchSize) && batchSize == |Frames(rs[k..j])|
      ensures forall e: nat | LongestRun(rs, k, e, maxBatchSize) :: batchSize == |Frames(rs[k..e])|
    {
      hide Frames, OffsetOf, LongestRun, FromBytes;
      batchSize := 0;
      var roffset := offset;
      j := k;
      ghost var seen := k;
      WholeLog(rs);
      while roffset < offset + maxBatchSize
        invariant k <= j <= seen <= |rs| && seen <= j + 1
        invariant roffset == OffsetOf(rs, seen) && batchSize == OffsetOf(rs, j) - OffsetOf(rs, k)
        invariant batchSize <= Max(maxBatchSize, 0)
        invariant seen == j + 1 ==> roffset - offset > maxBatchSize
        decreases offset + maxBatchSize - roffset
      {
        HeaderAt(entry.mv[..], rs, seen);
        var sz := FromBytes(entry.ReadBytes(roffset, 4));
        if batchSize + sz + 4 <= maxBatchSize {
          batchSize := batchSize + sz + 4;
          j := j + 1;
        }
        roffset := roffset + sz + 4;
        seen := seen + 1;
      }
      if batchSize == 0 {
        HeaderAt(entry.mv[..], rs, k);
        batchSize := FromBytes(entry.ReadBytes(offset, 4)) + 4;
        CutIsLongest(rs, k, j, seen, maxBatchSize);
        j := k + 1;
      } else {
        CutIsLongest(rs, k, j, seen, maxBatchSize);
      }
      OnlyRun(rs, k, j, maxBatchSize);
    }

    /** The batch at `segmentOffset` of a listed segment. */
    method ReadSegment(meta: SegmentMeta, segmentOffset: nat, size: int, ghost i: nat, ghost k: nat, ghost s: LogState)
      returns (data: seq<byte>, ghost j: nat, ghost s': LogState)
      requires view.registry == registry && view.memory == memory
      requires memory.AtRest() && view.Holds(s) && s.Refines() && meta.topic in s.chunks && meta.topic in s.registry
      requires i < |s.registry[meta.topic]| == |s.chunks[meta.topic]| && meta == s.registry[meta.topic][i]
      requires k < |s.chunks[meta.topic][i]| && segmentOffset == OffsetOf(s.chunks[meta.topic][i], k)
      modifies memory, memory.disk, memory.cache.Values
      ensures memory.AtRest() && view.Holds(s') && s'.Refines()
      ensures s'.chunks == s.chunks && s'.maxSegmentSize == s.maxSegmentSize
      ensures LongestRun(s.chunks[meta.topic][i], k, j, size) && data == Frames(s.chunks[meta.topic][i][k..j])
      ensures memory.OnlyNew()
    {
      hide LogState.Refines, SegmentMemory.Valid, Frames, LongestRun, OffsetOf, Opened, TopicsSafe;
      SegmentOf(s, meta.topic, i);
      var entry;
      entry, s' := view.AcquireSegment(meta, i, s);
      SegmentOf(s', meta.topic, i);
      data, j := ReadAndRelease(entry, segmentOffset, Min(size, meta.size - segmentOffset), s.chunks[meta.topic][i], k);
      RequestedSize(s.chunks[meta.topic][i], k, j, size, Min(size, meta.size - segmentOffset));
    }

    method ReadAndRelease(entry: Entry, offset: nat, maxBatchSize: int, ghost rs: seq<Payload>, ghost k: nat)
      returns (data: seq<byte>, ghost j: nat)
      requires memory.Valid() && memory.IdleBut(entry) && entry.mv != null && Frames(rs) <= entry.mv[..]
      requires k < |rs| && offset == OffsetOf(rs, k) && maxBatchSize <= |Frames(rs)| - offset
      modifies entry`refcount
      ensures LongestRun(rs, k, j, maxBatchSize) && data == Frames(rs[k..j])
      ensures memory.AtRest() && memory.disk.Snapshot() == old(memory.disk.Snapshot())
    {
      hide SegmentMemory.Valid, Frames, LongestRun, OffsetOf;
      data, j := ReadHandle(entry, offset, maxBatchSize, rs, k);
      memory.ReleaseEntry(entry);
    }

    method ReadHandle(entry: Entry, offset: nat, maxBatchSize: int, ghost rs: seq<Payload>, ghost k: nat)
      returns (data: seq<byte>, ghost j: nat)
      requires entry.mv != null && Frames(rs) <= entry.mv[..]
      requires k < |rs| && offset == OffsetOf(rs, k) && maxBatchSize <= |Frames(rs)| - offset
      ensures LongestRun(rs, k, j, maxBatchSize) && data == Frames(rs[k..j])
    {
      var batchSize;
      batchSize, j := CalcReadSize(entry, offset, maxBatchSize, rs, k);
      SliceOfFile(entry.mv[..], rs, k, j);
      data := entry.ReadBytes(offset, batchSize);
    }

    /** `read_bytes` from the boundary of record `k`: whole records `k..j` of one segment `i`, as many as fit
        the requested size and at least one. It fails exactly when the topic or the offset does not exist. */
    method ReadBytes(topic: string, offset: nat, size: int, ghost k: nat)
      returns (r: Result<ReadResult>, ghost i: nat, ghost j: nat)
      requires view.registry == registry && view.memory == memory && view.Valid()
      requires offset < |Frames(view.Records(topic))| ==>
                 k <= |view.Records(topic)| && offset == OffsetOf(view.Records(topic), k)
      modifies memory, memory.disk, memory.cache.Values
      ensures view.Valid() && memory.OnlyNew()
      ensures
        if topic !in view.chunks then r == Err(TopicDoesntExist)
        else if offset > |Frames(view.Records(topic))| then r == Err(OffsetPastEnd)
        else if offset == |Frames(view.Records(topic))| then r == Err(NoSuchOffset)
        else r.Ok? && IsBatch(view.Records(topic), k, j, r.value) && InSegment(view.chunks[topic], i, k, j, size)
    {
      hide LogState.Refines, SegmentMemory.Valid, Frames, Flatten, OffsetOf;
      ghost var s := view.State();
      i, j := 0, 0;
      var found := LookUp(topic, offset, s);
      if found.Err? {
        return Err(found.error), i, j;
      }
      i := SegmentAt(s, topic, offset, k);
      var data;
      data, j := ReadBatch(found.value, offset, size, i, k, s);
      var latest := registry.GetLatestOffset(topic);
      ActiveIsLast(s, topic);
      TopicListed(s, topic);
      return Ok(ReadResult(data, offset + |data|, latest.value)), i, j;
    }

    method ReadBatch(meta: SegmentMeta, offset: nat, size: int, ghost i: nat, ghost k: nat, ghost s: LogState)
      returns (data: seq<byte>, ghost j: nat)
      requires view.registry == registry && view.memory == memory && view.Valid() && s == view.State()
      requires meta.topic in s.chunks && meta.topic in s.registry
      requires i < |s.registry[meta.topic]| == |s.chunks[meta.topic]| && meta == s.registry[meta.topic][i]
      requires k <= |Flatten(s.chunks[meta.topic])| && offset == OffsetOf(Flatten(s.chunks[meta.topic]), k)
      requires
        var start := |Flatten(s.chunks[meta.topic][..i])|;
        start <= k < start + |s.chunks[meta.topic][i]|
        && offset - meta.baseOffset == OffsetOf(s.chunks[meta.topic][i], k - start)
      modifies memory, memory.disk, memory.cache.Values
      ensures view.Valid() && memory.OnlyNew()
      ensures k < j <= |Flatten(s.chunks[meta.topic])|
      ensures data == Frames(Flatten(s.chunks[meta.topic])[k..j])
      ensures offset + |data| == OffsetOf(Flatten(s.chunks[meta.topic]), j)
      ensures InSegment(s.chunks[meta.topic], i, k, j, size)
    {
      hide LogState.Refines, SegmentMemory.Valid, Frames, Flatten, OffsetOf;
      ghost var start := |Flatten(s.chunks[meta.topic][..i])|;
      ghost var end, s';
      data, end, s' := ReadSegment(meta, offset - meta.baseOffset, size, i, k - start, s);
      j := start + end;
      BatchInTopic(s.chunks[meta.topic], i, k - start, end);
    }

    method LookUp(topic: string, offset: nat, ghost s: LogState) returns (r: Result<SegmentMeta>)
      requires s.Refines() && s.registry == registry.registry
      ensures
        if topic !in s.chunks then r == Err(TopicDoesntExist)
        else if offset > |Frames(Flatten(s.chunks[topic]))| then r == Err(OffsetPastEnd)
        else if offset == |Frames(Flatten(s.chunks[topic]))| then r == Err(NoSuchOffset)
        else r.Ok? && topic in s.registry && forall i | 0 <= i < |s.registry[topic]| :: s.registry[topic][i].Contains(offset) ==> s.registry[topic][i] == r.value
    {
      hide LogState.Refines;
      TopicListed(s, topic);
      if topic in registry.registry {
        ActiveIsLast(s, topic);
        OffsetListed(s, topic, offset);
      }
      r := registry.GetSegment(topic, offset);
    }
  }

  /** The answer holds the records `k..j`, and names the next boundary and the end of the log. */
  ghost predicate IsBatch(rs: seq<Payload>, k: nat, j: nat, r: ReadResult) {
    && k < j <= |rs|
    && r.data == Frames(rs[k..j])
    && r.nextOffset == OffsetOf(rs, j)
    && r.latest == |Frames(rs)|
  }

  /** All of them come from segment `i`, and no further record of it would have fitted. */
  ghost predicate InSegment(chunks: seq<Chunk>, i: nat, k: nat, j: nat, size: int) {
    && i < |chunks|
    && |Flatten(chunks[..i])| <= k < j
    && LongestRun(chunks[i], k - |Flatten(chunks[..i])|, j - |Flatten(chunks[..i])|, size)
  }

  lemma TopicListed(s: LogState, topic: string)
    requires s.Refines()
    ensures topic in s.registry <==> topic in s.chunks
    ensures topic in s.chunks ==> TotalSize(s.chunks[topic]) == |Frames(Flatten(s.chunks[topic]))|
  {
    if topic in s.chunks {
      TotalSizeIsFlat(s.chunks[topic]);
    }
  }

  /** Exactly the offsets below the end lie in a segment. */
  lemma OffsetListed(s: LogState, topic: string, offset: nat)
    requires s.Refines() && topic in s.chunks && topic in s.registry
    ensures offset < TotalSize(s.chunks[topic]) <==>
            exists i :: 0 <= i < |s.registry[topic]| && s.registry[topic][i].Contains(offset)
  {
    hide Flatten, Frames, Stored, SizesBounded, Housed, TopicsSafe, OwnerListed;
    var segments, chunks := s.registry[topic], s.chunks[topic];
    assert s.TopicOk(topic);
    LayoutOrdered(topic, segments, chunks);
    if offset < TotalSize(chunks) {
      var i := OffsetCovered(chunks, offset);
      BaseIsTotal(topic, segments, chunks, i);
      assert Laid(topic, segments[i], chunks[i]);
      assert segments[i].Contains(offset);
    }
  }

  /** The segment of a record boundary, and the boundary inside it. */
  lemma SegmentAt(s: LogState, topic: string, offset: nat, k: nat) returns (i: nat)
    requires s.Refines() && topic in s.chunks && topic in s.registry && k <= |Flatten(s.chunks[topic])|
    requires offset == OffsetOf(Flatten(s.chunks[topic]), k) < |Frames(Flatten(s.chunks[topic]))|
    ensures i < |s.registry[topic]| == |s.chunks[topic]| && s.registry[topic][i].Contains(offset)
    ensures s.registry[topic][i].topic == topic
    ensures
      var start := |Flatten(s.chunks[topic][..i])|;
      start <= k < start + |s.chunks[topic][i]|
      && offset - s.registry[topic][i].baseOffset == OffsetOf(s.chunks[topic][i], k - start)
  {
    hide Flatten, Frames, OffsetOf, TotalSize, Stored, SizesBounded, Housed, TopicsSafe, OwnerListed, Contiguous, OneActive;
    assert s.TopicOk(topic);
    TotalSizeIsFlat(s.chunks[topic]);
    i := OffsetCovered(s.chunks[topic], offset);
    BaseIsTotal(topic, s.registry[topic], s.chunks[topic], i);
    assert Laid(topic, s.registry[topic][i], s.chunks[topic][i]);
    Locate(s.chunks[topic], k, i);
  }

  /** Records of one segment are records of the topic. */
  lemma BatchInTopic(chunks: seq<Chunk>, i: nat, k: nat, j: nat)
    requires i < |chunks| && k <= j <= |chunks[i]|
    ensures
      var start := |Flatten(chunks[..i])|;
      && start + j <= |Flatten(chunks)|
      && Flatten(chunks)[start + k..start + j] == chunks[i][k..j]
      && OffsetOf(Flatten(chunks), start + j) == OffsetOf(Flatten(chunks), start + k) + |Frames(chunks[i][k..j])|
  {
    hide Flatten, Frames, OffsetOf;
    var after := FlattenSplit(chunks, i);
    var before, start := Flatten(chunks[..i]), |Flatten(chunks[..i])|;
    MiddleSlice(before, chunks[i], after, k, j);
    CutAtRecord(Flatten(chunks), start + k, start + j);
  }

  lemma MiddleSlice(a: seq<Payload>, b: seq<Payload>, c: seq<Payload>, k: nat, j: nat)
    requires k <= j <= |b|
    ensures (a + b + c)[|a| + k..|a| + j] == b[k..j]
  {
  }

  /** Clipping the request to the segment does not change the longest run. */
  lemma RequestedSize(rs: seq<Payload>, k: nat, j: nat, size: int, clipped: int)
    requires k < |rs| && LongestRun(rs, k, j, clipped)
    requires clipped == Min(size, |Frames(rs)| - OffsetOf(rs, k))
    ensures LongestRun(rs, k, j, size)
  {
    hide Frames, OffsetOf;
    if j < |rs| {
      RunGrows(rs, k, j, j + 1);
      CutAtRecord(rs, k, j + 1);
    }
  }

  lemma SliceOfFile(content: seq<byte>, rs: seq<Payload>, k: nat, j: nat)
    requires Frames(rs) <= content && k <= j <= |rs|
    ensures OffsetOf(rs, k) + |Frames(rs[k..j])| <= |content|
    ensures content[OffsetOf(rs, k)..OffsetOf(rs, k) + |Frames(rs[k..j])|] == Frames(rs[k..j])
  {
    CutAtRecord(rs, k, j);
    var a, b := OffsetOf(rs, k), OffsetOf(rs, j);
    assert content[a..b] == Frames(rs)[a..b];
  }

  /** Where the scan stopped: either everything fits, or the next record does not. */
  lemma CutIsLongest(rs: seq<Payload>, k: nat, j: nat, seen: nat, maxBatchSize: int)
    requires k < |rs| && k <= j <= seen <= |rs| && seen <= j + 1
    requires OffsetOf(rs, j) - OffsetOf(rs, k) <= Max(maxBatchSize, 0)
    requires OffsetOf(rs, seen) - OffsetOf(rs, k) >= maxBatchSize
    requires seen == j + 1 ==> OffsetOf(rs, seen) - OffsetOf(rs, k) > maxBatchSize
    ensures OffsetOf(rs, j) == OffsetOf(rs, k) <==> j == k
    ensures j == k ==> LongestRun(rs, k, k + 1, maxBatchSize) && |Frames(rs[k..k + 1])| == |rs[k]| + 4
    ensures j > k ==> LongestRun(rs, k, j, maxBatchSize) && |Frames(rs[k..j])| == OffsetOf(rs, j) - OffsetOf(rs, k)
  {
    hide Frames, OffsetOf;
    RunGrows(rs, k, k, j);
    if j > k {
      OffsetsIncrease(rs, k, j);
    }
    RecordAt(rs, k);
    RunGrows(rs, k, k, k + 1);
    var end := if j == k then k + 1 else j;
    if end < |rs| {
      RunGrows(rs, k, end, end + 1);
      OffsetsIncrease(rs, end, end + 1);
    }
  }

  lemma HeaderAt(content: seq<byte>, rs: seq<Payload>, k: nat)
    requires Frames(rs) <= content && k < |rs|
    ensures OffsetOf(rs, k) + 4 <= |content|
    ensures FromBytes(content[OffsetOf(rs, k)..OffsetOf(rs, k) + 4]) == |rs[k]|
    ensures OffsetOf(rs, k + 1) == OffsetOf(rs, k) + 4 + |rs[k]|
  {
    RecordAt(rs, k);
    var o := OffsetOf(rs, k);
    assert content[o..o + 4] == Frames(rs)[o..o + 4];
  }
}
