/** The per-topic lists of segments, kept in offset order and changed in place. */
module Registry {
  import opened Paths
  import opened Segments

  datatype Error =
    | TopicDoesntExist
    | EmptyTopic
    | OffsetPastEnd
    | NoSuchOffset
    | Overlapping
    | NoSuchSegment
    | IllegalTransition

  datatype Result<+T> = Ok(value: T) | Err(error: Error)

  /** Offsets only grow along the list and no two segments overlap. */
  ghost predicate Ordered(segments: seq<SegmentMeta>) {
    && (forall i | 0 <= i < |segments| :: segments[i].size >= 0)
    && (forall i, j | 0 <= i < j < |segments| ::
          segments[i].baseOffset < segments[j].baseOffset && segments[i].GetEndOffset() <= segments[j].baseOffset)
  }

  /** `bisect_left` by base offset, as the library searches. */
  function BisectLeft(segments: seq<SegmentMeta>, offset: int, lo: nat, hi: nat): (r: nat)
    requires lo <= hi <= |segments|
    ensures lo <= r <= hi
    decreases hi - lo
  {
    if lo >= hi then lo
    else
      var mid := (lo + hi) / 2;
      if segments[mid].baseOffset < offset
      then BisectLeft(segments, offset, mid + 1, hi)
      else BisectLeft(segments, offset, lo, mid)
  }

  lemma {:induction false} BisectLeftFinds(segments: seq<SegmentMeta>, k: nat, lo: nat, hi: nat)
    requires Ordered(segments)
    requires lo <= k < hi <= |segments|
    ensures BisectLeft(segments, segments[k].baseOffset, lo, hi) == k
    decreases hi - lo
  {
    var mid := (lo + hi) / 2;
    if mid < k {
      BisectLeftFinds(segments, k, mid + 1, hi);
    } else if mid > k {
      BisectLeftFinds(segments, k, lo, mid);
    } else {
      BisectLeftStops(segments, k, lo);
    }
  }

  lemma {:induction false} BisectLeftStops(segments: seq<SegmentMeta>, k: nat, lo: nat)
    requires Ordered(segments)
    requires lo <= k < |segments|
    ensures BisectLeft(segments, segments[k].baseOffset, lo, k) == k
    decreases k - lo
  {
    if lo < k {
      BisectLeftStops(segments, k, (lo + k) / 2 + 1);
    }
  }

  predicate Allowed(from: SegmentState, to: SegmentState) {
    || (from == ACTIVE && to == SEALED)
    || (from == SEALED && to == EXPIRED)
    || (from == EXPIRED && to == DELETED)
  }

  /** The offset search of an update ends at index `k`. */
  predicate SearchEnds(segments: seq<SegmentMeta>, offset: int, k: nat)
    requires k < |segments|
  {
    if segments[0].baseOffset <= offset
    then segments[k].baseOffset <= offset && (k + 1 < |segments| ==> offset < segments[k + 1].baseOffset)
    else k == |segments| - 1
  }

  function Stage(state: SegmentState): nat {
    match state
    case ACTIVE => 0
    case SEALED => 1
    case EXPIRED => 2
    case DELETED => 3
  }

  /** A segment goes through its states one after the other, and never back. */
  lemma AllowedIsNextStage(from: SegmentState, to: SegmentState)
    ensures Allowed(from, to) <==> Stage(to) == Stage(from) + 1
  {
  }

  class SegmentRegistry {
    /** The default `created_at`, evaluated once when the class is loaded. */
    const loadTime: int
    const place: Place
    var registry: map<string, seq<SegmentMeta>>

    constructor (place: Place, loadTime: int)
      ensures this.place == place && this.loadTime == loadTime && registry == map[]
    {
      this.place, this.loadTime := place, loadTime;
      registry := map[];
    }

    function NewSegment(topic: string, baseOffset: nat): SegmentMeta {
      SegmentMeta(topic, baseOffset, FilePath(place.DirOf(topic), baseOffset), ACTIVE, loadTime, 0)
    }

    /** `EmptyTopic` stands for the IndexError on a topic whose segments have all been deleted. */
    method CreateSegment(topic: string, baseOffset: nat) returns (r: Result<SegmentMeta>)
      modifies this
      ensures
        var segments := if topic in old(registry) then old(registry[topic]) else [];
        if topic in old(registry) && segments == []
        then r == Err(EmptyTopic) && registry == old(registry)
        else if segments != [] && (segments[|segments| - 1].GetEndOffset() > baseOffset
                                   || segments[|segments| - 1].baseOffset == baseOffset)
        then r == Err(Overlapping) && registry == old(registry)
        else r == Ok(NewSegment(topic, baseOffset))
             && registry == old(registry)[topic := segments + [NewSegment(topic, baseOffset)]]
    {
      var segment := NewSegment(topic, baseOffset);
      if topic !in registry {
        registry := registry[topic := []];
        registry := registry[topic := registry[topic] + [segment]];
        return Ok(segment);
      }
      if registry[topic] == [] {
        return Err(EmptyTopic);
      }
      var previous := registry[topic][|registry[topic]| - 1];
      if previous.GetEndOffset() > baseOffset || previous.baseOffset == baseOffset {
        return Err(Overlapping);
      }
      registry := registry[topic := registry[topic] + [segment]];
      return Ok(segment);
    }

    /** The greatest index whose base offset is at most `offset`, or -1. */
    method FindSegmentIndex(topic: string, offset: int) returns (i: int)
      requires topic in registry && Ordered(registry[topic])
      ensures -1 <= i < |registry[topic]|
      ensures forall k | 0 <= k < |registry[topic]| :: registry[topic][k].baseOffset <= offset <==> k <= i
    {
      i := -1;
      var l, r := 0, |registry[topic]| - 1;
      while l <= r
        invariant 0 <= l <= r + 1 <= |registry[topic]|
        invariant i == l - 1
        invariant forall k | 0 <= k < l :: registry[topic][k].baseOffset <= offset
        invariant forall k | r < k < |registry[topic]| :: registry[topic][k].baseOffset > offset
      {
        var mid := (l + r) / 2;
        if registry[topic][mid].baseOffset <= offset {
          i := mid;
          l := mid + 1;
        } else {
          r := mid - 1;
        }
      }
    }

    /** Adds `length` to the segment whose range the base offset falls in; the caller's copy may be stale. An offset
        before the first segment makes the search answer -1, which Python takes as the last segment. */
    method AdvanceOffset(meta: SegmentMeta, length: int) returns (r: Result<SegmentMeta>)
      requires meta.topic in registry ==> Ordered(registry[meta.topic])
      modifies this
      ensures meta.topic !in old(registry) ==> r == Err(TopicDoesntExist) && registry == old(registry)
      ensures meta.topic in old(registry) && old(registry)[meta.topic] == [] ==> r == Err(EmptyTopic) && registry == old(registry)
      ensures meta.topic in old(registry) ==>
                forall k | 0 <= k < |old(registry[meta.topic])| && SearchEnds(old(registry[meta.topic]), meta.baseOffset, k) ::
                  && r == Ok(old(registry[meta.topic])[k].(size := old(registry[meta.topic])[k].size + length))
                  && registry == old(registry)[meta.topic := old(registry[meta.topic])[k := r.value]]
    {
      if meta.topic !in registry {
        return Err(TopicDoesntExist);
      }
      var idx := FindSegmentIndex(meta.topic, meta.baseOffset);
      if registry[meta.topic] == [] {
        return Err(EmptyTopic);
      }
      if idx == -1 {
        idx := |registry[meta.topic]| - 1;
      }
      var oldMeta := registry[meta.topic][idx];
      var advanced := oldMeta.(size := oldMeta.size + length);
      registry := registry[meta.topic := registry[meta.topic][idx := advanced]];
      return Ok(advanced);
    }

    /** `get_segment` succeeds exactly when some segment contains the offset, and finds that one;
        -1 asks for the last segment. */
    method GetSegment(topic: string, offset: int) returns (r: Result<SegmentMeta>)
      requires topic in registry ==> Ordered(registry[topic])
      ensures topic !in registry <==> r == Err(TopicDoesntExist)
      ensures topic in registry ==> (registry[topic] == [] <==> r == Err(EmptyTopic))
      ensures topic in registry && registry[topic] != [] ==>
                var segments := registry[topic];
                var last := segments[|segments| - 1];
                if last.GetEndOffset() < offset then r == Err(OffsetPastEnd)
                else if offset == -1 then r == Ok(last)
                else if exists k | 0 <= k < |segments| :: segments[k].Contains(offset)
                then r.Ok? && r.value in segments && r.value.Contains(offset)
                     && (forall k | 0 <= k < |segments| && segments[k].Contains(offset) :: segments[k] == r.value)
                else r == Err(NoSuchOffset)
    {
      if topic !in registry {
        return Err(TopicDoesntExist);
      }
      if |registry[topic]| == 0 {
        return Err(EmptyTopic);
      }
      var last := registry[topic][|registry[topic]| - 1];
      if last.GetEndOffset() < offset {
        return Err(OffsetPastEnd);
      }
      if offset == -1 {
        return Ok(last);
      }
      var i := FindSegmentIndex(topic, offset);
      if i == -1 || registry[topic][i].GetEndOffset() <= offset {
        assert forall k | 0 <= k < |registry[topic]| :: !registry[topic][k].Contains(offset);
        return Err(NoSuchOffset);
      }
      return Ok(registry[topic][i]);
    }

    method ProgressState(segment: SegmentMeta, newState: SegmentState) returns (r: Result<SegmentMeta>)
      requires segment.topic in registry ==> Ordered(registry[segment.topic])
      modifies this
      ensures
        if segment.topic !in old(registry) then r == Err(TopicDoesntExist) && registry == old(registry)
        else if segment !in old(registry[segment.topic]) then r == Err(NoSuchSegment) && registry == old(registry)
        else if !Allowed(segment.state, newState) then r == Err(IllegalTransition) && registry == old(registry)
        else
          && r.Ok?
          && forall k | 0 <= k < |old(registry[segment.topic])| && old(registry[segment.topic])[k] == segment ::
               if newState == DELETED
               then r.value == segment
                    && registry == old(registry)[segment.topic :=
                                     old(registry[segment.topic])[..k] + old(registry[segment.topic])[k + 1..]]
               else r.value == segment.(state := newState)
                    && registry == old(registry)[segment.topic := old(registry[segment.topic])[k := r.value]]
    {
      var topic := segment.topic;
      if topic !in registry {
        return Err(TopicDoesntExist);
      }
      var segments := registry[topic];
      var idx := BisectLeft(segments, segment.baseOffset, 0, |segments|);
      ghost var before := registry;
      forall k | 0 <= k < |segments| && segments[k] == segment
        ensures idx == k
      {
        BisectLeftFinds(segments, k, 0, |segments|);
      }
      if idx >= |segments| || segments[idx] != segment {
        return Err(NoSuchSegment);
      }
      if !Allowed(segment.state, newState) {
        return Err(IllegalTransition);
      }
      if newState == DELETED {
        registry := registry[topic := segments[..idx] + segments[idx + 1..]];
        return Ok(segment);
      }
      registry := registry[topic := segments[idx := segment.(state := newState)]];
      return Ok(registry[topic][idx]);
    }

    method GetLatestOffset(topic: string) returns (r: Result<int>)
      ensures topic !in registry <==> r == Err(TopicDoesntExist)
      ensures topic in registry ==>
                r == if registry[topic] == [] then Err(EmptyTopic)
                     else Ok(registry[topic][|registry[topic]| - 1].GetEndOffset())
    {
      if topic !in registry {
        return Err(TopicDoesntExist);
      }
      if registry[topic] == [] {
        return Err(EmptyTopic);
      }
      return Ok(registry[topic][|registry[topic]| - 1].GetEndOffset());
    }
  }
}
