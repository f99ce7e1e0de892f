/** A consumer that follows a topic while producers append and the cache evicts. */
module Consuming {
  import opened Seqs
  import opened Bytes
  import opened Paths
  import opened Segments
  import opened Storage
  import opened FlatLog
  import opened Writing
  import opened Reading

  /** What can happen between two polls. `expired` is the clock's part of the rollover rule. */
  datatype Step =
    | Append(topic: string, data: Payload, expired: bool)
    | Poll(size: int)
    | Evict(segment: SegmentMeta)
    | Cleanup

  /** What the steps append to one topic. */
  function PayloadsFor(steps: seq<Step>, topic: string): seq<Payload> {
    if steps == [] then []
    else
      var last := steps[|steps| - 1];
      PayloadsFor(steps[..|steps| - 1], topic) + (if last.Append? && last.topic == topic then [last.data] else [])
  }

  function Topics(steps: seq<Step>): set<string> {
    set i | 0 <= i < |steps| && steps[i].Append? :: steps[i].topic
  }

  /** Bytes received so far end at a record boundary. */
  ghost predicate UpTo(rs: seq<Payload>, k: nat, offset: nat, data: seq<byte>) {
    k <= |rs| && offset == OffsetOf(rs, k) && data == Frames(rs[..k])
  }

  lemma NothingYet(rs: seq<Payload>)
    ensures UpTo(rs, 0, 0, [])
  {
    assert rs[..0] == [];
  }

  lemma UpToLater(rs: seq<Payload>, more: seq<Payload>, k: nat, offset: nat, data: seq<byte>)
    requires UpTo(rs, k, offset, data)
    ensures UpTo(rs + more, k, offset, data)
  {
    assert (rs + more)[..k] == rs[..k];
  }

  lemma UpToNext(rs: seq<Payload>, k: nat, offset: nat, data: seq<byte>, j: nat, r: ReadResult)
    requires UpTo(rs, k, offset, data) && IsBatch(rs, k, j, r)
    ensures UpTo(rs, j, r.nextOffset, data + r.data)
  {
    assert rs[..j] == rs[..k] + rs[k..j];
    FramesConcat(rs[..k], rs[k..j]);
  }

  lemma UpToEnd(rs: seq<Payload>, k: nat, offset: nat, data: seq<byte>)
    requires UpTo(rs, k, offset, data)
    ensures offset <= |Frames(rs)|
    ensures offset == |Frames(rs)| ==> k == |rs| && SplitRecords(data) == rs
  {
    CutAtRecord(rs, k, |rs|);
    assert rs[..|rs|] == rs;
    if k < |rs| {
      OffsetsIncrease(rs, k, |rs|);
    } else {
      SplitFrames(rs);
    }
  }

  class Consumer {
    const topic: string
    const writer: LogWriter
    const reader: LogReader
    var offset: nat
    var data: seq<byte>
    /** How many records have been received. */
    ghost var count: nat

    constructor (topic: string, view: LogView)
      requires view.Valid()
      ensures Valid()
      ensures this.topic == topic && offset == 0 && data == [] && count == 0
      ensures fresh(writer) && writer.view == view && writer.registry == view.registry && writer.memory == view.memory
      ensures fresh(reader) && reader.view == view && reader.registry == view.registry && reader.memory == view.memory
    {
      hide LogState.Refines, SegmentMemory.Valid, LogView.Valid, UpTo;
      this.topic := topic;
      offset, data, count := 0, [], 0;
      var w := new LogWriter(view);
      var r := new LogReader(view);
      writer, reader := w, r;
      NothingYet(view.Records(topic));
    }

    ghost function View(): LogView {
      reader.view
    }

    ghost predicate Wired() {
      && writer.view == reader.view
      && writer.registry == reader.registry == View().registry
      && writer.memory == reader.memory == View().memory
    }

    ghost predicate Valid()
      reads this, View(), View().registry, View().memory, View().memory.disk, View().memory.disk.files.Values,
            View().memory.cache.Values, View().memory.cleanupQueue
    {
      Wired() && View().Valid() && UpTo(View().Records(topic), count, offset, data)
    }

    /** One poll: the next batch, if there is one. */
    method Poll(size: int)
      requires Valid()
      modifies this, View().memory, View().memory.disk, View().memory.cache.Values
      ensures Valid() && View().memory.OnlyNew()
      ensures old(offset) < |Frames(View().Records(topic))| ==> count > old(count)
    {
      hide LogState.Refines, SegmentMemory.Valid, SegmentMemory.OnlyNew, Disk.Valid, LogView.Valid, LogView.State,
           OffsetOf, Frames, UpTo, IsBatch, InSegment;
      NoFrames();
      assert offset == OffsetOf(View().Records(topic), count) && count <= |View().Records(topic)| by {
        UpToOffset(View().Records(topic), count, offset, data);
      }
      var r, i, j := reader.ReadBytes(topic, offset, size, count);
      if r.Ok? {
        Take(r.value, j);
      }
    }

    method Take(batch: ReadResult, ghost j: nat)
      requires Valid() && IsBatch(View().Records(topic), count, j, batch)
      modifies this
      ensures Valid() && count == j > old(count)
    {
      hide LogState.Refines, SegmentMemory.Valid, LogView.Valid, OffsetOf, Frames;
      UpToNext(View().Records(topic), count, offset, data, j, batch);
      data := data + batch.data;
      offset := batch.nextOffset;
      count := j;
    }

    /** Someone appends, this consumer polls, the cache drops an idle segment, or the cleanup thread takes a turn. */
    method Apply(step: Step)
      requires Valid() && TopicsSafe(View().registry.place, View().chunks.Keys + (if step.Append? then {step.topic} else {}))
      modifies this, View(), View().registry, View().memory, View().memory.disk, View().memory.disk.files.Values,
               View().memory.cache.Values, View().memory.cleanupQueue
      ensures Valid() && View().memory.OnlyNew()
      ensures View().chunks.Keys == old(View().chunks.Keys) + (if step.Append? then {step.topic} else {})
      ensures View().Records(topic) ==
              old(View().Records(topic)) + (if step.Append? && step.topic == topic then [step.data] else [])
    {
      hide LogState.Refines, SegmentMemory.Valid, LogView.Valid, OffsetOf, Frames, UpTo;
      match step
      case Append(target, payload, expired) =>
        UpToLater(View().Records(topic), [payload], count, offset, data);
        var r := writer.Write(target, payload, expired);
      case Poll(size) =>
        Poll(size);
      case Evict(segment) =>
        var evicted := reader.view.Evict(segment);
      case Cleanup =>
        reader.view.Cleanup();
    }

    /** Steps in any order: afterwards the topic holds what was appended to it, in order. */
    method Follow(steps: seq<Step>)
      requires Valid() && TopicsSafe(View().registry.place, View().chunks.Keys + Topics(steps))
      modifies this, View(), View().registry, View().memory, View().memory.disk, View().memory.disk.files.Values,
               View().memory.cache.Values, View().memory.cleanupQueue
      ensures Valid() && View().memory.OnlyNew()
      ensures View().Records(topic) == old(View().Records(topic)) + PayloadsFor(steps, topic)
    {
      hide LogState.Refines, SegmentMemory.Valid, Consumer.Valid, LogView.Records, TopicsSafe, Frames, Topics, PayloadsFor;
      ghost var before := View().chunks.Keys;
      NoSteps(topic);
      assert steps[..0] == [] && steps[..|steps|] == steps;
      for i := 0 to |steps|
        invariant Valid() && View().memory.OnlyNew()
        invariant View().chunks.Keys == before + Topics(steps[..i])
        invariant View().Records(topic) == old(View().Records(topic)) + PayloadsFor(steps[..i], topic)
      {
        StepAdds(steps, i, topic);
        TopicsStaySafe(View().registry.place, before, steps, i, View().chunks.Keys);
        Apply(steps[i]);
      }
    }

    /** Polling until the latest offset ends, whatever sizes are asked for, and what has been received by then
        is every record of the topic, once and in order. */
    method CatchUp(sizes: nat -> int) returns (received: seq<seq<byte>>)
      requires Valid()
      modifies this, View().memory, View().memory.disk, View().memory.cache.Values
      ensures Valid() && View().memory.OnlyNew()
      ensures received == View().Records(topic)
    {
      hide LogState.Refines, SegmentMemory.Valid, LogView.Valid, OffsetOf, Frames, UpTo, SplitRecords;
      var polls := 0;
      var more := Behind();
      while more
        invariant Valid() && View().memory.OnlyNew()
        invariant more <==> offset < |Frames(View().Records(topic))|
        decreases |View().Records(topic)| - count, more
      {
        UpToOffset(View().Records(topic), count, offset, data);
        Poll(sizes(polls));
        UpToOffset(View().Records(topic), count, offset, data);
        polls := polls + 1;
        more := Behind();
      }
      UpToEnd(View().Records(topic), count, offset, data);
      received := ParseRecords(data);
    }

    /** Is there something after the consumer's offset? */
    method Behind() returns (more: bool)
      requires Valid()
      ensures more <==> offset < |Frames(View().Records(topic))|
    {
      hide LogState.Refines, SegmentMemory.Valid, OffsetOf, Frames, UpTo;
      NoFrames();
      LatestIsLength(View().State(), topic);
      var latest := reader.registry.GetLatestOffset(topic);
      more := latest.Ok? && offset < latest.value;
    }

    /** The consumer that starts at 0, follows any run of appends, polls and evictions, and then catches up
        has received what was stored before and what the run appended. */
    method Consume(steps: seq<Step>, sizes: nat -> int) returns (received: seq<seq<byte>>)
      requires Valid() && TopicsSafe(View().registry.place, View().chunks.Keys + Topics(steps))
      modifies this, View(), View().registry, View().memory, View().memory.disk, View().memory.disk.files.Values,
               View().memory.cache.Values, View().memory.cleanupQueue
      ensures Valid()
      ensures received == old(View().Records(topic)) + PayloadsFor(steps, topic)
    {
      hide LogState.Refines, SegmentMemory.Valid, Consumer.Valid, TopicsSafe, Frames;
      Follow(steps);
      received := CatchUp(sizes);
    }
  }

  lemma NoSteps(topic: string)
    ensures Topics([]) == {} && PayloadsFor([], topic) == []
  {
  }

  lemma StepAdds(steps: seq<Step>, i: nat, topic: string)
    requires i < |steps|
    ensures Topics(steps[..i + 1]) == Topics(steps[..i]) + (if steps[i].Append? then {steps[i].topic} else {})
    ensures Topics(steps[..i + 1]) <= Topics(steps)
    ensures PayloadsFor(steps[..i + 1], topic) ==
            PayloadsFor(steps[..i], topic) + (if steps[i].Append? && steps[i].topic == topic then [steps[i].data] else [])
  {
    assert steps[..i + 1][..i] == steps[..i];
    assert steps[..i + 1] == steps[..i] + [steps[i]];
  }

  lemma TopicsStaySafe(place: Place, before: set<string>, steps: seq<Step>, i: nat, now: set<string>)
    requires TopicsSafe(place, before + Topics(steps)) && i < |steps| && now == before + Topics(steps[..i])
    ensures TopicsSafe(place, now + (if steps[i].Append? then {steps[i].topic} else {}))
  {
    TopicsSafeSubset(place, now + (if steps[i].Append? then {steps[i].topic} else {}), before + Topics(steps));
  }

  lemma LatestIsLength(s: LogState, topic: string)
    requires s.Refines()
    ensures topic in s.registry <==> topic in s.chunks
    ensures topic in s.chunks ==>
              s.registry[topic] != []
              && s.registry[topic][|s.registry[topic]| - 1].GetEndOffset() == |Frames(Flatten(s.chunks[topic]))|
  {
    TopicListed(s, topic);
    if topic in s.chunks {
      ActiveIsLast(s, topic);
    }
  }

  lemma NoFrames()
    ensures Frames([]) == []
  {
  }

  lemma UpToOffset(rs: seq<Payload>, k: nat, offset: nat, data: seq<byte>)
    requires UpTo(rs, k, offset, data)
    ensures k <= |rs| && offset == OffsetOf(rs, k)
  {
  }
}
