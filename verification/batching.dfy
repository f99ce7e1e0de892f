/** The broker's write path in front of the log: requests are collected into batches, and several workers write
    batches of one topic at the same time, record by record. */
module Batching {
  import opened Seqs
  import opened Bytes
  import opened Writing
  import opened Segments

  datatype Request = Request(producer: string, data: Payload)

  datatype Limits = Limits(maxBatchSize: int, maxBatchBytes: int)

  /** Of one topic: what was submitted, the queue, the collector's open batch, and the batches given to the workers. */
  datatype Collector = Collector(
    submitted: seq<Request>, queue: seq<Request>, batch: seq<Request>, batchBytes: nat, batches: seq<seq<Request>>)

  datatype Event = Submit(request: Request) | Arrive | TimeOut

  predicate Enabled(c: Collector, e: Event) {
    match e
    case Submit(_) => true
    case Arrive => c.queue != []
    case TimeOut => c.batch != []
  }

  function Flush(c: Collector): Collector {
    c.(batch := [], batchBytes := 0, batches := c.batches + [c.batch])
  }

  /** The first request of a batch is not measured; every further one may fill the batch. */
  function Next(l: Limits, c: Collector, e: Event): Collector
    requires Enabled(c, e)
  {
    match e
    case Submit(request) => c.(submitted := c.submitted + [request], queue := c.queue + [request])
    case Arrive =>
      var c' := c.(queue := c.queue[1..], batch := c.batch + [c.queue[0]], batchBytes := c.batchBytes + |c.queue[0].data|);
      if c.batch == [] then c'
      else if |c'.batch| >= l.maxBatchSize || c'.batchBytes >= l.maxBatchBytes then Flush(c')
      else c'
    case TimeOut => Flush(c)
  }

  function Size(batch: seq<Request>): nat {
    if batch == [] then 0 else Size(batch[..|batch| - 1]) + |batch[|batch| - 1].data|
  }

  /** Nothing is lost, repeated or reordered, and batches stay within their limits. */
  ghost predicate Sound(l: Limits, c: Collector) {
    && Flatten(c.batches) + c.batch + c.queue == c.submitted
    && (forall b | b in c.batches :: 1 <= |b| <= Max(2, l.maxBatchSize))
    && c.batchBytes == Size(c.batch)
    && (|c.batch| >= 2 ==> |c.batch| < l.maxBatchSize && c.batchBytes < l.maxBatchBytes)
  }

  lemma SizeSnoc(batch: seq<Request>, request: Request)
    ensures Size(batch + [request]) == Size(batch) + |request.data|
    ensures Size([]) == 0
  {
    assert (batch + [request])[..|batch|] == batch;
  }

  lemma SubmitSound(l: Limits, c: Collector, request: Request)
    requires Sound(l, c)
    ensures Sound(l, Next(l, c, Submit(request)))
  {
    hide Flatten, Size;
    var flat := Flatten(c.batches);
    assert flat + c.batch + (c.queue + [request]) == (flat + c.batch + c.queue) + [request];
  }

  lemma FlushSound(l: Limits, c: Collector)
    requires Flatten(c.batches) + c.batch + c.queue == c.submitted
    requires (forall b | b in c.batches :: 1 <= |b| <= Max(2, l.maxBatchSize)) && 1 <= |c.batch| <= Max(2, l.maxBatchSize)
    ensures Sound(l, Flush(c))
  {
    hide Flatten, Size;
    FlushKeepsOrder(c.batches, c.batch, c.queue);
    SizeSnoc([], Request("", []));
  }

  lemma ArriveSound(l: Limits, c: Collector)
    requires Sound(l, c) && c.queue != []
    ensures Sound(l, Next(l, c, Arrive))
  {
    hide Flatten, Size;
    var c' := c.(queue := c.queue[1..], batch := c.batch + [c.queue[0]], batchBytes := c.batchBytes + |c.queue[0].data|);
    var flat := Flatten(c.batches);
    assert flat + c'.batch + c'.queue == flat + c.batch + c.queue;
    SizeSnoc(c.batch, c.queue[0]);
    if c.batch != [] && (|c'.batch| >= l.maxBatchSize || c'.batchBytes >= l.maxBatchBytes) {
      FlushSound(l, c');
    }
  }

  lemma NextSound(l: Limits, c: Collector, e: Event)
    requires Sound(l, c) && Enabled(c, e)
    ensures Sound(l, Next(l, c, e))
  {
    hide Sound;
    match e
    case Submit(request) => SubmitSound(l, c, request);
    case Arrive => ArriveSound(l, c);
    case TimeOut => TimeOutSound(l, c);
  }

  lemma TimeOutSound(l: Limits, c: Collector)
    requires Sound(l, c) && c.batch != []
    ensures Sound(l, Flush(c))
  {
    hide Flatten, Size;
    FlushSound(l, c);
  }

  lemma FlushKeepsOrder(batches: seq<seq<Request>>, batch: seq<Request>, queue: seq<Request>)
    ensures Flatten(batches + [batch]) + [] + queue == Flatten(batches) + batch + queue
  {
    FlattenSnoc(batches, batch);
  }

  predicate Possible(l: Limits, c: Collector, events: seq<Event>)
    decreases |events|
  {
    events == [] || (Enabled(c, events[0]) && Possible(l, Next(l, c, events[0]), events[1..]))
  }

  function After(l: Limits, c: Collector, events: seq<Event>): Collector
    requires Possible(l, c, events)
    decreases |events|
  {
    if events == [] then c else After(l, Next(l, c, events[0]), events[1..])
  }

  function Submissions(events: seq<Event>): seq<Request> {
    if events == [] then []
    else (if events[0].Submit? then [events[0].request] else []) + Submissions(events[1..])
  }

  /** For any schedule of arrivals and timeouts: batches, open batch and queue are the submissions, in order. */
  lemma {:induction false} EverySchedule(l: Limits, c: Collector, events: seq<Event>)
    requires Sound(l, c) && Possible(l, c, events)
    ensures Sound(l, After(l, c, events))
    ensures After(l, c, events).submitted == c.submitted + Submissions(events)
    ensures c.batches <= After(l, c, events).batches
    decreases |events|
  {
    hide Sound;
    if events != [] {
      NextSound(l, c, events[0]);
      EverySchedule(l, Next(l, c, events[0]), events[1..]);
    }
  }

  // -- What the arrivals and timeouts alone say ------------------------------------------------

  /** What the collector gets to see: a request that leaves the queue, or the end of its wait. */
  datatype Signal = Got(request: Request) | Bell

  function Arrivals(events: seq<Event>): nat {
    if events == [] then 0 else Arrivals(events[..|events| - 1]) + (if events[|events| - 1].Arrive? then 1 else 0)
  }

  /** The k-th arrival is the k-th submission. */
  function Signals(events: seq<Event>, submitted: seq<Request>): seq<Signal> {
    if events == [] then []
    else
      var front, e := events[..|events| - 1], events[|events| - 1];
      Signals(front, submitted)
      + (match e
         case Submit(_) => []
         case TimeOut => [Bell]
         case Arrive => if Arrivals(front) < |submitted| then [Got(submitted[Arrivals(front)])] else [])
  }

  /** A batch is closed by the end of a wait, or by a request that makes it at least two long and fills it. */
  predicate Closes(l: Limits, open: seq<Request>, signal: Signal) {
    match signal
    case Bell => true
    case Got(r) =>
      |open| >= 1 && (|open + [r]| >= l.maxBatchSize || Size(open) + |r.data| >= l.maxBatchBytes)
  }

  /** The closed batches and the open one that a row of signals leads to. */
  function Grouped(l: Limits, signals: seq<Signal>): (seq<seq<Request>>, seq<Request>) {
    if signals == [] then ([], [])
    else
      var (closed, open) := Grouped(l, signals[..|signals| - 1]);
      var last := signals[|signals| - 1];
      var open' := if last.Got? then open + [last.request] else open;
      if Closes(l, open, last) then (closed + [open'], []) else (closed, open')
  }

  function Empty(): Collector {
    Collector([], [], [], 0, [])
  }

  lemma {:induction false} SplitRun(l: Limits, c: Collector, events: seq<Event>)
    requires Possible(l, c, events) && events != []
    ensures Possible(l, c, events[..|events| - 1])
    ensures
      var before, last := After(l, c, events[..|events| - 1]), events[|events| - 1];
      Enabled(before, last) && After(l, c, events) == Next(l, before, last)
    decreases |events|
  {
    hide Next, Enabled;
    if |events| == 1 {
      assert events[1..] == [] && events[..0] == [];
    } else {
      SplitRun(l, Next(l, c, events[0]), events[1..]);
      assert events[1..][..|events| - 2] == events[..|events| - 1][1..];
    }
  }

  lemma EmptySound(l: Limits)
    ensures Sound(l, Empty())
  {
  }

  /** The k-th request to arrive is the k-th that was submitted. */
  lemma {:induction false} QueueIsFifo(l: Limits, events: seq<Event>)
    requires Possible(l, Empty(), events)
    ensures
      var c := After(l, Empty(), events);
      Arrivals(events) <= |c.submitted| && c.queue == c.submitted[Arrivals(events)..]
  {
    hide Possible, After;
    if events == [] {
      NothingHappened(l);
    } else {
      SplitRun(l, Empty(), events);
      QueueIsFifo(l, events[..|events| - 1]);
    }
  }

  lemma NothingHappened(l: Limits)
    ensures Possible(l, Empty(), []) && After(l, Empty(), []) == Empty()
  {
  }

  lemma {:induction false} SignalsLater(events: seq<Event>, submitted: seq<Request>, more: seq<Request>)
    requires Arrivals(events) <= |submitted|
    ensures Signals(events, submitted + more) == Signals(events, submitted)
  {
    if events != [] {
      SignalsLater(events[..|events| - 1], submitted, more);
    }
  }

  lemma GroupedSnoc(l: Limits, signals: seq<Signal>, last: Signal)
    ensures
      var (closed, open) := Grouped(l, signals);
      var open' := if last.Got? then open + [last.request] else open;
      Grouped(l, signals + [last]) == if Closes(l, open, last) then (closed + [open'], []) else (closed, open')
  {
    assert (signals + [last])[..|signals|] == signals;
  }

  /** What one event does to the batches. */
  lemma NextGroups(l: Limits, c: Collector, e: Event)
    requires Enabled(c, e) && c.batchBytes == Size(c.batch)
    ensures
      var c' := Next(l, c, e);
      && c'.batchBytes == Size(c'.batch)
      && c'.submitted == (if e.Submit? then c.submitted + [e.request] else c.submitted)
      && (c'.batches, c'.batch) ==
         match e
         case Submit(_) => (c.batches, c.batch)
         case TimeOut => (c.batches + [c.batch], [])
         case Arrive =>
           if Closes(l, c.batch, Got(c.queue[0])) then (c.batches + [c.batch + [c.queue[0]]], [])
           else (c.batches, c.batch + [c.queue[0]])
  {
    hide Size;
    SizeSnoc([], Request("", []));
    if e.Arrive? {
      SizeSnoc(c.batch, c.queue[0]);
    }
  }

  /** For any schedule the batches handed out and the open batch are those that the arrivals and the ends of waits
      determine. */
  lemma {:induction false} BatchesAreGrouped(l: Limits, events: seq<Event>)
    requires Possible(l, Empty(), events)
    ensures
      var c := After(l, Empty(), events);
      Grouped(l, Signals(events, c.submitted)) == (c.batches, c.batch) && c.batchBytes == Size(c.batch)
  {
    hide Possible, After, Next, Size, Closes, Grouped;
    if events == [] {
      NothingHappened(l);
      NothingGrouped(l);
    } else {
      var front, e := events[..|events| - 1], events[|events| - 1];
      SplitRun(l, Empty(), events);
      BatchesAreGrouped(l, front);
      QueueIsFifo(l, front);
      var c := After(l, Empty(), front);
      NextGroups(l, c, e);
      match e
      case Submit(request) =>
        SignalsLater(front, c.submitted, [request]);
        assert Signals(events, c.submitted + [request]) == Signals(front, c.submitted);
      case TimeOut => GroupedBell(l, Signals(front, c.submitted));
      case Arrive => GroupedSnoc(l, Signals(front, c.submitted), Got(c.queue[0]));
    }
  }

  lemma NothingGrouped(l: Limits)
    ensures Grouped(l, []) == ([], []) && Size([]) == 0
  {
  }

  lemma GroupedBell(l: Limits, signals: seq<Signal>)
    ensures Grouped(l, signals + [Bell]) == (Grouped(l, signals).0 + [Grouped(l, signals).1], [])
  {
    GroupedSnoc(l, signals, Bell);
  }

  /** When a wait ends, everything that has arrived is in the batches handed out. */
  lemma TimeOutHandsOut(l: Limits, events: seq<Event>)
    requires Possible(l, Empty(), events) && events != [] && events[|events| - 1].TimeOut?
    ensures
      var c := After(l, Empty(), events);
      && c.batch == [] && Arrivals(events) <= |Submissions(events)|
      && Flatten(c.batches) == Submissions(events)[..Arrivals(events)]
  {
    hide Possible, After, Next, Flatten, Grouped, Signals;
    var front := events[..|events| - 1];
    SplitRun(l, Empty(), events);
    BatchesAreGrouped(l, front);
    NextGroups(l, After(l, Empty(), front), TimeOut);
    EmptySound(l);
    EverySchedule(l, Empty(), events);
    QueueIsFifo(l, events);
    var c := After(l, Empty(), events);
    assert [] + Submissions(events) == Submissions(events);
    WhatArrived(Flatten(c.batches), c.submitted, Arrivals(events));
  }

  lemma WhatArrived(flat: seq<Request>, submitted: seq<Request>, k: nat)
    requires k <= |submitted| && flat + [] + submitted[k..] == submitted
    ensures flat == submitted[..k]
  {
    assert flat == (flat + [] + submitted[k..])[..|flat|];
  }

  /** Where record `index` of batch `batch` comes from. */
  datatype Source = Source(batch: nat, index: nat)

  /** The log of the topic while workers write. `offsets[k]` is what worker `k` has collected; `sources` and
      `positions` remember which record stands where. */
  datatype Workers = Workers(
    batches: seq<seq<Request>>, offsets: seq<seq<nat>>, log: seq<Payload>, sources: seq<Source>, positions: seq<seq<nat>>)

  /** One `write` under the topic's lock, by the worker of batch `k`. */
  function Write(w: Workers, k: nat): Workers
    requires k < |w.batches| == |w.offsets| == |w.positions| && |w.offsets[k]| < |w.batches[k]|
  {
    var i := |w.offsets[k]|;
    w.(offsets := w.offsets[k := w.offsets[k] + [|Frames(w.log)|]],
       log := w.log + [w.batches[k][i].data],
       sources := w.sources + [Source(k, i)],
       positions := w.positions[k := w.positions[k] + [|w.log|]])
  }

  /** A new batch is handed to a worker. */
  function Started(w: Workers, batch: seq<Request>): Workers {
    w.(batches := w.batches + [batch], offsets := w.offsets + [[]], positions := w.positions + [[]])
  }

  /** Worker `k`'s `i`-th offset is where its own payload stands. */
  ghost predicate Placed(w: Workers, k: nat, i: nat)
    requires k < |w.batches| == |w.offsets| == |w.positions|
    requires i < |w.offsets[k]| == |w.positions[k]| <= |w.batches[k]|
    requires |w.sources| == |w.log|
  {
    var p := w.positions[k][i];
    && p < |w.log|
    && w.log[p] == w.batches[k][i].data
    && w.offsets[k][i] == OffsetOf(w.log, p)
    && w.sources[p] == Source(k, i)
  }

  predicate Shaped(w: Workers) {
    && |w.batches| == |w.offsets| == |w.positions|
    && |w.sources| == |w.log|
    && forall k | 0 <= k < |w.batches| :: |w.offsets[k]| == |w.positions[k]| <= |w.batches[k]|
  }

  /** Records written and offsets returned correspond one to one. */
  ghost predicate Tiled(w: Workers) {
    && Shaped(w)
    && (forall k, i | 0 <= k < |w.batches| && 0 <= i < |w.offsets[k]| :: Placed(w, k, i))
    && (forall p | 0 <= p < |w.log| ::
          var s := w.sources[p];
          s.batch < |w.batches| && s.index < |w.offsets[s.batch]| && w.positions[s.batch][s.index] == p)
    && (forall k, i, j | 0 <= k < |w.batches| && 0 <= i < j < |w.offsets[k]| :: w.positions[k][i] < w.positions[k][j])
  }

  lemma EarlierOffset(log: seq<Payload>, record: Payload, p: nat)
    requires p <= |log|
    ensures OffsetOf(log + [record], p) == OffsetOf(log, p)
  {
    assert (log + [record])[..p] == log[..p];
  }

  predicate CanWrite(w: Workers, k: nat) {
    Shaped(w) && k < |w.batches| && |w.offsets[k]| < |w.batches[k]|
  }

  lemma WriteKeepsPlaces(w: Workers, k: nat, m: nat, i: nat)
    requires CanWrite(w, k) && Shaped(Write(w, k))
    requires m < |w.batches| && i < |w.offsets[m]| && Placed(w, m, i)
    ensures Placed(Write(w, k), m, i)
  {
    hide Frames;
    EarlierOffset(w.log, w.batches[k][|w.offsets[k]|].data, w.positions[m][i]);
  }

  lemma WritePlaces(w: Workers, k: nat)
    requires CanWrite(w, k) && Shaped(Write(w, k))
    ensures Placed(Write(w, k), k, |w.offsets[k]|)
  {
    hide Frames;
    EarlierOffset(w.log, w.batches[k][|w.offsets[k]|].data, |w.log|);
    WholeLog(w.log);
  }

  lemma WriteShaped(w: Workers, k: nat)
    requires CanWrite(w, k)
    ensures Shaped(Write(w, k))
  {
  }

  lemma WriteTiled(w: Workers, k: nat)
    requires CanWrite(w, k) && Tiled(w)
    ensures Tiled(Write(w, k))
  {
    hide Placed;
    WriteShaped(w, k);
    var w' := Write(w, k);
    forall m, i | 0 <= m < |w.batches| && 0 <= i < |w'.offsets[m]|
      ensures Placed(w', m, i)
    {
      if m == k && i == |w.offsets[k]| {
        WritePlaces(w, k);
      } else {
        WriteKeepsPlaces(w, k, m, i);
      }
    }
    SourcesKept(w, k);
    PositionsRise(w, k);
  }

  lemma SourcesKept(w: Workers, k: nat)
    requires CanWrite(w, k) && Tiled(w)
    ensures
      var w' := Write(w, k);
      forall p | 0 <= p < |w'.log| ::
        var s := w'.sources[p];
        s.batch < |w'.batches| && s.index < |w'.offsets[s.batch]| && |w'.offsets[s.batch]| == |w'.positions[s.batch]|
        && w'.positions[s.batch][s.index] == p
  {
    hide Placed;
    var w' := Write(w, k);
    forall p | 0 <= p < |w'.log|
      ensures
        var s := w'.sources[p];
        s.batch < |w'.batches| && s.index < |w'.offsets[s.batch]| && |w'.offsets[s.batch]| == |w'.positions[s.batch]|
        && w'.positions[s.batch][s.index] == p
    {
      if p < |w.log| {
        assert w'.sources[p] == w.sources[p];
      }
    }
  }

  lemma PositionsRise(w: Workers, k: nat)
    requires CanWrite(w, k) && Tiled(w)
    ensures Shaped(Write(w, k))
    ensures
      var w' := Write(w, k);
      forall m, i, j | 0 <= m < |w'.batches| && 0 <= i < j < |w'.offsets[m]| :: w'.positions[m][i] < w'.positions[m][j]
  {
    hide Frames;
    WriteShaped(w, k);
    var w' := Write(w, k);
    forall m, i, j | 0 <= m < |w'.batches| && 0 <= i < j < |w'.offsets[m]|
      ensures w'.positions[m][i] < w'.positions[m][j]
    {
      assert Placed(w, m, i);
    }
  }

  lemma StartedTiled(w: Workers, batch: seq<Request>)
    requires Tiled(w)
    ensures Tiled(Started(w, batch))
  {
    hide Frames;
    var w' := Started(w, batch);
    forall k, i | 0 <= k < |w'.batches| && 0 <= i < |w'.offsets[k]|
      ensures Placed(w', k, i)
    {
      assert Placed(w, k, i);
    }
  }

  datatype WorkerEvent = Start(batch: seq<Request>) | WriteNext(worker: nat)

  predicate Runs(w: Workers, events: seq<WorkerEvent>)
    decreases |events|
  {
    events == []
    || (match events[0]
        case Start(batch) => Runs(Started(w, batch), events[1..])
        case WriteNext(k) => CanWrite(w, k) && Runs(Write(w, k), events[1..]))
  }

  function AfterWrites(w: Workers, events: seq<WorkerEvent>): Workers
    requires Runs(w, events)
    decreases |events|
  {
    if events == [] then w
    else match events[0]
      case Start(batch) => AfterWrites(Started(w, batch), events[1..])
      case WriteNext(k) => AfterWrites(Write(w, k), events[1..])
  }

  /** However the workers interleave: every offset a request gets is where its own payload stands in the final log,
      and every record of the log belongs to exactly one request. */
  lemma {:induction false} EveryInterleavingTiles(w: Workers, events: seq<WorkerEvent>)
    requires Tiled(w) && Runs(w, events)
    ensures Tiled(AfterWrites(w, events))
    ensures w.log <= AfterWrites(w, events).log
    decreases |events|
  {
    hide Tiled, Placed;
    if events != [] {
      match events[0]
      case Start(batch) =>
        StartedTiled(w, batch);
        EveryInterleavingTiles(Started(w, batch), events[1..]);
      case WriteNext(k) =>
        WriteTiled(w, k);
        EveryInterleavingTiles(Write(w, k), events[1..]);
    }
  }

  const NOTHING_WRITTEN: Workers := Workers([], [], [], [], [])

  lemma NothingWritten()
    ensures Tiled(NOTHING_WRITTEN)
  {
  }

  /** The bytes from an offset to its record's end: no two requests share any, and in the log they follow each other
      without a gap. */
  lemma RangesTile(w: Workers, k: nat, i: nat, m: nat, j: nat)
    requires Tiled(w) && k < |w.batches| && i < |w.offsets[k]| && m < |w.batches| && j < |w.offsets[m]|
    requires (k, i) != (m, j)
    ensures
      var a, b := w.offsets[k][i], w.offsets[m][j];
      var aEnd, bEnd := a + 4 + |w.batches[k][i].data|, b + 4 + |w.batches[m][j].data|;
      && (aEnd <= b || bEnd <= a)
      && aEnd <= |Frames(w.log)|
      && Frames(w.log)[a + 4..aEnd] == w.batches[k][i].data
      && (aEnd == |Frames(w.log)|
          || exists p :: 0 <= p < |w.log| && w.sources[p].batch < |w.batches|
               && w.sources[p].index < |w.offsets[w.sources[p].batch]|
               && w.offsets[w.sources[p].batch][w.sources[p].index] == aEnd)
  {
    hide Frames, OffsetOf;
    assert Placed(w, k, i) && Placed(w, m, j);
    var p, q := w.positions[k][i], w.positions[m][j];
    RecordAt(w.log, p);
    RecordAt(w.log, q);
    assert p != q;
    NotBeyond(w.log, p, q);
    NotBeyond(w.log, q, p);
    WholeLog(w.log);
    if p + 1 < |w.log| {
      var next := w.sources[p + 1];
      assert Placed(w, next.batch, next.index);
    }
  }

  lemma NotBeyond(log: seq<Payload>, p: nat, q: nat)
    requires p < |log| && q < |log|
    ensures p < q ==> OffsetOf(log, p + 1) <= OffsetOf(log, q)
  {
    if p + 1 < q {
      OffsetsIncrease(log, p + 1, q);
    }
  }

  lemma LastEmpties(l: Limits, c: Collector, events: seq<Event>)
    requires Possible(l, c, events) && Sound(l, c)
    ensures events != [] && events[|events| - 1].TimeOut? ==> After(l, c, events).batch == []
  {
    hide Flatten;
    if events != [] {
      SplitRun(l, c, events);
      EverySchedule(l, c, events[..|events| - 1]);
      NextGroups(l, After(l, c, events[..|events| - 1]), events[|events| - 1]);
    }
  }

  /** The collector of one topic: the fields of the coroutine and the queue it reads. */
  class TopicCollector {
    const limits: Limits
    var queue: seq<Request>
    var batch: seq<Request>
    var batchBytes: nat
    /** The batches given to the executor. */
    var batches: seq<seq<Request>>
    ghost var submitted: seq<Request>

    constructor (limits: Limits)
      ensures this.limits == limits && State() == Collector([], [], [], 0, []) && Sound(limits, State())
    {
      this.limits := limits;
      queue, batch, batchBytes, batches, submitted := [], [], 0, [], [];
    }

    ghost function State(): Collector
      reads this
    {
      Collector(submitted, queue, batch, batchBytes, batches)
    }

    method Submit(request: Request)
      modifies this
      ensures State() == Next(limits, old(State()), Event.Submit(request))
    {
      queue := queue + [request];
      submitted := submitted + [request];
    }

    method FlushBatch()
      modifies this
      ensures State() == Flush(old(State()))
    {
      batches := batches + [batch];
      batch, batchBytes := [], 0;
    }

    /** The collector's loop: each event is a submission while it waits, an arrival, or the end of its wait. */
    method Collect(events: seq<Event>)
      requires Possible(limits, State(), events) && Sound(limits, State())
      modifies this
      ensures State() == After(limits, old(State()), events)
      ensures Sound(limits, State())
      ensures submitted == old(submitted) + Submissions(events)
      ensures events != [] && events[|events| - 1].TimeOut? ==> batch == []
    {
      hide Sound, Submissions;
      EverySchedule(limits, State(), events);
      LastEmpties(limits, State(), events);
      assert events[0..] == events;
      for i := 0 to |events|
        invariant Possible(limits, State(), events[i..])
        invariant After(limits, State(), events[i..]) == After(limits, old(State()), events)
      {
        assert events[i..][1..] == events[i + 1..] && events[i..][0] == events[i];
        ghost var before := State();
        match events[i] {
        case Submit(request) => Submit(request);
        case TimeOut => FlushBatch();
        case Arrive =>
          var request := queue[0];
          queue := queue[1..];
          if batch == [] {
            assert batch + [request] == [request];
            batch, batchBytes := [request], batchBytes + |request.data|;
          } else {
            batch := batch + [request];
            batchBytes := batchBytes + |request.data|;
            if |batch| >= limits.maxBatchSize || batchBytes >= limits.maxBatchBytes {
              FlushBatch();
            }
          }
        }
        assert State() == Next(limits, before, events[i]);
      }
    }
  }

  function Payloads(batch: seq<Request>): (r: seq<Payload>)
    ensures |r| == |batch| && forall i | 0 <= i < |batch| :: r[i] == batch[i].data
  {
    seq(|batch|, i requires 0 <= i < |batch| => batch[i].data)
  }

  /** `_flush_batch` of one worker alone: every request gets the offset where its payload stands in the topic's log. */
  method FlushBatch(writer: LogWriter, topic: string, batch: seq<Request>, expired: seq<bool>) returns (offsets: seq<nat>)
    requires writer.view.registry == writer.registry && writer.view.memory == writer.memory && |expired| == |batch|
    requires writer.view.Valid() && TopicsSafe(writer.registry.place, writer.view.chunks.Keys + {topic})
    modifies writer.view, writer.registry, writer.memory, writer.memory.disk, writer.memory.disk.files.Values,
             writer.memory.cache.Values
    ensures writer.view.Valid()
    ensures writer.view.Records(topic) == old(writer.view.Records(topic)) + Payloads(batch)
    ensures |offsets| == |batch|
    ensures forall i | 0 <= i < |batch| ::
              offsets[i] == OffsetOf(writer.view.Records(topic), |old(writer.view.Records(topic))| + i)
  {
    hide LogView.Valid, TopicsSafe, OffsetOf;
    offsets := writer.WriteBatch(topic, Payloads(batch), expired);
  }

  /** The workers of a new topic on the real log, in any interleaving: each turn is one `write` under the topic's lock.
      The log holds what the model says, every offset is the one the model says, and so they tile the log. */
  method RunWorkers(writer: LogWriter, topic: string, events: seq<WorkerEvent>, expired: seq<bool>)
    returns (offsets: seq<seq<nat>>)
    requires writer.view.registry == writer.registry && writer.view.memory == writer.memory && |expired| == |events|
    requires writer.view.Valid() && TopicsSafe(writer.registry.place, writer.view.chunks.Keys + {topic})
    requires writer.view.Records(topic) == [] && Runs(NOTHING_WRITTEN, events)
    modifies writer.view, writer.registry, writer.memory, writer.memory.disk, writer.memory.disk.files.Values,
             writer.memory.cache.Values
    ensures writer.view.Valid()
    ensures writer.view.Records(topic) == AfterWrites(NOTHING_WRITTEN, events).log
    ensures offsets == AfterWrites(NOTHING_WRITTEN, events).offsets
    ensures Tiled(AfterWrites(NOTHING_WRITTEN, events))
  {
    hide LogView.Valid, LogView.Records, TopicsSafe, OffsetOf, Frames, Tiled;
    NothingWritten();
    EveryInterleavingTiles(NOTHING_WRITTEN, events);
    var batches: seq<seq<Request>> := [];
    offsets := [];
    ghost var w := NOTHING_WRITTEN;
    assert events[0..] == events;
    for i := 0 to |events|
      invariant writer.view.Valid() && writer.memory.OnlyNew()
      invariant TopicsSafe(writer.registry.place, writer.view.chunks.Keys + {topic})
      invariant Runs(w, events[i..]) && AfterWrites(w, events[i..]) == AfterWrites(NOTHING_WRITTEN, events)
      invariant batches == w.batches && offsets == w.offsets && writer.view.Records(topic) == w.log
    {
      EventsStep(w, events, i);
      match events[i] {
      case Start(batch) =>
        batches, offsets := batches + [batch], offsets + [[]];
        w := Started(w, batch);
      case WriteNext(k) =>
        ghost var keys := writer.view.chunks.Keys;
        var r := writer.Write(topic, batches[k][|offsets[k]|].data, expired[i]);
        offsets := offsets[k := offsets[k] + [r.offset]];
        w := Write(w, k);
        assert (keys + {topic}) + {topic} == keys + {topic};
      }
    }
  }

  lemma EventsStep(w: Workers, events: seq<WorkerEvent>, i: nat)
    requires i < |events| && Runs(w, events[i..])
    ensures events[i].WriteNext? ==> CanWrite(w, events[i].worker)
    ensures
      var next := if events[i].Start? then Started(w, events[i].batch) else Write(w, events[i].worker);
      Runs(next, events[i + 1..]) && AfterWrites(w, events[i..]) == AfterWrites(next, events[i + 1..])
  {
    assert events[i..][1..] == events[i + 1..];
  }
}
