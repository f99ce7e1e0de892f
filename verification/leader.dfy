/** A topic's leader: replica offsets, the in-sync set and the high watermark. Time is one integer unit. */
module Leader {
  import opened Seqs
  import opened Bytes

  datatype Settings = Settings(id: string, replicas: seq<string>, minIsrCount: int, maxLag: int)

  /** The changing fields of `ReplicaLeader`; both maps answer 0 for an unknown replica. */
  datatype LeaderState = LeaderState(inSync: seq<string>, offsets: map<string, int>, highWatermark: int, caughtUp: map<string, int>)

  /** `leo` is the log end offset at the time of the event. */
  datatype Event =
    | Fetch(replica: string, offset: int, leo: nat, now: int)
    | Query(leo: nat)
    | UpdateIsr(now: int)

  function At(m: map<string, int>, r: string): int {
    if r in m then m[r] else 0
  }

  function Age(caughtUp: map<string, int>, now: int, r: string): int {
    now - At(caughtUp, r)
  }

  function Start(c: Settings, leo: nat): LeaderState {
    LeaderState([c.id], map[c.id := leo], leo, map[])
  }

  /** The smallest offset among `members`. */
  function MinOffset(members: seq<string>, offsets: map<string, int>): int
    requires members != []
  {
    var first := At(offsets, members[0]);
    if |members| == 1 then first else Min(first, MinOffset(members[1..], offsets))
  }

  lemma {:induction false} MinOffsetIsLeast(members: seq<string>, offsets: map<string, int>)
    requires members != []
    ensures forall r | r in members :: MinOffset(members, offsets) <= At(offsets, r)
    ensures exists r :: r in members && MinOffset(members, offsets) == At(offsets, r)
  {
    if |members| == 1 {
      assert members[0] in members;
    } else {
      MinOffsetIsLeast(members[1..], offsets);
      assert members == [members[0]] + members[1..];
      assert members[0] in members;
    }
  }

  /** `_compute_high_watermark`: 0 for an empty in-sync set. */
  function Computed(c: Settings, s: LeaderState, leo: nat): int {
    if s.inSync == [] then 0 else MinOffset(s.inSync, s.offsets[c.id := leo])
  }

  function Evaluated(c: Settings, s: LeaderState, leo: nat): LeaderState {
    s.(offsets := if s.inSync == [] then s.offsets else s.offsets[c.id := leo],
       highWatermark := Max(s.highWatermark, Computed(c, s, leo)))
  }

  /** The list without the first occurrence of `x`. */
  function RemoveFirst(s: seq<string>, x: string): seq<string> {
    if s == [] then [] else if s[0] == x then s[1..] else [s[0]] + RemoveFirst(s[1..], x)
  }

  /** Stable insertion into a list that runs from the stalest replica to the freshest. */
  function Insert(sorted: seq<string>, x: string, caughtUp: map<string, int>, now: int): seq<string> {
    if sorted == [] then [x]
    else
      var last := sorted[|sorted| - 1];
      if Age(caughtUp, now, last) >= Age(caughtUp, now, x) then sorted + [x]
      else Insert(sorted[..|sorted| - 1], x, caughtUp, now) + [last]
  }

  /** `sort(key=age, reverse=True)`, which is stable: replicas of one age keep their order. */
  function StalestFirst(s: seq<string>, caughtUp: map<string, int>, now: int): seq<string> {
    if s == [] then [] else Insert(StalestFirst(s[..|s| - 1], caughtUp, now), s[|s| - 1], caughtUp, now)
  }

  function Reversed(s: seq<string>): (r: seq<string>)
    ensures |r| == |s| && forall i | 0 <= i < |s| :: r[i] == s[|s| - 1 - i]
  {
    seq(|s|, i requires 0 <= i < |s| => s[|s| - 1 - i])
  }

  /** The followers, freshest first. */
  function Freshest(c: Settings, caughtUp: map<string, int>, now: int): seq<string> {
    Reversed(StalestFirst(RemoveFirst(c.replicas, c.id), caughtUp, now))
  }

  /** How many of the first elements are within the lag bound. */
  function InLag(ranked: seq<string>, caughtUp: map<string, int>, now: int, maxLag: int): (n: nat)
    ensures n <= |ranked|
    ensures forall i | 0 <= i < n :: Age(caughtUp, now, ranked[i]) <= maxLag
    ensures n < |ranked| ==> Age(caughtUp, now, ranked[n]) > maxLag
  {
    if ranked == [] || Age(caughtUp, now, ranked[0]) > maxLag then 0
    else 1 + InLag(ranked[1..], caughtUp, now, maxLag)
  }

  /** The leader, then the freshest followers: as many as the minimum asks for, and all within the lag bound. */
  function NewIsr(c: Settings, caughtUp: map<string, int>, now: int): seq<string> {
    var ranked := Freshest(c, caughtUp, now);
    var needed := Min(Max(0, c.minIsrCount - 1), |ranked|);
    [c.id] + ranked[..Max(needed, InLag(ranked, caughtUp, now, c.maxLag))]
  }

  function Next(c: Settings, s: LeaderState, e: Event): LeaderState {
    match e
    case Fetch(replica, offset, leo, now) =>
      if replica !in c.replicas then s
      else
        var s1 := Evaluated(c, s, leo);
        s1.(caughtUp := if offset == leo then s1.caughtUp[replica := now] else s1.caughtUp,
            offsets := s1.offsets[replica := offset])
    case Query(leo) => Evaluated(c, s, leo)
    case UpdateIsr(now) => if c.id in c.replicas then s.(inSync := NewIsr(c, s.caughtUp, now)) else s
  }

  function Run(c: Settings, leo: nat, events: seq<Event>): LeaderState {
    if events == [] then Start(c, leo)
    else Next(c, Run(c, leo, events[..|events| - 1]), events[|events| - 1])
  }

  /** Does the event evaluate the high watermark? */
  predicate Evaluates(c: Settings, e: Event) {
    e.Query? || (e.Fetch? && e.replica in c.replicas)
  }

  // -- What the events alone say ---------------------------------------------------------------

  /** The offset of the replica's last fetch, or 0. */
  function LastFetch(events: seq<Event>, r: string): int {
    if events == [] then 0
    else
      var e := events[|events| - 1];
      if e.Fetch? && e.replica == r then e.offset else LastFetch(events[..|events| - 1], r)
  }

  /** The time of its last fetch that asked for the end of the log, or 0. */
  function LastCaughtUp(events: seq<Event>, r: string): int {
    if events == [] then 0
    else
      var e := events[|events| - 1];
      if e.Fetch? && e.replica == r && e.offset == e.leo then e.now else LastCaughtUp(events[..|events| - 1], r)
  }

  function Fetched(c: Settings, events: seq<Event>): map<string, int> {
    map r | r in c.replicas :: LastFetch(events, r)
  }

  function CaughtUp(c: Settings, events: seq<Event>): map<string, int> {
    map r | r in c.replicas :: LastCaughtUp(events, r)
  }

  /** The leader alone, until the set is recomputed. */
  function InSyncOf(c: Settings, events: seq<Event>): seq<string> {
    if events == [] then [c.id]
    else
      var front, e := events[..|events| - 1], events[|events| - 1];
      if e.UpdateIsr? && c.id in c.replicas then NewIsr(c, CaughtUp(c, front), e.now) else InSyncOf(c, front)
  }

  /** The smallest offset of the in-sync set, at every evaluation. */
  function Evaluations(c: Settings, leo: nat, events: seq<Event>): seq<int> {
    if events == [] then [leo]
    else
      var front, e := events[..|events| - 1], events[|events| - 1];
      Evaluations(c, leo, front)
      + (if Evaluates(c, e) && InSyncOf(c, front) != []
         then [MinOffset(InSyncOf(c, front), Fetched(c, front)[c.id := e.leo])] else [])
  }

  function MaxOf(s: seq<int>): int
    requires s != []
  {
    if |s| == 1 then s[0] else Max(MaxOf(s[..|s| - 1]), s[|s| - 1])
  }

  /** The log only grows. */
  predicate Growing(leo: nat, events: seq<Event>) {
    forall i | 0 <= i < |events| && !events[i].UpdateIsr? ::
      leo <= events[i].leo && forall j | 0 <= j < i && !events[j].UpdateIsr? :: events[j].leo <= events[i].leo
  }

  /** The log end offset after the events: the last one seen. */
  function LatestEnd(leo: nat, events: seq<Event>): nat {
    if events == [] then leo
    else
      var e := events[|events| - 1];
      if e.UpdateIsr? then LatestEnd(leo, events[..|events| - 1]) else e.leo
  }

  /** Two maps that say the same about these. */
  predicate Alike(members: seq<string>, a: map<string, int>, b: map<string, int>) {
    forall r | r in members :: At(a, r) == At(b, r)
  }

  lemma {:induction false} MinOffsetAlike(members: seq<string>, a: map<string, int>, b: map<string, int>)
    requires members != [] && Alike(members, a, b)
    ensures MinOffset(members, a) == MinOffset(members, b)
  {
    assert members[0] in members;
    if |members| > 1 {
      assert members == [members[0]] + members[1..];
      MinOffsetAlike(members[1..], a, b);
    }
  }

  lemma {:induction false} InsertAlike(sorted: seq<string>, x: string, a: map<string, int>, b: map<string, int>, now: int)
    requires Alike(sorted + [x], a, b)
    ensures Insert(sorted, x, a, now) == Insert(sorted, x, b, now)
  {
    assert x in sorted + [x];
    if sorted != [] {
      var front, last := sorted[..|sorted| - 1], sorted[|sorted| - 1];
      assert sorted == front + [last] && last in sorted + [x];
      assert forall r | r in front + [x] :: r in sorted + [x];
      InsertAlike(front, x, a, b, now);
    }
  }

  lemma {:induction false} StalestFirstAlike(s: seq<string>, a: map<string, int>, b: map<string, int>, now: int)
    requires Alike(s, a, b)
    ensures StalestFirst(s, a, now) == StalestFirst(s, b, now)
  {
    if s != [] {
      var front, last := s[..|s| - 1], s[|s| - 1];
      assert s == front + [last];
      StalestFirstAlike(front, a, b, now);
      StalestFirstSorts(front, a, now);
      InsertAlike(StalestFirst(front, a, now), last, a, b, now);
    }
  }

  lemma {:induction false} InLagAlike(ranked: seq<string>, a: map<string, int>, b: map<string, int>, now: int, maxLag: int)
    requires Alike(ranked, a, b)
    ensures InLag(ranked, a, now, maxLag) == InLag(ranked, b, now, maxLag)
  {
    if ranked != [] {
      assert ranked == [ranked[0]] + ranked[1..] && ranked[0] in ranked;
      InLagAlike(ranked[1..], a, b, now, maxLag);
    }
  }

  lemma {:induction false} RemoveFirstHolds(s: seq<string>, x: string)
    ensures forall y | y in RemoveFirst(s, x) :: y in s
  {
    if s != [] {
      RemoveFirstHolds(s[1..], x);
    }
  }

  lemma NewIsrHolds(c: Settings, caughtUp: map<string, int>, now: int)
    ensures forall r | r in Freshest(c, caughtUp, now) :: r in c.replicas
    ensures forall r | r in NewIsr(c, caughtUp, now) :: r == c.id || r in c.replicas
  {
    hide StalestFirst, RemoveFirst;
    var others := RemoveFirst(c.replicas, c.id);
    var sorted, ranked := StalestFirst(others, caughtUp, now), Freshest(c, caughtUp, now);
    RemoveFirstHolds(c.replicas, c.id);
    StalestFirstSorts(others, caughtUp, now);
    forall r | r in ranked
      ensures r in c.replicas
    {
      var i :| 0 <= i < |ranked| && ranked[i] == r;
      assert sorted[|sorted| - 1 - i] in sorted;
    }
  }

  lemma NewIsrAlike(c: Settings, a: map<string, int>, b: map<string, int>, now: int)
    requires Alike(c.replicas, a, b)
    ensures NewIsr(c, a, now) == NewIsr(c, b, now)
  {
    hide StalestFirst, RemoveFirst, InLag;
    RemoveFirstHolds(c.replicas, c.id);
    StalestFirstAlike(RemoveFirst(c.replicas, c.id), a, b, now);
    NewIsrHolds(c, a, now);
    InLagAlike(Freshest(c, a, now), a, b, now, c.maxLag);
  }

  /** A fetch changes what is known of the replica that sent it and of no other follower; one from outside the replica
      list changes nothing; and the other events change nothing about followers. */
  lemma FetchTouchesOnly(c: Settings, s: LeaderState, e: Event, x: string)
    ensures
      var s' := Next(c, s, e);
      && (x != c.id && !(e.Fetch? && e.replica == x) ==> At(s'.offsets, x) == At(s.offsets, x))
      && (!(e.Fetch? && e.replica == x) ==> At(s'.caughtUp, x) == At(s.caughtUp, x))
      && (e.Fetch? && e.replica == x && x in c.replicas ==>
            At(s'.offsets, x) == e.offset
            && At(s'.caughtUp, x) == if e.offset == e.leo then e.now else At(s.caughtUp, x))
      && (e.Fetch? && e.replica !in c.replicas ==> s' == s)
      && (!e.UpdateIsr? ==> s'.inSync == s.inSync)
  {
    hide NewIsr, MinOffset;
  }

  /** Of every replica but the leader the state knows the offset of its last fetch, and of every replica the time when
      it last caught up. */
  lemma {:induction false} StateIsHistory(c: Settings, leo: nat, events: seq<Event>, r: string)
    requires r in c.replicas
    ensures r != c.id ==> At(Run(c, leo, events).offsets, r) == LastFetch(events, r)
    ensures At(Run(c, leo, events).caughtUp, r) == LastCaughtUp(events, r)
  {
    hide Next;
    if events != [] {
      var front, e := events[..|events| - 1], events[|events| - 1];
      StateIsHistory(c, leo, front, r);
      FetchTouchesOnly(c, Run(c, leo, front), e, r);
    }
  }

  /** The in-sync set is the one that the events recomputed last. */
  lemma {:induction false} InSyncIsHistory(c: Settings, leo: nat, events: seq<Event>)
    ensures Run(c, leo, events).inSync == InSyncOf(c, events)
    ensures InSyncOf(c, events) != [] && InSyncOf(c, events)[0] == c.id
    ensures forall r | r in InSyncOf(c, events) :: r == c.id || r in c.replicas
  {
    hide MinOffset, Freshest;
    if events != [] {
      var front, e := events[..|events| - 1], events[|events| - 1];
      InSyncIsHistory(c, leo, front);
      if e.UpdateIsr? {
        HistoryAlike(c, leo, front);
        NewIsrAlike(c, Run(c, leo, front).caughtUp, CaughtUp(c, front), e.now);
        NewIsrHolds(c, CaughtUp(c, front), e.now);
      }
    }
  }

  lemma HistoryAlike(c: Settings, leo: nat, events: seq<Event>)
    ensures Alike(c.replicas, Run(c, leo, events).caughtUp, CaughtUp(c, events))
    ensures forall r | r in c.replicas && r != c.id :: At(Run(c, leo, events).offsets, r) == At(Fetched(c, events), r)
  {
    hide Run;
    forall r | r in c.replicas
      ensures At(Run(c, leo, events).caughtUp, r) == At(CaughtUp(c, events), r)
      ensures r != c.id ==> At(Run(c, leo, events).offsets, r) == At(Fetched(c, events), r)
    {
      StateIsHistory(c, leo, events, r);
    }
  }

  lemma LeaderInSync(c: Settings, leo: nat, events: seq<Event>)
    ensures Run(c, leo, events).inSync != [] && Run(c, leo, events).inSync[0] == c.id
  {
    InSyncIsHistory(c, leo, events);
  }

  /** What an evaluation sees: the in-sync set and the offsets that the events alone determine. */
  lemma SeenIsHistory(c: Settings, leo: nat, events: seq<Event>, end: nat)
    ensures
      var s := Run(c, leo, events);
      && s.inSync == InSyncOf(c, events) != []
      && Alike(s.inSync, s.offsets[c.id := end], Fetched(c, events)[c.id := end])
      && MinOffset(s.inSync, s.offsets[c.id := end]) == MinOffset(InSyncOf(c, events), Fetched(c, events)[c.id := end])
  {
    hide Run, MinOffset, InSyncOf, Fetched;
    var s := Run(c, leo, events);
    InSyncIsHistory(c, leo, events);
    HistoryAlike(c, leo, events);
    MinOffsetAlike(s.inSync, s.offsets[c.id := end], Fetched(c, events)[c.id := end]);
  }

  /** The high watermark is the largest minimum seen at any evaluation. */
  lemma {:induction false} WatermarkIsMax(c: Settings, leo: nat, events: seq<Event>)
    ensures Evaluations(c, leo, events) != []
    ensures Run(c, leo, events).highWatermark == MaxOf(Evaluations(c, leo, events))
  {
    hide MinOffset, NewIsr, InSyncOf, Fetched;
    if events != [] {
      var front, e := events[..|events| - 1], events[|events| - 1];
      WatermarkIsMax(c, leo, front);
      var seen := Evaluations(c, leo, front);
      if Evaluates(c, e) {
        SeenIsHistory(c, leo, front, e.leo);
        var m := MinOffset(InSyncOf(c, front), Fetched(c, front)[c.id := e.leo]);
        assert (seen + [m])[..|seen|] == seen;
      } else {
        assert Evaluations(c, leo, events) == seen;
      }
    }
  }

  lemma {:induction false} WatermarkNeverDecreases(c: Settings, leo: nat, events: seq<Event>, i: nat)
    requires i <= |events|
    ensures Run(c, leo, events[..i]).highWatermark <= Run(c, leo, events).highWatermark
    decreases |events|
  {
    hide MinOffset, NewIsr;
    if i == |events| {
      assert events[..i] == events;
    } else {
      var front := events[..|events| - 1];
      WatermarkNeverDecreases(c, leo, front, i);
      assert front[..i] == events[..i];
    }
  }

  lemma {:induction false} LatestEndGrows(leo: nat, events: seq<Event>)
    requires Growing(leo, events)
    ensures leo <= LatestEnd(leo, events)
    ensures events != [] ==> Growing(leo, events[..|events| - 1])
    ensures events != [] ==> LatestEnd(leo, events[..|events| - 1]) <= LatestEnd(leo, events)
    ensures forall i | 0 <= i < |events| && !events[i].UpdateIsr? :: events[i].leo <= LatestEnd(leo, events)
  {
    if events != [] {
      var front := events[..|events| - 1];
      assert forall i | 0 <= i < |front| :: front[i] == events[i];
      LatestEndGrows(leo, front);
      assert LatestEnd(leo, front) == leo || exists i :: 0 <= i < |front| && !front[i].UpdateIsr? && LatestEnd(leo, front) == front[i].leo by {
        LatestEndSeen(leo, front);
      }
    }
  }

  lemma {:induction false} LatestEndSeen(leo: nat, events: seq<Event>)
    ensures LatestEnd(leo, events) == leo
            || exists i :: 0 <= i < |events| && !events[i].UpdateIsr? && LatestEnd(leo, events) == events[i].leo
  {
    if events != [] && events[|events| - 1].UpdateIsr? {
      var front := events[..|events| - 1];
      LatestEndSeen(leo, front);
      if LatestEnd(leo, front) != leo {
        var i :| 0 <= i < |front| && !front[i].UpdateIsr? && LatestEnd(leo, front) == front[i].leo;
        assert events[i] == front[i];
      }
    }
  }

  /** The leader is always in sync, so the high watermark stays within the log. */
  lemma {:induction false} WatermarkWithinLog(c: Settings, leo: nat, events: seq<Event>)
    requires Growing(leo, events)
    ensures Run(c, leo, events).highWatermark <= LatestEnd(leo, events)
  {
    hide MinOffset, NewIsr, Growing;
    if events != [] {
      var front, e := events[..|events| - 1], events[|events| - 1];
      LatestEndGrows(leo, events);
      WatermarkWithinLog(c, leo, front);
      LeaderInSync(c, leo, front);
      if Evaluates(c, e) {
        var s := Run(c, leo, front);
        MinOffsetIsLeast(s.inSync, s.offsets[c.id := e.leo]);
        assert c.id in s.inSync;
        assert At(s.offsets[c.id := e.leo], c.id) == e.leo;
      }
    }
  }

  /** Everything below the high watermark was replicated by a whole in-sync set: at some evaluation the log end had
      reached it, and the last fetch of every other member. */
  lemma {:induction false} WatermarkWasReplicated(c: Settings, leo: nat, events: seq<Event>) returns (i: nat)
    requires Run(c, leo, events).highWatermark > leo
    ensures i < |events| && Evaluates(c, events[i])
    ensures events[i].leo >= Run(c, leo, events).highWatermark
    ensures forall r | r in InSyncOf(c, events[..i]) && r != c.id ::
              LastFetch(events[..i], r) >= Run(c, leo, events).highWatermark
    decreases |events|
  {
    hide MinOffset, NewIsr, InSyncOf, LastFetch;
    var front, e := events[..|events| - 1], events[|events| - 1];
    var s := Run(c, leo, front);
    if Run(c, leo, events).highWatermark == s.highWatermark {
      i := WatermarkWasReplicated(c, leo, front);
      assert front[..i] == events[..i];
    } else {
      i := |events| - 1;
      SeenIsHistory(c, leo, front, e.leo);
      LeastIsBelow(c, front, e.leo);
    }
  }

  lemma LeastIsBelow(c: Settings, events: seq<Event>, end: nat)
    ensures
      var members := InSyncOf(c, events);
      members != []
      && MinOffset(members, Fetched(c, events)[c.id := end]) <= end
      && forall r | r in members && r != c.id ::
           MinOffset(members, Fetched(c, events)[c.id := end]) <= LastFetch(events, r)
  {
    hide MinOffset, InSyncOf, LastFetch;
    var members := InSyncOf(c, events);
    InSyncIsHistory(c, 0, events);
    MinOffsetIsLeast(members, Fetched(c, events)[c.id := end]);
    assert members[0] in members;
  }

  predicate StaleFirst(s: seq<string>, caughtUp: map<string, int>, now: int) {
    forall i, j | 0 <= i < j < |s| :: Age(caughtUp, now, s[i]) >= Age(caughtUp, now, s[j])
  }

  lemma {:induction false} InsertHolds(sorted: seq<string>, x: string, caughtUp: map<string, int>, now: int)
    ensures
      var r := Insert(sorted, x, caughtUp, now);
      && |r| == |sorted| + 1
      && (forall y :: y in r <==> y in sorted || y == x)
      && (NoDup(sorted) && x !in sorted ==> NoDup(r))
  {
    if sorted != [] {
      var front, last := sorted[..|sorted| - 1], sorted[|sorted| - 1];
      InsertHolds(front, x, caughtUp, now);
      assert sorted == front + [last];
      assert NoDup(sorted) ==> last !in front;
    }
  }

  lemma {:induction false} InsertSorts(sorted: seq<string>, x: string, caughtUp: map<string, int>, now: int)
    requires StaleFirst(sorted, caughtUp, now)
    ensures StaleFirst(Insert(sorted, x, caughtUp, now), caughtUp, now)
  {
    hide Age;
    if sorted != [] {
      var front, last := sorted[..|sorted| - 1], sorted[|sorted| - 1];
      InsertSorts(front, x, caughtUp, now);
      InsertHolds(front, x, caughtUp, now);
      var rest := Insert(front, x, caughtUp, now);
      forall i | 0 <= i < |rest|
        ensures Age(caughtUp, now, last) < Age(caughtUp, now, x) ==> Age(caughtUp, now, rest[i]) >= Age(caughtUp, now, last)
      {
        assert rest[i] in rest;
      }
    }
  }

  /** The sort orders the replicas and neither loses nor repeats one. */
  lemma {:induction false} StalestFirstSorts(s: seq<string>, caughtUp: map<string, int>, now: int)
    ensures
      var r := StalestFirst(s, caughtUp, now);
      && StaleFirst(r, caughtUp, now)
      && |r| == |s|
      && (forall y :: y in r <==> y in s)
      && (NoDup(s) ==> NoDup(r))
  {
    hide Insert, Age;
    if s != [] {
      var front, last := s[..|s| - 1], s[|s| - 1];
      StalestFirstSorts(front, caughtUp, now);
      InsertSorts(StalestFirst(front, caughtUp, now), last, caughtUp, now);
      InsertHolds(StalestFirst(front, caughtUp, now), last, caughtUp, now);
      assert s == front + [last];
      if NoDup(s) {
        LastIsNew(front, last);
      }
    }
  }

  lemma LastIsNew(front: seq<string>, last: string)
    requires NoDup(front + [last])
    ensures NoDup(front) && last !in front
  {
    var s := front + [last];
    assert forall i | 0 <= i < |front| :: s[i] == front[i] && s[|front|] == last;
  }

  /** The replicas of one age, in their order. */
  function OfAge(s: seq<string>, caughtUp: map<string, int>, now: int, age: int): seq<string> {
    if s == [] then []
    else OfAge(s[..|s| - 1], caughtUp, now, age)
         + (if Age(caughtUp, now, s[|s| - 1]) == age then [s[|s| - 1]] else [])
  }

  lemma OfAgeSnoc(s: seq<string>, x: string, caughtUp: map<string, int>, now: int, age: int)
    ensures OfAge(s + [x], caughtUp, now, age) ==
            OfAge(s, caughtUp, now, age) + (if Age(caughtUp, now, x) == age then [x] else [])
  {
    assert (s + [x])[..|s|] == s;
  }

  lemma {:induction false} InsertIsStable(sorted: seq<string>, x: string, caughtUp: map<string, int>, now: int, age: int)
    requires StaleFirst(sorted, caughtUp, now)
    ensures OfAge(Insert(sorted, x, caughtUp, now), caughtUp, now, age) == OfAge(sorted + [x], caughtUp, now, age)
  {
    hide OfAge;
    OfAgeSnoc(sorted, x, caughtUp, now, age);
    if sorted == [] {
      assert sorted + [x] == [x];
    } else {
      var front, last := sorted[..|sorted| - 1], sorted[|sorted| - 1];
      assert sorted == front + [last];
      OfAgeSnoc(front, last, caughtUp, now, age);
      if Age(caughtUp, now, last) < Age(caughtUp, now, x) {
        InsertIsStable(front, x, caughtUp, now, age);
        OfAgeSnoc(front, x, caughtUp, now, age);
        OfAgeSnoc(Insert(front, x, caughtUp, now), last, caughtUp, now, age);
      }
    }
  }

  /** It is the stable sort: replicas of equal age stay in their order. */
  lemma {:induction false} StalestFirstIsStable(s: seq<string>, caughtUp: map<string, int>, now: int, age: int)
    ensures OfAge(StalestFirst(s, caughtUp, now), caughtUp, now, age) == OfAge(s, caughtUp, now, age)
  {
    if s != [] {
      var front, last := s[..|s| - 1], s[|s| - 1];
      var sorted := StalestFirst(front, caughtUp, now);
      StalestFirstIsStable(front, caughtUp, now, age);
      StalestFirstSorts(front, caughtUp, now);
      InsertIsStable(sorted, last, caughtUp, now, age);
      OfAgeSnoc(sorted, last, caughtUp, now, age);
    }
  }

  lemma {:induction false} RemoveFirstDistinct(s: seq<string>, x: string)
    requires NoDup(s)
    ensures NoDup(RemoveFirst(s, x))
    ensures forall y :: y in RemoveFirst(s, x) <==> y in s && y != x
    ensures |RemoveFirst(s, x)| == if x in s then |s| - 1 else |s|
  {
    if s != [] {
      var first, rest := s[0], s[1..];
      assert s == [first] + rest && first !in rest;
      RemoveFirstDistinct(rest, x);
    }
  }

  predicate FreshFirst(ranked: seq<string>, caughtUp: map<string, int>, now: int) {
    forall i, j | 0 <= i < j < |ranked| :: Age(caughtUp, now, ranked[i]) <= Age(caughtUp, now, ranked[j])
  }

  lemma FreshestRanks(c: Settings, caughtUp: map<string, int>, now: int)
    ensures
      var ranked := Freshest(c, caughtUp, now);
      && FreshFirst(ranked, caughtUp, now)
      && |ranked| == |RemoveFirst(c.replicas, c.id)|
      && (NoDup(c.replicas) ==> NoDup(ranked) && forall r :: r in ranked <==> r in c.replicas && r != c.id)
  {
    hide RemoveFirst, StalestFirst;
    var others := RemoveFirst(c.replicas, c.id);
    StalestFirstSorts(others, caughtUp, now);
    if NoDup(c.replicas) {
      RemoveFirstDistinct(c.replicas, c.id);
    }
    var sorted, ranked := StalestFirst(others, caughtUp, now), Freshest(c, caughtUp, now);
    forall r
      ensures r in ranked <==> r in sorted
    {
      if r in sorted {
        var i :| 0 <= i < |sorted| && sorted[i] == r;
        assert ranked[|sorted| - 1 - i] == r;
      }
    }
  }

  /** What is true of `id` followed by the first `k` of a ranking of the others. */
  lemma TopIsExact(id: string, ranked: seq<string>, k: nat, caughtUp: map<string, int>, now: int)
    requires k <= |ranked| && id !in ranked && NoDup(ranked) && FreshFirst(ranked, caughtUp, now)
    ensures NoDup([id] + ranked[..k])
    ensures forall r | r in [id] + ranked[..k] :: r == id || r in ranked
    ensures forall r, x | r in [id] + ranked[..k] && r != id && x in ranked && x !in [id] + ranked[..k] ::
              Age(caughtUp, now, r) <= Age(caughtUp, now, x)
  {
    hide Age;
    var isr, top, rest := [id] + ranked[..k], ranked[..k], ranked[k..];
    assert ranked == top + rest;
    forall r, x | r in top && x in rest
      ensures Age(caughtUp, now, r) <= Age(caughtUp, now, x)
    {
      var i :| 0 <= i < |top| && top[i] == r;
      var j :| 0 <= j < |rest| && rest[j] == x;
      assert ranked[i] == r && ranked[k + j] == x;
    }
    assert forall r | r in top :: r in ranked;
  }

  lemma TopMember(ranked: seq<string>, k: nat, i: nat)
    requires NoDup(ranked) && k <= |ranked| && i < |ranked|
    ensures ranked[i] in ranked[..k] <==> i < k
  {
    assert i < k ==> ranked[..k][i] == ranked[i];
  }

  /** Whoever is within the lag bound is among the first `k`; if someone there is not, `k` is the minimum. */
  lemma LagDecides(ranked: seq<string>, needed: nat, caughtUp: map<string, int>, now: int, maxLag: int, i: nat)
    requires FreshFirst(ranked, caughtUp, now) && i < |ranked|
    ensures
      var k := Max(needed, InLag(ranked, caughtUp, now, maxLag));
      && (Age(caughtUp, now, ranked[i]) <= maxLag ==> i < k)
      && (Age(caughtUp, now, ranked[i]) > maxLag && i < k ==> k == needed)
  {
    hide Age;
  }

  /** The recomputed in-sync set: the leader, as many of the freshest followers as the minimum asks for, every
      follower within the lag bound, and nobody else; no one left out is fresher than one taken. */
  lemma NewIsrIsExact(c: Settings, caughtUp: map<string, int>, now: int)
    requires NoDup(c.replicas) && c.id in c.replicas
    ensures
      var isr := NewIsr(c, caughtUp, now);
      && isr[0] == c.id
      && NoDup(isr)
      && (forall r | r in isr :: r in c.replicas)
      && |isr| >= Min(Max(c.minIsrCount, 1), |c.replicas|)
      && (forall r | r in c.replicas && Age(caughtUp, now, r) <= c.maxLag :: r in isr)
      && (forall r | r in isr && r != c.id && Age(caughtUp, now, r) > c.maxLag ::
            |isr| == Min(Max(c.minIsrCount, 1), |c.replicas|))
      && (forall r, x | r in isr && r != c.id && x in c.replicas && x !in isr ::
            Age(caughtUp, now, r) <= Age(caughtUp, now, x))
  {
    hide Freshest, Age, RemoveFirst, NoDup, FreshFirst;
    var ranked, isr := Freshest(c, caughtUp, now), NewIsr(c, caughtUp, now);
    FreshestRanks(c, caughtUp, now);
    RemoveFirstDistinct(c.replicas, c.id);
    TopIsExact(c.id, ranked, |isr| - 1, caughtUp, now);
    forall r | r in ranked
      ensures Age(caughtUp, now, r) <= c.maxLag ==> r in isr
      ensures Age(caughtUp, now, r) > c.maxLag && r in isr ==> |isr| == Min(Max(c.minIsrCount, 1), |c.replicas|)
    {
      var i :| 0 <= i < |ranked| && ranked[i] == r;
      LagDecides(ranked, Min(Max(0, c.minIsrCount - 1), |ranked|), caughtUp, now, c.maxLag, i);
      TopMember(ranked, |isr| - 1, i);
    }
  }

  datatype FetchReply = Unauthorised | Reply(logEnd: nat, highWatermark: int)

  class ReplicaLeader {
    const config: Settings
    var inSync: seq<string>
    var offsets: map<string, int>
    var highWatermark: int
    var caughtUp: map<string, int>

    constructor (config: Settings, leo: nat)
      ensures this.config == config && State() == Start(config, leo)
    {
      this.config := config;
      inSync := [config.id];
      offsets := map[config.id := leo];
      highWatermark := leo;
      caughtUp := map[];
    }

    ghost function State(): LeaderState
      reads this
    {
      LeaderState(inSync, offsets, highWatermark, caughtUp)
    }

    method ComputeHighWatermark(leo: nat) returns (least: int)
      modifies this`offsets
      ensures least == Computed(config, old(State()), leo)
      ensures offsets == if inSync == [] then old(offsets) else old(offsets)[config.id := leo]
    {
      if inSync == [] {
        return 0;
      }
      offsets := offsets[config.id := leo];
      least := At(offsets, inSync[0]);
      assert inSync[..1] == [inSync[0]];
      for i := 1 to |inSync|
        invariant offsets == old(offsets)[config.id := leo]
        invariant least == MinOffset(inSync[..i], offsets)
      {
        MinOffsetSnoc(inSync[..i], inSync[i], offsets);
        assert inSync[..i + 1] == inSync[..i] + [inSync[i]];
        least := Min(least, At(offsets, inSync[i]));
      }
      assert inSync[..|inSync|] == inSync;
    }

    method GetHighWatermark(leo: nat) returns (hw: int)
      modifies this`offsets, this`highWatermark
      ensures State() == Next(config, old(State()), Query(leo)) && hw == highWatermark
    {
      hide MinOffset;
      var computed := ComputeHighWatermark(leo);
      highWatermark := Max(highWatermark, computed);
      hw := highWatermark;
    }

    /** The state changes of a replica's fetch; the high watermark is the one before the fetched offset counts. */
    method Handle(replica: string, offset: int, leo: nat, now: int) returns (reply: FetchReply)
      modifies this
      ensures State() == Next(config, old(State()), Fetch(replica, offset, leo, now))
      ensures reply == if replica in config.replicas then Reply(leo, highWatermark) else Unauthorised
      ensures replica !in config.replicas ==> State() == old(State())
      ensures replica in config.replicas ==>
                && At(offsets, replica) == offset
                && At(caughtUp, replica) == (if offset == leo then now else At(old(caughtUp), replica))
      ensures forall x | x != replica && x != config.id ::
                At(offsets, x) == At(old(offsets), x) && At(caughtUp, x) == At(old(caughtUp), x)
    {
      hide MinOffset;
      if replica !in config.replicas {
        return Unauthorised;
      }
      var hw := GetHighWatermark(leo);
      if offset == leo {
        caughtUp := caughtUp[replica := now];
      }
      offsets := offsets[replica := offset];
      return Reply(leo, hw);
    }

    /** Raises, and leaves everything as it is, if the leader is not among the replicas. */
    method UpdateInSync(now: int) returns (ok: bool)
      modifies this`inSync
      ensures State() == Next(config, old(State()), UpdateIsr(now))
      ensures ok <==> config.id in config.replicas
    {
      hide StalestFirst, RemoveFirst, FreshFirst, InLag;
      if config.id !in config.replicas {
        return false;
      }
      ghost var ranked := Freshest(config, caughtUp, now);
      FreshestRanks(config, caughtUp, now);
      var sorted := StalestFirst(RemoveFirst(config.replicas, config.id), caughtUp, now);
      var isr, rest := TakeFreshest(sorted, Max(0, config.minIsrCount - 1), ranked);
      inSync := AddWithinLag(isr, Reversed(rest), ranked, now);
      InLagFrom(ranked, |isr| - 1, caughtUp, now, config.maxLag);
      return true;
    }

    /** The minimum number of members, popped from the fresh end. */
    method TakeFreshest(sorted: seq<string>, minimum: nat, ghost ranked: seq<string>) returns (isr: seq<string>, rest: seq<string>)
      requires ranked == Reversed(sorted)
      ensures |isr| == 1 + Min(minimum, |ranked|)
      ensures isr == [config.id] + ranked[..|isr| - 1]
      ensures Reversed(rest) == ranked[|isr| - 1..]
    {
      isr, rest := [config.id], sorted;
      var needed := minimum;
      while rest != [] && needed > 0
        invariant needed == minimum - (|isr| - 1) >= 0
        invariant |rest| + |isr| == |sorted| + 1
        invariant rest == sorted[..|rest|]
        invariant isr == [config.id] + ranked[..|isr| - 1]
        decreases |rest|
      {
        needed := needed - 1;
        isr := isr + [rest[|rest| - 1]];
        rest := rest[..|rest| - 1];
      }
    }

    /** The scan over the rest, freshest first, up to the first replica beyond the lag bound. */
    method AddWithinLag(start: seq<string>, rest: seq<string>, ghost ranked: seq<string>, now: int) returns (isr: seq<string>)
      requires 0 < |start| <= |ranked| + 1 && rest == ranked[|start| - 1..] && start == [config.id] + ranked[..|start| - 1]
      ensures isr == [config.id] + ranked[..|start| - 1 + InLag(rest, caughtUp, now, config.maxLag)]
    {
      isr := start;
      assert rest[0..] == rest;
      for i := 0 to |rest|
        invariant isr == [config.id] + ranked[..|start| - 1 + i]
        invariant InLag(rest, caughtUp, now, config.maxLag) == i + InLag(rest[i..], caughtUp, now, config.maxLag)
      {
        assert rest[i..][1..] == rest[i + 1..];
        if Age(caughtUp, now, rest[i]) > config.maxLag {
          break;
        }
        isr := isr + [rest[i]];
      }
    }
  }

  lemma {:induction false} MinOffsetSnoc(members: seq<string>, r: string, offsets: map<string, int>)
    requires members != []
    ensures MinOffset(members + [r], offsets) == Min(MinOffset(members, offsets), At(offsets, r))
  {
    if |members| == 1 {
      assert (members + [r])[1..] == [r];
    } else {
      assert (members + [r])[1..] == members[1..] + [r];
      MinOffsetSnoc(members[1..], r, offsets);
    }
  }

  /** Where the scan starts does not matter for where it would end. */
  lemma InLagFrom(ranked: seq<string>, k: nat, caughtUp: map<string, int>, now: int, maxLag: int)
    requires k <= |ranked|
    requires FreshFirst(ranked, caughtUp, now)
    ensures k + InLag(ranked[k..], caughtUp, now, maxLag) == Max(k, InLag(ranked, caughtUp, now, maxLag))
  {
  }
}
