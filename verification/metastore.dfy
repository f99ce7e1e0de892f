/** The controller's metastore: broker membership, replica placement, leader election and versions. */
module Metastore {
  import opened Seqs
  import opened Bytes
  import opened Ring

  datatype BrokerNode = BrokerNode(id: string, host: string, port: int)

  datatype TopicMetadata = TopicMetadata(topic: string, leader: string, replicas: seq<string>, isr: seq<string>, version: int)

  /** Everything the controller remembers. `names` is the order in which the topics were added. */
  datatype Store = Store(nodes: map<string, BrokerNode>, topics: map<string, TopicMetadata>, names: seq<string>, ring: RingState)

  datatype Settings = Settings(hashing: Hashing, replicasPerTopic: nat)

  datatype Op =
    | Register(node: BrokerNode)
    | Deregister(id: string)
    | RegisterTopic(topic: string)
    | UpdateIsr(topic: string, isr: seq<string>)

  function Candidates(c: Settings, ring: RingState, topic: string): (r: seq<string>)
    requires WellFormed(ring)
    ensures NoDup(r)
  {
    FirstOf(Preference(c.hashing, ring, topic), c.replicasPerTopic)
  }

  /** The first ISR member, else the first replica, else the ring's choice, else nobody. */
  function Elect(c: Settings, ring: RingState, meta: TopicMetadata): string
    requires WellFormed(ring)
  {
    if meta.isr != [] then meta.isr[0]
    else if meta.replicas != [] then meta.replicas[0]
    else
      var order := Preference(c.hashing, ring, meta.topic);
      if order == [] then "" else order[0]
  }

  /** Candidates are appended until there are `limit` replicas. */
  function Refilled(kept: seq<string>, candidates: seq<string>, limit: nat): seq<string>
    decreases |candidates|
  {
    if candidates == [] || |kept| >= limit then kept
    else if candidates[0] in kept then Refilled(kept, candidates[1..], limit)
    else Refilled(kept + [candidates[0]], candidates[1..], limit)
  }

  /** The replicas of a topic after `id` has left the ring. */
  function ReplicasAfter(c: Settings, ring: RingState, meta: TopicMetadata, id: string, anyoneLeft: bool): seq<string>
    requires WellFormed(ring)
  {
    var kept := Without(meta.replicas, id);
    if id !in meta.replicas then meta.replicas
    else if anyoneLeft then Refilled(kept, Candidates(c, ring, meta.topic), c.replicasPerTopic)
    else kept
  }

  /** What the departure of `id` makes of one topic. */
  function Survive(c: Settings, ring: RingState, meta: TopicMetadata, id: string, anyoneLeft: bool): TopicMetadata
    requires WellFormed(ring)
  {
    var m1 := meta.(replicas := ReplicasAfter(c, ring, meta, id, anyoneLeft));
    var m2 := if meta.leader == id then m1.(isr := Without(m1.isr, id)) else m1;
    var m3 := if meta.leader == id then m2.(leader := Elect(c, ring, m2)) else m2;
    if id in meta.replicas || meta.leader == id then m3.(version := m3.version + 1) else m3
  }

  function NewTopic(c: Settings, ring: RingState, topic: string): TopicMetadata
    requires WellFormed(ring)
  {
    var replicas := Candidates(c, ring, topic);
    TopicMetadata(topic, if replicas == [] then "" else replicas[0], replicas, replicas, 1)
  }

  function WithIsr(c: Settings, ring: RingState, meta: TopicMetadata, isr: seq<string>): TopicMetadata
    requires WellFormed(ring)
  {
    var m1 := meta.(isr := isr);
    var m2 := if m1.leader !in isr then m1.(leader := Elect(c, ring, m1)) else m1;
    m2.(version := m2.version + 1)
  }

  function Apply(c: Settings, s: Store, op: Op): Store
    requires WellFormed(s.ring)
  {
    match op
    case Register(node) => s.(nodes := s.nodes[node.id := node], ring := WithNode(c.hashing, s.ring, node.id))
    case Deregister(id) =>
      WithoutNodeKeeps(c.hashing, s.ring, id);
      var ring, nodes := WithoutNode(c.hashing, s.ring, id), s.nodes - {id};
      s.(nodes := nodes, ring := ring,
         topics := map t | t in s.topics :: Survive(c, ring, s.topics[t], id, nodes != map[]))
    case RegisterTopic(topic) =>
      if topic in s.topics then s
      else s.(topics := s.topics[topic := NewTopic(c, s.ring, topic)], names := s.names + [topic])
    case UpdateIsr(topic, isr) =>
      if topic !in s.topics then s
      else s.(topics := s.topics[topic := WithIsr(c, s.ring, s.topics[topic], isr)])
  }

  /** What is true of every stored topic. */
  ghost predicate MetaOk(c: Settings, meta: TopicMetadata, live: set<string>) {
    && NoDup(meta.replicas)
    && Elements(meta.replicas) <= live
    && |meta.replicas| <= c.replicasPerTopic
    && (meta.isr != [] ==> meta.leader in meta.isr)
    && meta.version >= 1
  }

  /** The stored nodes are the ring's members, and every topic is sound. */
  ghost predicate Valid(c: Settings, s: Store, known: set<string>) {
    && c.replicasPerTopic >= 1
    && c.hashing.replicas >= 1
    && c.hashing.CollisionFree(known)
    && s.nodes.Keys <= known
    && Represents(c.hashing, s.ring, s.nodes.Keys)
    && NoDup(s.names)
    && Elements(s.names) == s.topics.Keys
    && forall t | t in s.topics :: s.topics[t].topic == t && MetaOk(c, s.topics[t], s.nodes.Keys)
  }

  lemma {:induction false} RefillKeeps(kept: seq<string>, candidates: seq<string>, limit: nat)
    requires NoDup(kept) && |kept| <= limit
    ensures
      var r := Refilled(kept, candidates, limit);
      && kept <= r
      && NoDup(r)
      && |r| <= limit
      && (forall n | n in r :: n in kept || n in candidates)
      && (|r| == limit || forall n | n in candidates :: n in r)
    decreases |candidates|
  {
    if candidates != [] && |kept| < limit {
      var kept' := if candidates[0] in kept then kept else kept + [candidates[0]];
      RefillKeeps(kept', candidates[1..], limit);
      PrefixHolds(kept', Refilled(kept, candidates, limit), candidates[0]);
      assert candidates == [candidates[0]] + candidates[1..];
    }
  }

  lemma PrefixHolds(a: seq<string>, b: seq<string>, n: string)
    requires a <= b && n in a
    ensures n in b
  {
    var i :| 0 <= i < |a| && a[i] == n;
    assert b[i] == n;
  }

  /** The candidates that are not replicas yet, in order. */
  function Missing(candidates: seq<string>, kept: seq<string>): (r: seq<string>)
    ensures forall n :: n in r <==> n in candidates && n !in kept
  {
    if candidates == [] then []
    else (if candidates[0] in kept then [] else [candidates[0]]) + Missing(candidates[1..], kept)
  }

  lemma RefillStep(kept: seq<string>, first: string, rest: seq<string>, limit: nat)
    requires |kept| < limit && first !in rest
    ensures
      var candidates := [first] + rest;
      if first in kept then
        && Refilled(kept, candidates, limit) == Refilled(kept, rest, limit)
        && Missing(candidates, kept) == Missing(rest, kept)
      else
        && Refilled(kept, candidates, limit) == Refilled(kept + [first], rest, limit)
        && Missing(candidates, kept) == [first] + Missing(rest, kept + [first])
  {
    MissingUnchanged(rest, kept, first);
    assert ([first] + rest)[1..] == rest;
  }

  /** The best of the missing candidates are appended, as far as there is room. */
  lemma {:induction false} RefillAppendsBest(kept: seq<string>, candidates: seq<string>, limit: nat)
    requires NoDup(candidates) && |kept| < limit
    ensures Refilled(kept, candidates, limit) == kept + FirstOf(Missing(candidates, kept), limit - |kept|)
    decreases |candidates|
  {
    hide FirstOf, Missing, Refilled;
    if candidates == [] {
      NothingToRefill(kept, limit);
    } else {
      var first, rest := candidates[0], candidates[1..];
      assert candidates == [first] + rest;
      RefillStep(kept, first, rest, limit);
      if first in kept {
        RefillAppendsBest(kept, rest, limit);
      } else {
        var more := Missing(rest, kept + [first]);
        FirstOfCons(first, more, limit - |kept|);
        if |kept| + 1 < limit {
          RefillAppendsBest(kept + [first], rest, limit);
        } else {
          RefillFull(kept + [first], rest, limit);
        }
      }
    }
  }

  lemma NothingToRefill(kept: seq<string>, limit: nat)
    ensures Refilled(kept, [], limit) == kept + FirstOf(Missing([], kept), limit - |kept|)
  {
  }

  lemma RefillFull(kept: seq<string>, candidates: seq<string>, limit: nat)
    requires |kept| == limit
    ensures Refilled(kept, candidates, limit) == kept
  {
  }

  lemma FirstOfCons(first: string, more: seq<string>, count: nat)
    requires count > 0
    ensures FirstOf([first] + more, count) == if count == 1 then [first] else [first] + FirstOf(more, count - 1)
  {
  }

  lemma {:induction false} MissingUnchanged(candidates: seq<string>, kept: seq<string>, n: string)
    requires n !in candidates
    ensures Missing(candidates, kept + [n]) == Missing(candidates, kept)
  {
    if candidates != [] {
      MissingUnchanged(candidates[1..], kept, n);
    }
  }

  lemma CandidatesLive(c: Settings, ring: RingState, live: set<string>, topic: string)
    requires Represents(c.hashing, ring, live) && c.hashing.replicas >= 1 && c.replicasPerTopic >= 1
    ensures WellFormed(ring)
    ensures Elements(Candidates(c, ring, topic)) <= live
    ensures |Candidates(c, ring, topic)| == Min(c.replicasPerTopic, |live|)
  {
    hide Preference, Represents, WellFormed;
    RepresentedIsWellFormed(c.hashing, ring, live);
    PreferenceHoldsMembers(c.hashing, ring, live, topic);
    var order := Preference(c.hashing, ring, topic);
    assert forall n | n in Candidates(c, ring, topic) :: n in order && n in Elements(order);
  }

  /** Pigeonhole: the candidates are all live brokers, or more than can already be replicas. */
  lemma RefilledSize(kept: seq<string>, candidates: seq<string>, limit: nat, live: set<string>)
    requires NoDup(kept) && NoDup(candidates) && |kept| <= limit
    requires Elements(kept) <= live && Elements(candidates) <= live && |candidates| == Min(limit, |live|)
    ensures
      var r := Refilled(kept, candidates, limit);
      NoDup(r) && Elements(r) <= live && |r| == Min(limit, |live|)
  {
    var r := Refilled(kept, candidates, limit);
    RefillKeeps(kept, candidates, limit);
    DistinctSize(r);
    DistinctSize(candidates);
    assert Elements(r) <= live by {
      assert forall n | n in r :: n in Elements(kept) || n in Elements(candidates);
    }
    SubsetSize(Elements(r), live);
    if |r| < limit {
      assert Elements(candidates) <= Elements(r);
      SubsetSize(Elements(candidates), Elements(r));
    }
  }

  /** A topic that loses a replica keeps the others first, in order, and ends up with as many replicas as there can be. */
  lemma LostReplicaIsReplaced(c: Settings, ring: RingState, live: set<string>, meta: TopicMetadata, id: string)
    requires MetaOk(c, meta, live + {id}) && id in meta.replicas && id !in live
    requires Represents(c.hashing, ring, live) && c.hashing.replicas >= 1 && c.replicasPerTopic >= 1
    ensures WellFormed(ring)
    ensures
      var after := Survive(c, ring, meta, id, live != {});
      && Without(meta.replicas, id) <= after.replicas
      && (live != {} ==>
            var kept := Without(meta.replicas, id);
            after.replicas ==
            kept + FirstOf(Missing(Candidates(c, ring, meta.topic), kept), c.replicasPerTopic - |kept|))
      && NoDup(after.replicas)
      && Elements(after.replicas) <= live
      && |after.replicas| == Min(c.replicasPerTopic, |live|)
  {
    hide Represents, Preference, Candidates, WellFormed, Elect, Refilled, Missing, FirstOf, NoDup, Without;
    var kept := Without(meta.replicas, id);
    WithoutKeepsDistinct(meta.replicas, id);
    WithoutSize(meta.replicas, id);
    CandidatesLive(c, ring, live, meta.topic);
    KeptAreLive(meta.replicas, id, live);
    if live != {} {
      RefillKeeps(kept, Candidates(c, ring, meta.topic), c.replicasPerTopic);
      RefillAppendsBest(kept, Candidates(c, ring, meta.topic), c.replicasPerTopic);
      RefilledSize(kept, Candidates(c, ring, meta.topic), c.replicasPerTopic, live);
    } else {
      assert Elements(kept) == {};
      DistinctSize(kept);
    }
  }

  lemma KeptAreLive(replicas: seq<string>, id: string, live: set<string>)
    requires Elements(replicas) <= live + {id}
    ensures Elements(Without(replicas, id)) <= live
  {
    forall n | n in Without(replicas, id)
      ensures n in live
    {
      assert n in Elements(replicas);
    }
  }

  /** Whoever is elected in an ISR is in it; and nobody who left is elected. */
  lemma ElectedIsSound(c: Settings, ring: RingState, live: set<string>, meta: TopicMetadata, gone: string)
    requires Represents(c.hashing, ring, live) && c.hashing.replicas >= 1
    ensures WellFormed(ring)
    ensures meta.isr != [] ==> Elect(c, ring, meta) in meta.isr
    ensures gone !in meta.isr && gone !in meta.replicas && gone !in live && gone != "" ==> Elect(c, ring, meta) != gone
  {
    hide Preference, Represents, WellFormed;
    RepresentedIsWellFormed(c.hashing, ring, live);
    PreferenceHoldsMembers(c.hashing, ring, live, meta.topic);
    var order := Preference(c.hashing, ring, meta.topic);
    assert order != [] ==> order[0] in Elements(order);
  }

  /** A departed broker neither leads nor replicates the topic, whichever of the three choices the election makes. */
  lemma DepartedIsGone(c: Settings, ring: RingState, live: set<string>, meta: TopicMetadata, id: string)
    requires MetaOk(c, meta, live + {id}) && id !in live
    requires Represents(c.hashing, ring, live) && c.hashing.replicas >= 1 && c.replicasPerTopic >= 1
    ensures WellFormed(ring)
    ensures
      var after := Survive(c, ring, meta, id, live != {});
      && (id != "" ==> after.leader != id)
      && id !in after.replicas
      && after.topic == meta.topic
      && MetaOk(c, after, live)
  {
    hide Represents, Preference, Candidates, WellFormed, Elect, Refilled, Elements;
    RepresentedIsWellFormed(c.hashing, ring, live);
    SurvivingReplicas(c, ring, live, meta, id);
    var m1 := meta.(replicas := ReplicasAfter(c, ring, meta, id, live != {}));
    var m2 := if meta.leader == id then m1.(isr := Without(m1.isr, id)) else m1;
    ElectedIsSound(c, ring, live, m2, id);
  }

  lemma SurvivingReplicas(c: Settings, ring: RingState, live: set<string>, meta: TopicMetadata, id: string)
    requires MetaOk(c, meta, live + {id}) && id !in live
    requires Represents(c.hashing, ring, live) && c.hashing.replicas >= 1 && c.replicasPerTopic >= 1
    ensures WellFormed(ring)
    ensures
      var after := ReplicasAfter(c, ring, meta, id, live != {});
      NoDup(after) && Elements(after) <= live && id !in after && |after| <= c.replicasPerTopic
  {
    hide Represents, Preference, Candidates, WellFormed, Elect, Refilled, ReplicasAfter;
    RepresentedIsWellFormed(c.hashing, ring, live);
    var after := ReplicasAfter(c, ring, meta, id, live != {});
    if id in meta.replicas {
      LostReplicaIsReplaced(c, ring, live, meta, id);
      assert Survive(c, ring, meta, id, live != {}).replicas == after;
    } else {
      WithoutAbsent(meta.replicas, id);
      KeptAreLive(meta.replicas, id, live);
      NothingLost(c, ring, meta, id, live != {});
    }
    assert id in after ==> id in Elements(after);
  }

  lemma NothingLost(c: Settings, ring: RingState, meta: TopicMetadata, id: string, anyoneLeft: bool)
    requires WellFormed(ring) && id !in meta.replicas
    ensures ReplicasAfter(c, ring, meta, id, anyoneLeft) == meta.replicas
  {
  }

  lemma NewTopicOk(c: Settings, ring: RingState, live: set<string>, topic: string)
    requires Represents(c.hashing, ring, live) && c.hashing.replicas >= 1 && c.replicasPerTopic >= 1
    ensures WellFormed(ring)
    ensures MetaOk(c, NewTopic(c, ring, topic), live) && NewTopic(c, ring, topic).topic == topic
    ensures |NewTopic(c, ring, topic).replicas| == Min(c.replicasPerTopic, |live|)
  {
    hide Represents, Preference, WellFormed;
    CandidatesLive(c, ring, live, topic);
  }

  lemma WithIsrOk(c: Settings, ring: RingState, live: set<string>, meta: TopicMetadata, isr: seq<string>)
    requires Represents(c.hashing, ring, live) && c.hashing.replicas >= 1 && MetaOk(c, meta, live)
    ensures WellFormed(ring)
    ensures MetaOk(c, WithIsr(c, ring, meta, isr), live) && WithIsr(c, ring, meta, isr).topic == meta.topic
  {
    hide Represents, Preference, WellFormed, Elect;
    ElectedIsSound(c, ring, live, meta.(isr := isr), "");
  }

  /** Which brokers an operation names. */
  function Named(op: Op): set<string> {
    match op
    case Register(node) => {node.id}
    case Deregister(id) => {id}
    case _ => {}
  }

  lemma CanApply(c: Settings, s: Store, op: Op, known: set<string>)
    requires Valid(c, s, known) && Named(op) <= known
    ensures WellFormed(s.ring)
    ensures op.Deregister? ==> Represents(c.hashing, WithoutNode(c.hashing, s.ring, op.id), s.nodes.Keys - {op.id})
    ensures op.Deregister? ==> WellFormed(WithoutNode(c.hashing, s.ring, op.id))
    ensures op.Register? ==> Represents(c.hashing, WithNode(c.hashing, s.ring, op.node.id), s.nodes.Keys + {op.node.id})
  {
    hide Represents, Spared, Hashing.CollisionFree, WellFormed, WithNode, WithoutNode;
    RepresentedIsWellFormed(c.hashing, s.ring, s.nodes.Keys);
    FewerNodes(c.hashing, s.nodes.Keys + Named(op), known);
    match op
    case Register(node) => AddRepresents(c.hashing, s.ring, s.nodes.Keys, node.id);
    case Deregister(id) =>
      CollisionFreeSpares(c.hashing, s.nodes.Keys, id);
      RemoveRepresentsIff(c.hashing, s.ring, s.nodes.Keys, id);
      RepresentedIsWellFormed(c.hashing, WithoutNode(c.hashing, s.ring, id), s.nodes.Keys - {id});
    case _ =>
  }

  lemma MoreLive(c: Settings, meta: TopicMetadata, few: set<string>, many: set<string>)
    requires MetaOk(c, meta, few) && few <= many
    ensures MetaOk(c, meta, many)
  {
  }

  lemma RegisterValid(c: Settings, s: Store, node: BrokerNode, known: set<string>)
    requires Valid(c, s, known) && node.id in known
    ensures WellFormed(s.ring) && Valid(c, Apply(c, s, Register(node)), known)
  {
    hide Represents, Hashing.CollisionFree, WellFormed, WithNode, MetaOk;
    CanApply(c, s, Register(node), known);
    var s' := Apply(c, s, Register(node));
    assert s'.nodes.Keys == s.nodes.Keys + {node.id};
    forall t | t in s.topics
      ensures MetaOk(c, s.topics[t], s'.nodes.Keys)
    {
      MoreLive(c, s.topics[t], s.nodes.Keys, s'.nodes.Keys);
    }
  }

  lemma DeregisterValid(c: Settings, s: Store, id: string, known: set<string>)
    requires Valid(c, s, known) && id in known
    ensures WellFormed(s.ring) && WellFormed(WithoutNode(c.hashing, s.ring, id))
    ensures Valid(c, Apply(c, s, Deregister(id)), known)
    ensures id != "" ==> forall t | t in s.topics ::
              var after := Apply(c, s, Deregister(id)).topics[t];
              after.leader != id && id !in after.replicas
  {
    hide Represents, Hashing.CollisionFree, WellFormed, WithoutNode, MetaOk, Survive;
    CanApply(c, s, Deregister(id), known);
    var s' := Apply(c, s, Deregister(id));
    var live := s'.nodes.Keys;
    assert live == s.nodes.Keys - {id};
    assert live != {} <==> s'.nodes != map[];
    forall t | t in s.topics
      ensures MetaOk(c, s'.topics[t], live) && s'.topics[t].topic == t
      ensures id != "" ==> s'.topics[t].leader != id && id !in s'.topics[t].replicas
    {
      MoreLive(c, s.topics[t], s.nodes.Keys, live + {id});
      DepartedIsGone(c, s'.ring, live, s.topics[t], id);
    }
    assert s'.topics.Keys == s.topics.Keys;
  }

  lemma UpdateIsrValid(c: Settings, s: Store, topic: string, isr: seq<string>, known: set<string>)
    requires Valid(c, s, known)
    ensures WellFormed(s.ring) && Valid(c, Apply(c, s, UpdateIsr(topic, isr)), known)
  {
    hide Represents, Hashing.CollisionFree, WellFormed, MetaOk, WithIsr, Elements, NoDup;
    CanApply(c, s, UpdateIsr(topic, isr), known);
    if topic in s.topics {
      WithIsrOk(c, s.ring, s.nodes.Keys, s.topics[topic], isr);
      assert Apply(c, s, UpdateIsr(topic, isr)).topics.Keys == s.topics.Keys;
    }
  }

  lemma AddedTopicValid(c: Settings, s: Store, meta: TopicMetadata, known: set<string>)
    requires Valid(c, s, known) && meta.topic !in s.topics && MetaOk(c, meta, s.nodes.Keys)
    ensures Valid(c, s.(topics := s.topics[meta.topic := meta], names := s.names + [meta.topic]), known)
  {
    hide Represents, Hashing.CollisionFree, MetaOk, Elements, NoDup;
    NamesGrow(s.names, meta.topic);
    assert s.topics[meta.topic := meta].Keys == s.topics.Keys + {meta.topic};
  }

  lemma RegisterTopicValid(c: Settings, s: Store, topic: string, known: set<string>)
    requires Valid(c, s, known)
    ensures WellFormed(s.ring) && Valid(c, Apply(c, s, RegisterTopic(topic)), known)
  {
    hide Represents, Hashing.CollisionFree, WellFormed, MetaOk, NewTopic, Elements, NoDup, Preference, Candidates;
    CanApply(c, s, RegisterTopic(topic), known);
    if topic !in s.topics {
      NewTopicOk(c, s.ring, s.nodes.Keys, topic);
      AddedTopicValid(c, s, NewTopic(c, s.ring, topic), known);
    }
  }

  lemma NamesGrow(names: seq<string>, topic: string)
    requires topic !in Elements(names)
    ensures NoDup(names) ==> NoDup(names + [topic])
    ensures Elements(names + [topic]) == Elements(names) + {topic}
  {
    assert topic !in names by {
      assert topic in names ==> topic in Elements(names);
    }
  }

  /** Every operation keeps the metastore sound. */
  lemma StepValid(c: Settings, s: Store, op: Op, known: set<string>)
    requires Valid(c, s, known) && Named(op) <= known
    ensures WellFormed(s.ring) && Valid(c, Apply(c, s, op), known)
  {
    hide Valid, Apply, WellFormed;
    match op
    case Register(node) => RegisterValid(c, s, node, known);
    case Deregister(id) => DeregisterValid(c, s, id, known);
    case RegisterTopic(topic) => RegisterTopicValid(c, s, topic, known);
    case UpdateIsr(topic, isr) => UpdateIsrValid(c, s, topic, isr, known);
  }

  lemma StartValid(c: Settings, known: set<string>)
    requires c.replicasPerTopic >= 1 && c.hashing.replicas >= 1 && c.hashing.CollisionFree(known)
    ensures Valid(c, Store(map[], map[], [], RingState(map[], [])), known)
  {
    hide Hashing.CollisionFree;
    assert Elements<string>([]) == {};
    NobodyRepresented(c.hashing);
  }

  /** The store after a run, which starts empty. Whatever the run, it is sound. */
  ghost function Run(c: Settings, ops: seq<Op>, known: set<string>): (s: Store)
    requires c.replicasPerTopic >= 1 && c.hashing.replicas >= 1 && c.hashing.CollisionFree(known)
    requires forall op | op in ops :: Named(op) <= known
    ensures Valid(c, s, known)
  {
    if ops == [] then
      StartValid(c, known);
      Store(map[], map[], [], RingState(map[], []))
    else
      var s, last := Run(c, ops[..|ops| - 1], known), ops[|ops| - 1];
      StepValid(c, s, last, known);
      Apply(c, s, last)
  }

  // -- What one operation does to a stored topic -----------------------------------------------

  /** The owner of the ring position that follows the topic's, or nobody on an empty ring. */
  ghost predicate NextOnRing(h: Hashing, ring: RingState, topic: string, leader: string) {
    if ring.ring == map[] then leader == ""
    else exists k :: k in ring.ring && ring.ring[k] == leader && forall x | x in ring.ring && x != k :: Before(k, x, h.hash(topic))
  }

  /** A new leader: the first of the ISR, else the first replica, else the ring's choice. */
  ghost predicate Chosen(h: Hashing, ring: RingState, topic: string, isr: seq<string>, replicas: seq<string>, leader: string) {
    if isr != [] then leader == isr[0]
    else if replicas != [] then leader == replicas[0]
    else NextOnRing(h, ring, topic, leader)
  }

  ghost predicate IsrUpdated(h: Hashing, ring: RingState, before: TopicMetadata, after: TopicMetadata, isr: seq<string>) {
    && after.topic == before.topic
    && after.replicas == before.replicas
    && after.isr == isr
    && after.version == before.version + 1
    && (if before.leader in isr then after.leader == before.leader
        else Chosen(h, ring, before.topic, isr, before.replicas, after.leader))
  }

  /** After `id` left; `ring` is the ring without it. */
  ghost predicate Bereaved(h: Hashing, ring: RingState, before: TopicMetadata, after: TopicMetadata, id: string) {
    if id !in before.replicas && before.leader != id then after == before
    else
      && after.topic == before.topic
      && after.version == before.version + 1
      && (id !in before.replicas ==> after.replicas == before.replicas)
      && (if before.leader != id then after.leader == before.leader && after.isr == before.isr
          else after.isr == Without(before.isr, id) && Chosen(h, ring, before.topic, after.isr, after.replicas, after.leader))
  }

  lemma ElectIsChosen(c: Settings, ring: RingState, meta: TopicMetadata)
    requires WellFormed(ring)
    ensures Chosen(c.hashing, ring, meta.topic, meta.isr, meta.replicas, Elect(c, ring, meta))
  {
    hide Preference, Before, Increasing;
    EmptyPreference(c.hashing, ring, meta.topic);
    if ring.ring != map[] {
      var k := FirstIsSuccessor(c.hashing, ring, meta.topic);
    }
  }

  lemma WithIsrUpdates(c: Settings, ring: RingState, meta: TopicMetadata, isr: seq<string>)
    requires WellFormed(ring)
    ensures IsrUpdated(c.hashing, ring, meta, WithIsr(c, ring, meta, isr), isr)
  {
    hide Chosen, Elect, WellFormed;
    ElectIsChosen(c, ring, meta.(isr := isr));
  }

  lemma SurviveBereaved(c: Settings, ring: RingState, meta: TopicMetadata, id: string, anyoneLeft: bool)
    requires WellFormed(ring)
    ensures Bereaved(c.hashing, ring, meta, Survive(c, ring, meta, id, anyoneLeft), id)
  {
    hide Chosen, Elect, WellFormed, Candidates, Refilled;
    var replicas := ReplicasAfter(c, ring, meta, id, anyoneLeft);
    ElectIsChosen(c, ring, meta.(replicas := replicas, isr := Without(meta.isr, id)));
  }

  /** At the end of any run, the departure of a broker leaves it without any role; a topic that it replicated keeps its
      other replicas in order and has as many as the remaining brokers allow. */
  lemma AfterDeparture(c: Settings, ops: seq<Op>, id: string, known: set<string>, topic: string)
    requires c.replicasPerTopic >= 1 && c.hashing.replicas >= 1 && c.hashing.CollisionFree(known)
    requires (forall op | op in ops + [Deregister(id)] :: Named(op) <= known) && id != ""
    ensures forall op | op in ops :: Named(op) <= known
    ensures topic in Run(c, ops, known).topics ==>
              && topic in Run(c, ops + [Deregister(id)], known).topics
              && var before, s := Run(c, ops, known).topics[topic], Run(c, ops + [Deregister(id)], known);
                 var after := s.topics[topic];
                 && Bereaved(c.hashing, s.ring, before, after, id)
                 && after.leader != id
                 && id !in after.replicas
                 && (if id in before.replicas
                     then Without(before.replicas, id) <= after.replicas
                          && |after.replicas| == Min(c.replicasPerTopic, |s.nodes.Keys|)
                     else after.replicas == before.replicas)
  {
    hide Valid, WellFormed, Hashing.CollisionFree, Survive, WithoutNode, Bereaved;
    var all := ops + [Deregister(id)];
    assert forall op | op in ops :: op in all;
    assert Deregister(id) in all && Named(Deregister(id)) == {id};
    assert all[..|all| - 1] == ops;
    var s := Run(c, ops, known);
    if topic in s.topics {
      ValidDeparture(c, s, id, known, topic);
    }
  }

  lemma ValidDeparture(c: Settings, s: Store, id: string, known: set<string>, topic: string)
    requires Valid(c, s, known) && id in known && id != "" && topic in s.topics
    ensures WellFormed(s.ring) && topic in Apply(c, s, Deregister(id)).topics
    ensures
      var before, after := s.topics[topic], Apply(c, s, Deregister(id)).topics[topic];
      && Bereaved(c.hashing, Apply(c, s, Deregister(id)).ring, before, after, id)
      && after.leader != id
      && id !in after.replicas
      && (if id in before.replicas
          then Without(before.replicas, id) <= after.replicas
               && |after.replicas| == Min(c.replicasPerTopic, |Apply(c, s, Deregister(id)).nodes.Keys|)
          else after.replicas == before.replicas)
  {
    hide Represents, Hashing.CollisionFree, WellFormed, WithoutNode, MetaOk, Bereaved;
    DeregisterValid(c, s, id, known);
    SurviveBereaved(c, Apply(c, s, Deregister(id)).ring, s.topics[topic], id, Apply(c, s, Deregister(id)).nodes != map[]);
    CanApply(c, s, Deregister(id), known);
    var s' := Apply(c, s, Deregister(id));
    var live := s'.nodes.Keys;
    assert live == s.nodes.Keys - {id};
    assert live != {} <==> s'.nodes != map[];
    MoreLive(c, s.topics[topic], s.nodes.Keys, live + {id});
    if id in s.topics[topic].replicas {
      LostReplicaIsReplaced(c, s'.ring, live, s.topics[topic], id);
    }
  }

  /** One operation keeps a topic as it is, or stores it with the next version. */
  lemma StepVersion(c: Settings, s: Store, op: Op, topic: string)
    requires WellFormed(s.ring) && topic in s.topics
    ensures topic in Apply(c, s, op).topics
    ensures
      var before, after := s.topics[topic], Apply(c, s, op).topics[topic];
      after == before || after.version == before.version + 1
  {
    hide WellFormed, Elect, Preference, WithoutNode, WithNode;
  }

  /** Versions of a topic never decrease in a run, and equal versions mean equal metadata. */
  lemma {:induction false} VersionsIdentify(c: Settings, ops: seq<Op>, i: nat, known: set<string>, topic: string)
    requires c.replicasPerTopic >= 1 && c.hashing.replicas >= 1 && c.hashing.CollisionFree(known)
    requires (forall op | op in ops :: Named(op) <= known) && i <= |ops|
    ensures forall op | op in ops[..i] :: Named(op) <= known
    ensures topic in Run(c, ops[..i], known).topics ==>
              && topic in Run(c, ops, known).topics
              && var early, late := Run(c, ops[..i], known).topics[topic], Run(c, ops, known).topics[topic];
                 early.version <= late.version && (early.version == late.version ==> early == late)
    decreases |ops|
  {
    hide Apply, Valid, WellFormed, Hashing.CollisionFree;
    if i == |ops| {
      assert ops[..i] == ops;
    } else {
      var front, last := ops[..|ops| - 1], ops[|ops| - 1];
      VersionsIdentify(c, front, i, known, topic);
      assert front[..i] == ops[..i];
      if topic in Run(c, ops[..i], known).topics {
        StepValid(c, Run(c, front, known), last, known);
        StepVersion(c, Run(c, front, known), last, topic);
      }
    }
  }

  datatype StorageError = AlreadyExists | DoesNotExist

  class MetastoreStorage {
    var nodes: map<string, BrokerNode>
    var topics: map<string, TopicMetadata>
    /** The keys of `topics` in the order of their insertion. */
    var names: seq<string>

    constructor ()
      ensures nodes == map[] && topics == map[] && names == []
    {
      nodes, topics, names := map[], map[], [];
    }

    ghost predicate Valid()
      reads this
    {
      NoDup(names) && Elements(names) == topics.Keys
    }

    method AddNode(node: BrokerNode)
      modifies this
      ensures nodes == old(nodes)[node.id := node] && topics == old(topics) && names == old(names)
    {
      nodes := nodes[node.id := node];
    }

    method RemoveNode(id: string) returns (removed: Option<BrokerNode>)
      modifies this
      ensures nodes == old(nodes) - {id} && topics == old(topics) && names == old(names)
      ensures removed == if id in old(nodes) then Some(old(nodes)[id]) else None
    {
      removed := if id in nodes then Some(nodes[id]) else None;
      nodes := nodes - {id};
    }

    method AddTopic(meta: TopicMetadata) returns (error: Option<StorageError>)
      requires Valid()
      modifies this
      ensures Valid() && nodes == old(nodes)
      ensures if meta.topic in old(topics) then error == Some(AlreadyExists) && topics == old(topics) && names == old(names)
              else error == None && topics == old(topics)[meta.topic := meta] && names == old(names) + [meta.topic]
    {
      if meta.topic in topics {
        return Some(AlreadyExists);
      }
      NamesGrow(names, meta.topic);
      topics := topics[meta.topic := meta];
      names := names + [meta.topic];
      return None;
    }

    method UpdateTopic(meta: TopicMetadata) returns (error: Option<StorageError>)
      requires Valid()
      modifies this
      ensures Valid() && nodes == old(nodes) && names == old(names)
      ensures if meta.topic in old(topics) then error == None && topics == old(topics)[meta.topic := meta]
              else error == Some(DoesNotExist) && topics == old(topics)
    {
      if meta.topic !in topics {
        return Some(DoesNotExist);
      }
      topics := topics[meta.topic := meta];
      return None;
    }

    method GetTopic(topic: string) returns (meta: Option<TopicMetadata>)
      ensures meta == if topic in topics then Some(topics[topic]) else None
    {
      meta := if topic in topics then Some(topics[topic]) else None;
    }

    method GetAllTopics() returns (all: seq<TopicMetadata>)
      requires Valid()
      ensures |all| == |names| && forall i | 0 <= i < |names| :: names[i] in topics && all[i] == topics[names[i]]
    {
      assert forall i | 0 <= i < |names| :: names[i] in Elements(names);
      all := InOrder(names, topics);
    }
  }

  function InOrder(names: seq<string>, topics: map<string, TopicMetadata>): (r: seq<TopicMetadata>)
    requires forall i | 0 <= i < |names| :: names[i] in topics
    ensures |r| == |names| && forall i | 0 <= i < |names| :: r[i] == topics[names[i]]
  {
    seq(|names|, i requires 0 <= i < |names| => topics[names[i]])
  }

  /** The topics that `after` stores with other contents than `before`, in the order of `names`. */
  function Changed(before: map<string, TopicMetadata>, after: map<string, TopicMetadata>, names: seq<string>): seq<TopicMetadata> {
    if names == [] then []
    else
      var t := names[|names| - 1];
      Changed(before, after, names[..|names| - 1])
      + (if t in after && (t !in before || before[t] != after[t]) then [after[t]] else [])
  }

  /** Exactly the topics with other contents are reported. */
  lemma {:induction false} ChangedHolds(before: map<string, TopicMetadata>, after: map<string, TopicMetadata>, names: seq<string>, m: TopicMetadata)
    ensures m in Changed(before, after, names) <==>
            exists t :: t in names && t in after && (t !in before || before[t] != after[t]) && m == after[t]
  {
    if names != [] {
      var front, last := names[..|names| - 1], names[|names| - 1];
      ChangedHolds(before, after, front, m);
      assert names == front + [last];
    }
  }

  lemma {:induction false} ChangedIgnores(before: map<string, TopicMetadata>, a: map<string, TopicMetadata>,
                                          b: map<string, TopicMetadata>, names: seq<string>)
    requires forall t | t in names :: t in a && t in b && a[t] == b[t]
    ensures Changed(before, a, names) == Changed(before, b, names)
  {
    if names != [] {
      ChangedIgnores(before, a, b, names[..|names| - 1]);
    }
  }

  /** Appends missing candidates one by one, and stops at `limit`. */
  method Refill(kept: seq<string>, candidates: seq<string>, limit: nat) returns (replicas: seq<string>)
    requires |kept| < limit
    ensures replicas == Refilled(kept, candidates, limit)
  {
    replicas := kept;
    assert candidates[0..] == candidates;
    for i := 0 to |candidates|
      invariant |replicas| < limit
      invariant Refilled(kept, candidates, limit) == Refilled(replicas, candidates[i..], limit)
    {
      assert candidates[i..][1..] == candidates[i + 1..];
      if candidates[i] !in replicas {
        replicas := replicas + [candidates[i]];
        if |replicas| == limit {
          break;
        }
      }
    }
  }

  class MetastoreManager {
    const storage: MetastoreStorage
    const ring: ConsistentHashRing
    const replicasPerTopic: nat

    constructor (hashing: Hashing, replicasPerTopic: nat)
      requires replicasPerTopic >= 1 && hashing.replicas >= 1
      ensures Config() == Settings(hashing, replicasPerTopic)
      ensures State() == Store(map[], map[], [], RingState(map[], []))
      ensures fresh(storage) && fresh(ring)
    {
      this.replicasPerTopic := replicasPerTopic;
      storage := new MetastoreStorage();
      ring := new ConsistentHashRing(hashing);
    }

    function Config(): Settings {
      Settings(ring.hashing, replicasPerTopic)
    }

    ghost function State(): Store
      reads storage, ring
    {
      Store(storage.nodes, storage.topics, storage.names, ring.State())
    }

    ghost predicate Sound()
      reads storage, ring
    {
      storage.Valid() && WellFormed(ring.State()) && forall t | t in storage.topics :: storage.topics[t].topic == t
    }

    method RegisterBroker(id: string, host: string, port: int) returns (node: BrokerNode)
      requires Sound()
      modifies storage, ring
      ensures node == BrokerNode(id, host, port)
      ensures State() == Apply(Config(), old(State()), Register(node))
      ensures storage.nodes == old(storage.nodes)[id := node]
      ensures storage.topics == old(storage.topics) && storage.names == old(storage.names)
    {
      node := BrokerNode(id, host, port);
      storage.AddNode(node);
      ring.AddNode(id);
    }

    method RegisterTopic(topic: string) returns (meta: TopicMetadata)
      requires Sound()
      modifies storage
      ensures State() == Apply(Config(), old(State()), Op.RegisterTopic(topic))
      ensures topic in storage.topics && meta == storage.topics[topic]
      ensures storage.nodes == old(storage.nodes)
      ensures topic in old(storage.topics) ==> storage.topics == old(storage.topics) && storage.names == old(storage.names)
      ensures topic !in old(storage.topics) ==>
                && storage.topics == old(storage.topics)[topic := meta] && storage.names == old(storage.names) + [topic]
                && meta.topic == topic && meta.version == 1
                && meta.replicas == FirstOf(Preference(ring.hashing, ring.State(), topic), replicasPerTopic)
                && meta.isr == meta.replicas
                && meta.leader == if meta.replicas == [] then "" else meta.replicas[0]
    {
      hide Preference, WellFormed, Elements, NoDup;
      var existing := storage.GetTopic(topic);
      if existing.Some? {
        return existing.value;
      }
      var replicas := ring.GetReplicas(topic, replicasPerTopic);
      var leader := if replicas == [] then "" else replicas[0];
      meta := TopicMetadata(topic, leader, replicas, replicas, 1);
      var error := storage.AddTopic(meta);
    }

    method ElectLeader(meta: TopicMetadata) returns (leader: string)
      requires WellFormed(ring.State())
      ensures leader == Elect(Config(), ring.State(), meta)
    {
      if meta.isr != [] {
        return meta.isr[0];
      }
      if meta.replicas != [] {
        return meta.replicas[0];
      }
      var node := ring.GetNode(meta.topic);
      return if node.Some? then node.value else "";
    }

    method UpdateTopicIsr(topic: string, isr: seq<string>) returns (updated: Option<TopicMetadata>)
      requires Sound()
      modifies storage
      ensures State() == Apply(Config(), old(State()), UpdateIsr(topic, isr))
      ensures updated == if topic in storage.topics then Some(storage.topics[topic]) else None
      ensures storage.nodes == old(storage.nodes) && storage.names == old(storage.names)
      ensures if topic !in old(storage.topics) then storage.topics == old(storage.topics)
              else topic in storage.topics && storage.topics == old(storage.topics)[topic := storage.topics[topic]]
                   && IsrUpdated(ring.hashing, ring.State(), old(storage.topics)[topic], storage.topics[topic], isr)
    {
      hide Preference, WellFormed, Elements, NoDup, Elect, IsrUpdated;
      var found := storage.GetTopic(topic);
      if found == None {
        return None;
      }
      WithIsrUpdates(Config(), ring.State(), found.value, isr);
      var meta := found.value.(isr := isr);
      if meta.leader !in isr {
        var leader := ElectLeader(meta);
        meta := meta.(leader := leader);
      }
      meta := meta.(version := meta.version + 1);
      var error := storage.UpdateTopic(meta);
      return Some(meta);
    }

    /** The body of the deregistration loop: the new metadata of one topic. */
    method Reassign(current: TopicMetadata, id: string, anyoneLeft: bool) returns (meta: TopicMetadata, needsUpdate: bool)
      requires WellFormed(ring.State())
      ensures meta == Survive(Config(), ring.State(), current, id, anyoneLeft)
      ensures meta.topic == current.topic && (needsUpdate <==> meta != current)
    {
      hide Preference, WellFormed, Elect;
      meta, needsUpdate := current, false;
      if id in meta.replicas {
        var replicas := Without(meta.replicas, id);
        if |replicas| < replicasPerTopic && anyoneLeft {
          var candidates := ring.GetReplicas(meta.topic, replicasPerTopic);
          replicas := Refill(replicas, candidates, replicasPerTopic);
        }
        meta := meta.(replicas := replicas);
        needsUpdate := true;
      }
      if meta.leader == id {
        meta := meta.(isr := Without(meta.isr, id));
        var leader := ElectLeader(meta);
        meta := meta.(leader := leader);
        needsUpdate := true;
      }
      if needsUpdate {
        meta := meta.(version := meta.version + 1);
      }
    }

    method DeregisterBroker(id: string) returns (updated: seq<TopicMetadata>)
      requires Sound()
      modifies storage, ring
      ensures State() == Apply(Config(), old(State()), Deregister(id))
      ensures updated == Changed(old(storage.topics), storage.topics, storage.names)
      ensures storage.nodes == old(storage.nodes) - {id} && storage.names == old(storage.names)
      ensures storage.topics.Keys == old(storage.topics).Keys
      ensures forall t | t in storage.topics ::
                Bereaved(ring.hashing, ring.State(), old(storage.topics)[t], storage.topics[t], id)
    {
      hide Preference, WellFormed, Elect, Survive, WithoutNode, Changed, Bereaved;
      WithoutNodeKeeps(ring.hashing, ring.State(), id);
      var removed := storage.RemoveNode(id);
      ring.RemoveNode(id);
      updated := ReassignAll(id);
      AllBereaved(old(storage.topics), id);
    }

    lemma AllBereaved(before: map<string, TopicMetadata>, id: string)
      requires WellFormed(ring.State())
      requires storage.topics == map t | t in before ::
                                   Survive(Config(), ring.State(), before[t], id, storage.nodes != map[])
      ensures storage.topics.Keys == before.Keys
      ensures forall t | t in storage.topics :: Bereaved(ring.hashing, ring.State(), before[t], storage.topics[t], id)
    {
      hide WellFormed, Survive, Bereaved;
      forall t | t in before
        ensures Bereaved(ring.hashing, ring.State(), before[t], storage.topics[t], id)
      {
        SurviveBereaved(Config(), ring.State(), before[t], id, storage.nodes != map[]);
      }
    }

    /** The deregistration loop over all topics. */
    method ReassignAll(id: string) returns (updated: seq<TopicMetadata>)
      requires Sound()
      modifies storage
      ensures storage.nodes == old(storage.nodes) && storage.names == old(storage.names)
      ensures storage.topics == map t | t in old(storage.topics) ::
                                  Survive(Config(), ring.State(), old(storage.topics)[t], id, storage.nodes != map[])
      ensures updated == Changed(old(storage.topics), storage.topics, storage.names)
    {
      hide Preference, WellFormed, Elect, Survive, NoDup, Elements, Halfway, Changed;
      updated := [];
      var all := storage.GetAllTopics();
      var anyoneLeft := storage.nodes != map[];
      ghost var before, names := storage.topics, storage.names;
      ghost var target := map t | t in before :: Survive(Config(), ring.State(), before[t], id, anyoneLeft);
      HalfwayStarts(before, target, names);
      for i := 0 to |all|
        invariant storage.Valid() && storage.names == names && storage.nodes == old(storage.nodes)
        invariant storage.topics == Halfway(before, target, names[..i])
        invariant updated == Changed(before, storage.topics, names[..i])
      {
        HalfwayStep(before, target, names, i);
        var meta, needsUpdate := Reassign(all[i], id, anyoneLeft);
        if needsUpdate {
          var error := storage.UpdateTopic(meta);
          updated := updated + [meta];
        }
      }
      HalfwayDone(before, target, names);
    }
  }

  /** Some topics are updated, the others still as they were. */
  function Halfway(before: map<string, TopicMetadata>, after: map<string, TopicMetadata>, done: seq<string>): map<string, TopicMetadata>
    requires before.Keys == after.Keys
  {
    map t | t in before :: if t in done then after[t] else before[t]
  }

  lemma HalfwayStarts(before: map<string, TopicMetadata>, after: map<string, TopicMetadata>, names: seq<string>)
    requires before.Keys == after.Keys == Elements(names)
    ensures Halfway(before, after, names[..0]) == before && Changed(before, before, names[..0]) == []
    ensures forall n | n in names :: n in before
  {
    assert forall n | n in names :: n in Elements(names);
  }

  lemma HalfwayStep(before: map<string, TopicMetadata>, after: map<string, TopicMetadata>, names: seq<string>, i: nat)
    requires before.Keys == after.Keys && i < |names| && NoDup(names) && forall n | n in names :: n in before
    ensures
      var t := names[i];
      var now, next := Halfway(before, after, names[..i]), Halfway(before, after, names[..i + 1]);
      && next == now[t := after[t]]
      && (before[t] == after[t] ==> next == now)
      && Changed(before, next, names[..i + 1]) ==
         Changed(before, now, names[..i]) + (if before[t] != after[t] then [after[t]] else [])
  {
    var t := names[i];
    var now, next := Halfway(before, after, names[..i]), Halfway(before, after, names[..i + 1]);
    assert names[..i + 1] == names[..i] + [t] && names[..i + 1][..i] == names[..i];
    assert t !in names[..i];
    ChangedIgnores(before, now, next, names[..i]);
  }

  lemma HalfwayDone(before: map<string, TopicMetadata>, after: map<string, TopicMetadata>, names: seq<string>)
    requires before.Keys == after.Keys == Elements(names)
    ensures names[..|names|] == names && Halfway(before, after, names) == after
  {
  }
}
