/** How a broker follows the controller: which topics it hosts, and in which role. */
module Replication {
  import opened Seqs
  import opened Packets
  import opened Ring
  import M = Metastore

  datatype Role = LEADER | FOLLOWER

  /** `leads`: the leader object exists, so replica fetches and reads are answered. */
  datatype TopicState = TopicState(
    topic: string, role: Role, leaderId: string, leaderAddr: string, leaderPort: int, replicas: seq<string>, version: int,
    leads: bool)
  {
    predicate CompareMeta(other: TopicState) {
      && topic == other.topic
      && role == other.role
      && leaderId == other.leaderId
      && leaderAddr == other.leaderAddr
      && leaderPort == other.leaderPort
      && Elements(replicas) == Elements(other.replicas)
    }
  }

  type Topics = map<string, TopicState>

  /** The state that a broker starts for the metadata; starting a leader creates its leader object. */
  function Started(broker: string, meta: TopicMeta): TopicState {
    var role := if meta.leaderId == broker then LEADER else FOLLOWER;
    TopicState(meta.topic, role, meta.leaderId, meta.leaderAddr, meta.leaderPort, meta.replicas, meta.version, role == LEADER)
  }

  function Applied(broker: string, topics: Topics, meta: TopicMeta): Topics {
    var state := Started(broker, meta);
    if broker !in meta.replicas then topics - {meta.topic}
    else if meta.topic in topics
            && (meta.version <= topics[meta.topic].version || state.CompareMeta(topics[meta.topic])) then topics
    else topics[meta.topic := state]
  }

  function AppliedAll(broker: string, topics: Topics, metas: seq<TopicMeta>): Topics {
    if metas == [] then topics
    else Applied(broker, AppliedAll(broker, topics, metas[..|metas| - 1]), metas[|metas| - 1])
  }

  function Names(metas: seq<TopicMeta>): set<string> {
    set i | 0 <= i < |metas| :: metas[i].topic
  }

  /** A list is the whole truth: topics that it does not mention are dropped first. */
  function AppliedList(broker: string, topics: Topics, metas: seq<TopicMeta>): Topics {
    AppliedAll(broker, map t | t in topics && t in Names(metas) :: topics[t], metas)
  }

  datatype Delivery = One(meta: TopicMeta) | List(metas: seq<TopicMeta>)

  function Delivered(broker: string, topics: Topics, d: Delivery): Topics {
    match d
    case One(meta) => Applied(broker, topics, meta)
    case List(metas) => AppliedList(broker, topics, metas)
  }

  function DeliveredAll(broker: string, ds: seq<Delivery>): Topics {
    if ds == [] then map[] else Delivered(broker, DeliveredAll(broker, ds[..|ds| - 1]), ds[|ds| - 1])
  }

  /** What a delivery says about one topic, in order; `None` says that there is no such topic. */
  function News(d: Delivery, topic: string): seq<Option<TopicMeta>> {
    match d
    case One(meta) => if meta.topic == topic then [Some(meta)] else []
    case List(metas) => if topic in Names(metas) then About(metas, topic) else [None]
  }

  function About(metas: seq<TopicMeta>, topic: string): seq<Option<TopicMeta>> {
    if metas == [] then []
    else
      var last := metas[|metas| - 1];
      About(metas[..|metas| - 1], topic) + (if last.topic == topic then [Some(last)] else [])
  }

  function AllNews(ds: seq<Delivery>, topic: string): seq<Option<TopicMeta>> {
    if ds == [] then [] else AllNews(ds[..|ds| - 1], topic) + News(ds[|ds| - 1], topic)
  }

  /** The same metadata, up to the leader's address. */
  predicate SameContent(a: TopicMeta, b: TopicMeta) {
    a.topic == b.topic && a.leaderId == b.leaderId && Elements(a.replicas) == Elements(b.replicas)
  }

  /** Versions arrive in order, and a version names one content. */
  ghost predicate InOrder(news: seq<Option<TopicMeta>>) {
    forall i, j | 0 <= i < j < |news| && news[i].Some? && news[j].Some? ::
      && news[i].value.version <= news[j].value.version
      && (news[i].value.version == news[j].value.version ==> SameContent(news[i].value, news[j].value))
  }

  /** The broker hosts the topic exactly when the last word names it as a replica, and then in the role, under the
      leader and among the replicas of that last word. */
  predicate Agrees(broker: string, topics: Topics, topic: string, last: Option<TopicMeta>) {
    if last.None? || broker !in last.value.replicas then topic !in topics
    else
      && topic in topics
      && topics[topic].topic == topic == last.value.topic
      && topics[topic].leaderId == last.value.leaderId
      && (topics[topic].role == LEADER <==> last.value.leaderId == broker)
      && (topics[topic].leads <==> last.value.leaderId == broker)
      && Elements(topics[topic].replicas) == Elements(last.value.replicas)
      && topics[topic].version <= last.value.version
  }

  lemma SameBroker(broker: string, a: TopicMeta, b: TopicMeta)
    requires SameContent(a, b)
    ensures broker in a.replicas <==> broker in b.replicas
  {
    assert broker in a.replicas <==> broker in Elements(a.replicas);
    assert broker in b.replicas <==> broker in Elements(b.replicas);
  }

  /** One more word about the topic, after `last` (`None` also stands for no word yet). */
  lemma AppliedAgrees(broker: string, topics: Topics, topic: string, last: Option<TopicMeta>, meta: TopicMeta)
    requires Agrees(broker, topics, topic, last) && meta.topic == topic
    requires last.Some? ==> last.value.version <= meta.version
                            && (last.value.version == meta.version ==> SameContent(last.value, meta))
    ensures Agrees(broker, Applied(broker, topics, meta), topic, Some(meta))
  {
    hide Elements;
    if last.Some? && last.value.version == meta.version {
      SameBroker(broker, last.value, meta);
    }
  }

  lemma AppliedElsewhere(broker: string, topics: Topics, topic: string, last: Option<TopicMeta>, meta: TopicMeta)
    requires Agrees(broker, topics, topic, last) && meta.topic != topic
    ensures Agrees(broker, Applied(broker, topics, meta), topic, last)
  {
    hide Elements;
  }

  function LastOf(news: seq<Option<TopicMeta>>): Option<TopicMeta> {
    if news == [] then None else news[|news| - 1]
  }

  lemma InOrderSplit(a: seq<Option<TopicMeta>>, b: seq<Option<TopicMeta>>)
    requires InOrder(a + b)
    ensures InOrder(a) && InOrder(b)
  {
    assert forall i | 0 <= i < |a| :: (a + b)[i] == a[i];
    assert forall i | 0 <= i < |b| :: (a + b)[|a| + i] == b[i];
  }

  lemma OneMoreAgrees(broker: string, topics: Topics, topic: string, news: seq<Option<TopicMeta>>, meta: TopicMeta)
    requires meta.topic == topic && InOrder(news + [Some(meta)]) && Agrees(broker, topics, topic, LastOf(news))
    ensures Agrees(broker, Applied(broker, topics, meta), topic, Some(meta))
  {
    hide Agrees, Applied, SameContent;
    var all := news + [Some(meta)];
    assert all[|news|] == Some(meta);
    if news != [] {
      assert all[|news| - 1] == LastOf(news);
    }
    AppliedAgrees(broker, topics, topic, LastOf(news), meta);
  }

  lemma {:induction false} AppliedAllAgrees(broker: string, topics: Topics, topic: string, news: seq<Option<TopicMeta>>, metas: seq<TopicMeta>)
    requires Agrees(broker, topics, topic, LastOf(news)) && InOrder(news + About(metas, topic))
    ensures Agrees(broker, AppliedAll(broker, topics, metas), topic, LastOf(news + About(metas, topic)))
    decreases |metas|
  {
    hide Agrees, Applied, InOrder;
    if metas == [] {
      assert news + [] == news;
    } else {
      var front, last := metas[..|metas| - 1], metas[|metas| - 1];
      var before := news + About(front, topic);
      if last.topic == topic {
        assert news + About(metas, topic) == before + [Some(last)];
        InOrderSplit(before, [Some(last)]);
        AppliedAllAgrees(broker, topics, topic, news, front);
        OneMoreAgrees(broker, AppliedAll(broker, topics, front), topic, before, last);
      } else {
        assert About(metas, topic) == About(front, topic);
        AppliedAllAgrees(broker, topics, topic, news, front);
        AppliedElsewhere(broker, AppliedAll(broker, topics, front), topic, LastOf(before), last);
      }
    }
  }

  lemma DroppedAgrees(broker: string, topics: Topics, topic: string, last: Option<TopicMeta>, kept: set<string>)
    requires Agrees(broker, topics, topic, last)
    ensures
      var left := map t | t in topics && t in kept :: topics[t];
      Agrees(broker, left, topic, if topic in kept then last else None)
  {
    hide Elements;
  }

  lemma {:induction false} NothingAbout(metas: seq<TopicMeta>, topic: string)
    requires topic !in Names(metas)
    ensures About(metas, topic) == []
  {
    if metas != [] {
      var front := metas[..|metas| - 1];
      assert metas[|metas| - 1].topic in Names(metas);
      assert topic !in Names(front) by {
        assert forall i | 0 <= i < |front| :: front[i] == metas[i];
      }
      NothingAbout(front, topic);
    }
  }

  lemma DeliveredAgrees(broker: string, topics: Topics, topic: string, news: seq<Option<TopicMeta>>, d: Delivery)
    requires Agrees(broker, topics, topic, LastOf(news)) && InOrder(news + News(d, topic))
    ensures Agrees(broker, Delivered(broker, topics, d), topic, LastOf(news + News(d, topic)))
  {
    hide Agrees, Applied, InOrder;
    match d
    case One(meta) =>
      if meta.topic == topic {
        OneMoreAgrees(broker, topics, topic, news, meta);
      } else {
        assert news + [] == news;
        AppliedElsewhere(broker, topics, topic, LastOf(news), meta);
      }
    case List(metas) =>
      DroppedAgrees(broker, topics, topic, LastOf(news), Names(metas));
      var left := map t | t in topics && t in Names(metas) :: topics[t];
      if topic in Names(metas) {
        AppliedAllAgrees(broker, left, topic, news, metas);
      } else {
        NothingAbout(metas, topic);
        InOrderEmpty();
        AppliedAllAgrees(broker, left, topic, [], metas);
        assert [] + About(metas, topic) == [];
      }
  }

  lemma InOrderEmpty()
    ensures InOrder([] + [])
  {
  }

  /** Fed in version order, repeats and whole lists allowed, a broker agrees with the last word after every prefix. */
  lemma {:induction false} BrokerFollows(broker: string, ds: seq<Delivery>, topic: string)
    requires InOrder(AllNews(ds, topic))
    ensures Agrees(broker, DeliveredAll(broker, ds), topic, LastOf(AllNews(ds, topic)))
  {
    hide Agrees, Delivered, InOrder, News;
    if ds == [] {
      NothingYet(broker, topic);
    } else {
      var front, last := ds[..|ds| - 1], ds[|ds| - 1];
      InOrderSplit(AllNews(front, topic), News(last, topic));
      BrokerFollows(broker, front, topic);
      DeliveredAgrees(broker, DeliveredAll(broker, front), topic, AllNews(front, topic), last);
    }
  }

  lemma NothingYet(broker: string, topic: string)
    ensures Agrees(broker, map[], topic, None)
  {
  }

  /** A word about the topic is what the controller stores at that time; the address is the controller's to add. */
  ghost predicate Tells(stored: map<string, M.TopicMetadata>, topic: string, word: Option<TopicMeta>) {
    if topic !in stored then word == None
    else
      && word.Some?
      && word.value.topic == topic
      && word.value.leaderId == stored[topic].leader
      && word.value.replicas == stored[topic].replicas
      && word.value.version == stored[topic].version
  }

  /** The words are copies of the stored metadata after `times[0] <= times[1] <= ...` operations of one run. */
  ghost predicate Copies(c: M.Settings, ops: seq<M.Op>, known: set<string>, times: seq<nat>, topic: string, news: seq<Option<TopicMeta>>)
    requires c.replicasPerTopic >= 1 && c.hashing.replicas >= 1 && c.hashing.CollisionFree(known)
    requires forall op | op in ops :: M.Named(op) <= known
  {
    && |times| == |news|
    && (forall i | 0 <= i < |times| :: times[i] <= |ops|)
    && (forall i, j | 0 <= i < j < |times| :: times[i] <= times[j])
    && (forall i | 0 <= i < |times| :: Tells(M.Run(c, ops[..times[i]], known).topics, topic, news[i]))
  }

  lemma CopiesInOrder(c: M.Settings, ops: seq<M.Op>, known: set<string>, times: seq<nat>, topic: string, news: seq<Option<TopicMeta>>)
    requires c.replicasPerTopic >= 1 && c.hashing.replicas >= 1 && c.hashing.CollisionFree(known)
    requires forall op | op in ops :: M.Named(op) <= known
    requires Copies(c, ops, known, times, topic, news)
    ensures InOrder(news)
  {
    hide M.Valid, M.Run, Hashing.CollisionFree, Elements;
    forall i, j | 0 <= i < j < |news| && news[i].Some? && news[j].Some?
      ensures news[i].value.version <= news[j].value.version
      ensures news[i].value.version == news[j].value.version ==> SameContent(news[i].value, news[j].value)
    {
      assert ops[..times[j]][..times[i]] == ops[..times[i]];
      M.VersionsIdentify(c, ops[..times[j]], times[i], known, topic);
      assert Tells(M.Run(c, ops[..times[i]], known).topics, topic, news[i]);
      assert Tells(M.Run(c, ops[..times[j]], known).topics, topic, news[j]);
    }
  }

  // -- What is ignored -------------------------------------------------------------------------

  /** Does the word differ from what the broker runs by? Its version does not matter here. */
  predicate Differs(broker: string, state: TopicState, meta: TopicMeta) {
    || state.leaderId != meta.leaderId
    || state.leaderAddr != meta.leaderAddr
    || state.leaderPort != meta.leaderPort
    || (state.role == LEADER) != (meta.leaderId == broker)
    || Elements(state.replicas) != Elements(meta.replicas)
  }

  /** The state follows the word in everything. */
  predicate Follows(broker: string, state: TopicState, meta: TopicMeta) {
    && state.topic == meta.topic
    && state.leaderId == meta.leaderId && state.leaderAddr == meta.leaderAddr && state.leaderPort == meta.leaderPort
    && (state.role == LEADER <==> meta.leaderId == broker)
    && (state.leads <==> meta.leaderId == broker)
    && state.replicas == meta.replicas
    && state.version == meta.version
  }

  /** What one word does to the hosted topics: it removes a topic that the broker does not replicate, adopts one that
      is new, and changes one that is hosted if and only if it is newer and differs. */
  ghost predicate Heard(broker: string, before: Topics, after: Topics, meta: TopicMeta) {
    && (forall t | t != meta.topic :: (t in before <==> t in after) && (t in before ==> before[t] == after[t]))
    && (if broker !in meta.replicas then meta.topic !in after
        else
          && meta.topic in after
          && (if meta.topic in before && !(meta.version > before[meta.topic].version && Differs(broker, before[meta.topic], meta))
              then after[meta.topic] == before[meta.topic]
              else Follows(broker, after[meta.topic], meta)))
  }

  ghost predicate Keyed(topics: Topics) {
    forall t | t in topics :: topics[t].topic == t
  }

  lemma AppliedHeard(broker: string, topics: Topics, meta: TopicMeta)
    requires Keyed(topics)
    ensures Heard(broker, topics, Applied(broker, topics, meta), meta) && Keyed(Applied(broker, topics, meta))
  {
    hide Elements;
  }

  /** For a hosted topic and a word that names this broker, the state changes exactly when the word is newer and
      differs. */
  lemma ChangesIffNewAndDifferent(broker: string, topics: Topics, meta: TopicMeta)
    requires Keyed(topics) && meta.topic in topics && broker in meta.replicas
    ensures Applied(broker, topics, meta) != topics
            <==> meta.version > topics[meta.topic].version && Differs(broker, topics[meta.topic], meta)
  {
    hide Elements;
    AppliedHeard(broker, topics, meta);
  }

  /** The words of a delivery about a topic all name this broker, and a list does have such words. */
  predicate Keeps(broker: string, d: Delivery, topic: string) {
    forall word | word in News(d, topic) :: word.Some? && broker in word.value.replicas
  }

  lemma AppliedVersion(broker: string, topics: Topics, meta: TopicMeta, topic: string)
    requires Keyed(topics) && topic in topics && (meta.topic == topic ==> broker in meta.replicas)
    ensures topic in Applied(broker, topics, meta)
    ensures topics[topic].version <= Applied(broker, topics, meta)[topic].version
  {
    hide Elements;
  }

  lemma {:induction false} AppliedAllVersion(broker: string, topics: Topics, metas: seq<TopicMeta>, topic: string)
    requires Keyed(topics) && topic in topics
    requires forall word | word in About(metas, topic) :: word.Some? && broker in word.value.replicas
    ensures Keyed(AppliedAll(broker, topics, metas)) && topic in AppliedAll(broker, topics, metas)
    ensures topics[topic].version <= AppliedAll(broker, topics, metas)[topic].version
    decreases |metas|
  {
    hide Applied;
    if metas != [] {
      var front, last := metas[..|metas| - 1], metas[|metas| - 1];
      assert forall word | word in About(front, topic) :: word in About(metas, topic);
      assert last.topic == topic ==> Some(last) in About(metas, topic);
      AppliedAllVersion(broker, topics, front, topic);
      AppliedVersion(broker, AppliedAll(broker, topics, front), last, topic);
      AppliedHeard(broker, AppliedAll(broker, topics, front), last);
    }
  }

  lemma DeliveredVersion(broker: string, topics: Topics, d: Delivery, topic: string)
    requires Keyed(topics) && topic in topics && Keeps(broker, d, topic)
    ensures topic in Delivered(broker, topics, d)
    ensures topics[topic].version <= Delivered(broker, topics, d)[topic].version
  {
    hide Applied;
    match d
    case One(meta) =>
      assert meta.topic == topic ==> Some(meta) in News(d, topic);
      AppliedVersion(broker, topics, meta, topic);
    case List(metas) =>
      assert topic !in Names(metas) ==> None in News(d, topic);
      AppliedAllVersion(broker, map t | t in topics && t in Names(metas) :: topics[t], metas, topic);
  }

  lemma {:induction false} AppliedAllKeyed(broker: string, topics: Topics, metas: seq<TopicMeta>)
    requires Keyed(topics)
    ensures Keyed(AppliedAll(broker, topics, metas))
  {
    hide Applied;
    if metas != [] {
      AppliedAllKeyed(broker, topics, metas[..|metas| - 1]);
      AppliedHeard(broker, AppliedAll(broker, topics, metas[..|metas| - 1]), metas[|metas| - 1]);
    }
  }

  lemma {:induction false} DeliveredAllKeyed(broker: string, ds: seq<Delivery>)
    ensures Keyed(DeliveredAll(broker, ds))
  {
    hide Applied, AppliedAll;
    if ds != [] {
      var front, last := ds[..|ds| - 1], ds[|ds| - 1];
      DeliveredAllKeyed(broker, front);
      match last
      case One(meta) => AppliedHeard(broker, DeliveredAll(broker, front), meta);
      case List(metas) =>
        AppliedAllKeyed(broker, map t | t in DeliveredAll(broker, front) && t in Names(metas) :: DeliveredAll(broker, front)[t], metas);
    }
  }

  /** Over any deliveries, in order or not: as long as every word about a hosted topic names this broker, the topic stays
      hosted and its stored version never decreases. */
  lemma {:induction false} VersionNeverDecreases(broker: string, ds: seq<Delivery>, i: nat, topic: string)
    requires i <= |ds| && topic in DeliveredAll(broker, ds[..i])
    requires forall k | i <= k < |ds| :: Keeps(broker, ds[k], topic)
    ensures topic in DeliveredAll(broker, ds)
    ensures DeliveredAll(broker, ds[..i])[topic].version <= DeliveredAll(broker, ds)[topic].version
    decreases |ds|
  {
    hide Delivered, Keeps;
    if i == |ds| {
      assert ds[..i] == ds;
    } else {
      var front := ds[..|ds| - 1];
      assert front[..i] == ds[..i];
      VersionNeverDecreases(broker, front, i, topic);
      DeliveredAllKeyed(broker, front);
      DeliveredVersion(broker, DeliveredAll(broker, front), ds[|ds| - 1], topic);
    }
  }

  /** A single word keeps a hosted topic hosted only if it does name the broker or speaks of another topic; likewise a
      list with one entry for each topic. So with such deliveries the version never decreases while the topic stays
      hosted. */
  lemma HostedMeansKept(broker: string, topics: Topics, d: Delivery, topic: string)
    requires Keyed(topics) && topic in topics && topic in Delivered(broker, topics, d) && |News(d, topic)| <= 1
    ensures Keeps(broker, d, topic)
  {
    hide Applied;
    match d
    case One(meta) => AppliedHeard(broker, topics, meta);
    case List(metas) =>
      var left := map t | t in topics && t in Names(metas) :: topics[t];
      LastWordDecides(broker, left, metas, topic);
      if topic !in Names(metas) {
        NothingAbout(metas, topic);
      }
  }

  /** After a list, a topic is hosted only if the last of its words names the broker. */
  lemma {:induction false} LastWordDecides(broker: string, topics: Topics, metas: seq<TopicMeta>, topic: string)
    requires Keyed(topics)
    ensures Keyed(AppliedAll(broker, topics, metas))
    ensures
      var news := About(metas, topic);
      if news == [] then topic in AppliedAll(broker, topics, metas) <==> topic in topics
      else news[|news| - 1].Some?
           && (topic in AppliedAll(broker, topics, metas) <==> broker in news[|news| - 1].value.replicas)
  {
    hide Applied;
    if metas != [] {
      LastWordDecides(broker, topics, metas[..|metas| - 1], topic);
      AppliedHeard(broker, AppliedAll(broker, topics, metas[..|metas| - 1]), metas[|metas| - 1]);
    }
  }

  /** A broker that is told the controller's metadata in the order of the controller's run agrees with what the
      controller stored when it last told. */
  lemma BrokerTracksController(broker: string, ds: seq<Delivery>, c: M.Settings, ops: seq<M.Op>, known: set<string>,
                               times: seq<nat>, topic: string)
    requires c.replicasPerTopic >= 1 && c.hashing.replicas >= 1 && c.hashing.CollisionFree(known)
    requires forall op | op in ops :: M.Named(op) <= known
    requires Copies(c, ops, known, times, topic, AllNews(ds, topic)) && times != []
    ensures
      var stored := M.Run(c, ops[..times[|times| - 1]], known).topics;
      var hosted := DeliveredAll(broker, ds);
      && (topic in hosted <==> topic in stored && broker in stored[topic].replicas)
      && (topic in hosted ==>
            && hosted[topic].leaderId == stored[topic].leader
            && (hosted[topic].role == LEADER <==> stored[topic].leader == broker)
            && (hosted[topic].leads <==> stored[topic].leader == broker)
            && Elements(hosted[topic].replicas) == Elements(stored[topic].replicas))
  {
    hide M.Valid, M.Run, Hashing.CollisionFree, Elements, DeliveredAll, AllNews, InOrder;
    CopiesInOrder(c, ops, known, times, topic, AllNews(ds, topic));
    BrokerFollows(broker, ds, topic);
    var news, last := AllNews(ds, topic), |times| - 1;
    assert Tells(M.Run(c, ops[..times[last]], known).topics, topic, news[last]);
  }

  datatype LeaderLookup = Leads | NoSuchTopic | NotLeader

  class ReplicaManager {
    const brokerId: string
    var topics: Topics
    /** What the controller has sent so far. */
    ghost var deliveries: seq<Delivery>

    constructor (brokerId: string)
      ensures this.brokerId == brokerId && topics == map[] && deliveries == [] && Valid()
    {
      this.brokerId := brokerId;
      topics := map[];
      deliveries := [];
    }

    ghost predicate Valid()
      reads this
    {
      topics == DeliveredAll(brokerId, deliveries)
    }

    /** A response from the controller arrives. */
    method Receive(d: Delivery)
      requires Valid()
      modifies this
      ensures Valid() && deliveries == old(deliveries) + [d]
      ensures topics == Delivered(brokerId, old(topics), d)
    {
      assert (deliveries + [d])[..|deliveries|] == deliveries;
      match d {
      case One(meta) => ApplyMetadata(meta);
      case List(metas) => ApplyMetadataList(metas);
      }
      deliveries := deliveries + [d];
    }

    method ApplyMetadata(meta: TopicMeta)
      modifies this`topics
      ensures topics == Applied(brokerId, old(topics), meta)
      ensures Keyed(old(topics)) ==> Heard(brokerId, old(topics), topics, meta)
    {
      if Keyed(topics) {
        AppliedHeard(brokerId, topics, meta);
      }
      if brokerId !in meta.replicas {
        var removed := RemoveTopic(meta.topic);
        return;
      }
      var role := if meta.leaderId == brokerId then LEADER else FOLLOWER;
      var state := TopicState(meta.topic, role, meta.leaderId, meta.leaderAddr, meta.leaderPort, meta.replicas,
                              meta.version, false);
      if meta.topic in topics {
        var current := topics[meta.topic];
        if meta.version <= current.version {
          return;
        }
        if state.CompareMeta(current) {
          return;
        }
      }
      topics := topics[meta.topic := state];
      StartTopic(meta.topic);
    }

    /** Only the leader's role creates a leader object. */
    method StartTopic(topic: string)
      requires topic in topics
      modifies this`topics
      ensures topics == old(topics)[topic := old(topics)[topic].(leads := old(topics)[topic].role == LEADER
                                                                          || old(topics)[topic].leads)]
    {
      if topics[topic].role == LEADER {
        topics := topics[topic := topics[topic].(leads := true)];
      }
    }

    method RemoveTopic(topic: string) returns (removed: bool)
      modifies this`topics
      ensures topics == old(topics) - {topic}
      ensures removed <==> topic in old(topics)
    {
      if topic !in topics {
        return false;
      }
      topics := topics - {topic};
      return true;
    }

    method ApplyMetadataList(metas: seq<TopicMeta>)
      modifies this`topics
      ensures topics == AppliedList(brokerId, old(topics), metas)
    {
      var names := Names(metas);
      var left := topics.Keys;
      while left != {}
        invariant left <= topics.Keys <= old(topics).Keys
        invariant forall t | t in topics :: topics[t] == old(topics)[t]
        invariant forall t | t in old(topics) && t !in left :: t in topics <==> t in names
        decreases |left|
      {
        var topic :| topic in left;
        left := left - {topic};
        if topic !in names {
          var removed := RemoveTopic(topic);
        }
      }
      ghost var kept := topics;
      assert kept == map t | t in old(topics) && t in names :: old(topics)[t];
      assert metas[..0] == [];
      for i := 0 to |metas|
        invariant topics == AppliedAll(brokerId, kept, metas[..i])
      {
        assert metas[..i + 1][..i] == metas[..i];
        ApplyMetadata(metas[i]);
      }
      assert metas[..|metas|] == metas;
    }

    /** When the controller's words arrived in order, the answer is what the last of them says. */
    method GetLeader(topic: string) returns (r: LeaderLookup)
      requires Valid()
      ensures InOrder(AllNews(deliveries, topic)) ==>
                var last := LastOf(AllNews(deliveries, topic));
                && (r == NoSuchTopic <==> last.None? || brokerId !in last.value.replicas)
                && (r == Leads <==> last.Some? && brokerId in last.value.replicas && last.value.leaderId == brokerId)
      ensures r == if topic !in topics then NoSuchTopic
                   else if topics[topic].role == LEADER && topics[topic].leads then Leads
                   else NotLeader
    {
      if InOrder(AllNews(deliveries, topic)) {
        BrokerFollows(brokerId, deliveries, topic);
      }
      if topic !in topics {
        return NoSuchTopic;
      }
      var state := topics[topic];
      if state.role != LEADER || !state.leads {
        return NotLeader;
      }
      return Leads;
    }
  }
}
