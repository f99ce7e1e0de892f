/** The entry cache as its threads see it: every section under a lock is one step, and steps of different threads
    interleave in any order. Threads in the same place with the same entry are interchangeable, so a state counts them. */
module CacheProtocol {
  import opened Seqs
  import opened Lru

  type Id = nat

  /** Where a thread stands, and with which entry. */
  datatype Thread =
    | Loading(entry: Id)      // acquired under the cache lock, `load` still to come
    | Holding(entry: Id)      // has a handle
    | Waiting(entry: Id)      // will look at the reference count, to release the entry at zero
    | Asleep(entry: Id)       // in `wait_until_zero`, until notified
    | Releasing(entry: Id)    // has seen zero, `release` still to come
    | Lost(entry: Id)         // `load` raised: there is no handle, and nobody gives the reference back

  datatype Entry = Entry(key: string, refs: int, mapped: bool)

  /** Entries are numbered as they are created. `cache` is the ordered dictionary, least recent first;
      `cleaner` is the entry the cleanup thread took from the queue. */
  datatype State = State(
    capacity: nat,
    entries: seq<Entry>,
    cache: seq<Id>,
    queue: seq<Id>,
    threads: multiset<Thread>,
    cleaner: Option<Id>,
    released: seq<Id>)

  datatype Step =
    | Acquire(key: string)
    | Load(entry: Id)
    | LoadFails(entry: Id)
    | Drop(entry: Id)
    | ForceEvict(key: string)
    | TryEvict(key: string)
    | TakeQueued
    | CheckZero(entry: Id)
    | Release(entry: Id)

  function Init(capacity: nat): State {
    State(capacity, [], [], [], multiset{}, None, [])
  }

  /** The cached entry of a key. */
  function Lookup(entries: seq<Entry>, cache: seq<Id>, key: string): (r: Option<Id>)
    ensures r.Some? ==> r.value in cache && r.value < |entries| && entries[r.value].key == key
    ensures r.None? ==> forall e | e in cache && e < |entries| :: entries[e].key != key
  {
    if cache == [] then None
    else
      var last := cache[|cache| - 1];
      if last < |entries| && entries[last].key == key then Some(last) else Lookup(entries, cache[..|cache| - 1], key)
  }

  predicate Enabled(s: State, step: Step) {
    match step
    case Acquire(_) => true
    case Load(e) => Loading(e) in s.threads && e < |s.entries|
    case LoadFails(e) => Loading(e) in s.threads && e < |s.entries| && !s.entries[e].mapped
    case Drop(e) => Holding(e) in s.threads && e < |s.entries|
    case ForceEvict(_) => true
    case TryEvict(_) => true
    case TakeQueued => s.cleaner == None && s.queue != []
    case CheckZero(e) => Waiting(e) in s.threads && e < |s.entries|
    case Release(e) => Releasing(e) in s.threads && e < |s.entries|
  }

  function Move(threads: multiset<Thread>, before: Thread, after: Thread): multiset<Thread> {
    threads - multiset{before} + multiset{after}
  }

  function Leave(threads: multiset<Thread>, t: Thread): multiset<Thread> {
    threads - multiset{t}
  }

  /** `notify_all`: those asleep look at the count again. */
  function Wake(threads: multiset<Thread>, e: Id): multiset<Thread> {
    threads[Asleep(e) := 0][Waiting(e) := threads[Waiting(e)] + threads[Asleep(e)]]
  }

  /** The section of `acquire` under the cache lock, for an entry that exists by now. */
  function Acquired(s: State, e: Id): State
    requires e < |s.entries|
  {
    var order := Touch<Id>(s.cache, e);
    s.(entries := s.entries[e := s.entries[e].(refs := s.entries[e].refs + 1)],
       cache := Newest(order, s.capacity),
       queue := s.queue + order[..|order| - |Newest(order, s.capacity)|],
       threads := s.threads + multiset{Loading(e)})
  }

  function Next(s: State, step: Step): State
    requires Enabled(s, step)
  {
    match step
    case Acquire(key) =>
      (match Lookup(s.entries, s.cache, key)
       case Some(e) => Acquired(s, e)
       case None => Acquired(s.(entries := s.entries + [Entry(key, 0, false)]), |s.entries|))
    case Load(e) =>
      s.(entries := s.entries[e := s.entries[e].(mapped := true)], threads := Move(s.threads, Loading(e), Holding(e)))
    case LoadFails(e) => s.(threads := Move(s.threads, Loading(e), Lost(e)))
    case Drop(e) =>
      var refs := s.entries[e].refs - 1;
      var left := Leave(s.threads, Holding(e));
      s.(entries := s.entries[e := s.entries[e].(refs := refs)], threads := if refs == 0 then Wake(left, e) else left)
    case ForceEvict(key) =>
      (match Lookup(s.entries, s.cache, key)
       case Some(e) => s.(cache := Without(s.cache, e), threads := s.threads + multiset{Waiting(e)})
       case None => s)
    case TryEvict(key) =>
      (match Lookup(s.entries, s.cache, key)
       case Some(e) =>
         if s.entries[e].refs > 0 then s
         else s.(cache := Without(s.cache, e), threads := s.threads + multiset{Releasing(e)})
       case None => s)
    case TakeQueued =>
      s.(queue := s.queue[1..], threads := s.threads + multiset{Waiting(s.queue[0])}, cleaner := Some(s.queue[0]))
    case CheckZero(e) =>
      s.(threads := Move(s.threads, Waiting(e), if s.entries[e].refs == 0 then Releasing(e) else Asleep(e)))
    case Release(e) =>
      s.(entries := s.entries[e := s.entries[e].(mapped := false)],
         threads := Leave(s.threads, Releasing(e)),
         cleaner := if s.cleaner == Some(e) then None else s.cleaner,
         released := s.released + [e])
  }

  /** What a state says about one entry. */
  datatype Local = Local(
    entry: Option<Entry>, cached: nat, queued: nat, released: nat,
    loading: nat, holding: nat, lost: nat, waiting: nat, asleep: nat, releasing: nat, cleaning: bool)

  function About(s: State, e: Id): Local {
    Local(if e < |s.entries| then Some(s.entries[e]) else None,
          multiset(s.cache)[e], multiset(s.queue)[e], multiset(s.released)[e],
          s.threads[Loading(e)], s.threads[Holding(e)], s.threads[Lost(e)], s.threads[Waiting(e)], s.threads[Asleep(e)],
          s.threads[Releasing(e)], s.cleaner == Some(e))
  }

  /** Places on the way out: queued, awaiting the release, released. */
  function Outside(l: Local): nat {
    l.queued + l.waiting + l.asleep + l.releasing + l.released
  }

  /** An entry is in one place, its references are its users, and whoever waits for it or releases it may. */
  predicate LocalOk(l: Local) {
    match l.entry
    case None => l.cached + Outside(l) + l.loading + l.holding + l.lost == 0 && !l.cleaning
    case Some(entry) =>
      && l.cached + Outside(l) == 1
      && entry.refs == l.loading + l.holding + l.lost
      && (l.releasing + l.released > 0 ==> entry.refs == 0)
      && (l.asleep > 0 ==> entry.refs > 0)
      && (l.holding > 0 ==> entry.mapped)
      && (l.released > 0 ==> !entry.mapped)
      && (l.cleaning ==> l.waiting + l.asleep + l.releasing == 1)
  }

  /** The entries of these ids exist, and their keys differ. */
  ghost predicate KeysDiffer(entries: seq<Entry>, cache: seq<Id>) {
    && (forall e | e in cache :: e < |entries|)
    && (forall d, e | d in cache && e in cache && entries[d].key == entries[e].key :: d == e)
  }

  ghost predicate Keyed(s: State) {
    KeysDiffer(s.entries, s.cache)
  }

  ghost predicate Safe(s: State) {
    && |s.cache| <= s.capacity
    && Keyed(s)
    && forall e: Id :: LocalOk(About(s, e))
  }

  lemma {:induction false} WithoutCount(s: seq<Id>, x: Id)
    ensures multiset(Without(s, x)) == multiset(s)[x := 0]
  {
    if s != [] {
      var front, last := s[..|s| - 1], s[|s| - 1];
      WithoutCount(front, x);
      assert s == front + [last];
    }
  }

  /** Moving to the end, then cutting: nothing appears and nothing is lost. */
  lemma TouchCount(order: seq<Id>, e: Id, capacity: nat)
    ensures
      var touched := Touch(order, e);
      var kept := Newest(touched, capacity);
      multiset(touched[..|touched| - |kept|]) + multiset(kept) == multiset(order)[e := 1]
  {
    hide Without;
    var touched := Touch(order, e);
    var cut := |touched| - |Newest(touched, capacity)|;
    WithoutCount(order, e);
    assert touched == touched[..cut] + touched[cut..];
    assert multiset(touched) == multiset(Without(order, e)) + multiset{e};
  }

  /** Every step changes what is said about one entry; a reference is taken only on one that is new or cached. */
  lemma AcquiredLocal(s: State, a: Id, e: Id)
    requires a < |s.entries|
    ensures
      var l, l' := About(s, e), About(Acquired(s, a), e);
      if e != a then
        l' == l.(cached := l'.cached, queued := l'.queued) && l.cached + l.queued == l'.cached + l'.queued
      else
        l' == l.(entry := Some(l.entry.value.(refs := l.entry.value.refs + 1)), loading := l.loading + 1,
                 cached := l'.cached, queued := l'.queued)
        && l'.cached + l'.queued == l.queued + 1
  {
    hide Touch, Newest, Without;
    TouchCount(s.cache, a, s.capacity);
    var s' := Acquired(s, a);
    assert multiset(s'.queue)[e] + multiset(s'.cache)[e] == multiset(s.queue)[e] + multiset(s.cache)[a := 1][e];
  }

  /** An entry that may be acquired: new, or cached. */
  predicate Acquirable(l: Local) {
    && l.entry.Some?
    && Outside(l) == 0
    && l.entry.value.refs == l.loading + l.holding + l.lost
    && (l.holding > 0 ==> l.entry.value.mapped)
    && !l.cleaning
  }

  lemma AcquiredOk(s: State, a: Id, e: Id)
    requires a < |s.entries| && Acquirable(About(s, a)) && (e == a || LocalOk(About(s, e)))
    ensures LocalOk(About(Acquired(s, a), e))
  {
    hide Acquired, About;
    AboutKnown(s, a);
    AcquiredLocal(s, a, e);
  }

  lemma AboutKnown(s: State, a: Id)
    ensures About(s, a).entry == if a < |s.entries| then Some(s.entries[a]) else None
    ensures About(s, a).cached == multiset(s.cache)[a]
  {
  }

  lemma NewEntry(s: State, key: string, e: Id)
    ensures
      var s' := s.(entries := s.entries + [Entry(key, 0, false)]);
      About(s', e) == if e == |s.entries| then About(s, e).(entry := Some(Entry(key, 0, false))) else About(s, e)
  {
  }

  lemma SafeAt(s: State, e: Id)
    requires Safe(s)
    ensures LocalOk(About(s, e))
  {
  }

  /** Taking an entry out of the cache, for a thread that is going to release it. */
  lemma RemovedOk(s: State, a: Id, thread: Thread, e: Id)
    requires LocalOk(About(s, a)) && LocalOk(About(s, e)) && a in s.cache && a < |s.entries|
    requires thread == Waiting(a) || (thread == Releasing(a) && s.entries[a].refs == 0)
    ensures LocalOk(About(s.(cache := Without(s.cache, a), threads := s.threads + multiset{thread}), e))
  {
    WithoutCount(s.cache, a);
    var l' := About(s.(cache := Without(s.cache, a), threads := s.threads + multiset{thread}), e);
    assert e != a ==> l' == About(s, e);
  }

  lemma EvictOk(s: State, step: Step, e: Id)
    requires Safe(s) && (step.ForceEvict? || step.TryEvict?)
    ensures LocalOk(About(Next(s, step), e))
  {
    hide Safe, About;
    SafeAt(s, e);
    match Lookup(s.entries, s.cache, step.key)
    case Some(a) =>
      SafeAt(s, a);
      NeverNegative(s, a);
      if step.ForceEvict? {
        RemovedOk(s, a, Waiting(a), e);
      } else if s.entries[a].refs == 0 {
        RemovedOk(s, a, Releasing(a), e);
      }
    case None =>
  }

  lemma NeverNegative(s: State, e: Id)
    requires LocalOk(About(s, e)) && e < |s.entries|
    ensures s.entries[e].refs >= 0
  {
  }

  /** Steps that finish what was begun. */
  predicate Finishing(step: Step) {
    step.Load? || step.LoadFails? || step.Drop? || step.TakeQueued? || step.CheckZero? || step.Release?
  }

  function Target(s: State, step: Step): Id
    requires Enabled(s, step) && Finishing(step)
  {
    if step.TakeQueued? then s.queue[0] else step.entry
  }

  predicate LocalEnabled(l: Local, step: Step) {
    l.entry.Some?
    && match step
       case Load(_) => l.loading > 0
       case LoadFails(_) => l.loading > 0
       case Drop(_) => l.holding > 0
       case TakeQueued => l.queued > 0
       case CheckZero(_) => l.waiting > 0
       case Release(_) => l.releasing > 0
       case _ => false
  }

  /** A finishing step, seen from its entry. */
  function LocalNext(l: Local, step: Step): Local
    requires LocalEnabled(l, step)
  {
    var entry := l.entry.value;
    match step
    case Load(_) => l.(entry := Some(entry.(mapped := true)), loading := l.loading - 1, holding := l.holding + 1)
    case LoadFails(_) => l.(loading := l.loading - 1, lost := l.lost + 1)
    case Drop(_) =>
      var l' := l.(entry := Some(entry.(refs := entry.refs - 1)), holding := l.holding - 1);
      if entry.refs == 1 then l'.(waiting := l.waiting + l.asleep, asleep := 0) else l'
    case TakeQueued => l.(queued := l.queued - 1, waiting := l.waiting + 1, cleaning := true)
    case CheckZero(_) =>
      if entry.refs == 0 then l.(waiting := l.waiting - 1, releasing := l.releasing + 1)
      else l.(waiting := l.waiting - 1, asleep := l.asleep + 1)
    case Release(_) =>
      l.(entry := Some(entry.(mapped := false)), releasing := l.releasing - 1, released := l.released + 1,
         cleaning := false)
  }

  function Moved(threads: multiset<Thread>, before: Thread, after: Thread, t: Thread): int {
    var n: int := threads[t];
    if t == before then n - 1 else if t == after then n + 1 else n
  }

  lemma MoveCounts(threads: multiset<Thread>, before: Thread, after: Thread, t: Thread)
    requires before in threads && before != after
    ensures Move(threads, before, after)[t] == Moved(threads, before, after, t)
  {
  }

  lemma MoveCountsAll(threads: multiset<Thread>, before: Thread, after: Thread, e: Id)
    requires before in threads && before != after
    ensures
      var moved := Move(threads, before, after);
      && moved[Loading(e)] == Moved(threads, before, after, Loading(e))
      && moved[Holding(e)] == Moved(threads, before, after, Holding(e))
      && moved[Lost(e)] == Moved(threads, before, after, Lost(e))
      && moved[Waiting(e)] == Moved(threads, before, after, Waiting(e))
      && moved[Asleep(e)] == Moved(threads, before, after, Asleep(e))
      && moved[Releasing(e)] == Moved(threads, before, after, Releasing(e))
  {
    hide Move, Moved;
    MoveCounts(threads, before, after, Loading(e));
    MoveCounts(threads, before, after, Holding(e));
    MoveCounts(threads, before, after, Lost(e));
    MoveCounts(threads, before, after, Waiting(e));
    MoveCounts(threads, before, after, Asleep(e));
    MoveCounts(threads, before, after, Releasing(e));
  }

  lemma LeaveCounts(threads: multiset<Thread>, gone: Thread, e: Id)
    requires gone in threads && (gone == Holding(gone.entry) || gone == Releasing(gone.entry))
    ensures
      var left := Leave(threads, gone);
      && left[Loading(e)] == threads[Loading(e)] && left[Lost(e)] == threads[Lost(e)]
      && left[Waiting(e)] == threads[Waiting(e)] && left[Asleep(e)] == threads[Asleep(e)]
      && left[Holding(e)] == (if gone == Holding(e) then threads[Holding(e)] - 1 else threads[Holding(e)])
      && left[Releasing(e)] == (if gone == Releasing(e) then threads[Releasing(e)] - 1 else threads[Releasing(e)])
  {
  }

  lemma WakeCounts(threads: multiset<Thread>, a: Id, e: Id)
    ensures
      var woken := Wake(threads, a);
      && woken[Loading(e)] == threads[Loading(e)] && woken[Holding(e)] == threads[Holding(e)]
      && woken[Lost(e)] == threads[Lost(e)] && woken[Releasing(e)] == threads[Releasing(e)]
      && woken[Waiting(e)] == (if e == a then threads[Waiting(e)] + threads[Asleep(e)] else threads[Waiting(e)])
      && woken[Asleep(e)] == (if e == a then 0 else threads[Asleep(e)])
  {
  }

  lemma LoadIsLocal(s: State, a: Id, e: Id)
    requires Enabled(s, Load(a))
    ensures LocalEnabled(About(s, a), Load(a))
    ensures About(Next(s, Load(a)), e) == if e == a then LocalNext(About(s, e), Load(a)) else About(s, e)
  {
    hide Acquired, Lookup, Move;
    MoveCountsAll(s.threads, Loading(a), Holding(a), e);
  }

  lemma LoadFailsIsLocal(s: State, a: Id, e: Id)
    requires Enabled(s, LoadFails(a))
    ensures LocalEnabled(About(s, a), LoadFails(a))
    ensures About(Next(s, LoadFails(a)), e) == if e == a then LocalNext(About(s, e), LoadFails(a)) else About(s, e)
  {
    hide Acquired, Lookup, Move;
    MoveCountsAll(s.threads, Loading(a), Lost(a), e);
  }

  lemma DropIsLocal(s: State, a: Id, e: Id)
    requires Enabled(s, Drop(a))
    ensures LocalEnabled(About(s, a), Drop(a))
    ensures About(Next(s, Drop(a)), e) == if e == a then LocalNext(About(s, e), Drop(a)) else About(s, e)
  {
    hide Acquired, Lookup, Leave, Wake;
    LeaveCounts(s.threads, Holding(a), e);
    WakeCounts(Leave(s.threads, Holding(a)), a, e);
  }

  lemma CheckIsLocal(s: State, a: Id, e: Id)
    requires Enabled(s, CheckZero(a))
    ensures LocalEnabled(About(s, a), CheckZero(a))
    ensures About(Next(s, CheckZero(a)), e) == if e == a then LocalNext(About(s, e), CheckZero(a)) else About(s, e)
  {
    hide Acquired, Lookup, Move;
    MoveCountsAll(s.threads, Waiting(a), if s.entries[a].refs == 0 then Releasing(a) else Asleep(a), e);
  }

  lemma ReleaseIsLocal(s: State, a: Id, e: Id)
    requires Enabled(s, Release(a))
    ensures LocalEnabled(About(s, a), Release(a))
    ensures About(Next(s, Release(a)), e) == if e == a then LocalNext(About(s, e), Release(a)) else About(s, e)
  {
    hide Acquired, Lookup, Leave;
    LeaveCounts(s.threads, Releasing(a), e);
  }

  lemma TakeIsLocal(s: State, e: Id)
    requires Enabled(s, TakeQueued) && s.queue[0] < |s.entries|
    ensures LocalEnabled(About(s, s.queue[0]), TakeQueued)
    ensures About(Next(s, TakeQueued), e) ==
            if e == s.queue[0] then LocalNext(About(s, e), TakeQueued) else About(s, e)
  {
    assert s.queue == [s.queue[0]] + s.queue[1..];
  }

  lemma FinishingIsLocal(s: State, step: Step, e: Id)
    requires Safe(s) && Enabled(s, step) && Finishing(step)
    ensures LocalEnabled(About(s, Target(s, step)), step)
    ensures About(Next(s, step), e) == if e == Target(s, step) then LocalNext(About(s, e), step) else About(s, e)
  {
    hide About, Next, LocalNext, LocalEnabled, Safe;
    match step
    case Load(a) => LoadIsLocal(s, a, e);
    case LoadFails(a) => LoadFailsIsLocal(s, a, e);
    case Drop(a) => DropIsLocal(s, a, e);
    case CheckZero(a) => CheckIsLocal(s, a, e);
    case Release(a) => ReleaseIsLocal(s, a, e);
    case TakeQueued =>
      QueuedExists(s);
      TakeIsLocal(s, e);
  }

  lemma QueuedExists(s: State)
    requires Safe(s)
    ensures s.queue != [] ==> s.queue[0] < |s.entries|
  {
    if s.queue != [] {
      SafeAt(s, s.queue[0]);
    }
  }

  lemma LocalStepOk(l: Local, step: Step)
    requires LocalOk(l) && LocalEnabled(l, step)
    ensures LocalOk(LocalNext(l, step))
    ensures Weight(LocalNext(l, step)) < Weight(l)
  {
  }

  lemma FinishingOk(s: State, step: Step, e: Id)
    requires Safe(s) && Enabled(s, step) && Finishing(step)
    ensures LocalOk(About(Next(s, step), e))
  {
    hide About, Next, LocalNext, LocalEnabled, Safe, LocalOk;
    FinishingIsLocal(s, step, e);
    SafeAt(s, e);
    if e == Target(s, step) {
      LocalStepOk(About(s, e), step);
    }
  }

  lemma TouchedElements(cache: seq<Id>, a: Id, capacity: nat)
    ensures |Newest(Touch<Id>(cache, a), capacity)| <= capacity
    ensures forall e | e in Newest(Touch<Id>(cache, a), capacity) :: e == a || e in cache
  {
    var touched := Touch<Id>(cache, a);
    assert forall e | e in Newest(touched, capacity) :: e in touched;
  }

  lemma FewerKeysDiffer(before: seq<Entry>, cache: seq<Id>, after: seq<Entry>, fewer: seq<Id>, a: Id)
    requires KeysDiffer(before, cache) && |before| <= |after| && a < |after|
    requires forall e: Id | e < |before| :: after[e].key == before[e].key
    requires forall e | e in fewer :: e == a || e in cache
    requires a in cache || forall e | e in cache :: before[e].key != after[a].key
    ensures KeysDiffer(after, fewer)
  {
  }

  lemma KeysInRange(s: State)
    requires Keyed(s)
    ensures forall e | e in s.cache :: e < |s.entries|
  {
  }

  lemma FewerStayKeyed(s: State, step: Step)
    requires Safe(s) && Enabled(s, step) && !step.Acquire?
    ensures Keyed(Next(s, step)) && |Next(s, step).cache| <= s.capacity == Next(s, step).capacity
  {
    hide LocalOk, About, Wake, Move, Leave;
  }

  lemma KeyedStep(s: State, step: Step)
    requires Safe(s) && Enabled(s, step)
    ensures Keyed(Next(s, step)) && |Next(s, step).cache| <= s.capacity == Next(s, step).capacity
  {
    hide LocalOk, About, Wake, Move, Leave, Touch, Newest, KeysDiffer;
    if step.Acquire? {
      var found := Lookup(s.entries, s.cache, step.key);
      var a := if found.Some? then found.value else |s.entries|;
      TouchedElements(s.cache, a, s.capacity);
      KeysInRange(s);
      FewerKeysDiffer(s.entries, s.cache, Next(s, step).entries, Next(s, step).cache, a);
    } else {
      FewerStayKeyed(s, step);
    }
  }

  /** One step of any thread keeps the state safe. */
  lemma StepSafe(s: State, step: Step)
    requires Safe(s) && Enabled(s, step)
    ensures Safe(Next(s, step))
  {
    hide Acquired, Keyed, Wake, About;
    KeyedStep(s, step);
    forall e: Id
      ensures LocalOk(About(Next(s, step), e))
    {
      match step
      case Acquire(key) =>
        SafeAt(s, e);
        match Lookup(s.entries, s.cache, key) {
        case Some(a) =>
          SafeAt(s, a);
          AboutKnown(s, a);
          AcquiredOk(s, a, e);
        case None =>
          SafeAt(s, |s.entries|);
          AboutKnown(s, |s.entries|);
          NewEntry(s, key, e);
          NewEntry(s, key, |s.entries|);
          AcquiredOk(s.(entries := s.entries + [Entry(key, 0, false)]), |s.entries|, e);
        }
      case ForceEvict(_) => EvictOk(s, step, e);
      case TryEvict(_) => EvictOk(s, step, e);
      case _ => FinishingOk(s, step, e);
    }
  }

  // -- What the requests achieve ---------------------------------------------------------------

  /** The key is in the cache, with this entry. */
  predicate CachedAs(s: State, key: string, e: Id) {
    e in s.cache && e < |s.entries| && s.entries[e].key == key
  }

  ghost predicate IsCached(s: State, key: string) {
    exists e: Id :: CachedAs(s, key, e)
  }

  lemma LookupFinds(s: State, key: string, e: Id)
    requires Safe(s) && CachedAs(s, key, e)
    ensures Lookup(s.entries, s.cache, key) == Some(e)
  {
    hide LocalOk, About;
    var found := Lookup(s.entries, s.cache, key);
  }

  /** An acquisition takes the cached entry of the key, or a new one, adds one reference to it and one thread that will
      load it, and changes no other entry. */
  lemma AcquireTakes(s: State, key: string) returns (e: Id)
    requires Safe(s)
    ensures if IsCached(s, key) then CachedAs(s, key, e) else e == |s.entries|
    ensures
      var s' := Next(s, Acquire(key));
      && |s'.entries| == (if IsCached(s, key) then |s.entries| else |s.entries| + 1)
      && e < |s'.entries| && s'.entries[e].key == key
      && s'.entries[e].refs == (if e < |s.entries| then s.entries[e].refs else 0) + 1
      && s'.threads == s.threads + multiset{Loading(e)}
      && s'.released == s.released && s'.cleaner == s.cleaner
      && forall d: Id | d < |s.entries| && d != e :: s'.entries[d] == s.entries[d]
  {
    hide LocalOk, About, Touch, Newest;
    var found := Lookup(s.entries, s.cache, key);
    e := if found.Some? then found.value else |s.entries|;
    if found.Some? {
      assert CachedAs(s, key, e);
    }
  }

  /** `force_evict` takes the key out of the cache, whoever uses it, and leaves a thread that waits to release the entry;
      `try_evict` does so only if nobody uses it, and then the entry can be released at once. Without the key, or for a
      used entry that is only tried, nothing changes. */
  lemma EvictTakes(s: State, key: string)
    requires Safe(s)
    ensures !IsCached(Next(s, ForceEvict(key)), key)
    ensures !IsCached(s, key) ==> Next(s, ForceEvict(key)) == s == Next(s, TryEvict(key))
    ensures forall e: Id | CachedAs(s, key, e) ::
              && Next(s, ForceEvict(key)).threads == s.threads + multiset{Waiting(e)}
              && (if s.entries[e].refs > 0 then Next(s, TryEvict(key)) == s
                  else Next(s, TryEvict(key)).threads == s.threads + multiset{Releasing(e)}
                       && !IsCached(Next(s, TryEvict(key)), key))
  {
    hide LocalOk, About;
    forall e: Id | CachedAs(s, key, e)
      ensures Lookup(s.entries, s.cache, key) == Some(e)
    {
      LookupFinds(s, key, e);
    }
    var found := Lookup(s.entries, s.cache, key);
    if found.Some? {
      assert CachedAs(s, key, found.value);
    }
  }

  /** A load ends with a handle on a mapped entry; dropping a handle gives its reference back and, if it was the last,
      wakes those asleep. */
  lemma ThreadMoves(s: State, e: Id)
    requires e < |s.entries|
    ensures Enabled(s, Load(e)) ==>
              Next(s, Load(e)).threads == s.threads - multiset{Loading(e)} + multiset{Holding(e)}
              && Next(s, Load(e)).entries[e] == s.entries[e].(mapped := true)
    ensures Enabled(s, Drop(e)) ==>
              var s' := Next(s, Drop(e));
              && s'.entries[e] == s.entries[e].(refs := s.entries[e].refs - 1)
              && s'.threads[Holding(e)] == s.threads[Holding(e)] - 1
              && (s.entries[e].refs == 1 ==> s'.threads[Asleep(e)] == 0)
              && (s.entries[e].refs != 1 ==> s'.threads == s.threads - multiset{Holding(e)})
  {
    hide Lookup, Acquired, Without;
  }

  /** Looking at the count leads on exactly at zero; a release unmaps the entry and sets the cleanup thread free if it was
      its entry; that thread takes the entry that has been queued longest. */
  lemma CleanupMoves(s: State, e: Id)
    requires e < |s.entries|
    ensures Enabled(s, CheckZero(e)) ==>
              Next(s, CheckZero(e)).threads ==
              s.threads - multiset{Waiting(e)} + multiset{if s.entries[e].refs == 0 then Releasing(e) else Asleep(e)}
    ensures Enabled(s, Release(e)) ==>
              var s' := Next(s, Release(e));
              && s'.threads == s.threads - multiset{Releasing(e)} && !s'.entries[e].mapped
              && s'.released == s.released + [e]
              && s'.cleaner == if s.cleaner == Some(e) then None else s.cleaner
    ensures Enabled(s, TakeQueued) ==>
              var s' := Next(s, TakeQueued);
              && s.queue == [s.queue[0]] + s'.queue && s'.cleaner == Some(s.queue[0])
              && s'.threads == s.threads + multiset{Waiting(s.queue[0])}
  {
    hide Lookup, Acquired, Without, Wake;
  }

  predicate Possible(s: State, steps: seq<Step>)
    decreases |steps|
  {
    steps == [] || (Enabled(s, steps[0]) && Possible(Next(s, steps[0]), steps[1..]))
  }

  function After(s: State, steps: seq<Step>): State
    requires Possible(s, steps)
    decreases |steps|
  {
    if steps == [] then s else After(Next(s, steps[0]), steps[1..])
  }

  lemma {:induction false} RunSafe(s: State, steps: seq<Step>)
    requires Safe(s) && Possible(s, steps)
    ensures Safe(After(s, steps))
    decreases |steps|
  {
    hide Safe, Next, Enabled;
    if steps != [] {
      StepSafe(s, steps[0]);
      RunSafe(Next(s, steps[0]), steps[1..]);
    }
  }

  predicate EntryMeans(s: State, e: Id)
    requires e < |s.entries|
  {
    && s.entries[e].refs == s.threads[Loading(e)] + s.threads[Holding(e)] + s.threads[Lost(e)]
    && (Holding(e) in s.threads ==> s.entries[e].mapped && e !in s.released && Releasing(e) !in s.threads)
    && multiset(s.cache)[e] + multiset(s.queue)[e] + s.threads[Waiting(e)] + s.threads[Asleep(e)]
       + s.threads[Releasing(e)] + multiset(s.released)[e] == 1
  }

  /** Whatever the interleaving: the references of an entry are its acquisitions in use or lost to a failed load, a live handle's
      entry is loaded and neither released nor about to be, every created entry stands in exactly one place, and
      no entry is released twice. */
  lemma EveryInterleaving(capacity: nat, steps: seq<Step>)
    requires Possible(Init(capacity), steps)
    ensures
      var s := After(Init(capacity), steps);
      && Safe(s)
      && NoDup(s.released)
      && (forall e: Id | e < |s.entries| :: EntryMeans(s, e))
  {
    var s := After(Init(capacity), steps);
    RunSafe(Init(capacity), steps);
    SafeMeans(s);
  }

  lemma SafeMeans(s: State)
    requires Safe(s)
    ensures NoDup(s.released)
    ensures forall e: Id | e < |s.entries| :: EntryMeans(s, e)
  {
    hide Safe, About, LocalOk, EntryMeans;
    forall e: Id
      ensures e < |s.entries| ==> EntryMeans(s, e)
      ensures multiset(s.released)[e] <= 1
    {
      SafeAt(s, e);
      OneEntry(s, e);
    }
    CountedOnce(s.released);
  }

  lemma OneEntry(s: State, e: Id)
    requires LocalOk(About(s, e))
    ensures e < |s.entries| ==> EntryMeans(s, e)
    ensures multiset(s.released)[e] <= 1
  {
  }

  lemma {:induction false} CountedOnce(s: seq<Id>)
    requires forall x: Id :: multiset(s)[x] <= 1
    ensures NoDup(s)
  {
    if s != [] {
      var front: seq<Id>, last: Id := s[..|s| - 1], s[|s| - 1];
      assert s == front + [last];
      assert multiset(s) == multiset(front) + multiset{last};
      forall x: Id
        ensures multiset(front)[x] <= 1
      {
        assert multiset(s)[x] <= 1;
      }
      CountedOnce(front);
      assert last !in front by {
        assert multiset(s)[last] <= 1;
      }
    }
  }

  /** The steps that release, in order. */
  function Releases(steps: seq<Step>): seq<Id> {
    if steps == [] then [] else (if steps[0].Release? then [steps[0].entry] else []) + Releases(steps[1..])
  }

  lemma {:induction false} ReleasedIsHistory(s: State, steps: seq<Step>)
    requires Possible(s, steps)
    ensures After(s, steps).released == s.released + Releases(steps)
    decreases |steps|
  {
    hide Next, Enabled;
    if steps != [] {
      ReleasedIsHistory(Next(s, steps[0]), steps[1..]);
      ReleasedGrows(s, steps[0]);
    }
  }

  lemma ReleasedGrows(s: State, step: Step)
    requires Enabled(s, step)
    ensures Next(s, step).released == s.released + (if step.Release? then [step.entry] else [])
  {
  }

  /** No run releases an entry twice. */
  lemma ReleasedAtMostOnce(capacity: nat, steps: seq<Step>)
    requires Possible(Init(capacity), steps)
    ensures NoDup(Releases(steps))
  {
    EveryInterleaving(capacity, steps);
    ReleasedIsHistory(Init(capacity), steps);
    assert After(Init(capacity), steps).released == Releases(steps);
  }

  lemma LeavesForGood(s: State, step: Step, e: Id)
    requires Safe(s) && Enabled(s, step) && e < |s.entries| && e !in s.cache
    ensures e < |Next(s, step).entries| && e !in Next(s, step).cache
    ensures Next(s, step).entries[e].refs <= s.entries[e].refs
  {
    hide Safe;
    SafeAt(s, e);
    if step.Acquire? {
      var found := Lookup(s.entries, s.cache, step.key);
      var a := if found.Some? then found.value else |s.entries|;
      assert e !in Touch(s.cache, a);
    }
  }

  /** An entry outside the cache never gains a reference, so a seen zero stays zero; and it never comes back. */
  lemma {:induction false} ZeroStaysZero(s: State, steps: seq<Step>, e: Id)
    requires Safe(s) && Possible(s, steps) && e < |s.entries| && e !in s.cache
    ensures e < |After(s, steps).entries| && e !in After(s, steps).cache
    ensures 0 <= After(s, steps).entries[e].refs <= s.entries[e].refs
    decreases |steps|
  {
    hide Safe, Next, Enabled, About;
    if steps == [] {
      SafeAt(s, e);
      NeverNegative(s, e);
    } else {
      LeavesForGood(s, steps[0], e);
      StepSafe(s, steps[0]);
      ZeroStaysZero(Next(s, steps[0]), steps[1..], e);
    }
  }

  function Weight(l: Local): nat {
    4 * l.loading + 3 * l.holding + 3 * l.queued + 2 * l.waiting + l.asleep + l.releasing
  }

  /** What is left to do for the first `n` entries. */
  function Work(s: State, n: nat): nat {
    if n == 0 then 0 else Work(s, n - 1) + Weight(About(s, n - 1))
  }

  lemma {:induction false} FinishingShrinksUpTo(s: State, step: Step, n: nat)
    requires Safe(s) && Enabled(s, step) && Finishing(step)
    ensures if Target(s, step) < n then Work(Next(s, step), n) < Work(s, n) else Work(Next(s, step), n) == Work(s, n)
  {
    hide Safe, Next, Enabled, Weight, About, LocalNext, LocalEnabled, LocalOk;
    if n > 0 {
      FinishingShrinksUpTo(s, step, n - 1);
      FinishingIsLocal(s, step, n - 1);
      if Target(s, step) == n - 1 {
        SafeAt(s, n - 1);
        LocalStepOk(About(s, n - 1), step);
      }
    }
  }

  lemma TargetExists(s: State, step: Step)
    requires Safe(s) && Enabled(s, step) && Finishing(step)
    ensures Target(s, step) < |s.entries| == |Next(s, step).entries|
  {
    QueuedExists(s);
  }

  /** Without new requests the threads finish: such a run is no longer than the work that is left. */
  lemma {:induction false} FinishingEnds(s: State, steps: seq<Step>)
    requires Safe(s) && Possible(s, steps) && forall i | 0 <= i < |steps| :: Finishing(steps[i])
    ensures |steps| <= Work(s, |s.entries|)
    decreases |steps|
  {
    hide Safe, Next, Enabled, Work;
    if steps != [] {
      TargetExists(s, steps[0]);
      FinishingShrinksUpTo(s, steps[0], |s.entries|);
      StepSafe(s, steps[0]);
      FinishingEnds(Next(s, steps[0]), steps[1..]);
    }
  }

  /** No thread can take a step by itself. */
  ghost predicate CannotGoOn(s: State) {
    forall step | Enabled(s, step) :: !Finishing(step)
  }

  predicate AnyLost(s: State) {
    exists t :: t in s.threads && t.Lost?
  }

  /** When no thread can go on, those that are left lost a reference to a failed load, or sleep for an entry that has
      such a reference. */
  lemma WhoIsLeft(s: State, t: Thread)
    requires Safe(s) && t in s.threads && CannotGoOn(s)
    ensures t.Lost? || (t.Asleep? && Lost(t.entry) in s.threads)
  {
    hide Safe;
    SafeAt(s, t.entry);
    NoneGoesOn(s, t.entry);
  }

  lemma NoneGoesOn(s: State, e: Id)
    requires LocalOk(About(s, e)) && CannotGoOn(s)
    ensures s.threads[Loading(e)] + s.threads[Holding(e)] + s.threads[Waiting(e)] + s.threads[Releasing(e)] == 0
    ensures s.threads[Asleep(e)] > 0 ==> s.threads[Lost(e)] > 0
  {
    assert !Enabled(s, Load(e)) && !Enabled(s, Drop(e)) && !Enabled(s, CheckZero(e)) && !Enabled(s, Release(e));
  }

  /** Nobody sleeps forever unless a load failed. When no thread can go on: all are done, nothing is queued, and every
      entry is cached and unused or has been released exactly once, if and only if no load has raised. */
  lemma NothingStuckIff(s: State)
    requires Safe(s) && CannotGoOn(s)
    ensures Finished(s) <==> !AnyLost(s)
  {
    hide Safe, LocalOk, About;
    if !AnyLost(s) {
      forall t: Thread
        ensures t !in s.threads
      {
        if t in s.threads {
          WhoIsLeft(s, t);
        }
      }
      assert s.threads == multiset{};
      AllDone(s);
    }
  }

  /** Threads, queue and cleanup thread are idle, and no entry is in use or on its way out. */
  ghost predicate Finished(s: State) {
    && s.threads == multiset{} && s.queue == [] && s.cleaner == None
    && forall e: Id | e < |s.entries| ::
         s.entries[e].refs == 0 && (if e in s.cache then e !in s.released else multiset(s.released)[e] == 1)
  }

  lemma AllDone(s: State)
    requires Safe(s) && s.threads == multiset{} && CannotGoOn(s)
    ensures Finished(s)
  {
    hide Safe;
    if s.cleaner.Some? {
      SafeAt(s, s.cleaner.value);
    }
    assert !Enabled(s, TakeQueued);
    forall e: Id | e < |s.entries|
      ensures s.entries[e].refs == 0 && (if e in s.cache then e !in s.released else multiset(s.released)[e] == 1)
    {
      SafeAt(s, e);
    }
  }

  lemma LostInOthers(threads: multiset<Thread>, a: Id, t: Thread)
    requires t.Lost?
    ensures t in threads + multiset{Loading(a)} <==> t in threads
    ensures t in threads + multiset{Waiting(a)} <==> t in threads
    ensures t in threads + multiset{Releasing(a)} <==> t in threads
    ensures t in Leave(threads, Holding(a)) <==> t in threads
    ensures t in Leave(threads, Releasing(a)) <==> t in threads
    ensures t in Wake(threads, a) <==> t in threads
  {
  }

  lemma LostInMoves(threads: multiset<Thread>, before: Thread, after: Thread, t: Thread)
    requires t.Lost? && before in threads && before != after && !before.Lost?
    ensures t in Move(threads, before, after) <==> t in threads || t == after
  {
    MoveCounts(threads, before, after, t);
  }

  lemma AcquiredThreads(s: State, e: Id)
    requires e < |s.entries|
    ensures Acquired(s, e).threads == s.threads + multiset{Loading(e)}
  {
  }

  lemma LostStays(s: State, step: Step, t: Thread)
    requires Enabled(s, step) && t.Lost?
    ensures t in Next(s, step).threads <==> t in s.threads || step == LoadFails(t.entry)
  {
    hide Lookup, Acquired, Move, Leave, Wake, Without;
    match step
    case Acquire(key) =>
      match Lookup(s.entries, s.cache, key) {
      case Some(a) =>
        AcquiredThreads(s, a);
        LostInOthers(s.threads, a, t);
      case None =>
        AcquiredThreads(s.(entries := s.entries + [Entry(key, 0, false)]), |s.entries|);
        LostInOthers(s.threads, |s.entries|, t);
      }
    case Load(a) => LostInMoves(s.threads, Loading(a), Holding(a), t);
    case LoadFails(a) => LostInMoves(s.threads, Loading(a), Lost(a), t);
    case Drop(a) =>
      LostInOthers(s.threads, a, t);
      LostInOthers(Leave(s.threads, Holding(a)), a, t);
    case ForceEvict(key) => LostInEvicted(s, key, t);
    case TryEvict(key) => LostInEvicted(s, key, t);
    case TakeQueued => LostInOthers(s.threads, s.queue[0], t);
    case CheckZero(a) =>
      LostInMoves(s.threads, Waiting(a), if s.entries[a].refs == 0 then Releasing(a) else Asleep(a), t);
    case Release(a) => LostInOthers(s.threads, a, t);
  }

  lemma LostInEvicted(s: State, key: string, t: Thread)
    requires t.Lost?
    ensures t in Next(s, ForceEvict(key)).threads <==> t in s.threads
    ensures t in Next(s, TryEvict(key)).threads <==> t in s.threads
  {
    hide Lookup, Without;
    var found := Lookup(s.entries, s.cache, key);
    if found.Some? {
      LostInOthers(s.threads, found.value, t);
    }
  }

  predicate LoadFailed(steps: seq<Step>) {
    exists i :: 0 <= i < |steps| && steps[i].LoadFails?
  }

  /** A reference is lost exactly by a failed load. */
  lemma {:induction false} LostIsHistory(s: State, steps: seq<Step>)
    requires Possible(s, steps)
    ensures AnyLost(After(s, steps)) <==> AnyLost(s) || LoadFailed(steps)
    decreases |steps|
  {
    hide Next, Enabled;
    if steps != [] {
      var next := Next(s, steps[0]);
      forall t: Thread | t.Lost?
        ensures t in next.threads <==> t in s.threads || steps[0] == LoadFails(t.entry)
      {
        LostStays(s, steps[0], t);
      }
      assert AnyLost(next) <==> AnyLost(s) || steps[0].LoadFails? by {
        assert steps[0].LoadFails? ==> Lost(steps[0].entry) in next.threads;
      }
      LostIsHistory(next, steps[1..]);
      assert forall i | 0 <= i < |steps[1..]| :: steps[1..][i] == steps[i + 1];
      assert forall i | 0 < i < |steps| :: steps[i] == steps[1..][i - 1];
    }
  }

  lemma StartIsSafe(capacity: nat)
    ensures Safe(Init(capacity)) && !AnyLost(Init(capacity))
  {
  }

  /** From the start, or any safe state without a lost reference: a run that cannot be continued without new requests has
      finished if and only if none of its loads raised. */
  lemma RunFinishesIff(start: State, steps: seq<Step>, s: State)
    requires Safe(start) && !AnyLost(start)
    requires Possible(start, steps) && s == After(start, steps) && CannotGoOn(s)
    ensures Finished(s) <==> !LoadFailed(steps)
  {
    hide CannotGoOn, After, Finished, AnyLost, Safe;
    RunSafe(start, steps);
    NothingStuckIff(s);
    LostIsHistory(start, steps);
  }

  /** The keys of the cache, least recent first. */
  function Keys(entries: seq<Entry>, cache: seq<Id>): seq<string> {
    seq(|cache|, i requires 0 <= i < |cache| => if cache[i] < |entries| then entries[cache[i]].key else "")
  }

  lemma KeysConcat(entries: seq<Entry>, a: seq<Id>, b: seq<Id>)
    ensures Keys(entries, a + b) == Keys(entries, a) + Keys(entries, b)
  {
  }

  lemma NoKeys(entries: seq<Entry>)
    ensures Keys(entries, []) == []
  {
  }

  lemma KeysOne(entries: seq<Entry>, e: Id)
    requires e < |entries|
    ensures Keys(entries, [e]) == [entries[e].key]
  {
  }

  lemma {:induction false} KeysWithout(entries: seq<Entry>, cache: seq<Id>, a: Id)
    requires a < |entries| && forall e | e in cache :: e < |entries|
    requires forall e | e in cache && entries[e].key == entries[a].key :: e == a
    ensures Keys(entries, Without(cache, a)) == Without(Keys(entries, cache), entries[a].key)
  {
    hide Keys;
    if cache == [] {
      NoKeys(entries);
    } else {
      var front, last := cache[..|cache| - 1], cache[|cache| - 1];
      assert cache == front + [last];
      assert last in cache && forall e | e in front :: e in cache;
      KeysWithout(entries, front, a);
      KeysConcat(entries, front, [last]);
      KeysOne(entries, last);
      KeysConcat(entries, Without(front, a), [last]);
      WithoutSnoc(Keys(entries, front), entries[last].key, entries[a].key);
      WithoutSnoc(front, last, a);
    }
  }

  lemma KeysTouched(entries: seq<Entry>, cache: seq<Id>, a: Id, capacity: nat)
    requires a < |entries| && forall e | e in cache :: e < |entries|
    requires forall e | e in cache && entries[e].key == entries[a].key :: e == a
    ensures Keys(entries, Newest(Touch<Id>(cache, a), capacity)) == Lru.Acquire(Keys(entries, cache), entries[a].key, capacity)
  {
    hide Without, Keys;
    KeysWithout(entries, cache, a);
    KeysConcat(entries, Without<Id>(cache, a), [a]);
    KeysOne(entries, a);
    KeysNewest(entries, Touch<Id>(cache, a), capacity);
  }

  lemma KeysNewest(entries: seq<Entry>, order: seq<Id>, capacity: nat)
    ensures Keys(entries, Newest(order, capacity)) == Newest(Keys(entries, order), capacity)
  {
    if |order| > capacity {
      var cut := |order| - capacity;
      assert Keys(entries, order[cut..]) == Keys(entries, order)[cut..];
    }
  }

  /** Under any interleaving, an acquisition orders and cuts the keys as the sequential cache does. */
  lemma AcquireOrdersKeys(s: State, key: string)
    requires Safe(s)
    ensures
      var s' := Next(s, Step.Acquire(key));
      Keys(s'.entries, s'.cache) == Lru.Acquire(Keys(s.entries, s.cache), key, s.capacity)
  {
    hide LocalOk, Touch, Newest, Lru.Acquire, About;
    var s' := Next(s, Step.Acquire(key));
    var found := Lookup(s.entries, s.cache, key);
    KeysTouched(s'.entries, s.cache, if found.Some? then found.value else |s.entries|, s.capacity);
    KeysAgree(s.entries, s'.entries, s.cache);
  }

  lemma KeysAgree(before: seq<Entry>, after: seq<Entry>, cache: seq<Id>)
    requires forall e | e in cache :: e < |before| && e < |after| && before[e].key == after[e].key
    ensures Keys(before, cache) == Keys(after, cache)
  {
    assert forall i | 0 <= i < |cache| :: cache[i] in cache;
  }
}
