/** The order of the entry cache: least recently acquired first, cut down to a capacity. */
module Lru {
  import opened Seqs

  /** `OrderedDict.move_to_end` after an insertion: the key becomes the most recent. */
  function Touch<K(==, !new)>(order: seq<K>, key: K): seq<K> {
    Without(order, key) + [key]
  }

  /** `popitem(last=False)` until at most `capacity` keys are left. */
  function Newest<K>(order: seq<K>, capacity: nat): seq<K> {
    if |order| <= capacity then order else order[|order| - capacity..]
  }

  function Acquire<K(==, !new)>(order: seq<K>, key: K, capacity: nat): seq<K> {
    Newest(Touch(order, key), capacity)
  }

  /** The cache order after a whole trace of acquisitions. */
  function Run<K(==, !new)>(trace: seq<K>, capacity: nat): seq<K> {
    if trace == [] then [] else Acquire(Run(trace[..|trace| - 1], capacity), trace[|trace| - 1], capacity)
  }

  /** The distinct keys of a trace, ordered by their last acquisition. */
  ghost predicate ByLastUse<K(!new)>(order: seq<K>, trace: seq<K>) {
    && NoDup(order)
    && (forall k :: k in order <==> k in trace)
    && OldestFirst(order, trace)
  }

  ghost predicate OldestFirst<K(!new)>(order: seq<K>, trace: seq<K>) {
    forall i, j | 0 <= i < j < |order| :: LastUse(trace, order[i]) < LastUse(trace, order[j])
  }

  /** The position of the last occurrence of `key`, or -1. */
  function LastUse<K(==)>(trace: seq<K>, key: K): (i: int)
    ensures -1 <= i < |trace|
    ensures i == -1 <==> key !in trace
    ensures i >= 0 ==> trace[i] == key
    ensures forall j | i < j < |trace| :: trace[j] != key
  {
    if trace == [] then -1
    else if trace[|trace| - 1] == key then |trace| - 1
    else LastUse(trace[..|trace| - 1], key)
  }

  /** Such an order is unique. */
  lemma ByLastUseUnique<K(!new)>(a: seq<K>, b: seq<K>, trace: seq<K>)
    requires ByLastUse(a, trace) && ByLastUse(b, trace)
    ensures a == b
  {
    DistinctSize(a);
    DistinctSize(b);
    assert Elements(a) == Elements(b);
    PrefixesAgree(a, b, trace, |a|);
    assert a == a[..|a|] == b[..|a|] == b;
  }

  lemma {:induction false} PrefixesAgree<K(!new)>(a: seq<K>, b: seq<K>, trace: seq<K>, i: nat)
    requires ByLastUse(a, trace) && ByLastUse(b, trace) && i <= |a| == |b|
    ensures a[..i] == b[..i]
  {
    if i > 0 {
      PrefixesAgree(a, b, trace, i - 1);
      assert forall q | 0 <= q < i - 1 :: a[q] == a[..i - 1][q] == b[..i - 1][q] == b[q];
      var j := NotBefore(a, b, trace, i - 1);
      var k := NotBefore(b, a, trace, i - 1);
      assert a[..i] == a[..i - 1] + [a[i - 1]] && b[..i] == b[..i - 1] + [b[i - 1]];
    }
  }

  lemma NotBefore<K(!new)>(a: seq<K>, b: seq<K>, trace: seq<K>, m: nat) returns (j: nat)
    requires NoDup(a) && ByLastUse(b, trace)
    requires m < |a| && a[m] in b && forall q | 0 <= q < m :: q < |b| && a[q] == b[q]
    ensures m <= j < |b| && b[j] == a[m]
    ensures j == m || LastUse(trace, b[m]) < LastUse(trace, a[m])
  {
    j :| 0 <= j < |b| && b[j] == a[m];
  }

  function Recent<K(==, !new)>(trace: seq<K>): seq<K> {
    if trace == [] then [] else Touch(Recent(trace[..|trace| - 1]), trace[|trace| - 1])
  }

  lemma {:induction false} RecentIsByLastUse<K(!new)>(trace: seq<K>)
    ensures ByLastUse(Recent(trace), trace)
  {
    if trace != [] {
      var front, key := trace[..|trace| - 1], trace[|trace| - 1];
      var before := Recent(front);
      RecentIsByLastUse(front);
      var kept := Without(before, key);
      WithoutKeepsDistinct(before, key);
      WithoutKeepsOrder(before, key, front);
      assert trace == front + [key];
      var order := kept + [key];
      forall i, j | 0 <= i < j < |order|
        ensures LastUse(trace, order[i]) < LastUse(trace, order[j])
      {
        assert order[i] == kept[i] && kept[i] in kept;
        assert LastUse(trace, order[i]) == LastUse(front, kept[i]);
        if j < |kept| {
          assert kept[j] in kept;
          assert LastUse(trace, order[j]) == LastUse(front, kept[j]);
          assert LastUse(front, kept[i]) < LastUse(front, kept[j]);
        } else {
          assert order[j] == key;
          assert LastUse(trace, order[j]) == |front|;
        }
      }
    }
  }

  lemma {:induction false} WithoutKeepsOrder<K(!new)>(order: seq<K>, key: K, trace: seq<K>)
    requires OldestFirst(order, trace)
    ensures OldestFirst(Without(order, key), trace)
  {
    if order != [] {
      var front, last := order[..|order| - 1], order[|order| - 1];
      WithoutKeepsOrder(front, key, trace);
      var kept := Without(front, key);
      forall x | x in kept
        ensures LastUse(trace, x) < LastUse(trace, last)
      {
        var i :| 0 <= i < |front| && front[i] == x;
        assert order[i] == x;
      }
      var kept' := Without(order, key);
      forall i, j | 0 <= i < j < |kept'|
        ensures LastUse(trace, kept'[i]) < LastUse(trace, kept'[j])
      {
        assert kept'[i] == kept[i] && kept[i] in kept;
        if j < |kept| {
          assert kept'[j] == kept[j];
          assert LastUse(trace, kept[i]) < LastUse(trace, kept[j]);
        } else {
          assert kept'[j] == last;
          assert LastUse(trace, kept[i]) < LastUse(trace, last);
        }
      }
    }
  }

  /** Forgetting the oldest keys first changes nothing about the newest ones later. */
  lemma NewestTouch<K(!new)>(order: seq<K>, key: K, capacity: nat)
    requires NoDup(order)
    ensures Newest(Touch(Newest(order, capacity), key), capacity) == Newest(Touch(order, key), capacity)
  {
    if |order| > capacity {
      var cut := |order| - capacity;
      var oldest, kept := order[..cut], order[cut..];
      assert order == oldest + kept;
      WithoutConcat(oldest, kept, key);
      WithoutSize(kept, key);
      NewestDropsFront(Without(oldest, key), Touch(kept, key), capacity);
      assert Touch(order, key) == Without(oldest, key) + Touch(kept, key);
      if key in kept {
        WithoutKeepsDistinct(order, key);
        WithoutAbsent(oldest, key);
      }
    }
  }

  lemma NewestDropsFront<K>(front: seq<K>, back: seq<K>, capacity: nat)
    requires |back| >= capacity
    ensures Newest(front + back, capacity) == Newest(back, capacity)
  {
  }

  /** The cache after any trace is the last `capacity` distinct keys, ordered by last acquisition. */
  lemma {:induction false} RunHoldsNewest<K(!new)>(trace: seq<K>, capacity: nat, order: seq<K>)
    requires ByLastUse(order, trace)
    ensures Run(trace, capacity) == Newest(order, capacity)
  {
    if trace == [] {
      DistinctSize(order);
      assert Elements(order) == {};
    } else {
      var front, key := trace[..|trace| - 1], trace[|trace| - 1];
      RecentIsByLastUse(front);
      RunHoldsNewest(front, capacity, Recent(front));
      NewestTouch(Recent(front), key, capacity);
      RecentIsByLastUse(trace);
      ByLastUseUnique(order, Recent(trace), trace);
    }
  }

  /** The stack property of LRU: a larger cache holds whatever a smaller one does. */
  lemma LargerCacheHoldsMore<K(!new)>(trace: seq<K>, capacity: nat)
    ensures forall k :: k in Run(trace, capacity) ==> k in Run(trace, capacity + 1)
    ensures |Run(trace, capacity)| <= capacity
  {
    RecentIsByLastUse(trace);
    var order := Recent(trace);
    RunHoldsNewest(trace, capacity, order);
    RunHoldsNewest(trace, capacity + 1, order);
    var small, large := Newest(order, capacity), Newest(order, capacity + 1);
    if |order| > capacity {
      assert small == large[|large| - capacity..];
    }
  }

  /** With room for one entry the key just acquired is never the one evicted. */
  lemma JustAcquiredStays<K(!new)>(order: seq<K>, key: K, capacity: nat)
    ensures capacity >= 1 ==> Acquire(order, key, capacity) != []
                              && Acquire(order, key, capacity)[|Acquire(order, key, capacity)| - 1] == key
    ensures capacity == 0 ==> Acquire(order, key, capacity) == []
  {
  }
}
