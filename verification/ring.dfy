/** The consistent hash ring. A state is judged for any hash function; where labels collide, the lemmas say so. */
module Ring {
  import opened Seqs
  import opened Decimal

  /** The hash and the number of virtual nodes per broker. */
  datatype Hashing = Hashing(hash: string -> nat, replicas: nat) {
    function Point(node: string, i: nat): nat {
      hash(Label(node, i))
    }

    /** The positions of a broker's virtual nodes, in the order they are added and removed. */
    function Points(node: string): (r: seq<nat>)
      ensures |r| == replicas
      ensures forall i | 0 <= i < replicas :: r[i] == Point(node, i)
    {
      seq(replicas, i requires 0 <= i => Point(node, i))
    }

    /** No two virtual nodes of these brokers share a position. */
    ghost predicate CollisionFree(nodes: set<string>) {
      forall m, n, i: nat, j: nat | m in nodes && n in nodes && i < replicas && j < replicas && Point(m, i) == Point(n, j) ::
        m == n && i == j
    }
  }

  /** `f"{node_id}-vnode-{i}"`. */
  function Label(node: string, i: nat): string {
    node + "-vnode-" + Dec(i)
  }

  /** Different virtual nodes have different labels, so only the hash can make them collide. */
  lemma LabelInjective(m: string, i: nat, n: string, j: nat)
    requires Label(m, i) == Label(n, j)
    ensures m == n && i == j
  {
    assert Label(m, i) == (m + "-vnode") + ['-'] + Dec(i);
    assert Label(n, j) == (n + "-vnode") + ['-'] + Dec(j);
    SplitsAtLast(m + "-vnode", Dec(i), n + "-vnode", Dec(j), '-');
    assert m == (m + "-vnode")[..|m + "-vnode"| - 6] == n;
    DecInjective(i, j);
  }

  /** `ring` and `_sorted_keys`. */
  datatype RingState = RingState(ring: map<nat, string>, keys: seq<nat>)

  /** `bisect_left` on a sorted list. */
  function Lower(keys: seq<nat>, key: nat): (i: nat)
    ensures i <= |keys|
    ensures forall j | i <= j < |keys| :: keys[j] >= key
    ensures i > 0 ==> keys[i - 1] < key
  {
    if keys == [] then 0
    else if keys[|keys| - 1] < key then |keys|
    else Lower(keys[..|keys| - 1], key)
  }

  /** `bisect_right` on a sorted list. */
  function Upper(keys: seq<nat>, key: nat): (i: nat)
    ensures i <= |keys|
    ensures forall j | i <= j < |keys| :: keys[j] > key
    ensures i > 0 ==> keys[i - 1] <= key
  {
    if keys == [] then 0
    else if keys[|keys| - 1] <= key then |keys|
    else Upper(keys[..|keys| - 1], key)
  }

  function RemoveKey(s: RingState, key: nat): RingState {
    if key !in s.ring then s
    else
      var idx := Lower(s.keys, key);
      RingState(s.ring - {key},
                if idx < |s.keys| && s.keys[idx] == key then s.keys[..idx] + s.keys[idx + 1..] else s.keys)
  }

  function AddKey(s: RingState, key: nat, node: string): RingState {
    var idx := Upper(s.keys, key);
    RingState(s.ring[key := node], s.keys[..idx] + [key] + s.keys[idx..])
  }

  function RemoveKeys(s: RingState, points: seq<nat>): RingState {
    if points == [] then s else RemoveKey(RemoveKeys(s, points[..|points| - 1]), points[|points| - 1])
  }

  function AddKeys(s: RingState, points: seq<nat>, node: string): RingState {
    if points == [] then s else AddKey(AddKeys(s, points[..|points| - 1], node), points[|points| - 1], node)
  }

  function WithoutNode(h: Hashing, s: RingState, node: string): RingState {
    RemoveKeys(s, h.Points(node))
  }

  function WithNode(h: Hashing, s: RingState, node: string): RingState {
    AddKeys(WithoutNode(h, s, node), h.Points(node), node)
  }

  predicate Increasing(keys: seq<nat>) {
    forall i, j | 0 <= i < j < |keys| :: keys[i] < keys[j]
  }

  /** The sorted list holds the keys of the map, each once. */
  ghost predicate WellFormed(s: RingState) {
    Increasing(s.keys) && forall k :: k in s.keys <==> k in s.ring
  }

  lemma Rising(keys: seq<nat>, i: nat, j: nat)
    requires Increasing(keys) && i <= j < |keys|
    ensures keys[i] <= keys[j]
  {
  }

  lemma LowerSplits(keys: seq<nat>, key: nat)
    requires Increasing(keys)
    ensures forall j | 0 <= j < Lower(keys, key) :: keys[j] < key
  {
    hide Increasing;
    forall j | 0 <= j < Lower(keys, key)
      ensures keys[j] < key
    {
      Rising(keys, j, Lower(keys, key) - 1);
    }
  }

  lemma LowerFinds(keys: seq<nat>, key: nat)
    requires Increasing(keys) && key in keys
    ensures Lower(keys, key) < |keys| && keys[Lower(keys, key)] == key
  {
    hide Increasing;
    var k :| 0 <= k < |keys| && keys[k] == key;
    LowerSplits(keys, key);
    Rising(keys, Lower(keys, key), k);
  }

  lemma WithoutOne(low: seq<nat>, key: nat, high: seq<nat>)
    requires Increasing(low + [key] + high)
    ensures Increasing(low + high) && key !in low + high
  {
    var keys := low + [key] + high;
    assert keys[|low|] == key;
    forall i | 0 <= i < |low + high|
      ensures (low + high)[i] == keys[if i < |low| then i else i + 1]
    {
    }
  }

  lemma RemoveAt(keys: seq<nat>, idx: nat)
    requires Increasing(keys) && idx < |keys|
    ensures Increasing(keys[..idx] + keys[idx + 1..])
    ensures forall k :: k in keys[..idx] + keys[idx + 1..] <==> k in keys && k != keys[idx]
  {
    hide Increasing;
    var low, high := keys[..idx], keys[idx + 1..];
    assert keys == low + [keys[idx]] + high;
    WithoutOne(low, keys[idx], high);
  }

  lemma RemoveKeyKeeps(s: RingState, key: nat)
    requires WellFormed(s)
    ensures WellFormed(RemoveKey(s, key)) && RemoveKey(s, key).ring == s.ring - {key}
  {
    hide Increasing, Lower;
    if key in s.ring {
      LowerFinds(s.keys, key);
      RemoveAt(s.keys, Lower(s.keys, key));
    }
  }

  lemma UpperSplits(keys: seq<nat>, key: nat)
    requires Increasing(keys)
    ensures forall j | 0 <= j < Upper(keys, key) :: keys[j] <= key
  {
    hide Increasing;
    forall j | 0 <= j < Upper(keys, key)
      ensures keys[j] <= key
    {
      Rising(keys, j, Upper(keys, key) - 1);
    }
  }

  lemma WithOne(low: seq<nat>, key: nat, high: seq<nat>)
    requires Increasing(low + high)
    requires (forall i | 0 <= i < |low| :: low[i] < key) && forall i | 0 <= i < |high| :: key < high[i]
    ensures Increasing(low + [key] + high)
  {
    var keys := low + [key] + high;
    forall i, j | 0 <= i < j < |keys|
      ensures keys[i] < keys[j]
    {
      if i != |low| && j != |low| {
        assert (low + high)[if i < |low| then i else i - 1] < (low + high)[if j < |low| then j else j - 1];
      }
    }
  }

  lemma AddKeyKeeps(s: RingState, key: nat, node: string)
    requires WellFormed(s) && key !in s.ring
    ensures WellFormed(AddKey(s, key, node))
  {
    hide Increasing, Upper;
    var low, high := SplitAt(s.keys, key);
    assert forall k :: k in s.keys <==> k in low || k in high;
    WithOne(low, key, high);
    var keys' := low + [key] + high;
    assert forall k :: k in keys' <==> k in s.keys || k == key;
  }

  lemma SplitAt(keys: seq<nat>, key: nat) returns (low: seq<nat>, high: seq<nat>)
    requires Increasing(keys) && key !in keys
    ensures low == keys[..Upper(keys, key)] && high == keys[Upper(keys, key)..] && keys == low + high
    ensures (forall i | 0 <= i < |low| :: low[i] < key) && forall i | 0 <= i < |high| :: key < high[i]
  {
    hide Upper, Increasing;
    low, high := keys[..Upper(keys, key)], keys[Upper(keys, key)..];
    UpperSplits(keys, key);
    assert forall i | 0 <= i < |low| :: low[i] == keys[i] && keys[i] in keys;
  }

  lemma {:induction false} RemoveKeysRing(s: RingState, points: seq<nat>)
    ensures RemoveKeys(s, points).ring == s.ring - Elements(points)
  {
    if points != [] {
      var front, last := points[..|points| - 1], points[|points| - 1];
      RemoveKeysRing(s, front);
      assert Elements(points) == Elements(front) + {last};
    }
  }

  /** Removal keeps the representation, whatever the hash. */
  lemma {:induction false} RemoveKeysKeeps(s: RingState, points: seq<nat>)
    requires WellFormed(s)
    ensures WellFormed(RemoveKeys(s, points))
    ensures RemoveKeys(s, points).ring == s.ring - Elements(points)
  {
    hide WellFormed, RemoveKey;
    RemoveKeysRing(s, points);
    if points != [] {
      var front, last := points[..|points| - 1], points[|points| - 1];
      RemoveKeysKeeps(s, front);
      RemoveKeyKeeps(RemoveKeys(s, front), last);
    }
  }

  lemma WithoutNodeKeeps(h: Hashing, s: RingState, node: string)
    requires WellFormed(s)
    ensures WellFormed(WithoutNode(h, s, node))
  {
    RemoveKeysKeeps(s, h.Points(node));
  }

  function Owned(points: seq<nat>, node: string): map<nat, string> {
    map k | k in points :: node
  }

  lemma AddKeyRing(s: RingState, key: nat, node: string)
    ensures AddKey(s, key, node).ring == s.ring[key := node]
    ensures |AddKey(s, key, node).keys| == |s.keys| + 1
  {
  }

  lemma {:induction false} AddKeysRing(s: RingState, points: seq<nat>, node: string)
    ensures AddKeys(s, points, node).ring == s.ring + Owned(points, node)
    ensures |AddKeys(s, points, node).keys| == |s.keys| + |points|
  {
    hide AddKey;
    if points != [] {
      var front, last := points[..|points| - 1], points[|points| - 1];
      AddKeysRing(s, front, node);
      AddKeyRing(AddKeys(s, front, node), last, node);
      assert points == front + [last];
      assert Owned(points, node) == Owned(front, node)[last := node];
    }
  }

  lemma {:induction false} AddKeysKeeps(s: RingState, points: seq<nat>, node: string)
    requires WellFormed(s) && NoDup(points) && forall k | k in points :: k !in s.ring
    ensures WellFormed(AddKeys(s, points, node))
  {
    if points != [] {
      var front, last := points[..|points| - 1], points[|points| - 1];
      AddKeysKeeps(s, front, node);
      AddKeysRing(s, front, node);
      AddKeyKeeps(AddKeys(s, front, node), last, node);
    }
  }

  lemma KeysCount(s: RingState)
    requires WellFormed(s)
    ensures |s.keys| == |s.ring.Keys|
  {
    DistinctSize(s.keys);
    assert Elements(s.keys) == s.ring.Keys;
  }

  lemma {:induction false} FullSizeIsDistinct(points: seq<nat>)
    ensures |Elements(points)| <= |points|
    ensures |Elements(points)| == |points| ==> NoDup(points)
  {
    if points != [] {
      var front, last := points[..|points| - 1], points[|points| - 1];
      FullSizeIsDistinct(front);
      assert Elements(points) == Elements(front) + {last};
      if last !in front && NoDup(front) {
        assert forall i | 0 <= i < |front| :: points[i] == front[i] && front[i] in front;
      }
    } else {
      assert Elements(points) == {};
    }
  }

  lemma UnionSize(a: set<nat>, b: set<nat>)
    requires a !! b
    ensures |a + b| == |a| + |b|
  {
  }

  /** Adding a broker keeps the list and the map together exactly when its own positions are distinct. */
  lemma AddKeepsIff(h: Hashing, s: RingState, node: string)
    requires WellFormed(s)
    ensures WellFormed(WithNode(h, s, node)) <==> NoDup(h.Points(node))
  {
    hide AddKeys, RemoveKeys, WellFormed;
    var points, s1 := h.Points(node), WithoutNode(h, s, node);
    var s2 := WithNode(h, s, node);
    RemoveKeysKeeps(s, points);
    AddKeysRing(s1, points, node);
    if NoDup(points) {
      AddKeysKeeps(s1, points, node);
    }
    if WellFormed(s2) {
      KeysCount(s1);
      KeysCount(s2);
      assert s2.ring.Keys == s1.ring.Keys + Elements(points);
      UnionSize(s1.ring.Keys, Elements(points));
      FullSizeIsDistinct(points);
    }
  }

  /** Each removal shortens the list at most as much as the map. */
  lemma {:induction false} RemoveKeysSize(s: RingState, points: seq<nat>)
    ensures |s.keys| - |RemoveKeys(s, points).keys| <= |s.ring.Keys| - |RemoveKeys(s, points).ring.Keys|
  {
    if points != [] {
      var front, last := points[..|points| - 1], points[|points| - 1];
      RemoveKeysSize(s, front);
      var t := RemoveKeys(s, front);
      assert last in t.ring ==> RemoveKey(t, last).ring.Keys == t.ring.Keys - {last};
    }
  }

  lemma SameKeysSameList(a: seq<nat>, b: seq<nat>)
    requires Increasing(a) && Increasing(b) && Elements(a) == Elements(b)
    ensures a == b
  {
    DistinctSize(a);
    DistinctSize(b);
    SameKeysPrefix(a, b, |a|);
    assert a == a[..|a|] == b[..|a|] == b;
  }

  lemma {:induction false} SameKeysPrefix(a: seq<nat>, b: seq<nat>, i: nat)
    requires Increasing(a) && Increasing(b) && Elements(a) == Elements(b) && i <= |a| == |b|
    ensures a[..i] == b[..i]
  {
    if i > 0 {
      SameKeysPrefix(a, b, i - 1);
      assert forall q | 0 <= q < i - 1 :: a[q] == a[..i - 1][q] == b[..i - 1][q] == b[q];
      assert a[i - 1] in Elements(b) && b[i - 1] in Elements(a);
      var j :| 0 <= j < |b| && b[j] == a[i - 1];
      var k :| 0 <= k < |a| && a[k] == b[i - 1];
      assert j >= i - 1 && k >= i - 1;
      assert a[..i] == a[..i - 1] + [a[i - 1]] && b[..i] == b[..i - 1] + [b[i - 1]];
    }
  }

  /** Adding a broker and removing it again gives the exact state back if and only if its positions are distinct
      and none was taken. */
  lemma AddRemoveRestoresIff(h: Hashing, s: RingState, node: string)
    requires WellFormed(s)
    ensures WithoutNode(h, WithNode(h, s, node), node) == s
            <==> NoDup(h.Points(node)) && forall k | k in h.Points(node) :: k !in s.ring
  {
    hide AddKeys, RemoveKeys, WellFormed, Hashing.Points;
    var points := h.Points(node);
    if NoDup(points) && forall k | k in points :: k !in s.ring {
      FreshPointsRestore(s, points, node);
    }
    var s1 := RemoveKeys(s, points);
    if RemoveKeys(AddKeys(s1, points, node), points) == s {
      RestoredMeansFresh(s, points, node);
    }
  }

  /** With one position for everyone, a newcomer that leaves again takes the old member's position with it. */
  lemma CollisionLosesMember()
    ensures
      var h := Hashing(_ => 0, 1);
      var s := RingState(map[0 := "a"], [0]);
      Represents(h, s, {"a"}) && WithoutNode(h, WithNode(h, s, "b"), "b") == RingState(map[], [])
  {
    hide RemoveKeys, AddKeys, RemoveKey, AddKey, Hashing.Points;
    var h := Hashing(_ => 0, 1);
    var s := RingState(map[0 := "a"], [0]);
    OnePoint(h, "a");
    OnePoint(h, "b");
    OneKey(s, 0, "b");
    OneKey(RingState(map[], []), 0, "b");
    OneKey(RingState(map[0 := "b"], [0]), 0, "b");
    OnlyKey("a");
    OnlyKey("b");
  }

  lemma OneKey(s: RingState, key: nat, node: string)
    ensures RemoveKeys(s, [key]) == RemoveKey(s, key) && AddKeys(s, [key], node) == AddKey(s, key, node)
  {
    assert [key][..0] == [];
  }

  lemma OnlyKey(node: string)
    ensures RemoveKey(RingState(map[0 := node], [0]), 0) == RingState(map[], [])
    ensures AddKey(RingState(map[], []), 0, node) == RingState(map[0 := node], [0])
  {
    assert map[0 := node] - {0} == map[];
  }

  lemma OnePoint(h: Hashing, node: string)
    requires h.replicas == 1
    ensures h.Points(node) == [h.Point(node, 0)]
  {
  }

  lemma FreshPointsRestore(s: RingState, points: seq<nat>, node: string)
    requires WellFormed(s) && NoDup(points) && forall k | k in points :: k !in s.ring
    ensures RemoveKeys(AddKeys(RemoveKeys(s, points), points, node), points) == s
  {
    hide AddKeys, RemoveKeys, WellFormed;
    var s1 := RemoveKeys(s, points);
    var s2 := AddKeys(s1, points, node);
    RemoveKeysKeeps(s, points);
    AddKeysRing(s1, points, node);
    AddKeysKeeps(s1, points, node);
    RemoveKeysKeeps(s2, points);
    RestoredRing(s.ring, points, node);
    SameRing(s, RemoveKeys(s2, points));
  }

  lemma RestoredRing(ring: map<nat, string>, points: seq<nat>, node: string)
    ensures
      var restored := ring - Elements(points) + Owned(points, node) - Elements(points);
      && restored == ring - Elements(points)
      && ((forall k | k in points :: k !in ring) <==> restored == ring)
  {
    var rest := ring - Elements(points);
    assert rest + Owned(points, node) - Elements(points) == rest;
    if rest == ring {
      assert forall k | k in points :: k in Elements(points);
    }
  }

  lemma RestoredMeansFresh(s: RingState, points: seq<nat>, node: string)
    requires WellFormed(s)
    requires RemoveKeys(AddKeys(RemoveKeys(s, points), points, node), points) == s
    ensures NoDup(points) && forall k | k in points :: k !in s.ring
  {
    hide AddKeys, RemoveKeys, WellFormed, NoDup;
    var s1 := RemoveKeys(s, points);
    var s2 := AddKeys(s1, points, node);
    RemoveKeysKeeps(s, points);
    AddKeysRing(s1, points, node);
    RemoveKeysRing(s2, points);
    RestoredRing(s.ring, points, node);
    SameRing(s, s1);
    RemoveKeysSize(s2, points);
    assert s2.ring.Keys == s.ring.Keys + Elements(points);
    UnionSize(s.ring.Keys, Elements(points));
    FullSizeIsDistinct(points);
  }

  lemma SameRing(s: RingState, t: RingState)
    requires WellFormed(s) && WellFormed(t) && s.ring == t.ring
    ensures s == t
  {
    SameKeysSameList(s.keys, t.keys);
  }

  /** The ring holds the virtual nodes of these brokers and nothing else. */
  ghost predicate Represents(h: Hashing, s: RingState, members: set<string>) {
    && WellFormed(s)
    && (forall n, k | n in members && k in h.Points(n) :: k in s.ring && s.ring[k] == n)
    && (forall k | k in s.ring :: s.ring[k] in members && k in h.Points(s.ring[k]))
  }

  /** The state is a function of the members alone. */
  lemma RepresentsUnique(h: Hashing, s: RingState, t: RingState, members: set<string>)
    requires Represents(h, s, members) && Represents(h, t, members)
    ensures s == t
  {
    hide WellFormed, Hashing.Points;
    assert s.ring == t.ring;
    SameRing(s, t);
  }

  lemma CollisionFreePoints(h: Hashing, nodes: set<string>, m: string, n: string, k: nat)
    requires h.CollisionFree(nodes) && m in nodes && n in nodes
    ensures k in h.Points(m) && k in h.Points(n) ==> m == n
    ensures NoDup(h.Points(n))
  {
    if k in h.Points(m) && k in h.Points(n) {
      var i :| 0 <= i < h.replicas && h.Points(m)[i] == k;
      var j :| 0 <= j < h.replicas && h.Points(n)[j] == k;
      assert h.Point(m, i) == h.Point(n, j);
    }
    forall i, j | 0 <= i < j < h.replicas
      ensures h.Points(n)[i] != h.Points(n)[j]
    {
      assert h.Points(n)[i] == h.Point(n, i) && h.Points(n)[j] == h.Point(n, j);
    }
  }

  lemma WithoutNodeRing(h: Hashing, s: RingState, node: string)
    requires WellFormed(s)
    ensures
      var t := WithoutNode(h, s, node);
      && WellFormed(t)
      && (forall k :: k in t.ring <==> k in s.ring && k !in h.Points(node))
      && forall k | k in t.ring :: t.ring[k] == s.ring[k]
  {
    hide RemoveKeys, WellFormed;
    RemoveKeysKeeps(s, h.Points(node));
  }

  lemma WithNodeRing(h: Hashing, s: RingState, node: string)
    requires WellFormed(s) && NoDup(h.Points(node))
    ensures
      var t := WithNode(h, s, node);
      && WellFormed(t)
      && (forall k :: k in t.ring <==> k in s.ring || k in h.Points(node))
      && forall k | k in t.ring :: t.ring[k] == if k in h.Points(node) then node else s.ring[k]
  {
    hide RemoveKeys, AddKeys, WellFormed, NoDup;
    RemoveKeysKeeps(s, h.Points(node));
    AddKeysKeeps(WithoutNode(h, s, node), h.Points(node), node);
    AddKeysRing(WithoutNode(h, s, node), h.Points(node), node);
  }

  /** No other member owns one of the broker's positions. */
  ghost predicate Spared(h: Hashing, members: set<string>, node: string) {
    forall m, k | m in members && m != node && k in h.Points(m) :: k !in h.Points(node)
  }

  lemma MemberIsSpared(h: Hashing, s: RingState, members: set<string>, node: string)
    requires Represents(h, s, members) && node in members
    ensures Spared(h, members, node)
  {
    hide WellFormed, Hashing.Points;
    forall m, k | m in members && m != node && k in h.Points(m)
      ensures k !in h.Points(node)
    {
      assert s.ring[k] == m;
    }
  }

  lemma CollisionFreeSpares(h: Hashing, members: set<string>, node: string)
    requires h.CollisionFree(members + {node})
    ensures Spared(h, members, node)
  {
    hide Hashing.CollisionFree, Hashing.Points;
    forall m, k | m in members && m != node && k in h.Points(m)
      ensures k !in h.Points(node)
    {
      assert m in members + {node};
      CollisionFreePoints(h, members + {node}, m, node, k);
    }
  }

  /** Removing a broker gives the ring of the remaining members exactly when no other member owns one of its
      positions; of a member that is always true. */
  lemma RemoveRepresentsIff(h: Hashing, s: RingState, members: set<string>, node: string)
    requires Represents(h, s, members)
    ensures Represents(h, WithoutNode(h, s, node), members - {node}) <==> Spared(h, members, node)
    ensures node in members ==> Spared(h, members, node)
  {
    hide WellFormed, Hashing.Points, WithoutNode;
    RepresentedIsWellFormed(h, s, members);
    WithoutNodeRing(h, s, node);
    if node in members {
      MemberIsSpared(h, s, members, node);
    }
  }

  /** Adding a broker, new or known, gives the ring of the enlarged member set exactly when nothing collides. */
  lemma AddRepresentsIff(h: Hashing, s: RingState, members: set<string>, node: string)
    requires Represents(h, s, members) && h.CollisionFree(members)
    ensures Represents(h, WithNode(h, s, node), members + {node}) <==> h.CollisionFree(members + {node})
  {
    var t := WithNode(h, s, node);
    if h.CollisionFree(members + {node}) {
      AddRepresents(h, s, members, node);
    }
    if Represents(h, t, members + {node}) {
      AddKeepsIff(h, s, node);
      NoCollisions(h, t, members, node);
    }
  }

  lemma OwnerAt(h: Hashing, t: RingState, members: set<string>, n: string, i: nat)
    requires Represents(h, t, members) && n in members && i < h.replicas
    ensures h.Point(n, i) in t.ring && t.ring[h.Point(n, i)] == n
  {
    assert h.Points(n)[i] in h.Points(n);
  }

  lemma NoCollisions(h: Hashing, t: RingState, members: set<string>, node: string)
    requires Represents(h, t, members + {node}) && h.CollisionFree(members) && NoDup(h.Points(node))
    ensures h.CollisionFree(members + {node})
  {
    hide Represents, Hashing.Point;
    var all := members + {node};
    forall m, n, i: nat, j: nat |
      m in all && n in all && i < h.replicas && j < h.replicas && h.Point(m, i) == h.Point(n, j)
      ensures m == n && i == j
    {
      OwnerAt(h, t, all, m, i);
      OwnerAt(h, t, all, n, j);
      assert h.Points(m)[i] == h.Points(m)[j];
    }
  }

  lemma AddRepresents(h: Hashing, s: RingState, members: set<string>, node: string)
    requires Represents(h, s, members) && h.CollisionFree(members + {node})
    ensures Represents(h, WithNode(h, s, node), members + {node})
  {
    hide WellFormed, Hashing.CollisionFree, Hashing.Points, WithNode;
    CollisionFreePoints(h, members + {node}, node, node, 0);
    WithNodeRing(h, s, node);
    forall n, k | n in members
      ensures k in h.Points(node) && k in h.Points(n) ==> n == node
    {
      CollisionFreePoints(h, members + {node}, node, n, k);
    }
  }

  datatype Change = Join(node: string) | Leave(node: string)

  function AfterChanges(h: Hashing, changes: seq<Change>): RingState {
    if changes == [] then RingState(map[], [])
    else
      var s := AfterChanges(h, changes[..|changes| - 1]);
      match changes[|changes| - 1]
      case Join(n) => WithNode(h, s, n)
      case Leave(n) => WithoutNode(h, s, n)
  }

  function Members(changes: seq<Change>): set<string> {
    if changes == [] then {}
    else
      var members := Members(changes[..|changes| - 1]);
      match changes[|changes| - 1]
      case Join(n) => members + {n}
      case Leave(n) => members - {n}
  }

  /** After any joins, re-joins and departures the ring is the ring of its members. */
  lemma {:induction false} RingOfMembers(h: Hashing, changes: seq<Change>, nodes: set<string>)
    requires h.CollisionFree(nodes) && forall c | c in changes :: c.node in nodes
    ensures Members(changes) <= nodes
    ensures Represents(h, AfterChanges(h, changes), Members(changes))
  {
    hide WithNode, WithoutNode, Hashing.CollisionFree;
    if changes == [] {
      NobodyRepresented(h);
    } else {
      var front, last := changes[..|changes| - 1], changes[|changes| - 1];
      RingOfMembers(h, front, nodes);
      FewerNodes(h, Members(front) + {last.node}, nodes);
      match last
      case Join(n) => AddRepresents(h, AfterChanges(h, front), Members(front), n);
      case Leave(n) =>
        CollisionFreeSpares(h, Members(front), n);
        RemoveRepresentsIff(h, AfterChanges(h, front), Members(front), n);
    }
  }

  lemma NobodyRepresented(h: Hashing)
    ensures Represents(h, RingState(map[], []), {})
  {
  }

  lemma FewerNodes(h: Hashing, few: set<string>, many: set<string>)
    requires h.CollisionFree(many) && few <= many
    ensures h.CollisionFree(few)
  {
  }

  /** The order and the number of joins and departures do not matter, only who is left. */
  lemma OrderIrrelevant(h: Hashing, a: seq<Change>, b: seq<Change>, nodes: set<string>)
    requires h.CollisionFree(nodes) && (forall c | c in a + b :: c.node in nodes)
    requires Members(a) == Members(b)
    ensures AfterChanges(h, a) == AfterChanges(h, b)
  {
    hide Represents, Hashing.CollisionFree;
    assert forall c | c in a :: c in a + b;
    assert forall c | c in b :: c in a + b;
    RingOfMembers(h, a, nodes);
    RingOfMembers(h, b, nodes);
    RepresentsUnique(h, AfterChanges(h, a), AfterChanges(h, b), Members(a));
  }

  /** The keys in walking order: clockwise from `key`. */
  function Walk(keys: seq<nat>, key: nat): seq<nat> {
    keys[Upper(keys, key)..] + keys[..Upper(keys, key)]
  }

  function Owners(ring: map<nat, string>, keys: seq<nat>): (r: seq<string>)
    requires forall k | k in keys :: k in ring
    ensures |r| == |keys|
    ensures forall i | 0 <= i < |keys| :: r[i] == ring[keys[i]]
  {
    seq(|keys|, i requires 0 <= i < |keys| => assert keys[i] in keys; ring[keys[i]])
  }

  /** First occurrences, in order. */
  function Firsts(nodes: seq<string>): (r: seq<string>)
    ensures NoDup(r)
    ensures forall n :: n in r <==> n in nodes
    ensures |r| <= |nodes|
  {
    if nodes == [] then []
    else
      var front, last := Firsts(nodes[..|nodes| - 1]), nodes[|nodes| - 1];
      if last in front then front else front + [last]
  }

  /** All brokers in the order in which the walk from a topic's position meets them. */
  function Preference(h: Hashing, s: RingState, topic: string): (r: seq<string>)
    requires forall k | k in s.keys :: k in s.ring
    ensures NoDup(r)
  {
    Firsts(Owners(s.ring, Walk(s.keys, h.hash(topic))))
  }

  /** The first `count` elements; any `count` below one asks for all. */
  function FirstOf(nodes: seq<string>, count: int): seq<string> {
    if 0 < count < |nodes| then nodes[..count] else nodes
  }

  /** The keys that `node` does not own. */
  function KeysWithout(ring: map<nat, string>, keys: seq<nat>, node: string): (r: seq<nat>)
    requires forall k | k in keys :: k in ring
    ensures forall k :: k in r <==> k in keys && ring[k] != node
  {
    if keys == [] then []
    else
      var front, last := KeysWithout(ring, keys[..|keys| - 1], node), keys[|keys| - 1];
      if ring[last] == node then front else front + [last]
  }

  lemma KeysWithoutSnoc(ring: map<nat, string>, keys: seq<nat>, last: nat, node: string)
    requires (forall k | k in keys :: k in ring) && last in ring
    ensures forall k | k in keys + [last] :: k in ring
    ensures KeysWithout(ring, keys + [last], node) ==
            if ring[last] == node then KeysWithout(ring, keys, node) else KeysWithout(ring, keys, node) + [last]
  {
    assert (keys + [last])[..|keys|] == keys;
  }

  lemma NoKeysWithout(ring: map<nat, string>, node: string)
    ensures KeysWithout(ring, [], node) == []
  {
  }

  lemma {:induction false} KeysWithoutConcat(ring: map<nat, string>, a: seq<nat>, b: seq<nat>, node: string)
    requires (forall k | k in a :: k in ring) && forall k | k in b :: k in ring
    ensures forall k | k in a + b :: k in ring
    ensures KeysWithout(ring, a + b, node) == KeysWithout(ring, a, node) + KeysWithout(ring, b, node)
    decreases |b|
  {
    hide KeysWithout;
    if b == [] {
      assert a + b == a;
      NoKeysWithout(ring, node);
    } else {
      var c, last := b[..|b| - 1], b[|b| - 1];
      assert b == c + [last] && a + b == (a + c) + [last];
      KeysWithoutConcat(ring, a, c, node);
      KeysWithoutSnoc(ring, a + c, last, node);
      KeysWithoutSnoc(ring, c, last, node);
    }
  }

  lemma {:induction false} KeysWithoutIncreasing(ring: map<nat, string>, keys: seq<nat>, node: string)
    requires Increasing(keys) && forall k | k in keys :: k in ring
    ensures Increasing(KeysWithout(ring, keys, node))
  {
    if keys != [] {
      var front, last := keys[..|keys| - 1], keys[|keys| - 1];
      KeysWithoutIncreasing(ring, front, node);
      var rest := KeysWithout(ring, front, node);
      forall i | 0 <= i < |rest|
        ensures rest[i] < last
      {
        assert rest[i] in rest;
        var j :| 0 <= j < |front| && front[j] == rest[i];
        assert keys[j] == front[j];
      }
    }
  }

  lemma OwnersSnoc(ring: map<nat, string>, keys: seq<nat>, last: nat)
    requires (forall k | k in keys :: k in ring) && last in ring
    ensures forall k | k in keys + [last] :: k in ring
    ensures Owners(ring, keys + [last]) == Owners(ring, keys) + [ring[last]]
  {
  }

  lemma NoOwners(ring: map<nat, string>)
    ensures Owners(ring, []) == []
  {
  }

  lemma {:induction false} OwnersWithout(ring: map<nat, string>, keys: seq<nat>, node: string)
    requires forall k | k in keys :: k in ring
    ensures forall k | k in KeysWithout(ring, keys, node) :: k in ring
    ensures Owners(ring, KeysWithout(ring, keys, node)) == Without(Owners(ring, keys), node)
  {
    hide Owners;
    if keys == [] {
      NoOwners(ring);
    } else {
      var front, last := keys[..|keys| - 1], keys[|keys| - 1];
      assert keys == front + [last];
      OwnersWithout(ring, front, node);
      OwnersSnoc(ring, front, last);
      OwnersSnoc(ring, KeysWithout(ring, front, node), last);
      WithoutSnoc(Owners(ring, front), ring[last], node);
    }
  }

  lemma WalkParts(keys: seq<nat>, key: nat) returns (low: seq<nat>, high: seq<nat>)
    requires Increasing(keys)
    ensures keys == low + high && Walk(keys, key) == high + low
    ensures (forall k | k in low :: k <= key) && forall k | k in high :: k > key
  {
    hide Upper, Increasing;
    UpperSplits(keys, key);
    low, high := keys[..Upper(keys, key)], keys[Upper(keys, key)..];
  }

  /** The walk over the other keys is the walk with the node's keys left out. */
  lemma WalkWithout(ring: map<nat, string>, keys: seq<nat>, node: string, key: nat)
    requires Increasing(keys) && forall k | k in keys :: k in ring
    ensures forall k | k in Walk(keys, key) :: k in ring
    ensures Walk(KeysWithout(ring, keys, node), key) == KeysWithout(ring, Walk(keys, key), node)
  {
    hide KeysWithout, Walk, Upper, Increasing;
    WalkElements(keys, key);
    var low, high := WalkParts(keys, key);
    KeysWithoutConcat(ring, low, high, node);
    KeysWithoutConcat(ring, high, low, node);
    SplitAtUpper(KeysWithout(ring, low, node), KeysWithout(ring, high, node), key);
  }

  lemma SplitAtUpper(low: seq<nat>, high: seq<nat>, key: nat)
    requires (forall k | k in low :: k <= key) && forall k | k in high :: k > key
    ensures Walk(low + high, key) == high + low
  {
    assert forall i | 0 <= i < |low| :: low[i] in low;
    assert forall i | 0 <= i < |high| :: high[i] in high;
    UpperBetween(low, high, key);
    assert (low + high)[|low|..] == high && (low + high)[..|low|] == low;
  }

  lemma {:induction false} UpperBetween(low: seq<nat>, high: seq<nat>, key: nat)
    requires (forall i | 0 <= i < |low| :: low[i] <= key) && forall i | 0 <= i < |high| :: high[i] > key
    ensures Upper(low + high, key) == |low|
    decreases |high|
  {
    if high == [] {
      assert low + high == low;
    } else {
      var front := high[..|high| - 1];
      assert (low + high)[..|low + high| - 1] == low + front;
      UpperBetween(low, front, key);
    }
  }

  lemma {:induction false} FirstsWithout(nodes: seq<string>, node: string)
    ensures Firsts(Without(nodes, node)) == Without(Firsts(nodes), node)
  {
    if nodes != [] {
      var front, last := nodes[..|nodes| - 1], nodes[|nodes| - 1];
      FirstsWithout(front, node);
      if last != node {
        assert Without(nodes, node) == Without(front, node) + [last];
        assert Without(nodes, node)[..|Without(nodes, node)| - 1] == Without(front, node);
      }
      if last !in Firsts(front) {
        assert Firsts(nodes)[..|Firsts(nodes)| - 1] == Firsts(front);
      }
    }
  }

  /** Stability: when a broker leaves, every topic's preference list just loses that broker. */
  lemma RemovalFiltersPreference(h: Hashing, s: RingState, members: set<string>, node: string, topic: string)
    requires Represents(h, s, members) && Spared(h, members, node)
    ensures WellFormed(WithoutNode(h, s, node))
    ensures Preference(h, WithoutNode(h, s, node), topic) == Without(Preference(h, s, topic), node)
  {
    hide WithoutNode, Spared, Firsts, Represents, Increasing, Walk, KeysWithout, Owners, Without;
    var t, key := WithoutNode(h, s, node), h.hash(topic);
    RepresentedIsWellFormed(h, s, members);
    RemainingKeys(h, s, members, node);
    var walk := Walk(s.keys, key);
    WalkWithout(s.ring, s.keys, node, key);
    OwnersWithout(s.ring, walk, node);
    WalkElements(t.keys, key);
    OwnersAgree(s.ring, t.ring, Walk(t.keys, key));
    FirstsWithout(Owners(s.ring, walk), node);
  }

  lemma OwnersAgree(a: map<nat, string>, b: map<nat, string>, keys: seq<nat>)
    requires forall k | k in keys :: k in a && k in b && a[k] == b[k]
    ensures Owners(a, keys) == Owners(b, keys)
  {
    assert forall i | 0 <= i < |keys| :: keys[i] in keys;
  }

  lemma OwnedIffPoint(h: Hashing, s: RingState, members: set<string>, node: string, k: nat)
    requires Represents(h, s, members) && Spared(h, members, node)
    ensures k in s.ring ==> (s.ring[k] == node <==> k in h.Points(node))
  {
    hide WellFormed, Hashing.Points;
  }

  lemma RemainingKeys(h: Hashing, s: RingState, members: set<string>, node: string)
    requires Represents(h, s, members) && Spared(h, members, node)
    ensures
      var t := WithoutNode(h, s, node);
      && WellFormed(t)
      && t.keys == KeysWithout(s.ring, s.keys, node)
      && forall k | k in t.ring :: k in s.ring && t.ring[k] == s.ring[k]
  {
    hide Represents, Spared, Hashing.Points, RemoveKeys, Increasing;
    var t := WithoutNode(h, s, node);
    RepresentedIsWellFormed(h, s, members);
    RemoveKeysKeeps(s, h.Points(node));
    KeysWithoutIncreasing(s.ring, s.keys, node);
    var rest := KeysWithout(s.ring, s.keys, node);
    forall k
      ensures k in t.keys <==> k in rest
    {
      OwnedIffPoint(h, s, members, node, k);
    }
    SameKeysSameList(t.keys, rest);
  }

  lemma RepresentedIsWellFormed(h: Hashing, s: RingState, members: set<string>)
    requires Represents(h, s, members)
    ensures WellFormed(s)
  {
  }

  lemma WalkElements(keys: seq<nat>, key: nat)
    ensures |Walk(keys, key)| == |keys|
    ensures forall k :: k in Walk(keys, key) <==> k in keys
  {
    assert keys == keys[..Upper(keys, key)] + keys[Upper(keys, key)..];
  }

  lemma OwnersElements(ring: map<nat, string>, keys: seq<nat>, n: string)
    requires forall k | k in keys :: k in ring
    ensures n in Owners(ring, keys) <==> exists k :: k in keys && ring[k] == n
  {
    var owners := Owners(ring, keys);
    forall i | 0 <= i < |keys|
      ensures keys[i] in keys && owners[i] in owners && owners[i] == ring[keys[i]]
    {
    }
  }

  /** Every member is in every preference list, provided brokers have virtual nodes at all. */
  lemma PreferenceHoldsMembers(h: Hashing, s: RingState, members: set<string>, topic: string)
    requires Represents(h, s, members) && h.replicas > 0
    ensures Elements(Preference(h, s, topic)) == members
    ensures |Preference(h, s, topic)| == |members|
  {
    hide Walk, Owners, Firsts, Increasing, Hashing.Points, NoDup;
    var walk := Walk(s.keys, h.hash(topic));
    WalkElements(s.keys, h.hash(topic));
    forall n
      ensures n in Preference(h, s, topic) <==> n in members
    {
      OwnersElements(s.ring, walk, n);
      if n in members {
        OwnerAt(h, s, members, n, 0);
        assert h.Point(n, 0) in walk;
      }
    }
    DistinctSize(Preference(h, s, topic));
  }

  /** Clockwise from `key`, position `a` comes before position `b`: the larger ones first, then those at or below. */
  predicate Before(a: nat, b: nat, key: nat) {
    if (a > key) == (b > key) then a < b else a > key
  }

  lemma WalkIsClockwise(keys: seq<nat>, key: nat)
    requires Increasing(keys)
    ensures forall p, q | 0 <= p < q < |Walk(keys, key)| :: Before(Walk(keys, key)[p], Walk(keys, key)[q], key)
  {
    hide Walk;
    var low, high := WalkParts(keys, key);
    var walk := high + low;
    forall p, q | 0 <= p < q < |walk|
      ensures Before(walk[p], walk[q], key)
    {
      if p < |high| {
        assert walk[p] in high && keys[|low| + p] == walk[p];
        if q < |high| {
          assert walk[q] in high && keys[|low| + q] == walk[q];
        } else {
          assert walk[q] in low;
        }
      } else {
        assert walk[p] in low && walk[q] in low;
        assert keys[p - |high|] == walk[p] && keys[q - |high|] == walk[q];
      }
    }
  }

  /** The order of the first occurrences: `i` before `j` means that some occurrence of the one precedes all of the
      other. */
  lemma {:induction false} FirstsInOrder(nodes: seq<string>, i: nat, j: nat) returns (p: nat)
    requires i < j < |Firsts(nodes)|
    ensures p < |nodes| && nodes[p] == Firsts(nodes)[i]
    ensures forall q | 0 <= q < |nodes| && nodes[q] == Firsts(nodes)[j] :: p < q
  {
    var front, last := nodes[..|nodes| - 1], nodes[|nodes| - 1];
    if j < |Firsts(front)| {
      p := FirstsInOrder(front, i, j);
    } else {
      assert Firsts(nodes)[i] in front;
      p :| 0 <= p < |front| && front[p] == Firsts(nodes)[i];
      assert forall q | 0 <= q < |front| :: front[q] in front;
    }
  }

  /** What a preference list is, without the walk: a broker stands before another exactly because one of its virtual
      nodes comes clockwise before every virtual node of the other. */
  lemma PreferenceIsClockwise(h: Hashing, s: RingState, topic: string, i: nat, j: nat) returns (k: nat)
    requires WellFormed(s) && i < j < |Preference(h, s, topic)|
    ensures k in s.ring && s.ring[k] == Preference(h, s, topic)[i]
    ensures forall x | x in s.ring && s.ring[x] == Preference(h, s, topic)[j] :: Before(k, x, h.hash(topic))
  {
    hide Walk, Increasing, Before, Owners;
    var walk := Walk(s.keys, h.hash(topic));
    WalkElements(s.keys, h.hash(topic));
    WalkIsClockwise(s.keys, h.hash(topic));
    var p := FirstsInOrder(Owners(s.ring, walk), i, j);
    k := walk[p];
    assert k in walk;
    forall x | x in s.ring && s.ring[x] == Preference(h, s, topic)[j]
      ensures Before(k, x, h.hash(topic))
    {
      assert x in walk;
      var q :| 0 <= q < |walk| && walk[q] == x;
    }
  }

  /** The first broker of the list owns the next position after the topic's, or else the smallest position. */
  lemma FirstIsSuccessor(h: Hashing, s: RingState, topic: string) returns (k: nat)
    requires WellFormed(s) && s.ring != map[]
    ensures Preference(h, s, topic) != [] && k in s.ring && s.ring[k] == Preference(h, s, topic)[0]
    ensures forall x | x in s.ring && x != k :: Before(k, x, h.hash(topic))
  {
    hide Walk, Increasing, Before, Owners, Firsts;
    var walk := Walk(s.keys, h.hash(topic));
    WalkElements(s.keys, h.hash(topic));
    WalkIsClockwise(s.keys, h.hash(topic));
    EmptyPreference(h, s, topic);
    var owners := Owners(s.ring, walk);
    FirstsPrefix(owners, 1);
    FirstOfOne(owners);
    k := walk[0];
    assert k in walk;
    forall x | x in s.ring && x != k
      ensures Before(k, x, h.hash(topic))
    {
      assert x in walk;
      var q :| 0 <= q < |walk| && walk[q] == x;
    }
  }

  lemma FirstOfOne(nodes: seq<string>)
    requires nodes != []
    ensures Firsts(nodes[..1]) == [nodes[0]]
  {
    assert nodes[..1] == [nodes[0]];
  }

  /** What losing one element does to the first `count`: the next one moves up. */
  lemma FirstOfWithout(nodes: seq<string>, node: string, count: nat)
    requires NoDup(nodes) && count > 0
    ensures
      var before, after := FirstOf(nodes, count), FirstOf(Without(nodes, node), count);
      after == if node in before then Without(before, node) + (if count < |nodes| then [nodes[count]] else []) else before
  {
    hide Without, NoDup;
    if count < |nodes| {
      var front, back := nodes[..count], nodes[count..];
      assert nodes == front + back && back[0] == nodes[count];
      WithoutConcat(front, back, node);
      DistinctParts(front, back, node);
      if node in front {
        WithoutAbsent(back, node);
        WithoutSize(front, node);
        FirstOfGap(Without(front, node), back, count);
      } else {
        WithoutAbsent(front, node);
      }
    } else if node !in nodes {
      WithoutAbsent(nodes, node);
    }
  }

  lemma FirstOfGap(front: seq<string>, back: seq<string>, count: nat)
    requires |front| + 1 == count && back != []
    ensures FirstOf(front + back, count) == front + [back[0]]
  {
  }

  lemma DistinctParts(front: seq<string>, back: seq<string>, node: string)
    requires NoDup(front + back)
    ensures NoDup(front) && (node in front ==> node !in back)
  {
    var nodes := front + back;
    assert forall i | 0 <= i < |front| :: nodes[i] == front[i];
    assert forall i | 0 <= i < |back| :: nodes[|front| + i] == back[i];
  }

  /** When a broker leaves, only the topics it replicated change: it goes, and the next one in line moves up. */
  lemma RemovalMovesOnlyItsTopics(h: Hashing, s: RingState, members: set<string>, node: string, topic: string, count: nat)
    requires Represents(h, s, members) && Spared(h, members, node) && count > 0
    ensures WellFormed(WithoutNode(h, s, node))
    ensures
      var order := Preference(h, s, topic);
      var before, after := FirstOf(order, count), FirstOf(Preference(h, WithoutNode(h, s, node), topic), count);
      after == if node in before then Without(before, node) + (if count < |order| then [order[count]] else []) else before
  {
    RemovalFiltersPreference(h, s, members, node, topic);
    FirstOfWithout(Preference(h, s, topic), node, count);
  }

  /** When a broker joins, a topic gains at most that broker: no topic moves between the others. */
  lemma AdditionMovesOnlyToNew(h: Hashing, s: RingState, members: set<string>, node: string, topic: string, count: nat)
    requires Represents(h, s, members) && node !in members && h.CollisionFree(members + {node}) && count > 0
    ensures WellFormed(WithNode(h, s, node))
    ensures Preference(h, s, topic) == Without(Preference(h, WithNode(h, s, node), topic), node)
    ensures
      var before, after := FirstOf(Preference(h, s, topic), count), FirstOf(Preference(h, WithNode(h, s, node), topic), count);
      && (forall n | n in after :: n == node || n in before)
      && (node !in after ==> after == before)
  {
    hide Preference, Hashing.CollisionFree, WithNode, WithoutNode, Increasing, Represents;
    var t := WithNode(h, s, node);
    AddRepresents(h, s, members, node);
    RepresentedIsWellFormed(h, s, members);
    RepresentedIsWellFormed(h, t, members + {node});
    assert (members + {node}) + {node} == members + {node} && (members + {node}) - {node} == members;
    RemoveRepresentsIff(h, t, members + {node}, node);
    RepresentsUnique(h, s, WithoutNode(h, t, node), members);
    RemovalFiltersPreference(h, t, members + {node}, node, topic);
    FirstOfWithout(Preference(h, t, topic), node, count);
  }

  lemma {:induction false} FirstsPrefix(nodes: seq<string>, i: nat)
    requires i <= |nodes|
    ensures |Firsts(nodes[..i])| <= |Firsts(nodes)| && Firsts(nodes[..i]) == Firsts(nodes)[..|Firsts(nodes[..i])|]
    decreases |nodes| - i
  {
    if i == |nodes| {
      assert nodes[..i] == nodes;
    } else {
      FirstsPrefix(nodes, i + 1);
      assert nodes[..i + 1][..i] == nodes[..i];
    }
  }

  lemma AddKeysStep(s: RingState, points: seq<nat>, i: nat, node: string)
    requires i < |points|
    ensures AddKeys(s, points[..i + 1], node) == AddKey(AddKeys(s, points[..i], node), points[i], node)
  {
    assert points[..i + 1][..i] == points[..i];
  }

  lemma RemoveKeysStep(s: RingState, points: seq<nat>, i: nat)
    requires i < |points|
    ensures RemoveKeys(s, points[..i + 1]) == RemoveKey(RemoveKeys(s, points[..i]), points[i])
  {
    assert points[..i + 1][..i] == points[..i];
  }

  lemma NoKeys(s: RingState, node: string)
    ensures AddKeys(s, [], node) == s == RemoveKeys(s, [])
  {
  }

  class ConsistentHashRing {
    const hashing: Hashing
    var ring: map<nat, string>
    var sortedKeys: seq<nat>

    constructor (hashing: Hashing)
      ensures this.hashing == hashing && ring == map[] && sortedKeys == []
    {
      this.hashing := hashing;
      ring, sortedKeys := map[], [];
    }

    ghost function State(): RingState
      reads this
    {
      RingState(ring, sortedKeys)
    }

    method AddNode(node: string)
      modifies this
      ensures State() == WithNode(hashing, old(State()), node)
    {
      hide AddKeys, RemoveKeys, Upper;
      RemoveNode(node);
      ghost var start := State();
      ghost var points := hashing.Points(node);
      NoKeys(start, node);
      assert points[..0] == [];
      for i := 0 to hashing.replicas
        invariant State() == AddKeys(start, points[..i], node)
      {
        AddKeysStep(start, points, i, node);
        var key := hashing.Point(node, i);
        ring := ring[key := node];
        var idx := Upper(sortedKeys, key);
        sortedKeys := sortedKeys[..idx] + [key] + sortedKeys[idx..];
      }
      assert points[..hashing.replicas] == points;
    }

    method RemoveNode(node: string)
      modifies this
      ensures State() == WithoutNode(hashing, old(State()), node)
    {
      hide RemoveKeys, Lower;
      ghost var start := State();
      ghost var points := hashing.Points(node);
      NoKeys(start, node);
      assert points[..0] == [];
      for i := 0 to hashing.replicas
        invariant State() == RemoveKeys(start, points[..i])
      {
        RemoveKeysStep(start, points, i);
        var key := hashing.Point(node, i);
        if key in ring {
          ring := ring - {key};
          var idx := Lower(sortedKeys, key);
          if idx < |sortedKeys| && sortedKeys[idx] == key {
            sortedKeys := sortedKeys[..idx] + sortedKeys[idx + 1..];
          }
        }
      }
      assert points[..hashing.replicas] == points;
    }

    /** The owner of the first virtual node after the topic: the head of its preference list. */
    method GetNode(topic: string) returns (r: Option<string>)
      requires WellFormed(State())
      ensures Preference(hashing, State(), topic) == [] <==> ring == map[]
      ensures r == if ring == map[] then None else Some(Preference(hashing, State(), topic)[0])
    {
      EmptyPreference(hashing, State(), topic);
      if ring == map[] {
        return None;
      }
      var key := hashing.hash(topic);
      var idx := Upper(sortedKeys, key);
      HeadOfWalk(hashing, State(), topic);
      if idx == |sortedKeys| {
        idx := 0;
      }
      return Some(ring[sortedKeys[idx]]);
    }

    /** The first `count` of the preference list, all of it for a `count` below one. */
    method GetReplicas(topic: string, count: int) returns (replicas: seq<string>)
      requires WellFormed(State())
      ensures replicas == FirstOf(Preference(hashing, State(), topic), count)
    {
      hide Upper, Walk, Owners, Firsts, Increasing, NoDup, FirstOf;
      EmptyPreference(hashing, State(), topic);
      FirstOfAll([], count);
      if ring == map[] {
        return [];
      }
      var key := hashing.hash(topic);
      var idx := Upper(sortedKeys, key);
      replicas := [];
      var n := |sortedKeys|;
      WalkElements(sortedKeys, key);
      ghost var owners := Owners(ring, Walk(sortedKeys, key));
      EmptyFirsts(owners[..0]);
      assert owners[..n] == owners;
      for i := 0 to n
        invariant replicas == Firsts(owners[..i])
        invariant count > 0 ==> |replicas| < count
      {
        NextOwner(ring, sortedKeys, key, i);
        FirstsStep(owners, i);
        var node := ring[sortedKeys[(idx + i) % n]];
        if node !in replicas {
          replicas := replicas + [node];
          if |replicas| == count {
            FirstsPrefix(owners, i + 1);
            FirstOfPrefix(Firsts(owners), count);
            break;
          }
        }
      }
      FirstOfAll(replicas, count);
    }
  }

  lemma FirstOfPrefix(nodes: seq<string>, count: nat)
    requires 0 < count <= |nodes|
    ensures FirstOf(nodes, count) == nodes[..count]
  {
  }

  lemma FirstOfAll(nodes: seq<string>, count: int)
    ensures count <= 0 || |nodes| <= count ==> FirstOf(nodes, count) == nodes
  {
  }

  lemma EmptyPreference(h: Hashing, s: RingState, topic: string)
    requires WellFormed(s)
    ensures s.keys == [] <==> s.ring == map[]
    ensures Preference(h, s, topic) == [] <==> s.ring == map[]
  {
    var walk := Walk(s.keys, h.hash(topic));
    KeysCount(s);
    WalkElements(s.keys, h.hash(topic));
    EmptyFirsts(Owners(s.ring, walk));
    assert s.keys == [] <==> |walk| == 0;
    assert s.ring == map[] <==> |s.ring.Keys| == 0;
  }

  lemma EmptyFirsts(nodes: seq<string>)
    ensures Firsts(nodes) == [] <==> nodes == []
  {
    if nodes != [] {
      assert nodes[0] in Firsts(nodes);
    }
  }

  lemma InWalk(keys: seq<nat>, key: nat, i: nat)
    requires i < |keys|
    ensures Walk(keys, key)[i] == keys[(Upper(keys, key) + i) % |keys|]
  {
    hide Upper;
    var u, n := Upper(keys, key), |keys|;
    Wraps(u + i, n);
    assert Walk(keys, key)[i] == keys[if u + i < n then u + i else u + i - n];
  }

  lemma NextOwner(ring: map<nat, string>, keys: seq<nat>, key: nat, i: nat)
    requires i < |keys| && forall k | k in keys :: k in ring
    ensures forall k | k in Walk(keys, key) :: k in ring
    ensures |Walk(keys, key)| == |keys|
    ensures Owners(ring, Walk(keys, key))[i] == ring[keys[(Upper(keys, key) + i) % |keys|]]
  {
    hide Upper, Walk;
    WalkElements(keys, key);
    InWalk(keys, key, i);
  }

  lemma Wraps(a: nat, n: nat)
    requires 0 < n && a < 2 * n
    ensures a % n == if a < n then a else a - n
  {
  }

  lemma FirstsStep(nodes: seq<string>, i: nat)
    requires i < |nodes|
    ensures Firsts(nodes[..i + 1]) ==
            if nodes[i] in Firsts(nodes[..i]) then Firsts(nodes[..i]) else Firsts(nodes[..i]) + [nodes[i]]
  {
    assert nodes[..i + 1][..i] == nodes[..i];
  }

  lemma HeadOfWalk(h: Hashing, s: RingState, topic: string)
    requires WellFormed(s) && s.ring != map[]
    ensures
      var idx := Upper(s.keys, h.hash(topic));
      Preference(h, s, topic) != [] && s.keys != []
      && Preference(h, s, topic)[0] == s.ring[s.keys[if idx == |s.keys| then 0 else idx]]
  {
    var owners := Owners(s.ring, Walk(s.keys, h.hash(topic)));
    EmptyPreference(h, s, topic);
    FirstsPrefix(owners, 1);
    assert owners[..1] == [owners[0]] && Firsts(owners[..1]) == [owners[0]];
  }
}
