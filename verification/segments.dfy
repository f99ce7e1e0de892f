/** Segment metadata, and the cache key a segment goes by. */
module Segments {
  import opened Decimal
  import opened Paths

  datatype SegmentState = ACTIVE | SEALED | EXPIRED | DELETED

  datatype SegmentMeta = SegmentMeta(
    topic: string,
    baseOffset: int,
    path: FilePath,
    state: SegmentState,
    createdAt: int,
    size: int)
  {
    function GetId(): string {
      CacheKey(topic, baseOffset)
    }

    predicate IsMutable() {
      state == ACTIVE
    }

    function GetEndOffset(): int {
      baseOffset + size
    }

    /** The half-open interval of offsets the segment holds. */
    predicate Contains(offset: int) {
      baseOffset <= offset < GetEndOffset()
    }
  }

  /** `SegmentPolicy.should_rollover`; `expired` stands for the comparison with the clock. */
  predicate ShouldRollover(meta: SegmentMeta, messageSize: nat, maxSegmentSize: int, expired: bool) {
    expired || meta.size + messageSize > maxSegmentSize
  }

  function CacheKey(topic: string, baseOffset: int): string {
    topic + Dec(baseOffset)
  }

  // -- Cache keys ------------------------------------------------------------------------------

  lemma KeyInjectiveInTopic(topic: string, a: int, b: int)
    requires CacheKey(topic, a) == CacheKey(topic, b)
    ensures a == b
  {
    assert Dec(a) == CacheKey(topic, a)[|topic|..] == CacheKey(topic, b)[|topic|..] == Dec(b);
    DecInjective(a, b);
  }

  /** One topic continues another with a numeral that does not start with a zero. */
  predicate ExtendsByNumeral(long: string, short: string) {
    && |short| < |long|
    && long[..|short|] == short
    && AllDigits(long[|short|..])
    && long[|short|] != '0'
  }

  /** No topic of the set continues another one with such a numeral. */
  ghost predicate KeySafe(topics: set<string>) {
    forall s, t {:trigger ExtendsByNumeral(s, t)} | s in topics && t in topics :: !ExtendsByNumeral(s, t)
  }

  ghost predicate KeysUnique(topics: set<string>) {
    forall s, t, a: nat, b: nat
      | s in topics && t in topics && CacheKey(s, a) == CacheKey(t, b)
      :: s == t && a == b
  }

  lemma DecIsCanonical(n: nat)
    ensures Canonical(Dec(n))
  {
  }

  lemma CollisionExtends(s: string, a: nat, t: string, b: nat)
    requires CacheKey(s, a) == CacheKey(t, b)
    requires |t| < |s|
    ensures ExtendsByNumeral(s, t)
  {
    hide Dec, IsDigit;
    DecIsCanonical(a);
    DecIsCanonical(b);
    var k, d := CacheKey(s, a), s[|t|..];
    assert s == k[..|s|] && t == k[..|t|] == s[..|t|];
    assert Dec(b) == k[|t|..] == d + Dec(a);
    assert forall i | 0 <= i < |d| :: d[i] == Dec(b)[i];
  }

  lemma ExtensionCollides(s: string, t: string)
    requires ExtendsByNumeral(s, t)
    ensures CacheKey(s, 0) == CacheKey(t, Value(s[|t|..] + "0"))
  {
    var d := s[|t|..];
    DigitsOfValue(d + "0");
    assert s == t + d && Dec(0) == "0";
    assert t + (d + "0") == (t + d) + "0";
  }

  /** Cache keys tell all segments of a set of topics apart exactly when no topic continues another
      with a numeral that has no leading zero. Topics whose names never end in a digit are the simple case. */
  lemma KeysUniqueIff(topics: set<string>)
    ensures KeysUnique(topics) <==> KeySafe(topics)
  {
    if KeySafe(topics) {
      forall s, t, a: nat, b: nat | s in topics && t in topics && CacheKey(s, a) == CacheKey(t, b)
        ensures s == t && a == b
      {
        if |t| < |s| {
          CollisionExtends(s, a, t, b);
        } else if |s| < |t| {
          CollisionExtends(t, b, s, a);
        } else {
          assert s == CacheKey(s, a)[..|s|] == t;
          KeyInjectiveInTopic(s, a, b);
        }
      }
    } else {
      var s, t :| s in topics && t in topics && ExtendsByNumeral(s, t);
      ExtensionCollides(s, t);
    }
  }

  lemma NoFinalDigitIsSafe(topics: set<string>)
    requires forall t | t in topics :: t == "" || !IsDigit(t[|t| - 1])
    ensures KeySafe(topics)
  {
  }

  /** Two live topics that share a cache entry: the first segment of "a1" and the one of "a" at 10. */
  lemma SharedKeyExample()
    ensures CacheKey("a1", 0) == CacheKey("a", 10) && !KeySafe({"a", "a1"})
  {
    assert Digits(10) == Digits(1) + [DigitChar(0)] == "10";
    assert ExtendsByNumeral("a1", "a");
  }

  /** What the topic names of one log must satisfy: no two segments share a cache entry, and none shares a file. */
  ghost predicate TopicsSafe(place: Place, topics: set<string>) {
    KeySafe(topics) && PathsApart(place, topics)
  }

  lemma TopicsSafeSubset(place: Place, few: set<string>, many: set<string>)
    requires TopicsSafe(place, many) && few <= many
    ensures TopicsSafe(place, few)
  {
  }

  /** The cache keys alone do not tell files apart: these two never share a cache entry, and always share a file. */
  lemma SharedFileExample(place: Place)
    ensures KeySafe({"a", "a/"}) && !TopicsSafe(place, {"a", "a/"})
    ensures CacheKey("a", 0) != CacheKey("a/", 0) && place.DirOf("a") == place.DirOf("a/")
  {
    hide Place.DirOf, PathsApart, KeySafe, IsDigit;
    LettersOnly();
    TrailingSlash(place);
    assert CacheKey("a", 0)[1] != CacheKey("a/", 0)[1];
  }

  lemma LettersOnly()
    ensures KeySafe({"a", "a/"})
    ensures Dec(0)[0] != '/'
  {
    NoFinalDigitIsSafe({"a", "a/"});
  }
}
