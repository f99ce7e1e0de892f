/** Splitting and joining text at a separator. */
module Text {

  function IndexOf(s: string, c: char): (i: nat)
    requires c in s
    ensures i < |s| && s[i] == c && c !in s[..i]
  {
    if s[0] == c then 0
    else
      assert s == [s[0]] + s[1..];
      var i := 1 + IndexOf(s[1..], c);
      assert s[..i] == [s[0]] + s[1..][..i - 1];
      i
  }

  /** `s.split(c, max)`. */
  function SplitMax(s: string, c: char, max: nat): (parts: seq<string>)
    ensures 1 <= |parts| <= max + 1
    ensures forall i | 0 <= i < |parts| - 1 :: c !in parts[i]
    decreases max
  {
    if max == 0 || c !in s then [s]
    else
      var i := IndexOf(s, c);
      [s[..i]] + SplitMax(s[i + 1..], c, max - 1)
  }

  /** `s.split(c)`. */
  function Split(s: string, c: char): (parts: seq<string>)
    ensures |parts| >= 1
    ensures forall i | 0 <= i < |parts| :: c !in parts[i]
    decreases |s|
  {
    if c !in s then [s]
    else
      var i := IndexOf(s, c);
      [s[..i]] + Split(s[i + 1..], c)
  }

  /** `c.join(parts)`. */
  function Join(parts: seq<string>, c: char): string {
    if parts == [] then ""
    else if |parts| == 1 then parts[0]
    else parts[0] + [c] + Join(parts[1..], c)
  }

  predicate Free(parts: seq<string>, c: char) {
    forall i | 0 <= i < |parts| :: c !in parts[i]
  }

  lemma {:induction false} IndexOfFirst(a: string, c: char, rest: string)
    requires c !in a
    ensures c in a + [c] + rest && IndexOf(a + [c] + rest, c) == |a|
    ensures (a + [c] + rest)[..|a|] == a && (a + [c] + rest)[|a| + 1..] == rest
  {
    if a == [] {
      assert a + [c] + rest == [c] + rest;
    } else {
      IndexOfFirst(a[1..], c, rest);
      assert (a + [c] + rest)[1..] == a[1..] + [c] + rest;
    }
  }

  /** Splitting undoes joining when only the last part may hold the separator. */
  lemma {:induction false} SplitMaxJoin(parts: seq<string>, c: char)
    requires parts != [] && Free(parts[..|parts| - 1], c)
    ensures SplitMax(Join(parts, c), c, |parts| - 1) == parts
  {
    if |parts| > 1 {
      assert parts[..|parts| - 1][0] == parts[0];
      assert parts[1..][..|parts| - 2] == parts[..|parts| - 1][1..];
      SplitMaxJoin(parts[1..], c);
      IndexOfFirst(parts[0], c, Join(parts[1..], c));
    }
  }

  /** Splitting undoes joining exactly when there is something to join and no part holds the separator. */
  lemma {:induction false} SplitJoinIff(parts: seq<string>, c: char)
    ensures Split(Join(parts, c), c) == parts <==> parts != [] && Free(parts, c)
  {
    if |parts| == 1 {
      assert parts == [parts[0]];
    } else if |parts| > 1 && Free(parts, c) {
      SplitJoinIff(parts[1..], c);
      IndexOfFirst(parts[0], c, Join(parts[1..], c));
    }
  }

  lemma {:induction false} JoinHas(parts: seq<string>, c: char, x: char)
    requires x in Join(parts, c)
    ensures x == c || exists i :: 0 <= i < |parts| && x in parts[i]
  {
    if |parts| == 1 {
      assert x in parts[0];
    } else if |parts| > 1 {
      if x !in parts[0] && x != c {
        JoinHas(parts[1..], c, x);
        var i :| 0 <= i < |parts[1..]| && x in parts[1..][i];
        assert x in parts[i + 1];
      }
    }
  }

  lemma {:induction false} JoinHolds(parts: seq<string>, c: char, i: nat, x: char)
    requires i < |parts| && x in parts[i]
    ensures x in Join(parts, c)
  {
    if |parts| > 1 && i > 0 {
      JoinHolds(parts[1..], c, i - 1, x);
    }
  }

  lemma JoinStarts(parts: seq<string>, c: char)
    requires parts != []
    ensures parts[0] <= Join(parts, c)
    ensures |parts| == 1 ==> Join(parts, c) == parts[0]
  {
  }

  /** Joining undoes splitting. */
  lemma {:induction false} JoinSplit(s: string, c: char)
    ensures Join(Split(s, c), c) == s
    decreases |s|
  {
    hide Split, Join;
    if c in s {
      var i := IndexOf(s, c);
      var first, rest := s[..i], s[i + 1..];
      assert s == first + [c] + rest;
      SplitFirst(first, c, rest);
      JoinFirst(first, Split(rest, c), c);
      JoinSplit(rest, c);
    } else {
      SplitWhole(s, c);
      JoinStarts([s], c);
    }
  }

  lemma SplitFirst(first: string, c: char, rest: string)
    requires c !in first
    ensures Split(first + [c] + rest, c) == [first] + Split(rest, c)
  {
    IndexOfFirst(first, c, rest);
  }

  lemma SplitWhole(s: string, c: char)
    requires c !in s
    ensures Split(s, c) == [s]
  {
  }

  lemma JoinFirst(first: string, parts: seq<string>, c: char)
    requires parts != []
    ensures Join([first] + parts, c) == first + [c] + Join(parts, c)
  {
    assert ([first] + parts)[1..] == parts;
  }

  lemma SplitHolds(s: string, c: char, i: nat, x: char)
    requires i < |Split(s, c)| && x in Split(s, c)[i]
    ensures x in s
  {
    JoinHolds(Split(s, c), c, i, x);
    JoinSplit(s, c);
  }

  lemma {:induction false} SplitConcat(a: string, b: string, c: char)
    ensures Split(a + [c] + b, c) == Split(a, c) + Split(b, c)
    decreases |a|
  {
    hide Split;
    if c in a {
      var i := IndexOf(a, c);
      var first, rest := a[..i], a[i + 1..];
      assert a == first + [c] + rest;
      assert a + [c] + b == first + [c] + (rest + [c] + b);
      SplitFirst(first, c, rest);
      SplitFirst(first, c, rest + [c] + b);
      SplitConcat(rest, b, c);
    } else {
      SplitWhole(a, c);
      SplitFirst(a, c, b);
    }
  }

  function Count(s: string, c: char): nat {
    if s == [] then 0 else (if s[0] == c then 1 else 0) + Count(s[1..], c)
  }

  lemma {:induction false} CountConcat(a: string, b: string, c: char)
    ensures Count(a + b, c) == Count(a, c) + Count(b, c)
  {
    if a == [] {
      assert a + b == b;
    } else {
      assert (a + b)[1..] == a[1..] + b;
      CountConcat(a[1..], b, c);
    }
  }

  lemma {:induction false} CountNone(s: string, c: char)
    ensures Count(s, c) == 0 <==> c !in s
  {
    if s != [] {
      assert s == [s[0]] + s[1..];
      CountNone(s[1..], c);
    }
  }

  lemma CountFirst(first: string, c: char, rest: string)
    requires c !in first
    ensures Count(first + [c] + rest, c) == 1 + Count(rest, c)
  {
    assert first + [c] + rest == first + ([c] + rest);
    CountConcat(first, [c] + rest, c);
    CountNone(first, c);
    assert ([c] + rest)[1..] == rest;
  }

  lemma SplitMaxFirst(first: string, c: char, rest: string, max: nat)
    requires c !in first && max > 0
    ensures SplitMax(first + [c] + rest, c, max) == [first] + SplitMax(rest, c, max - 1)
  {
    IndexOfFirst(first, c, rest);
  }

  lemma SplitMaxWhole(s: string, c: char, max: nat)
    requires max == 0 || c !in s
    ensures SplitMax(s, c, max) == [s]
  {
  }

  /** There is one part more than separators, up to the maximum. */
  lemma {:induction false} SplitMaxSize(s: string, c: char, max: nat)
    ensures |SplitMax(s, c, max)| == (if Count(s, c) < max then Count(s, c) else max) + 1
    decreases max
  {
    hide SplitMax, Count;
    CountNone(s, c);
    if max > 0 && c in s {
      var i := IndexOf(s, c);
      var first, rest := s[..i], s[i + 1..];
      assert s == first + [c] + rest;
      CountFirst(first, c, rest);
      SplitMaxFirst(first, c, rest, max);
      SplitMaxSize(rest, c, max - 1);
    } else {
      SplitMaxWhole(s, c, max);
    }
  }

  /** Joining two last parts before joining all makes no difference. */
  lemma {:induction false} JoinTail(parts: seq<string>, a: string, b: string, c: char)
    ensures Join(parts + [a, b], c) == Join(parts + [Join([a, b], c)], c)
  {
    assert Join([a, b], c) == a + [c] + b by {
      assert [a, b][1..] == [b];
    }
    if parts == [] {
      assert parts + [a, b] == [a, b] && parts + [Join([a, b], c)] == [Join([a, b], c)];
    } else {
      assert (parts + [a, b])[1..] == parts[1..] + [a, b];
      assert (parts + [Join([a, b], c)])[1..] == parts[1..] + [Join([a, b], c)];
      JoinTail(parts[1..], a, b, c);
    }
  }
}
