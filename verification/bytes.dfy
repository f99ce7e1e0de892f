/** Bytes, length prefixes and framed records. */
module Bytes {

  type byte = x: int | 0 <= x < 256

  const PREFIX_SIZE := 4
  const FRAME_LIMIT := 0x1_0000_0000

  /** A byte string whose length fits the four-byte prefix. */
  type Payload = p: seq<byte> | |p| < FRAME_LIMIT witness []

  /** `n.to_bytes(4, "big")`. */
  function ToBytes(n: nat): (r: seq<byte>)
    requires n < FRAME_LIMIT
    ensures |r| == PREFIX_SIZE
  {
    [n / 0x100_0000, n / 0x1_0000 % 0x100, n / 0x100 % 0x100, n % 0x100]
  }

  /** `int.from_bytes(b, "big")`, for any number of bytes. */
  function FromBytes(b: seq<byte>): nat {
    if b == [] then 0 else FromBytes(b[..|b| - 1]) * 256 + b[|b| - 1]
  }

  lemma FromFourBytes(b: seq<byte>)
    requires |b| == 4
    ensures FromBytes(b) == (b[0] as int) * 0x100_0000 + (b[1] as int) * 0x1_0000 + (b[2] as int) * 0x100 + b[3] as int
  {
    assert b[..3][..2] == b[..2] && b[..2][..1] == b[..1] && b[..1][..0] == [];
    assert FromBytes(b[..1]) == b[0];
    assert FromBytes(b[..2]) == (b[0] as int) * 256 + b[1] as int;
    assert FromBytes(b[..3]) == ((b[0] as int) * 256 + b[1] as int) * 256 + b[2] as int;
  }

  /** A number is made of its digits to the base 256. */
  lemma FourDigits(n: nat)
    requires n < FRAME_LIMIT
    ensures n / 0x100_0000 * 0x100_0000 + n / 0x1_0000 % 0x100 * 0x1_0000 + n / 0x100 % 0x100 * 0x100 + n % 0x100 == n
  {
    var a := n / 0x100;
    var b := a / 0x100;
    assert n == a * 0x100 + n % 0x100;
    assert a == b * 0x100 + a % 0x100 && b == n / 0x1_0000;
    assert b == b / 0x100 * 0x100 + b % 0x100 && b / 0x100 == n / 0x100_0000;
  }

  lemma PrefixRoundTrip(n: nat)
    requires n < FRAME_LIMIT
    ensures FromBytes(ToBytes(n)) == n
  {
    hide FromBytes;
    FourDigits(n);
    FromFourBytes(ToBytes(n));
  }

  /** A length prefix followed by the payload. */
  function Frame(p: Payload): (r: seq<byte>)
    ensures |r| == |p| + PREFIX_SIZE
  {
    ToBytes(|p|) + p
  }

  lemma FrameAt(p: Payload, rest: seq<byte>)
    ensures FromBytes((Frame(p) + rest)[..4]) == |p|
    ensures (Frame(p) + rest)[4..4 + |p|] == p
    ensures (Frame(p) + rest)[4 + |p|..] == rest
  {
    assert (Frame(p) + rest)[..4] == ToBytes(|p|);
    PrefixRoundTrip(|p|);
  }

  /** Records framed one after the other: the contents of a log file. */
  function Frames(rs: seq<Payload>): (r: seq<byte>)
    ensures rs != [] ==> |r| >= PREFIX_SIZE
  {
    if rs == [] then [] else Frame(rs[0]) + Frames(rs[1..])
  }

  lemma {:induction false} FramesConcat(a: seq<Payload>, b: seq<Payload>)
    ensures Frames(a + b) == Frames(a) + Frames(b)
  {
    if a == [] {
      assert a + b == b;
    } else {
      assert (a + b)[0] == a[0] && (a + b)[1..] == a[1..] + b;
      FramesConcat(a[1..], b);
    }
  }

  lemma FramesOne(p: Payload)
    ensures Frames([p]) == Frame(p)
  {
    assert Frames([p]) == Frame(p) + Frames([]);
  }

  lemma FramesSnoc(rs: seq<Payload>, p: Payload)
    ensures Frames(rs + [p]) == Frames(rs) + Frame(p)
  {
    FramesConcat(rs, [p]);
    FramesOne(p);
  }

  /** Where record `k` of a framed log starts. */
  function OffsetOf(rs: seq<Payload>, k: nat): nat
    requires k <= |rs|
  {
    |Frames(rs[..k])|
  }

  lemma StartsAtZero(rs: seq<Payload>)
    ensures OffsetOf(rs, 0) == 0
  {
    assert rs[..0] == [];
  }

  lemma WholeLog(rs: seq<Payload>)
    ensures OffsetOf(rs, |rs|) == |Frames(rs)|
  {
    assert rs[..|rs|] == rs;
  }

  /** Cutting the log at a record boundary leaves framed records on both sides. */
  lemma CutAtRecord(rs: seq<Payload>, j: nat, k: nat)
    requires j <= k <= |rs|
    ensures OffsetOf(rs, j) + |Frames(rs[j..k])| == OffsetOf(rs, k) <= |Frames(rs)|
    ensures Frames(rs)[OffsetOf(rs, j)..OffsetOf(rs, k)] == Frames(rs[j..k])
  {
    assert rs == rs[..k] + rs[k..] && rs[..k] == rs[..j] + rs[j..k];
    FramesConcat(rs[..k], rs[k..]);
    FramesConcat(rs[..j], rs[j..k]);
  }

  lemma SliceOfSlice(w: seq<byte>, o: nat, e: nat, a: nat, b: nat)
    requires o <= e <= |w| && a <= b <= e - o
    ensures w[o..e][a..b] == w[o + a..o + b]
  {
    var part := w[o..e];
    assert forall i | a <= i < b :: part[i] == w[o + i];
    assert part[a..b] == w[o + a..o + b];
  }

  /** Record `k` stands where its offset says, prefix first. */
  lemma RecordAt(rs: seq<Payload>, k: nat)
    requires k < |rs|
    ensures OffsetOf(rs, k + 1) == OffsetOf(rs, k) + 4 + |rs[k]| <= |Frames(rs)|
    ensures FromBytes(Frames(rs)[OffsetOf(rs, k)..OffsetOf(rs, k) + 4]) == |rs[k]|
    ensures Frames(rs)[OffsetOf(rs, k) + 4..OffsetOf(rs, k + 1)] == rs[k]
  {
    hide Frames, FromBytes, OffsetOf, Frame;
    CutAtRecord(rs, k, k + 1);
    assert rs[k..k + 1] == [rs[k]];
    FramesOne(rs[k]);
    var o, e, w := OffsetOf(rs, k), OffsetOf(rs, k + 1), Frames(rs);
    FrameAt(rs[k], []);
    assert Frame(rs[k]) + [] == w[o..e];
    SliceOfSlice(w, o, e, 0, 4);
    SliceOfSlice(w, o, e, 4, 4 + |rs[k]|);
  }

  lemma {:induction false} OffsetsIncrease(rs: seq<Payload>, j: nat, k: nat)
    requires j < k <= |rs|
    ensures OffsetOf(rs, j) < OffsetOf(rs, k)
  {
    CutAtRecord(rs, j, k);
    assert rs[j..k] != [];
  }

  function Min(a: int, b: int): int {
    if a < b then a else b
  }

  function Max(a: int, b: int): int {
    if a < b then b else a
  }

  /** What `parse_records` yields for any bytes: slices past the end are cut short. */
  function SplitRecords(payload: seq<byte>): seq<seq<byte>>
    decreases |payload|
  {
    if payload == [] then []
    else
      var length := FromBytes(payload[..Min(4, |payload|)]);
      var start := Min(4, |payload|);
      var end := Min(4 + length, |payload|);
      [payload[start..end]] + SplitRecords(payload[end..])
  }

  /** One turn of the parsing loop, seen from position `i` of the whole payload. */
  lemma SplitStep(payload: seq<byte>, i: nat)
    requires i < |payload|
    ensures
      var n := |payload|;
      var length := FromBytes(payload[i..Min(i + 4, n)]);
      SplitRecords(payload[i..]) ==
      [payload[Min(i + 4, n)..Min(i + 4 + length, n)]] + SplitRecords(payload[Min(i + 4 + length, n)..])
  {
    hide FromBytes;
    var n, rest := |payload|, payload[i..];
    var length := FromBytes(payload[i..Min(i + 4, n)]);
    assert rest[..Min(4, |rest|)] == payload[i..Min(i + 4, n)];
    var start, end := Min(4, |rest|), Min(4 + length, |rest|);
    assert i + start == Min(i + 4, n) && i + end == Min(i + 4 + length, n);
    assert rest[start..end] == payload[i + start..i + end];
    assert rest[end..] == payload[i + end..];
  }

  lemma NoRecords()
    ensures SplitRecords([]) == []
  {
  }

  method ParseRecords(payload: seq<byte>) returns (records: seq<seq<byte>>)
    ensures records == SplitRecords(payload)
  {
    hide SplitRecords, FromBytes;
    NoRecords();
    records := [];
    var i, n := 0, |payload|;
    assert payload[Min(i, n)..] == payload;
    while i < n
      invariant 0 <= i
      invariant SplitRecords(payload) == records + SplitRecords(payload[Min(i, n)..])
    {
      ghost var before := i;
      var length := FromBytes(payload[i..Min(i + 4, n)]);
      i := i + 4;
      var record := payload[Min(i, n)..Min(i + length, n)];
      i := i + length;
      records := records + [record];
      SplitStep(payload, before);
      assert records + SplitRecords(payload[Min(i, n)..])
          == records[..|records| - 1] + ([record] + SplitRecords(payload[Min(i, n)..]));
    }
    assert payload[Min(i, n)..] == [];
  }

  /** Splitting undoes framing, whatever the payloads hold. */
  lemma {:induction false} SplitFrames(rs: seq<Payload>)
    ensures SplitRecords(Frames(rs)) == rs
  {
    if rs != [] {
      SplitFrames(rs[1..]);
      SplitWhole(rs[0], Frames(rs[1..]));
      assert rs == [rs[0]] + rs[1..];
    }
  }

  /** A log that is cut inside a record: the whole records, and what there is of the last one behind its prefix. */
  lemma {:induction false} SplitCut(rs: seq<Payload>, p: Payload, n: nat)
    requires 0 < n < |Frame(p)|
    ensures SplitRecords(Frames(rs) + Frame(p)[..n]) == rs + [if n <= 4 then [] else p[..n - 4]]
  {
    if rs == [] {
      assert Frames(rs) + Frame(p)[..n] == Frame(p)[..n];
      SplitPart(p, n);
    } else {
      var rest := Frames(rs[1..]) + Frame(p)[..n];
      var w := Frame(rs[0]) + rest;
      assert Frames(rs) + Frame(p)[..n] == w;
      SplitCut(rs[1..], p, n);
      SplitWhole(rs[0], rest);
      assert rs == [rs[0]] + rs[1..];
    }
  }

  lemma SplitWhole(p: Payload, rest: seq<byte>)
    ensures SplitRecords(Frame(p) + rest) == [p] + SplitRecords(rest)
  {
    hide FromBytes;
    var w := Frame(p) + rest;
    FrameAt(p, rest);
    assert Min(4, |w|) == 4 && Min(4 + |p|, |w|) == 4 + |p|;
  }

  lemma SplitPart(p: Payload, n: nat)
    requires 0 < n < |Frame(p)|
    ensures SplitRecords(Frame(p)[..n]) == [if n <= 4 then [] else p[..n - 4]]
  {
    hide FromBytes;
    var w := Frame(p)[..n];
    NoRecords();
    if n <= 4 {
      assert w[n..n] == [] && w[n..] == [];
    } else {
      assert w[..4] == ToBytes(|p|);
      PrefixRoundTrip(|p|);
      assert w[4..n] == p[..n - 4] && w[n..] == [];
    }
  }
}
