/** Where segment files lie. A topic name becomes part of a path as it is, so what matters is where the path leads:
    empty and "." components stay, ".." goes up. Directories are sequences of names from the root. */
module Paths {
  import opened Decimal
  import opened Text

  type Dir = seq<string>

  function Enter(dir: Dir, part: string): Dir {
    if part == "" || part == "." then dir
    else if part != ".." then dir + [part]
    else if dir == [] then []
    else dir[..|dir| - 1]
  }

  function Resolve(dir: Dir, parts: seq<string>): Dir
    decreases |parts|
  {
    if parts == [] then dir else Resolve(Enter(dir, parts[0]), parts[1..])
  }

  function Start(cwd: Dir, path: string): Dir {
    if path != "" && path[0] == '/' then [] else cwd
  }

  /** Where a path leads from the working directory. */
  function Location(cwd: Dir, path: string): Dir {
    Resolve(Start(cwd, path), Split(path, '/'))
  }

  /** The directory that the first `k` components of a path lead to. */
  function Passed(cwd: Dir, path: string, k: nat): Dir
    requires k <= |Split(path, '/')|
  {
    Resolve(Start(cwd, path), Split(path, '/')[..k])
  }

  /** The working directory of the broker and the name of its log directory. */
  datatype Place = Place(cwd: Dir, logDir: string) {
    /** A log directory without a name puts the topics at the root. */
    function Begin(): Dir {
      if logDir == "" then [] else Start(cwd, logDir)
    }

    function Parts(topic: string): seq<string> {
      Split(logDir, '/') + Split(topic, '/')
    }

    /** Where the segment files of a topic lie. */
    function DirOf(topic: string): Dir {
      Resolve(Begin(), Parts(topic))
    }

    /** The directories on the way there. */
    function OnTheWay(topic: string, k: nat): Dir
      requires k <= |Parts(topic)|
    {
      Resolve(Begin(), Parts(topic)[..k])
    }

    /** `_build_segment_path`. */
    function SegmentPath(topic: string, n: nat): string {
      logDir + "/" + topic + "/" + FileName(n)
    }
  }

  /** A segment file: its directory and the number in its name. */
  datatype FilePath = FilePath(dir: Dir, baseOffset: int)

  function Zeros(k: int): (s: string)
    ensures AllDigits(s)
    ensures |s| == if k < 0 then 0 else k
    decreases k
  {
    if k <= 0 then [] else "0" + Zeros(k - 1)
  }

  /** The base offset, padded with zeros to at least twenty digits. */
  function Padded(n: nat): string {
    Zeros(20 - |Digits(n)|) + Digits(n)
  }

  function FileName(n: nat): string {
    Padded(n) + ".log"
  }

  // -- File names ------------------------------------------------------------------------------

  lemma {:induction false} ZerosKeepValue(k: int, s: string)
    requires AllDigits(s)
    ensures Value(Zeros(k) + s) == Value(s)
    decreases k, |s|
  {
    if s == [] {
      assert Zeros(k) + s == Zeros(k);
      ZerosAreZero(k);
    } else {
      assert (Zeros(k) + s)[..|Zeros(k) + s| - 1] == Zeros(k) + s[..|s| - 1];
      ZerosKeepValue(k, s[..|s| - 1]);
    }
  }

  lemma {:induction false} ZerosAreZero(k: int)
    ensures Value(Zeros(k)) == 0
    decreases k
  {
    if k > 0 {
      ZerosAreZero(k - 1);
      ZerosSnoc(k);
      assert Zeros(k)[..|Zeros(k)| - 1] == Zeros(k - 1);
    }
  }

  lemma {:induction false} ZerosSnoc(k: int)
    requires k > 0
    ensures Zeros(k) == Zeros(k - 1) + "0"
    decreases k
  {
    if k > 1 {
      ZerosSnoc(k - 1);
    }
  }

  lemma FileNameInjective(m: nat, n: nat)
    requires FileName(m) == FileName(n)
    ensures m == n
  {
    assert Padded(m) == FileName(m)[..|FileName(m)| - 4] == FileName(n)[..|FileName(n)| - 4] == Padded(n);
    ZerosKeepValue(20 - |Digits(m)|, Digits(m));
    ZerosKeepValue(20 - |Digits(n)|, Digits(n));
    ValueOfDigits(m);
    ValueOfDigits(n);
  }

  /** The names that segment files can have. */
  predicate IsFileName(name: string) {
    && |name| >= 24
    && name[|name| - 4..] == ".log"
    && AllDigits(name[..|name| - 4])
    && (|name| > 24 ==> name[0] != '0')
  }

  /** Digits are the print of their value, behind some zeros. */
  lemma {:induction false} LeadingZeros(s: string)
    requires s != [] && AllDigits(s)
    ensures |Digits(Value(s))| <= |s| && s == Zeros(|s| - |Digits(Value(s))|) + Digits(Value(s))
  {
    hide Value, Digits;
    if Canonical(s) {
      DigitsOfValue(s);
    } else {
      var rest := s[1..];
      LeadingZeros(rest);
      ZerosKeepValue(1, rest);
      assert s == "0" + rest && Zeros(1) == "0";
      assert s == ("0" + Zeros(|rest| - |Digits(Value(rest))|)) + Digits(Value(rest));
    }
  }

  lemma FileNameForm(name: string)
    ensures IsFileName(name) <==> exists n: nat :: name == FileName(n)
  {
    if IsFileName(name) {
      var digits := name[..|name| - 4];
      LeadingZeros(digits);
      if |digits| > 20 {
        DigitsOfValue(digits);
      }
      assert name == digits + ".log";
      assert name == FileName(Value(digits));
    }
    forall n: nat | name == FileName(n)
      ensures IsFileName(name)
    {
      NumberedName(n);
    }
  }

  lemma NumberedName(n: nat)
    ensures IsFileName(FileName(n))
  {
    var name, digits := FileName(n), Padded(n);
    assert name[..|name| - 4] == digits && name[|name| - 4..] == ".log";
    assert |digits| > 20 ==> digits == Digits(n);
  }

  // -- Locations -------------------------------------------------------------------------------

  lemma {:induction false} ResolveConcat(dir: Dir, a: seq<string>, b: seq<string>)
    ensures Resolve(dir, a + b) == Resolve(Resolve(dir, a), b)
    decreases |a|
  {
    if a == [] {
      assert a + b == b;
    } else {
      assert (a + b)[1..] == a[1..] + b;
      ResolveConcat(Enter(dir, a[0]), a[1..], b);
    }
  }

  lemma ResolveOne(dir: Dir, part: string)
    ensures Resolve(dir, [part]) == Enter(dir, part)
  {
    assert [part][1..] == [];
    assert Resolve(Enter(dir, part), []) == Enter(dir, part);
  }

  lemma FileNameIsPlain(n: nat)
    ensures '/' !in FileName(n) && Enter([], FileName(n)) == [FileName(n)]
    ensures forall dir: Dir :: Resolve(dir, [FileName(n)]) == dir + [FileName(n)]
  {
    NumberedName(n);
    var name := FileName(n);
    assert name == Padded(n) + ".log";
    forall dir: Dir
      ensures Resolve(dir, [name]) == dir + [name]
    {
      ResolveOne(dir, name);
    }
  }

  /** The name that the registry builds leads through the directories on the topic's way to a file in its directory. */
  lemma SegmentLocation(p: Place, topic: string, n: nat)
    ensures Location(p.cwd, p.SegmentPath(topic, n)) == p.DirOf(topic) + [FileName(n)]
    ensures |Split(p.SegmentPath(topic, n), '/')| == |p.Parts(topic)| + 1
    ensures forall k: nat | k <= |p.Parts(topic)| :: Passed(p.cwd, p.SegmentPath(topic, n), k) == p.OnTheWay(topic, k)
  {
    hide Split, FileName;
    var name, path, parts := FileName(n), p.SegmentPath(topic, n), p.Parts(topic);
    assert path == p.logDir + ['/'] + (topic + ['/'] + name);
    SplitConcat(p.logDir, topic + ['/'] + name, '/');
    SplitConcat(topic, name, '/');
    FileNameIsPlain(n);
    SplitWhole(name, '/');
    assert Split(path, '/') == parts + [name];
    ResolveConcat(p.Begin(), parts, [name]);
    assert path[0] == if p.logDir == "" then '/' else p.logDir[0];
    assert forall k: nat | k <= |parts| :: (parts + [name])[..k] == parts[..k];
  }

  // -- Topics that keep out of each other's way ------------------------------------------------

  ghost predicate DirsApart(p: Place, topics: set<string>) {
    forall s, t | s in topics && t in topics && p.DirOf(s) == p.DirOf(t) :: s == t
  }

  /** `dir` lies at or below something in `other` that is called like a segment file. */
  predicate Inside(dir: Dir, other: Dir) {
    |other| < |dir| && dir[..|other|] == other && IsFileName(dir[|other|])
  }

  ghost predicate WaysFree(p: Place, topics: set<string>) {
    forall s, t, k: nat | s in topics && t in topics && k <= |p.Parts(t)| :: !Inside(p.OnTheWay(t, k), p.DirOf(s))
  }

  /** What a caller can check of the topic names: they lead to different directories, and not past a place where a
      topic may have a segment file. */
  ghost predicate PathsApart(p: Place, topics: set<string>) {
    DirsApart(p, topics) && WaysFree(p, topics)
  }

  ghost predicate FilesDiffer(p: Place, topics: set<string>) {
    forall s, t, a: nat, b: nat
      | s in topics && t in topics && Location(p.cwd, p.SegmentPath(s, a)) == Location(p.cwd, p.SegmentPath(t, b))
      :: s == t && a == b
  }

  /** No segment file stands where the path to one has a directory. */
  ghost predicate NoneInTheWay(p: Place, topics: set<string>) {
    forall s, t, a: nat, b: nat, k: nat
      | s in topics && t in topics && k < |Split(p.SegmentPath(t, b), '/')|
      :: !(Location(p.cwd, p.SegmentPath(s, a)) <= Passed(p.cwd, p.SegmentPath(t, b), k))
  }

  lemma PrefixMeansInside(dir: Dir, other: Dir, a: nat)
    requires other + [FileName(a)] <= dir
    ensures Inside(dir, other)
  {
    var q := other + [FileName(a)];
    assert q[|other|] == dir[|other|] && q[..|other|] == dir[..|other|];
    NumberedName(a);
  }

  lemma InsideMeansPrefix(dir: Dir, other: Dir) returns (a: nat)
    requires Inside(dir, other)
    ensures other + [FileName(a)] <= dir
  {
    FileNameForm(dir[|other|]);
    a :| dir[|other|] == FileName(a);
    assert dir[..|other| + 1] == other + [FileName(a)];
  }

  lemma SameFile(dir: Dir, other: Dir, a: nat, b: nat)
    requires dir + [FileName(a)] == other + [FileName(b)]
    ensures dir == other && a == b
  {
    var p, q := dir + [FileName(a)], other + [FileName(b)];
    assert p[|p| - 1] == q[|q| - 1] && dir == p[..|p| - 1] && other == q[..|q| - 1];
    FileNameInjective(a, b);
  }

  lemma FilesDifferIff(p: Place, topics: set<string>)
    ensures FilesDiffer(p, topics) <==> DirsApart(p, topics)
  {
    hide Location, Place.SegmentPath, Place.DirOf, FileName, Passed;
    if DirsApart(p, topics) {
      forall s, t, a: nat, b: nat
        | s in topics && t in topics && Location(p.cwd, p.SegmentPath(s, a)) == Location(p.cwd, p.SegmentPath(t, b))
        ensures s == t && a == b
      {
        SegmentLocation(p, s, a);
        SegmentLocation(p, t, b);
        SameFile(p.DirOf(s), p.DirOf(t), a, b);
      }
    }
    if FilesDiffer(p, topics) {
      forall s, t | s in topics && t in topics && p.DirOf(s) == p.DirOf(t)
        ensures s == t
      {
        SegmentLocation(p, s, 0);
        SegmentLocation(p, t, 0);
      }
    }
  }

  lemma NoneInTheWayIff(p: Place, topics: set<string>)
    ensures NoneInTheWay(p, topics) <==> WaysFree(p, topics)
  {
    hide Location, Place.SegmentPath, Place.DirOf, Place.Parts, Place.OnTheWay, FileName, Passed, Inside, Split;
    if WaysFree(p, topics) {
      forall s, t, a: nat, b: nat, k: nat | s in topics && t in topics && k < |Split(p.SegmentPath(t, b), '/')|
        ensures !(Location(p.cwd, p.SegmentPath(s, a)) <= Passed(p.cwd, p.SegmentPath(t, b), k))
      {
        SegmentLocation(p, s, a);
        SegmentLocation(p, t, b);
        if p.DirOf(s) + [FileName(a)] <= p.OnTheWay(t, k) {
          PrefixMeansInside(p.OnTheWay(t, k), p.DirOf(s), a);
        }
      }
    }
    if NoneInTheWay(p, topics) {
      forall s, t, k: nat | s in topics && t in topics && k <= |p.Parts(t)|
        ensures !Inside(p.OnTheWay(t, k), p.DirOf(s))
      {
        if Inside(p.OnTheWay(t, k), p.DirOf(s)) {
          var a := InsideMeansPrefix(p.OnTheWay(t, k), p.DirOf(s));
          SegmentLocation(p, s, a);
          SegmentLocation(p, t, 0);
        }
      }
    }
  }

  /** All segment files of a set of topics are different files that can exist side by side if and only if the names
      keep the topics apart. */
  lemma FilesIndependentIff(p: Place, topics: set<string>)
    ensures FilesDiffer(p, topics) && NoneInTheWay(p, topics) <==> PathsApart(p, topics)
  {
    FilesDifferIff(p, topics);
    NoneInTheWayIff(p, topics);
  }

  /** A name that is one ordinary component. */
  predicate Plain(topic: string) {
    topic != "" && topic != "." && topic != ".." && '/' !in topic
  }

  lemma PlainDir(p: Place, topic: string)
    requires Plain(topic)
    ensures p.Parts(topic) == Split(p.logDir, '/') + [topic]
    ensures p.DirOf(topic) == Resolve(p.Begin(), Split(p.logDir, '/')) + [topic]
  {
    SplitWhole(topic, '/');
    ResolveConcat(p.Begin(), Split(p.logDir, '/'), [topic]);
    ResolveOne(Resolve(p.Begin(), Split(p.logDir, '/')), topic);
  }

  lemma {:induction false} OnlyDeeper(dir: Dir, parts: seq<string>, k: nat)
    requires ".." !in parts && k <= |parts|
    ensures |Resolve(dir, parts[..k])| <= |Resolve(dir, parts)|
    ensures |dir| <= |Resolve(dir, parts)|
    decreases |parts|
  {
    if parts != [] {
      OnlyDeeper(Enter(dir, parts[0]), parts[1..], if k == 0 then 0 else k - 1);
      if k > 0 {
        assert parts[..k][1..] == parts[1..][..k - 1];
      }
    }
  }

  /** The simple case: ordinary topic names under a log directory named without "..". */
  lemma PlainNamesApart(p: Place, topics: set<string>)
    requires ".." !in Split(p.logDir, '/') && forall t | t in topics :: Plain(t)
    ensures PathsApart(p, topics)
  {
    hide Place.DirOf, Split, Plain, Resolve, Place.Parts;
    var root := Resolve(p.Begin(), Split(p.logDir, '/'));
    forall s, t | s in topics && t in topics
      ensures p.DirOf(s) == p.DirOf(t) ==> s == t
      ensures forall k: nat | k <= |p.Parts(t)| :: !Inside(p.OnTheWay(t, k), p.DirOf(s))
    {
      PlainDir(p, s);
      PlainDir(p, t);
      assert (root + [s])[|root|] == s && (root + [t])[|root|] == t;
      forall k: nat | k <= |p.Parts(t)|
        ensures |p.OnTheWay(t, k)| <= |root| + 1
      {
        PlainWay(p, t, k);
      }
    }
  }

  lemma PlainWay(p: Place, topic: string, k: nat)
    requires ".." !in Split(p.logDir, '/') && Plain(topic) && k <= |p.Parts(topic)|
    ensures |p.OnTheWay(topic, k)| <= |Resolve(p.Begin(), Split(p.logDir, '/'))| + 1
  {
    PlainDir(p, topic);
    OnlyDeeper(p.Begin(), p.Parts(topic), k);
  }

  /** Two names for one directory. */
  lemma TrailingSlash(p: Place)
    ensures p.DirOf("a") == p.DirOf("a/")
    ensures !PathsApart(p, {"a", "a/"})
  {
    hide Split;
    var root := Resolve(p.Begin(), Split(p.logDir, '/'));
    PlainDir(p, "a");
    SplitConcat("a", "", '/');
    SplitWhole("a", '/');
    SplitWhole("", '/');
    assert "a" + ['/'] + "" == "a/" && ["a"] + [""] == ["a", ""];
    ResolveConcat(p.Begin(), Split(p.logDir, '/'), ["a", ""]);
    ResolveConcat(root, ["a"], [""]);
    ResolveOne(root, "a");
    ResolveOne(root + ["a"], "");
    assert "a" in {"a", "a/"} && "a/" in {"a", "a/"};
  }
}
