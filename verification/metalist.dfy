/** The payload of a metadata list: one line for each topic. */
module MetadataList {
  import opened Decimal
  import opened Text
  import opened Packets
  import opened Codec
  import opened Responses

  function ParseLine(line: string): Parsed<TopicMeta> {
    var fields := Split(line, ' ');
    if |fields| < 6 then Malformed else MetaOf(fields)
  }

  /** Blank lines are skipped; the first bad line fails the whole list. */
  function ParseLines(lines: seq<string>): Parsed<seq<TopicMeta>> {
    if lines == [] then Ok([])
    else
      var front := ParseLines(lines[..|lines| - 1]);
      var last := lines[|lines| - 1];
      if !front.Ok? then Malformed
      else if AllBlank(last) then front
      else match ParseLine(last)
        case Ok(m) => Ok(front.value + [m])
        case _ => Malformed
  }

  function ParseMetaList(payload: string): Parsed<seq<TopicMeta>> {
    if payload == "" then Ok([]) else ParseLines(Split(payload, '\n'))
  }

  lemma {:induction false} BadLineFails(lines: seq<string>, i: nat)
    requires i <= |lines| && !ParseLines(lines[..i]).Ok?
    ensures ParseLines(lines) == Malformed
    decreases |lines|
  {
    if i < |lines| {
      assert lines[..|lines| - 1][..i] == lines[..i];
      BadLineFails(lines[..|lines| - 1], i);
    } else {
      assert lines[..i] == lines;
    }
  }

  lemma NoLines()
    ensures ParseLines([]) == Ok([])
  {
  }

  lemma LinesStep(lines: seq<string>, i: nat)
    requires i < |lines| && ParseLines(lines[..i]).Ok?
    ensures
      var metas := ParseLines(lines[..i]).value;
      ParseLines(lines[..i + 1]) ==
      if AllBlank(lines[i]) then Ok(metas)
      else if ParseLine(lines[i]).Ok? then Ok(metas + [ParseLine(lines[i]).value])
      else Malformed
  {
    assert lines[..i + 1][..i] == lines[..i];
  }

  method ParseMetadataListPayload(payload: string) returns (r: Parsed<seq<TopicMeta>>)
    ensures r == ParseMetaList(payload)
  {
    hide ParseLines, ParseLine, AllBlank, Split;
    if payload == "" {
      return Ok([]);
    }
    var lines := Split(payload, '\n');
    var metas := [];
    NoLines();
    assert lines[..0] == [];
    for i := 0 to |lines|
      invariant ParseLines(lines[..i]) == Ok(metas)
    {
      LinesStep(lines, i);
      if AllBlank(lines[i]) {
        continue;
      }
      var meta := ParseLine(lines[i]);
      if !meta.Ok? {
        BadLineFails(lines, i + 1);
        return Malformed;
      }
      metas := metas + [meta.value];
    }
    assert lines[..|lines|] == lines;
    return Ok(metas);
  }

  predicate NoBreak(s: string) {
    '\n' !in s
  }

  /** The metadata that a line can carry. */
  predicate LineSafe(m: TopicMeta) {
    && MetaSafe(m)
    && NoBreak(m.topic) && NoBreak(m.leaderId) && NoBreak(m.leaderAddr)
    && Free(m.replicas, '\n')
  }

  lemma ReplicasNoBreak(replicas: seq<string>)
    requires Free(replicas, '\n')
    ensures NoBreak(ReplicasText(replicas))
  {
    if '\n' in ReplicasText(replicas) {
      JoinHas(replicas, ',', '\n');
    }
  }

  lemma LineRoundTrip(m: TopicMeta)
    requires LineSafe(m)
    ensures ParseLine(Join(MetaFields(m), ' ')) == Ok(m)
    ensures NoBreak(Join(MetaFields(m), ' ')) && !AllBlank(Join(MetaFields(m), ' '))
  {
    hide MetaOf, Split, Join, AllBlank, MetaFields, MetaSafe;
    MetaFieldsSplit(m);
    MetaOfFields(m);
    SafeIsListSafe(m);
    SixFields(m);
    SplitJoinIff(MetaFields(m), ' ');
    FieldsOnOneLine(m);
  }

  lemma SafeIsListSafe(m: TopicMeta)
    requires MetaSafe(m)
    ensures ListSafe(m.replicas)
  {
  }

  lemma FieldsOnOneLine(m: TopicMeta)
    requires LineSafe(m)
    ensures NoBreak(Join(MetaFields(m), ' ')) && !AllBlank(Join(MetaFields(m), ' '))
  {
    hide ReplicasText, Dec, Join, AllBlank, MetaSafe;
    var fields := MetaFields(m);
    ReplicasNoBreak(m.replicas);
    DecHasNo(m.leaderPort, '\n');
    DecHasNo(m.version, '\n');
    if '\n' in Join(fields, ' ') {
      JoinHas(fields, ' ', '\n');
    }
    DecNotBlank(m.version);
    JoinNotBlank(fields, 5);
  }

  lemma DecNotBlank(n: int)
    ensures !AllBlank(Dec(n))
  {
    assert !IsBlank(Dec(n)[0]);
  }

  lemma JoinNotBlank(fields: seq<string>, i: nat)
    requires i < |fields| && !AllBlank(fields[i])
    ensures !AllBlank(Join(fields, ' '))
  {
    var k :| 0 <= k < |fields[i]| && !IsBlank(fields[i][k]);
    JoinHolds(fields, ' ', i, fields[i][k]);
  }

  lemma {:induction false} LinesRoundTrip(metas: seq<TopicMeta>)
    requires forall m | m in metas :: LineSafe(m)
    ensures ParseLines(MetaLines(metas)) == Ok(metas)
    ensures Free(MetaLines(metas), '\n')
  {
    hide LineSafe, ParseLine, MetaFields, Join, AllBlank;
    if metas != [] {
      var front, last := metas[..|metas| - 1], metas[|metas| - 1];
      LinesRoundTrip(front);
      LineRoundTrip(last);
      var lines := MetaLines(metas);
      assert lines[..|lines| - 1] == MetaLines(front);
      assert metas == front + [last];
    }
  }

  lemma ReadLineIsSafe(line: string, m: TopicMeta)
    requires NoBreak(line) && ParseLine(line) == Ok(m)
    ensures LineSafe(m)
  {
    hide ParseInt, Split, ListSafe, ListOf, Free;
    var fields := Split(line, ' ');
    MetaReadIsSafe(fields, m);
    FieldsNoBreak(line);
    ListOfSafe(fields[4], '\n');
  }

  lemma FieldsNoBreak(line: string)
    requires NoBreak(line)
    ensures forall i | 0 <= i < |Split(line, ' ')| :: NoBreak(Split(line, ' ')[i])
  {
    forall i | 0 <= i < |Split(line, ' ')|
      ensures NoBreak(Split(line, ' ')[i])
    {
      if '\n' in Split(line, ' ')[i] {
        SplitHolds(line, ' ', i, '\n');
      }
    }
  }

  lemma {:induction false} ReadLinesAreSafe(lines: seq<string>)
    requires Free(lines, '\n') && ParseLines(lines).Ok?
    ensures forall m | m in ParseLines(lines).value :: LineSafe(m)
  {
    hide LineSafe, ParseLine, AllBlank;
    if lines != [] {
      var front, last := lines[..|lines| - 1], lines[|lines| - 1];
      ReadLinesAreSafe(front);
      if !AllBlank(last) {
        ReadLineIsSafe(last, ParseLine(last).value);
      }
    }
  }

  lemma {:induction false} JoinedEmpty(lines: seq<string>)
    requires lines != [] && lines[0] != ""
    ensures Join(lines, '\n') != ""
  {
  }

  /** A metadata list comes back the same if and only if no text in it holds a separator: space, line break or, in a
      broker id, a comma, and no replica list is just "-". */
  lemma MetaListRoundTripIff(metas: seq<TopicMeta>)
    ensures ParseMetaList(MetaListText(metas)) == Ok(metas) <==> forall m | m in metas :: LineSafe(m)
  {
    hide LineSafe, ParseLines, MetaFields, Join;
    var text, lines := MetaListText(metas), MetaLines(metas);
    if forall m | m in metas :: LineSafe(m) {
      LinesRoundTrip(metas);
      if metas != [] {
        SplitJoinIff(lines, '\n');
        LineRoundTrip(metas[0]);
        BlankEmpty();
        JoinedEmpty(lines);
      } else {
        NothingJoined();
      }
    }
    if ParseMetaList(text) == Ok(metas) && text != "" {
      ReadLinesAreSafe(Split(text, '\n'));
    }
  }

  lemma BlankEmpty()
    ensures AllBlank("")
  {
  }

  lemma NothingJoined()
    ensures Join([], '\n') == ""
  {
  }

  /** What the lines hold, blank ones left out. */
  function MetasOf(lines: seq<string>): seq<TopicMeta> {
    if lines == [] then []
    else
      var last := lines[|lines| - 1];
      MetasOf(lines[..|lines| - 1]) + (if !AllBlank(last) && ParseLine(last).Ok? then [ParseLine(last).value] else [])
  }

  /** A list is read exactly when every line that is not blank can be read; then it is what those lines hold. */
  lemma {:induction false} LinesReadIff(lines: seq<string>)
    ensures ParseLines(lines) ==
            if forall i | 0 <= i < |lines| :: AllBlank(lines[i]) || ParseLine(lines[i]).Ok? then Ok(MetasOf(lines)) else Malformed
  {
    hide AllBlank, ParseLine;
    if lines != [] {
      var front, last := lines[..|lines| - 1], lines[|lines| - 1];
      LinesReadIff(front);
      assert forall i | 0 <= i < |front| :: front[i] == lines[i];
      assert lines[|lines| - 1] == last && MetasOf(front) + [] == MetasOf(front);
    }
  }

  /** A line is read exactly when it has six fields, and numbers where numbers belong. */
  lemma LineReadIff(line: string)
    ensures ParseLine(line).Ok? <==>
            |Split(line, ' ')| >= 6 && ParseInt(Split(line, ' ')[3]).Some? && ParseInt(Split(line, ' ')[5]).Some?
  {
    hide ParseInt, Split, ListOf;
  }
}
