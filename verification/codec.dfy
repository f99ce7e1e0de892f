/** The text protocol: what the encoder writes and the parser reads back. A packet's text has its fields
    separated by single spaces; the check value of a message is a parameter. */
module Codec {
  import opened Seqs
  import opened Decimal
  import opened Text
  import opened Packets

  /** `Malformed` stands for Python's IndexError and ValueError. */
  datatype Parsed<+T> = Ok(value: T) | Malformed | ChecksumFailed | Unknown(tag: string)

  /** ASCII white space of a regular expression and of `strip`. */
  predicate IsBlank(c: char) {
    IsSpace(c) || 28 <= c as int <= 31
  }

  function SkipBlanks(s: string): string {
    if s != [] && IsBlank(s[0]) then SkipBlanks(s[1..]) else s
  }

  predicate AllBlank(s: string) {
    forall i | 0 <= i < |s| :: IsBlank(s[i])
  }

  /** The optional correlation header. */
  function HeaderText(id: Option<string>): string {
    if id.None? then "" else "[CRR=" + id.value + "] "
  }

  /** The header's correlation id, if the text starts with a header, and the rest. */
  function ParseHeader(text: string): (r: (Option<string>, string)) {
    if "[CRR=" <= text && ']' in text[5..] && IndexOf(text[5..], ']') > 0 then
      var end := IndexOf(text[5..], ']');
      (Some(text[5..5 + end]), SkipBlanks(text[5 + end + 1..]))
    else (None, text)
  }

  predicate HeaderSafe(id: Option<string>) {
    id.Some? ==> id.value != "" && ']' !in id.value
  }

  /** A stored record: the check value, a space, the message. */
  function Record(message: string, crc: string -> nat): string {
    Join([Dec(crc(message)), message], ' ')
  }

  /** The fields of a command; `None` for a command that the encoder does not know. */
  function CommandFields(cmd: Command, checksum: bool, crc: string -> nat): (fields: Option<seq<string>>)
    ensures fields.Some? ==> fields.value != [] && |fields.value[0]| == 3
  {
    match cmd
    case RegisterCommand => Some(["REG"])
    case ClientIdCommand(id) => Some(["CID", id])
    case SubscribeCommand(topic) => Some(["SUB", topic])
    case CommitOffsetCommand(topic, offset, acks) => Some(["CMT", topic, Dec(acks), Dec(offset)])
    case FetchOffsetCommand(topic) => Some(["FCH", topic])
    case PublishCommand(topic, payload, acks, _) =>
      Some(["PUB", topic, Dec(acks), if checksum then Record(payload, crc) else payload])
    case PullCommand(topic, offset, size) => Some(["PUL", topic, Dec(offset), Dec(size)])
    case PingCommand => Some(["PNG"])
    case ReplicaFetchCommand(topic, offset, size, id) => Some(["RFH", id, topic, Dec(offset), Dec(size)])
    case RegisterTopicCommand(topic) => Some(["RGT", topic])
    case MetadataRequestCommand(topic) => Some(["MTR", topic])
    case BrokerRegisterCommand(id, host, port) => Some(["BRK", id, host, Dec(port)])
    case ControllerPingCommand(id) => Some(["CPG", id])
    case IsrChangeCommand(topic, isr) => Some(["ISR", topic, Join(isr, ',')])
    case BrokerMetadataListCommand(_) => None
  }

  function AcksOf(s: string): Option<int> {
    if s == "-1" || s == "0" || s == "1" then ParseInt(s) else None
  }

  function ListOf(s: string): seq<string> {
    if s != "-" then Split(s, ',') else []
  }

  function ParseRest(text: string): Option<string> {
    var parts := SplitMax(text, ' ', 1);
    if |parts| < 2 then None else Some(parts[1])
  }

  function ParseCommit(text: string): Parsed<Command> {
    var parts := SplitMax(text, ' ', 3);
    if |parts| < 4 || AcksOf(parts[2]) == None || ParseInt(parts[3]) == None then Malformed
    else Ok(CommitOffsetCommand(parts[1], ParseInt(parts[3]).value, AcksOf(parts[2]).value))
  }

  function ParsePublish(text: string, checksum: bool, crc: string -> nat): Parsed<Command> {
    var parts := SplitMax(text, ' ', 3);
    if |parts| < 4 || AcksOf(parts[2]) == None then Malformed
    else
      var command := PublishCommand(parts[1], parts[3], AcksOf(parts[2]).value, checksum);
      if !checksum then Ok(command)
      else
        var pair := SplitMax(parts[3], ' ', 1);
        if |pair| < 2 || ParseInt(pair[0]) == None then Malformed
        else if crc(pair[1]) != ParseInt(pair[0]).value then ChecksumFailed
        else Ok(command)
  }

  function ParsePull(text: string): Parsed<Command> {
    var parts := SplitMax(text, ' ', 3);
    if |parts| < 4 || ParseInt(parts[2]) == None || ParseInt(parts[3]) == None then Malformed
    else Ok(PullCommand(parts[1], ParseInt(parts[2]).value, ParseInt(parts[3]).value))
  }

  function ParseReplicaFetch(text: string): Parsed<Command> {
    var parts := SplitMax(text, ' ', 4);
    if |parts| < 5 || ParseInt(parts[3]) == None || ParseInt(parts[4]) == None then Malformed
    else Ok(ReplicaFetchCommand(parts[2], ParseInt(parts[3]).value, ParseInt(parts[4]).value, parts[1]))
  }

  function ParseBrokerRegister(text: string): Parsed<Command> {
    var parts := SplitMax(text, ' ', 3);
    if |parts| < 4 || ParseInt(parts[3]) == None then Malformed
    else Ok(BrokerRegisterCommand(parts[1], parts[2], ParseInt(parts[3]).value))
  }

  function ParseIsrChange(text: string): Parsed<Command> {
    var parts := SplitMax(text, ' ', 2);
    if |parts| < 3 then Malformed else Ok(IsrChangeCommand(parts[1], ListOf(parts[2])))
  }

  function Tag(text: string): string {
    if |text| < 3 then text else text[..3]
  }

  /** Commands with one field, which is the rest of the text. */
  function ParseSimple(tag: string, rest: Option<string>): Parsed<Command> {
    if rest.None? then Malformed
    else if tag == "CID" then Ok(ClientIdCommand(rest.value))
    else if tag == "FCH" then Ok(FetchOffsetCommand(rest.value))
    else if tag == "RGT" then Ok(RegisterTopicCommand(rest.value))
    else if tag == "MTR" then Ok(MetadataRequestCommand(rest.value))
    else Ok(ControllerPingCommand(rest.value))
  }

  function ParseBody(text: string, checksum: bool, crc: string -> nat): Parsed<Command> {
    var tag := Tag(text);
    if tag == "REG" then Ok(RegisterCommand)
    else if tag == "PNG" then Ok(PingCommand)
    else if tag == "SUB" then
      var parts := SplitMax(text, ' ', 1);
      Ok(SubscribeCommand(parts[|parts| - 1]))
    else if tag == "CID" || tag == "FCH" || tag == "RGT" || tag == "MTR" || tag == "CPG" then ParseSimple(tag, ParseRest(text))
    else if tag == "CMT" then ParseCommit(text)
    else if tag == "PUB" then ParsePublish(text, checksum, crc)
    else if tag == "PUL" then ParsePull(text)
    else if tag == "RFH" then ParseReplicaFetch(text)
    else if tag == "BRK" then ParseBrokerRegister(text)
    else if tag == "ISR" then ParseIsrChange(text)
    else Unknown(tag)
  }

  /** The correlation id, if any, and the command. */
  function ParseCommand(text: string, checksum: bool, crc: string -> nat): Parsed<(Option<string>, Command)> {
    var (id, body) := ParseHeader(text);
    match ParseBody(body, checksum, crc)
    case Ok(cmd) => Ok((id, cmd))
    case Malformed => Malformed
    case ChecksumFailed => ChecksumFailed
    case Unknown(tag) => Unknown(tag)
  }

  predicate NoSpace(s: string) {
    ' ' !in s
  }

  predicate AcksValid(acks: int) {
    -1 <= acks <= 1
  }

  /** A list that survives joining with commas, and is not mistaken for the sign of the empty list. */
  predicate ListSafe(list: seq<string>) {
    Free(list, ',') && list != ["-"]
  }

  /** The commands that the wire can carry. */
  predicate CommandSafe(cmd: Command) {
    match cmd
    case CommitOffsetCommand(topic, _, acks) => NoSpace(topic) && AcksValid(acks)
    case PublishCommand(topic, _, acks, _) => NoSpace(topic) && AcksValid(acks)
    case PullCommand(topic, _, _) => NoSpace(topic)
    case ReplicaFetchCommand(topic, _, _, id) => NoSpace(topic) && NoSpace(id)
    case BrokerRegisterCommand(id, host, _) => NoSpace(id) && NoSpace(host)
    case IsrChangeCommand(topic, isr) => NoSpace(topic) && isr != [] && ListSafe(isr)
    case _ => true
  }

  /** What the receiver holds: a published payload keeps the check value in front of the message. */
  function Received(cmd: Command, checksum: bool, crc: string -> nat): Command {
    match cmd
    case PublishCommand(topic, payload, acks, _) =>
      PublishCommand(topic, if checksum then Record(payload, crc) else payload, acks, checksum)
    case _ => cmd
  }

  lemma FourFields(a: string, b: string, c: string, d: string)
    requires NoSpace(a)
    ensures NoSpace(b) && NoSpace(c) ==> SplitMax(Join([a, b, c, d], ' '), ' ', 3) == [a, b, c, d]
  {
    if NoSpace(b) && NoSpace(c) {
      assert [a, b, c, d][..3] == [a, b, c];
      SplitMaxJoin([a, b, c, d], ' ');
    }
  }

  lemma ThreeFields(a: string, b: string, c: string)
    requires NoSpace(a)
    ensures NoSpace(b) ==> SplitMax(Join([a, b, c], ' '), ' ', 2) == [a, b, c]
  {
    if NoSpace(b) {
      assert [a, b, c][..2] == [a, b];
      SplitMaxJoin([a, b, c], ' ');
    }
  }

  lemma TwoFields(a: string, b: string)
    requires NoSpace(a)
    ensures SplitMax(Join([a, b], ' '), ' ', 1) == [a, b]
  {
    assert [a, b][..1] == [a];
    SplitMaxJoin([a, b], ' ');
  }

  lemma DecNoSpace(n: int)
    ensures NoSpace(Dec(n))
  {
    DecHasNo(n, ' ');
  }

  /** The three accepted acknowledgement levels, and nothing else. */
  lemma AcksRoundTrip(acks: int)
    ensures AcksOf(Dec(acks)) == if AcksValid(acks) then Some(acks) else None
  {
    ParseDec(acks);
    assert Dec(0) == "0" && Dec(1) == "1" && Dec(-1) == "-1";
    if Dec(acks) == "0" { DecInjective(acks, 0); }
    if Dec(acks) == "1" { DecInjective(acks, 1); }
    if Dec(acks) == "-1" { DecInjective(acks, -1); }
  }

  lemma ListRoundTrip(list: seq<string>)
    ensures ListOf(Join(list, ',')) == list <==> list != [] && ListSafe(list)
  {
    SplitJoinIff(list, ',');
    if Join(list, ',') == "-" && list != [] && Free(list, ',') {
      assert Split("-", ',') == ["-"];
    }
  }

  lemma CommitRoundTrip(topic: string, offset: int, acks: int)
    ensures ParseCommit(Join(["CMT", topic, Dec(acks), Dec(offset)], ' ')) == Ok(CommitOffsetCommand(topic, offset, acks))
            <==> NoSpace(topic) && AcksValid(acks)
  {
    hide SplitMax, Join, Dec, ParseInt, AcksOf;
    FourFields("CMT", topic, Dec(acks), Dec(offset));
    DecNoSpace(acks);
    AcksRoundTrip(acks);
    ParseDec(offset);
  }

  lemma PublishRoundTrip(topic: string, payload: string, acks: int, checksum: bool, crc: string -> nat)
    ensures
      var body := if checksum then Record(payload, crc) else payload;
      ParsePublish(Join(["PUB", topic, Dec(acks), body], ' '), checksum, crc) == Ok(PublishCommand(topic, body, acks, checksum))
      <==> NoSpace(topic) && AcksValid(acks)
  {
    hide SplitMax, Join, Dec, ParseInt, AcksOf;
    var body := if checksum then Record(payload, crc) else payload;
    FourFields("PUB", topic, Dec(acks), body);
    DecNoSpace(acks);
    AcksRoundTrip(acks);
    DecNoSpace(crc(payload));
    TwoFields(Dec(crc(payload)), payload);
    ParseDec(crc(payload));
  }

  lemma PullRoundTrip(topic: string, offset: int, size: int)
    ensures ParsePull(Join(["PUL", topic, Dec(offset), Dec(size)], ' ')) == Ok(PullCommand(topic, offset, size))
            <==> NoSpace(topic)
  {
    hide SplitMax, Join, Dec, ParseInt;
    FourFields("PUL", topic, Dec(offset), Dec(size));
    DecNoSpace(offset);
    ParseDec(offset);
    ParseDec(size);
  }

  lemma BrokerRegisterRoundTrip(id: string, host: string, port: int)
    ensures ParseBrokerRegister(Join(["BRK", id, host, Dec(port)], ' ')) == Ok(BrokerRegisterCommand(id, host, port))
            <==> NoSpace(id) && NoSpace(host)
  {
    hide SplitMax, Join, Dec, ParseInt;
    FourFields("BRK", id, host, Dec(port));
    ParseDec(port);
  }

  lemma ReplicaFetchRoundTrip(topic: string, offset: int, size: int, id: string)
    ensures ParseReplicaFetch(Join(["RFH", id, topic, Dec(offset), Dec(size)], ' ')) ==
            Ok(ReplicaFetchCommand(topic, offset, size, id))
            <==> NoSpace(topic) && NoSpace(id)
  {
    hide SplitMax, Join, Dec, ParseInt;
    FiveFields("RFH", id, topic, Dec(offset), Dec(size));
    DecNoSpace(offset);
    ParseDec(offset);
    ParseDec(size);
  }

  lemma FiveFields(a: string, b: string, c: string, d: string, e: string)
    requires NoSpace(a)
    ensures NoSpace(b) && NoSpace(c) && NoSpace(d) ==> SplitMax(Join([a, b, c, d, e], ' '), ' ', 4) == [a, b, c, d, e]
  {
    if NoSpace(b) && NoSpace(c) && NoSpace(d) {
      assert [a, b, c, d, e][..4] == [a, b, c, d];
      SplitMaxJoin([a, b, c, d, e], ' ');
    }
  }

  lemma IsrChangeRoundTrip(topic: string, isr: seq<string>)
    ensures ParseIsrChange(Join(["ISR", topic, Join(isr, ',')], ' ')) == Ok(IsrChangeCommand(topic, isr))
            <==> NoSpace(topic) && isr != [] && ListSafe(isr)
  {
    hide SplitMax, Join, ListOf, Free;
    ThreeFields("ISR", topic, Join(isr, ','));
    ListRoundTrip(isr);
  }

  lemma RestRoundTrip(tag: string, rest: string)
    requires NoSpace(tag)
    ensures ParseRest(Join([tag, rest], ' ')) == Some(rest)
    ensures SplitMax(Join([tag, rest], ' '), ' ', 1) == [tag, rest]
  {
    TwoFields(tag, rest);
  }

  /** The first three characters of a text are its first field. */
  lemma TagOfFields(fields: seq<string>)
    requires fields != [] && |fields[0]| == 3
    ensures Tag(Join(fields, ' ')) == fields[0]
  {
    JoinStarts(fields, ' ');
    assert fields[0] <= Join(fields, ' ');
  }

  /** Commands whose one field is the rest of the text. */
  lemma SimpleRoundTrip(cmd: Command, checksum: bool, crc: string -> nat)
    requires cmd.ClientIdCommand? || cmd.SubscribeCommand? || cmd.FetchOffsetCommand? || cmd.RegisterTopicCommand?
             || cmd.MetadataRequestCommand? || cmd.ControllerPingCommand?
    ensures ParseBody(Join(CommandFields(cmd, checksum, crc).value, ' '), checksum, crc) == Ok(cmd)
  {
    hide SplitMax, Join, Dec, ParseCommit, ParsePublish, ParsePull, ParseReplicaFetch, ParseBrokerRegister, ParseIsrChange,
         Record, Tag;
    var fields := CommandFields(cmd, checksum, crc).value;
    TagOfFields(fields);
    RestRoundTrip(fields[0], fields[1]);
  }

  /** Parsing the fields of a command gives it back if and only if the wire can carry it. */
  lemma BodyRoundTrip(cmd: Command, checksum: bool, crc: string -> nat)
    requires CommandFields(cmd, checksum, crc).Some?
    ensures ParseBody(Join(CommandFields(cmd, checksum, crc).value, ' '), checksum, crc) == Ok(Received(cmd, checksum, crc))
            <==> CommandSafe(cmd)
  {
    hide SplitMax, Join, Dec, ParseInt, AcksOf, Free, ParseCommit, ParsePublish, ParsePull, ParseReplicaFetch,
         ParseBrokerRegister, ParseIsrChange, Record, Tag;
    TagOfFields(CommandFields(cmd, checksum, crc).value);
    match cmd
    case RegisterCommand =>
    case CommitOffsetCommand(topic, offset, acks) => CommitRoundTrip(topic, offset, acks);
    case PublishCommand(topic, payload, acks, _) => PublishRoundTrip(topic, payload, acks, checksum, crc);
    case PullCommand(topic, offset, size) => PullRoundTrip(topic, offset, size);
    case PingCommand =>
    case ReplicaFetchCommand(topic, offset, size, id) => ReplicaFetchRoundTrip(topic, offset, size, id);
    case BrokerRegisterCommand(id, host, port) => BrokerRegisterRoundTrip(id, host, port);
    case IsrChangeCommand(topic, isr) => IsrChangeRoundTrip(topic, isr);
    case _ => SimpleRoundTrip(cmd, checksum, crc);
  }

  /** A header is found again, and stripped with the space behind it, exactly when its id has no bracket and is not
      empty. */
  lemma HeaderRoundTrip(id: Option<string>, body: string)
    requires body != "" && !IsBlank(body[0]) && body[0] != '['
    ensures HeaderSafe(id) ==> ParseHeader(HeaderText(id) + body) == (id, body)
    ensures !HeaderSafe(id) ==> ParseHeader(HeaderText(id) + body).0 != id
  {
    hide IsBlank;
    if id.Some? {
      BracketedRoundTrip(id.value, body);
    } else {
      assert HeaderText(id) + body == body;
    }
  }

  lemma BracketedRoundTrip(id: string, body: string)
    requires body != "" && !IsBlank(body[0])
    ensures
      var (found, rest) := ParseHeader("[CRR=" + id + "] " + body);
      if id != "" && ']' !in id then found == Some(id) && rest == body else found != Some(id)
  {
    hide IndexOf;
    var text := "[CRR=" + id + "] " + body;
    assert text[5..] == id + [']'] + (" " + body);
    assert text[..5] == "[CRR=";
    if ']' !in id {
      IndexOfFirst(id, ']', " " + body);
      assert text[5..5 + |id|] == id;
      assert text[5 + |id| + 1..] == " " + body;
      assert (" " + body)[1..] == body;
      assert SkipBlanks(body) == body;
      assert SkipBlanks(" " + body) == body;
    }
  }

  lemma JoinFirstChar(fields: seq<string>)
    requires fields != [] && |fields[0]| == 3
    ensures |Join(fields, ' ')| >= 3 && Join(fields, ' ')[0] == fields[0][0]
  {
    JoinStarts(fields, ' ');
  }

  /** Sent and parsed, with or without a correlation header, a command comes back the same if and only if the header
      and the command's non-final fields are free of their separators. */
  lemma CommandRoundTripIff(id: Option<string>, cmd: Command, checksum: bool, crc: string -> nat)
    requires CommandFields(cmd, checksum, crc).Some?
    ensures ParseCommand(HeaderText(id) + Join(CommandFields(cmd, checksum, crc).value, ' '), checksum, crc) ==
            Ok((id, Received(cmd, checksum, crc)))
            <==> HeaderSafe(id) && CommandSafe(cmd)
  {
    hide Join, ParseBody, CommandSafe, Received, ParseHeader, HeaderText, HeaderSafe;
    var fields := CommandFields(cmd, checksum, crc).value;
    JoinFirstChar(fields);
    HeaderRoundTrip(id, Join(fields, ' '));
    BodyRoundTrip(cmd, checksum, crc);
  }

  // -- What is refused -------------------------------------------------------------------------

  /** A publication with any number in the check value's place: it is accepted if and only if the number is the check
      value of the message. */
  lemma PublishCheckedIff(topic: string, acks: int, n: int, message: string, crc: string -> nat)
    requires NoSpace(topic) && AcksValid(acks)
    ensures ParseBody(Join(["PUB", topic, Dec(acks), Dec(n), message], ' '), true, crc) ==
            if n == crc(message) then Ok(PublishCommand(topic, Dec(n) + " " + message, acks, true)) else ChecksumFailed
  {
    hide SplitMax, Dec, ParseInt, AcksOf;
    var body := Join([Dec(n), message], ' ');
    PairIsJoined(Dec(n), message);
    JoinTail(["PUB", topic, Dec(acks)], Dec(n), message, ' ');
    assert ["PUB", topic, Dec(acks)] + [Dec(n), message] == ["PUB", topic, Dec(acks), Dec(n), message];
    assert ["PUB", topic, Dec(acks)] + [body] == ["PUB", topic, Dec(acks), body];
    TagOfFields(["PUB", topic, Dec(acks), body]);
    FourFields("PUB", topic, Dec(acks), body);
    DecNoSpace(acks);
    AcksRoundTrip(acks);
    DecNoSpace(n);
    TwoFields(Dec(n), message);
    ParseDec(n);
  }

  lemma PairIsJoined(a: string, b: string)
    ensures Join([a, b], ' ') == a + " " + b
  {
    assert [a, b][1..] == [b];
  }

  /** The same behind a correlation header. */
  lemma CommandCheckedIff(id: Option<string>, topic: string, acks: int, n: int, message: string, crc: string -> nat)
    requires HeaderSafe(id) && NoSpace(topic) && AcksValid(acks)
    ensures ParseCommand(HeaderText(id) + Join(["PUB", topic, Dec(acks), Dec(n), message], ' '), true, crc) ==
            if n == crc(message) then Ok((id, PublishCommand(topic, Dec(n) + " " + message, acks, true))) else ChecksumFailed
  {
    hide Join, ParseBody, ParseHeader, HeaderText, HeaderSafe, Dec;
    var fields := ["PUB", topic, Dec(acks), Dec(n), message];
    JoinFirstChar(fields);
    HeaderRoundTrip(id, Join(fields, ' '));
    PublishCheckedIff(topic, acks, n, message, crc);
  }

  ghost predicate Intact(payload: string, crc: string -> nat) {
    exists number, message :: payload == number + " " + message && ParseInt(number) == Some(crc(message) as int)
  }

  lemma PublishedIsIntact(text: string, crc: string -> nat)
    ensures ParsePublish(text, true, crc).Ok? ==> Intact(ParsePublish(text, true, crc).value.payload, crc)
  {
    hide ParseInt, AcksOf, SplitMax;
    var parts := SplitMax(text, ' ', 3);
    if ParsePublish(text, true, crc).Ok? {
      var pair := SplitMax(parts[3], ' ', 1);
      PairSplit(parts[3]);
      assert parts[3] == pair[0] + " " + pair[1] && ParseInt(pair[0]) == Some(crc(pair[1]) as int);
    }
  }

  /** Whatever text it came from: with checksums on, an accepted payload is a message behind its own check value. */
  lemma AcceptedIsIntact(text: string, crc: string -> nat)
    ensures
      var r := ParseBody(text, true, crc);
      r.Ok? && r.value.PublishCommand? ==> Intact(r.value.payload, crc)
  {
    hide SplitMax, ParseInt, AcksOf, ListOf, Tag, Intact, ParsePublish;
    PublishedIsIntact(text, crc);
  }

  lemma PairSplit(s: string)
    ensures
      var pair := SplitMax(s, ' ', 1);
      |pair| == 2 ==> s == pair[0] + " " + pair[1]
  {
    if ' ' in s {
      var i := IndexOf(s, ' ');
      assert s == s[..i] + " " + s[i + 1..];
      assert SplitMax(s[i + 1..], ' ', 0) == [s[i + 1..]];
    }
  }

  /** The commands that exist, with the number of spaces each needs. */
  function Spaces(tag: string): Option<nat> {
    if tag == "REG" || tag == "PNG" || tag == "SUB" then Some(0)
    else if tag == "CID" || tag == "FCH" || tag == "RGT" || tag == "MTR" || tag == "CPG" then Some(1)
    else if tag == "ISR" then Some(2)
    else if tag == "CMT" || tag == "PUB" || tag == "PUL" || tag == "BRK" then Some(3)
    else if tag == "RFH" then Some(4)
    else None
  }

  /** Unknown commands, and no others, are reported as such; a command with a field missing is malformed. */
  lemma BadTextsAreRefused(text: string, checksum: bool, crc: string -> nat)
    ensures ParseBody(text, checksum, crc) == Unknown(Tag(text)) <==> Spaces(Tag(text)) == None
    ensures Spaces(Tag(text)).Some? && Count(text, ' ') < Spaces(Tag(text)).value ==>
              ParseBody(text, checksum, crc) == Malformed
  {
    hide SplitMax, ParseInt, AcksOf, Count, Tag, ListOf;
    SplitMaxSize(text, ' ', 1);
    SplitMaxSize(text, ' ', 2);
    SplitMaxSize(text, ' ', 3);
    SplitMaxSize(text, ' ', 4);
  }

  /** Acknowledgement levels and numbers are checked: anything else in their place is malformed. */
  lemma NumbersAreChecked(topic: string, a: string, b: string, id: string)
    requires NoSpace(topic) && NoSpace(a) && NoSpace(id)
    ensures ParseCommit(Join(["CMT", topic, a, b], ' ')).Ok? <==> (a == "-1" || a == "0" || a == "1") && ParseInt(b).Some?
    ensures ParsePull(Join(["PUL", topic, a, b], ' ')).Ok? <==> ParseInt(a).Some? && ParseInt(b).Some?
    ensures ParseReplicaFetch(Join(["RFH", id, topic, a, b], ' ')).Ok? <==> ParseInt(a).Some? && ParseInt(b).Some?
    ensures ParseBrokerRegister(Join(["BRK", id, a, b], ' ')).Ok? <==> ParseInt(b).Some?
  {
    hide SplitMax, Join, ParseInt;
    FourFields("CMT", topic, a, b);
    FourFields("PUL", topic, a, b);
    FiveFields("RFH", id, topic, a, b);
    FourFields("BRK", id, a, b);
    LevelsAreNumbers();
  }

  lemma LevelsAreNumbers()
    ensures ParseInt("-1").Some? && ParseInt("0").Some? && ParseInt("1").Some?
  {
    assert Dec(0) == "0" && Dec(1) == "1" && Dec(-1) == "-1";
    ParseDec(0);
    ParseDec(1);
    ParseDec(-1);
  }

  /** Whatever was parsed can be sent again, except an empty ISR list. */
  lemma ParsedIsSafe(text: string, checksum: bool, crc: string -> nat)
    ensures
      var r := ParseBody(text, checksum, crc);
      r.Ok? ==> CommandSafe(r.value) || (r.value.IsrChangeCommand? && r.value.isr == [])
  {
    hide SplitMax, ParseInt, ListOf, Free, Tag;
    LevelsInRange();
    ListIsSafe(text);
  }

  lemma LevelsInRange()
    ensures forall s :: AcksOf(s).Some? ==> AcksValid(AcksOf(s).value)
  {
    assert Dec(0) == "0" && Dec(1) == "1" && Dec(-1) == "-1";
    ParseDec(0);
    ParseDec(1);
    ParseDec(-1);
  }

  lemma ListIsSafe(text: string)
    ensures |SplitMax(text, ' ', 2)| == 3 ==> ListSafe(ListOf(SplitMax(text, ' ', 2)[2]))
  {
    if |SplitMax(text, ' ', 2)| == 3 {
      JoinSplit(SplitMax(text, ' ', 2)[2], ',');
    }
  }

  /** Skipping drops blanks, all of those in front, and nothing else. */
  lemma {:induction false} SkipBlanksIs(s: string)
    ensures |SkipBlanks(s)| <= |s| && SkipBlanks(s) == s[|s| - |SkipBlanks(s)|..]
    ensures AllBlank(s[..|s| - |SkipBlanks(s)|])
    ensures SkipBlanks(s) != "" ==> !IsBlank(SkipBlanks(s)[0])
  {
    hide IsBlank;
    if s != [] && IsBlank(s[0]) {
      SkipBlanksIs(s[1..]);
      var k := |s| - |SkipBlanks(s)|;
      assert forall i | 0 < i < k :: s[i] == s[1..][..k - 1][i - 1];
    }
  }

  lemma HeaderFinds(id: string, rest: string)
    requires HeaderSafe(Some(id))
    ensures ParseHeader("[CRR=" + id + "]" + rest) == (Some(id), SkipBlanks(rest))
  {
    hide SkipBlanks, IndexOf;
    var text := "[CRR=" + id + "]" + rest;
    assert text[5..] == id + [']'] + rest && text[..5] == "[CRR=";
    IndexOfFirst(id, ']', rest);
    assert text[5..5 + |id|] == id && text[5 + |id| + 1..] == rest;
  }

  /** For any text: a header is found exactly when the text begins with one; without one the text stays as it is. */
  lemma HeaderFoundIff(text: string, id: string)
    ensures ParseHeader(text).0 == Some(id) <==>
            HeaderSafe(Some(id)) && exists rest :: text == "[CRR=" + id + "]" + rest
    ensures ParseHeader(text).0 == None ==> ParseHeader(text).1 == text
  {
    hide SkipBlanks, IndexOf;
    if ParseHeader(text).0 == Some(id) {
      var end := IndexOf(text[5..], ']');
      assert text == "[CRR=" + id + "]" + text[5 + end + 1..];
      assert text[5..][..end] == id;
    }
    if HeaderSafe(Some(id)) && exists rest :: text == "[CRR=" + id + "]" + rest {
      var rest :| text == "[CRR=" + id + "]" + rest;
      HeaderFinds(id, rest);
    }
  }
}
