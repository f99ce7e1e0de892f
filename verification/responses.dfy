/** Responses: one header line, and for some a payload whose length the header states. */
module Responses {
  import opened Seqs
  import opened Decimal
  import opened Text
  import opened Packets
  import opened Codec

  function ReplicasText(replicas: seq<string>): string {
    if replicas == [] then "-" else Join(replicas, ',')
  }

  function MetaFields(m: TopicMeta): seq<string> {
    [m.topic, m.leaderId, m.leaderAddr, Dec(m.leaderPort), ReplicasText(m.replicas), Dec(m.version)]
  }

  function MetaLines(metas: seq<TopicMeta>): (lines: seq<string>)
    ensures |lines| == |metas|
    ensures forall i | 0 <= i < |metas| :: lines[i] == Join(MetaFields(metas[i]), ' ')
  {
    seq(|metas|, i requires 0 <= i < |metas| => Join(MetaFields(metas[i]), ' '))
  }

  function MetaListText(metas: seq<TopicMeta>): string {
    Join(MetaLines(metas), '\n')
  }

  /** The header line's fields; `None` for the responses that only exist on the receiving side. */
  function ResponseFields(resp: Response): (fields: Option<seq<string>>)
    ensures fields.Some? ==> fields.value != [] && |fields.value[0]| == 3
  {
    match resp
    case ClientIdResponse(id) => Some(["CID", id])
    case PingResponse => Some(["PNG"])
    case OffsetAckResponse(topic, offset, acks) => Some(["OAK", topic, Dec(acks), Dec(offset)])
    case FetchOffsetResponse(topic, offset) => Some(["FCR", topic, Dec(offset)])
    case PubAckResponse(topic, offset, acks) => Some(["ACK", topic, Dec(acks), Dec(offset)])
    case ErrorResponse(code, message) => Some(["ERR", Dec(code), message])
    case MessageResponse(topic, payload) => Some(["MSG", topic, Dec(|payload|)])
    case FileResponse(topic, _, _, length) => Some(["MSG", topic, Dec(length)])
    case ReplicaFetchBytesResponse(topic, leo, hw, payload) => Some(["RPL", topic, Dec(leo), Dec(hw), Dec(|payload|)])
    case ReplicaFetchFileResponse(topic, leo, hw, _, _, length) => Some(["RPL", topic, Dec(leo), Dec(hw), Dec(length)])
    case TopicMetaDataResponse(m) => Some(["TMD"] + MetaFields(m))
    case TopicMetaDataListResponse(metas) => Some(["TML", Dec(|MetaListText(metas)|)])
    case ControllerPingResponse => Some(["CPR"])
    case NotLeaderControllerResponse(id, host, port) => Some(["NLC", id, host, Dec(port)])
    case _ => None
  }

  /** What the receiver holds after the header: the length stands for the payload that follows. */
  function Seen(resp: Response): Response {
    match resp
    case MessageResponse(topic, payload) => MessageResponseHeader(topic, |payload|)
    case FileResponse(topic, _, _, length) => MessageResponseHeader(topic, length)
    case ReplicaFetchBytesResponse(topic, leo, hw, payload) => ReplicaFetchHeaderResponse(topic, leo, hw, |payload|)
    case ReplicaFetchFileResponse(topic, leo, hw, _, _, length) => ReplicaFetchHeaderResponse(topic, leo, hw, length)
    case TopicMetaDataListResponse(metas) => TopicMetaDataListHeaderResponse(|MetaListText(metas)|)
    case _ => resp
  }

  function ParseAck(text: string, published: bool): Parsed<Response> {
    var parts := SplitMax(text, ' ', 3);
    if |parts| < 4 || AcksOf(parts[2]) == None || ParseInt(parts[3]) == None then Malformed
    else if published then Ok(PubAckResponse(parts[1], ParseInt(parts[3]).value, AcksOf(parts[2]).value))
    else Ok(OffsetAckResponse(parts[1], ParseInt(parts[3]).value, AcksOf(parts[2]).value))
  }

  function ParseTopicAndNumber(text: string, message: bool): Parsed<Response> {
    var parts := SplitMax(text, ' ', 2);
    if |parts| < 3 || ParseInt(parts[2]) == None then Malformed
    else if message then Ok(MessageResponseHeader(parts[1], ParseInt(parts[2]).value))
    else Ok(FetchOffsetResponse(parts[1], ParseInt(parts[2]).value))
  }

  function ParseError(text: string): Parsed<Response> {
    var parts := SplitMax(text, ' ', 2);
    if |parts| < 2 || ParseInt(parts[1]) == None then Malformed
    else Ok(ErrorResponse(ParseInt(parts[1]).value, if |parts| > 2 then parts[2] else ""))
  }

  function ParseReplicaHeader(text: string): Parsed<Response> {
    var parts := SplitMax(text, ' ', 4);
    if |parts| < 5 || ParseInt(parts[2]) == None || ParseInt(parts[3]) == None || ParseInt(parts[4]) == None then Malformed
    else Ok(ReplicaFetchHeaderResponse(parts[1], ParseInt(parts[2]).value, ParseInt(parts[3]).value, ParseInt(parts[4]).value))
  }

  /** Six fields of a topic's metadata. */
  function MetaOf(fields: seq<string>): Parsed<TopicMeta>
    requires |fields| >= 6
  {
    if ParseInt(fields[3]) == None || ParseInt(fields[5]) == None then Malformed
    else Ok(TopicMeta(fields[0], fields[1], fields[2], ParseInt(fields[3]).value, ListOf(fields[4]), ParseInt(fields[5]).value))
  }

  function ParseMeta(text: string): Parsed<Response> {
    var parts := SplitMax(text, ' ', 6);
    if |parts| < 7 then Malformed
    else match MetaOf(parts[1..])
      case Ok(m) => Ok(TopicMetaDataResponse(m))
      case _ => Malformed
  }

  function ParseListHeader(text: string): Parsed<Response> {
    var parts := SplitMax(text, ' ', 1);
    if |parts| < 2 || ParseInt(parts[1]) == None then Malformed
    else Ok(TopicMetaDataListHeaderResponse(ParseInt(parts[1]).value))
  }

  function ParseNotLeader(text: string): Parsed<Response> {
    var parts := SplitMax(text, ' ', 3);
    if |parts| < 4 || ParseInt(parts[3]) == None then Malformed
    else Ok(NotLeaderControllerResponse(parts[1], parts[2], ParseInt(parts[3]).value))
  }

  function ParseClientId(text: string): Parsed<Response> {
    var rest := ParseRest(text);
    if rest.None? then Malformed else Ok(ClientIdResponse(rest.value))
  }

  function ParseResponseBody(text: string): Parsed<Response> {
    var tag := Tag(text);
    if tag == "CID" then ParseClientId(text)
    else if tag == "PNG" then Ok(PingResponse)
    else if tag == "ACK" then ParseAck(text, true)
    else if tag == "OAK" then ParseAck(text, false)
    else if tag == "FCR" then ParseTopicAndNumber(text, false)
    else if tag == "ERR" then ParseError(text)
    else if tag == "MSG" then ParseTopicAndNumber(text, true)
    else if tag == "RPL" then ParseReplicaHeader(text)
    else if tag == "CPR" then Ok(ControllerPingResponse)
    else if tag == "TMD" then ParseMeta(text)
    else if tag == "TML" then ParseListHeader(text)
    else if tag == "NLC" then ParseNotLeader(text)
    else Unknown(tag)
  }

  function ParseResponse(text: string): Parsed<(Option<string>, Response)> {
    var (id, body) := ParseHeader(text);
    match ParseResponseBody(body)
    case Ok(resp) => Ok((id, resp))
    case Malformed => Malformed
    case ChecksumFailed => ChecksumFailed
    case Unknown(tag) => Unknown(tag)
  }

  predicate MetaSafe(m: TopicMeta) {
    && NoSpace(m.topic) && NoSpace(m.leaderId) && NoSpace(m.leaderAddr)
    && Free(m.replicas, ' ')
    && ListSafe(m.replicas)
  }

  predicate ResponseSafe(resp: Response) {
    match resp
    case OffsetAckResponse(topic, _, acks) => NoSpace(topic) && AcksValid(acks)
    case PubAckResponse(topic, _, acks) => NoSpace(topic) && AcksValid(acks)
    case FetchOffsetResponse(topic, _) => NoSpace(topic)
    case MessageResponse(topic, _) => NoSpace(topic)
    case FileResponse(topic, _, _, _) => NoSpace(topic)
    case ReplicaFetchBytesResponse(topic, _, _, _) => NoSpace(topic)
    case ReplicaFetchFileResponse(topic, _, _, _, _, _) => NoSpace(topic)
    case TopicMetaDataResponse(m) => MetaSafe(m)
    case NotLeaderControllerResponse(id, host, _) => NoSpace(id) && NoSpace(host)
    case _ => true
  }

  lemma ReplicasRoundTrip(replicas: seq<string>)
    ensures ListOf(ReplicasText(replicas)) == replicas <==> ListSafe(replicas)
    ensures Free(replicas, ' ') ==> NoSpace(ReplicasText(replicas))
  {
    ListRoundTrip(replicas);
    if Free(replicas, ' ') && ' ' in ReplicasText(replicas) {
      JoinHas(replicas, ',', ' ');
    }
  }

  /** What is read from a field without `c` holds no `c`, and can be sent again. */
  lemma ListOfSafe(s: string, c: char)
    ensures ListSafe(ListOf(s))
    ensures c !in s ==> Free(ListOf(s), c)
  {
    JoinSplit(s, ',');
    if c !in s {
      forall i | 0 <= i < |Split(s, ',')|
        ensures c !in Split(s, ',')[i]
      {
        if c in Split(s, ',')[i] {
          SplitHolds(s, ',', i, c);
        }
      }
    }
  }

  lemma AckRoundTrip(tag: string, topic: string, offset: int, acks: int, published: bool)
    requires NoSpace(tag)
    ensures ParseAck(Join([tag, topic, Dec(acks), Dec(offset)], ' '), published) ==
            Ok(if published then PubAckResponse(topic, offset, acks) else OffsetAckResponse(topic, offset, acks))
            <==> NoSpace(topic) && AcksValid(acks)
  {
    hide SplitMax, Join, Dec, ParseInt, AcksOf;
    FourFields(tag, topic, Dec(acks), Dec(offset));
    DecNoSpace(acks);
    AcksRoundTrip(acks);
    ParseDec(offset);
  }

  lemma TopicAndNumberRoundTrip(tag: string, topic: string, n: int, message: bool)
    requires NoSpace(tag)
    ensures ParseTopicAndNumber(Join([tag, topic, Dec(n)], ' '), message) ==
            Ok(if message then MessageResponseHeader(topic, n) else FetchOffsetResponse(topic, n))
            <==> NoSpace(topic)
  {
    hide SplitMax, Join, Dec, ParseInt;
    ThreeFields(tag, topic, Dec(n));
    ParseDec(n);
  }

  lemma ErrorRoundTrip(code: int, message: string)
    ensures ParseError(Join(["ERR", Dec(code), message], ' ')) == Ok(ErrorResponse(code, message))
  {
    hide SplitMax, Join, Dec, ParseInt;
    ThreeFields("ERR", Dec(code), message);
    DecNoSpace(code);
    ParseDec(code);
  }

  lemma ReplicaHeaderRoundTrip(topic: string, leo: int, hw: int, length: int)
    ensures ParseReplicaHeader(Join(["RPL", topic, Dec(leo), Dec(hw), Dec(length)], ' ')) ==
            Ok(ReplicaFetchHeaderResponse(topic, leo, hw, length))
            <==> NoSpace(topic)
  {
    hide SplitMax, Join, Dec, ParseInt;
    FiveFields("RPL", topic, Dec(leo), Dec(hw), Dec(length));
    DecNoSpace(leo);
    DecNoSpace(hw);
    ParseDec(leo);
    ParseDec(hw);
    ParseDec(length);
  }

  lemma NotLeaderRoundTrip(id: string, host: string, port: int)
    ensures ParseNotLeader(Join(["NLC", id, host, Dec(port)], ' ')) == Ok(NotLeaderControllerResponse(id, host, port))
            <==> NoSpace(id) && NoSpace(host)
  {
    hide SplitMax, Join, Dec, ParseInt;
    FourFields("NLC", id, host, Dec(port));
    ParseDec(port);
  }

  lemma ListHeaderRoundTrip(n: int)
    ensures ParseListHeader(Join(["TML", Dec(n)], ' ')) == Ok(TopicMetaDataListHeaderResponse(n))
  {
    hide SplitMax, Join, Dec, ParseInt;
    TwoFields("TML", Dec(n));
    ParseDec(n);
  }

  lemma MetaFieldsSplit(m: TopicMeta)
    requires MetaSafe(m)
    ensures SplitMax(Join(["TMD"] + MetaFields(m), ' '), ' ', 6) == ["TMD"] + MetaFields(m)
    ensures Free(MetaFields(m), ' ')
  {
    hide Dec, ReplicasText, ListSafe, SplitMax, Join;
    DecNoSpace(m.leaderPort);
    DecNoSpace(m.version);
    ReplicasRoundTrip(m.replicas);
    var fields := ["TMD"] + MetaFields(m);
    assert Free(fields[..6], ' ');
    SplitMaxJoin(fields, ' ');
  }

  lemma MetaOfFields(m: TopicMeta)
    ensures MetaOf(MetaFields(m)) == Ok(m) <==> ListSafe(m.replicas)
  {
    hide Dec, ReplicasText, ListSafe, ParseInt, ListOf;
    ParseDec(m.leaderPort);
    ParseDec(m.version);
    ReplicasRoundTrip(m.replicas);
  }

  /** Whatever text the metadata came from, what was read has no separators in it. */
  lemma MetaReadIsSafe(fields: seq<string>, m: TopicMeta)
    requires |fields| >= 6 && MetaOf(fields) == Ok(m)
    requires NoSpace(fields[0]) && NoSpace(fields[1]) && NoSpace(fields[2]) && NoSpace(fields[4])
    ensures MetaSafe(m)
  {
    hide ParseInt, ListSafe, ListOf, Free;
    ListOfSafe(fields[4], ' ');
  }

  lemma MetaRoundTrip(m: TopicMeta)
    ensures ParseMeta(Join(["TMD"] + MetaFields(m), ' ')) == Ok(TopicMetaDataResponse(m)) <==> MetaSafe(m)
  {
    hide MetaFields, MetaOf, SplitMax, Join, ListSafe;
    var text := Join(["TMD"] + MetaFields(m), ' ');
    if MetaSafe(m) {
      MetaFieldsSplit(m);
      MetaOfFields(m);
      assert (["TMD"] + MetaFields(m))[1..] == MetaFields(m);
      SixFields(m);
    }
    if ParseMeta(text) == Ok(TopicMetaDataResponse(m)) {
      var parts := SplitMax(text, ' ', 6);
      MetaReadIsSafe(parts[1..], m);
    }
  }

  lemma SixFields(m: TopicMeta)
    ensures |MetaFields(m)| == 6
  {
  }

  lemma ClientIdRoundTrip(id: string)
    ensures ParseClientId(Join(["CID", id], ' ')) == Ok(ClientIdResponse(id))
  {
    RestRoundTrip("CID", id);
  }

  lemma ResponseBodyRoundTrip(resp: Response)
    requires ResponseFields(resp).Some?
    ensures ParseResponseBody(Join(ResponseFields(resp).value, ' ')) == Ok(Seen(resp)) <==> ResponseSafe(resp)
  {
    hide Join, Dec, MetaListText, MetaFields, MetaSafe, ParseAck, ParseTopicAndNumber, ParseError, ParseReplicaHeader,
         ParseMeta, ParseListHeader, ParseNotLeader, ParseClientId, Tag;
    TagOfFields(ResponseFields(resp).value);
    match resp
    case ClientIdResponse(id) => ClientIdRoundTrip(id);
    case PingResponse =>
    case OffsetAckResponse(topic, offset, acks) => AckRoundTrip("OAK", topic, offset, acks, false);
    case FetchOffsetResponse(topic, offset) => TopicAndNumberRoundTrip("FCR", topic, offset, false);
    case PubAckResponse(topic, offset, acks) => AckRoundTrip("ACK", topic, offset, acks, true);
    case ErrorResponse(code, message) => ErrorRoundTrip(code, message);
    case MessageResponse(topic, payload) => TopicAndNumberRoundTrip("MSG", topic, |payload|, true);
    case FileResponse(topic, _, _, length) => TopicAndNumberRoundTrip("MSG", topic, length, true);
    case ReplicaFetchBytesResponse(topic, leo, hw, payload) => ReplicaHeaderRoundTrip(topic, leo, hw, |payload|);
    case ReplicaFetchFileResponse(topic, leo, hw, _, _, length) => ReplicaHeaderRoundTrip(topic, leo, hw, length);
    case TopicMetaDataResponse(m) => MetaRoundTrip(m);
    case TopicMetaDataListResponse(metas) => ListHeaderRoundTrip(|MetaListText(metas)|);
    case ControllerPingResponse =>
    case NotLeaderControllerResponse(id, host, port) => NotLeaderRoundTrip(id, host, port);
  }

  /** A response header comes back the same, with or without a correlation header, if and only if its non-final
      fields are free of their separators. */
  lemma ResponseRoundTripIff(id: Option<string>, resp: Response)
    requires ResponseFields(resp).Some?
    ensures ParseResponse(HeaderText(id) + Join(ResponseFields(resp).value, ' ')) == Ok((id, Seen(resp)))
            <==> HeaderSafe(id) && ResponseSafe(resp)
  {
    hide Join, ParseResponseBody, ResponseSafe, Seen, ParseHeader, HeaderText, HeaderSafe, MetaFields, MetaListText;
    var fields := ResponseFields(resp).value;
    JoinFirstChar(fields);
    HeaderRoundTrip(id, Join(fields, ' '));
    ResponseBodyRoundTrip(resp);
  }

  /** The fields of topic metadata in the order of the wire. */
  lemma MetaWireOrder(topic: string, leader: string, addr: string, port: int, replicas: seq<string>, version: int)
    requires NoSpace(topic) && NoSpace(leader) && NoSpace(addr) && Free(replicas, ' ') && replicas != [] && ListSafe(replicas)
    ensures ParseMeta(Join(["TMD", topic, leader, addr, Dec(port), Join(replicas, ','), Dec(version)], ' ')) ==
            Ok(TopicMetaDataResponse(TopicMeta(topic, leader, addr, port, replicas, version)))
  {
    hide SplitMax, Join, ParseMeta, Dec, ListSafe;
    var m := TopicMeta(topic, leader, addr, port, replicas, version);
    MetaRoundTrip(m);
    assert ["TMD"] + MetaFields(m) == ["TMD", topic, leader, addr, Dec(port), Join(replicas, ','), Dec(version)];
  }

  /** A response with a payload announces exactly the payload's length. */
  lemma PayloadLengthIsStated(id: Option<string>, resp: Response)
    requires ResponseFields(resp).Some? && HeaderSafe(id) && ResponseSafe(resp)
    ensures
      var read := ParseResponse(HeaderText(id) + Join(ResponseFields(resp).value, ' '));
      match resp
      case MessageResponse(topic, payload) => read == Ok((id, MessageResponseHeader(topic, |payload|)))
      case ReplicaFetchBytesResponse(topic, leo, hw, payload) =>
        read == Ok((id, ReplicaFetchHeaderResponse(topic, leo, hw, |payload|)))
      case TopicMetaDataListResponse(metas) => read == Ok((id, TopicMetaDataListHeaderResponse(|MetaListText(metas)|)))
      case _ => true
  {
    hide Join, ParseResponse, HeaderText, HeaderSafe, ResponseFields, MetaListText;
    ResponseRoundTripIff(id, resp);
  }

  // -- What is refused -------------------------------------------------------------------------

  /** The responses that exist, with the number of spaces each needs. */
  function ResponseSpaces(tag: string): Option<nat> {
    if tag == "PNG" || tag == "CPR" then Some(0)
    else if tag == "CID" || tag == "ERR" || tag == "TML" then Some(1)
    else if tag == "FCR" || tag == "MSG" then Some(2)
    else if tag == "ACK" || tag == "OAK" || tag == "NLC" then Some(3)
    else if tag == "RPL" then Some(4)
    else if tag == "TMD" then Some(6)
    else None
  }

  /** Unknown responses, and no others, are reported as such; a response with a field missing is malformed. */
  lemma BadResponsesAreRefused(text: string)
    ensures ParseResponseBody(text) == Unknown(Tag(text)) <==> ResponseSpaces(Tag(text)) == None
    ensures ResponseSpaces(Tag(text)).Some? && Count(text, ' ') < ResponseSpaces(Tag(text)).value ==>
              ParseResponseBody(text) == Malformed
  {
    hide SplitMax, ParseInt, AcksOf, Count, Tag, MetaOf;
    SplitMaxSize(text, ' ', 1);
    SplitMaxSize(text, ' ', 2);
    SplitMaxSize(text, ' ', 3);
    SplitMaxSize(text, ' ', 4);
    SplitMaxSize(text, ' ', 6);
  }

  /** Whatever was parsed can be sent again: no field holds a separator, no acknowledgement level is out of range. */
  lemma ParsedResponseIsSafe(text: string)
    ensures ParseResponseBody(text).Ok? ==> ResponseSafe(ParseResponseBody(text).value)
  {
    hide SplitMax, ParseInt, AcksOf, Tag, MetaOf, MetaSafe;
    LevelsInRange();
    ReadMetaIsSafe(text);
  }

  lemma ReadMetaIsSafe(text: string)
    ensures ParseMeta(text).Ok? ==> ResponseSafe(ParseMeta(text).value) && ParseMeta(text).value.TopicMetaDataResponse?
  {
    hide SplitMax, MetaOf, MetaSafe;
    var parts := SplitMax(text, ' ', 6);
    if |parts| == 7 && MetaOf(parts[1..]).Ok? {
      MetaReadIsSafe(parts[1..], MetaOf(parts[1..]).value);
    }
  }

  /** Numbers are checked: anything else in their place is malformed. */
  lemma ResponseNumbersAreChecked(topic: string, a: string, b: string, c: string)
    requires NoSpace(topic) && NoSpace(a) && NoSpace(b)
    ensures ParseReplicaHeader(Join(["RPL", topic, a, b, c], ' ')).Ok? <==> ParseInt(a).Some? && ParseInt(b).Some? && ParseInt(c).Some?
    ensures ParseTopicAndNumber(Join(["MSG", topic, c], ' '), true).Ok? <==> ParseInt(c).Some?
    ensures ParseTopicAndNumber(Join(["FCR", topic, c], ' '), false).Ok? <==> ParseInt(c).Some?
    ensures ParseError(Join(["ERR", a, c], ' ')).Ok? <==> ParseInt(a).Some?
    ensures ParseAck(Join(["ACK", topic, a, c], ' '), true).Ok? <==> (a == "-1" || a == "0" || a == "1") && ParseInt(c).Some?
  {
    hide SplitMax, Join, ParseInt;
    FiveFields("RPL", topic, a, b, c);
    ThreeFields("MSG", topic, c);
    ThreeFields("FCR", topic, c);
    ThreeFields("ERR", a, c);
    FourFields("ACK", topic, a, c);
    LevelsAreNumbers();
  }
}
