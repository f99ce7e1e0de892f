/** From the producer's message to the consumer's: encoded, framed, parsed, stored, read back, split and decoded. */
module Publishing {
  import opened Seqs
  import opened Bytes
  import opened Decimal
  import opened Text
  import opened Packets
  import opened Codec
  import opened Segments
  import opened Consuming

  predicate Ascii(s: string) {
    forall i | 0 <= i < |s| :: s[i] as int < 128
  }

  /** `encode`, on ASCII. */
  function EncodeText(s: string): (r: seq<byte>)
    requires Ascii(s)
    ensures |r| == |s|
  {
    seq(|s|, i requires 0 <= i < |s| => s[i] as int)
  }

  /** `decode`, on ASCII; `None` for a byte above 127, which starts a longer character. */
  function DecodeText(b: seq<byte>): Option<string> {
    if forall i | 0 <= i < |b| :: b[i] < 128 then Some(seq(|b|, i requires 0 <= i < |b| => b[i] as char)) else None
  }

  lemma DecodeEncode(s: string)
    requires Ascii(s)
    ensures DecodeText(EncodeText(s)) == Some(s)
  {
    var decoded := DecodeText(EncodeText(s));
    assert decoded.Some?;
    assert forall i | 0 <= i < |s| :: decoded.value[i] == s[i];
    assert decoded.value == s;
  }

  /** `decode_record`: the check value and the message behind it, if they fit together. */
  function DecodeRecord(record: seq<byte>, crc: string -> nat): Parsed<(int, string)> {
    var text := DecodeText(record);
    if text == None then Malformed
    else
      var parts := SplitMax(text.value, ' ', 1);
      if ParseInt(parts[0]) == None || |parts| < 2 then Malformed
      else if crc(parts[1]) != ParseInt(parts[0]).value then ChecksumFailed
      else Ok((ParseInt(parts[0]).value, parts[1]))
  }

  lemma RecordDecodes(message: string, crc: string -> nat)
    requires Ascii(message)
    ensures Ascii(Record(message, crc))
    ensures DecodeRecord(EncodeText(Record(message, crc)), crc) == Ok((crc(message) as int, message))
  {
    hide SplitMax, Dec, ParseInt, DecodeText;
    RecordIsAscii(message, crc);
    DecodeEncode(Record(message, crc));
    DecNoSpace(crc(message));
    TwoFields(Dec(crc(message)), message);
    ParseDec(crc(message));
  }

  /** A record with any number in front: it decodes if and only if the number is the check value of the message. */
  lemma RecordCheckedIff(n: int, message: string, crc: string -> nat)
    requires Ascii(message)
    ensures Ascii(Join([Dec(n), message], ' '))
    ensures DecodeRecord(EncodeText(Join([Dec(n), message], ' ')), crc) ==
            if n == crc(message) then Ok((n, message)) else ChecksumFailed
  {
    hide SplitMax, Dec, ParseInt, DecodeText, Join;
    DecIsAscii(n);
    JoinIsAscii([Dec(n), message], ' ');
    DecodeEncode(Join([Dec(n), message], ' '));
    DecNoSpace(n);
    TwoFields(Dec(n), message);
    ParseDec(n);
  }

  /** Whatever the bytes: what decodes has the check value it says, and a record without a space never decodes. */
  lemma DecodedIsIntact(record: seq<byte>, crc: string -> nat)
    ensures
      var r := DecodeRecord(record, crc);
      && (r.Ok? ==> r.value.0 == crc(r.value.1))
      && (32 !in record ==> r == Malformed)
  {
    hide SplitMax, ParseInt;
    var text := DecodeText(record);
    if text.Some? && 32 !in record {
      assert ' ' !in text.value;
      SplitMaxWhole(text.value, ' ', 1);
    }
  }

  lemma RecordIsAscii(message: string, crc: string -> nat)
    requires Ascii(message)
    ensures Ascii(Record(message, crc))
  {
    DecIsAscii(crc(message));
    JoinIsAscii([Dec(crc(message)), message], ' ');
  }

  lemma DecIsAscii(n: int)
    ensures Ascii(Dec(n))
  {
  }

  lemma JoinIsAscii(parts: seq<string>, c: char)
    requires (forall i | 0 <= i < |parts| :: Ascii(parts[i])) && c as int < 128
    ensures Ascii(Join(parts, c))
  {
    hide Join;
    var s := Join(parts, c);
    forall k | 0 <= k < |s|
      ensures s[k] as int < 128
    {
      JoinHas(parts, c, s[k]);
      if s[k] != c {
        var i :| 0 <= i < |parts| && s[k] in parts[i];
      }
    }
  }

  /** A publication; `id` is its correlation id, if it has one. */
  datatype Publication = Publication(topic: string, message: string, acks: int, id: Option<string>)

  function PublicationText(p: Publication, crc: string -> nat): string {
    HeaderText(p.id) + Join(CommandFields(PublishCommand(p.topic, p.message, p.acks, true), true, crc).value, ' ')
  }

  /** What the producer may send: separators only where the protocol allows them, and a length that fits the prefix. */
  predicate Sendable(p: Publication, crc: string -> nat) {
    && NoSpace(p.topic) && AcksValid(p.acks) && HeaderSafe(p.id)
    && Ascii(p.topic) && Ascii(p.message) && (p.id.Some? ==> Ascii(p.id.value))
    && |PublicationText(p, crc)| < FRAME_LIMIT
  }

  lemma FieldsAreAscii(p: Publication, crc: string -> nat)
    requires Ascii(p.topic) && Ascii(p.message) && (p.id.Some? ==> Ascii(p.id.value))
    ensures Ascii(PublicationText(p, crc))
  {
    hide Join, Dec, Record;
    var fields := CommandFields(PublishCommand(p.topic, p.message, p.acks, true), true, crc).value;
    DecIsAscii(p.acks);
    RecordIsAscii(p.message, crc);
    JoinIsAscii(fields, ' ');
    assert Ascii(HeaderText(p.id));
  }

  /** The producer's frame. */
  function Sent(p: Publication, crc: string -> nat): seq<byte>
    requires Sendable(p, crc)
  {
    FieldsAreAscii(p, crc);
    Frame(EncodeText(PublicationText(p, crc)))
  }

  /** The broker reads a length, then that many bytes, and parses them; what it will store is the payload. */
  function Accepted(frame: seq<byte>, crc: string -> nat): Parsed<(string, seq<byte>)>
    requires |frame| >= PREFIX_SIZE && |frame| == PREFIX_SIZE + FromBytes(frame[..4])
  {
    var text := DecodeText(frame[4..4 + FromBytes(frame[..4])]);
    if text == None then Malformed
    else match ParseCommand(text.value, true, crc)
      case Ok((_, cmd)) => if cmd.PublishCommand? && Ascii(cmd.payload) then Ok((cmd.topic, EncodeText(cmd.payload))) else Malformed
      case ChecksumFailed => ChecksumFailed
      case _ => Malformed
  }

  /** The broker stores the message behind its check value, under the producer's topic. */
  lemma AcceptedIsRecord(p: Publication, crc: string -> nat)
    requires Sendable(p, crc)
    ensures Ascii(Record(p.message, crc)) && |Record(p.message, crc)| < FRAME_LIMIT
    ensures |Sent(p, crc)| >= PREFIX_SIZE && |Sent(p, crc)| == PREFIX_SIZE + FromBytes(Sent(p, crc)[..4])
    ensures Accepted(Sent(p, crc), crc) == Ok((p.topic, EncodeText(Record(p.message, crc))))
  {
    hide Join, Record, ParseCommand, HeaderText, Frame, DecodeText, FromBytes;
    var text := PublicationText(p, crc);
    FieldsAreAscii(p, crc);
    RecordIsAscii(p.message, crc);
    RecordFits(p, crc);
    var payload := EncodeText(text);
    FrameAt(payload, []);
    assert Frame(payload) + [] == Frame(payload);
    DecodeEncode(text);
    CommandRoundTripIff(p.id, PublishCommand(p.topic, p.message, p.acks, true), true, crc);
  }

  /** A publication whose message was damaged, so that the check value does not fit, is refused and not stored. */
  lemma CorruptIsRefused(p: Publication, n: int, crc: string -> nat)
    requires NoSpace(p.topic) && AcksValid(p.acks) && HeaderSafe(p.id) && n != crc(p.message)
    requires
      var text := HeaderText(p.id) + Join(["PUB", p.topic, Dec(p.acks), Dec(n), p.message], ' ');
      Ascii(text) && |text| < FRAME_LIMIT
    ensures
      var frame := Frame(EncodeText(HeaderText(p.id) + Join(["PUB", p.topic, Dec(p.acks), Dec(n), p.message], ' ')));
      |frame| == PREFIX_SIZE + FromBytes(frame[..4]) && Accepted(frame, crc) == ChecksumFailed
  {
    hide Join, Dec, ParseCommand, HeaderText, Frame, DecodeText, FromBytes;
    var text := HeaderText(p.id) + Join(["PUB", p.topic, Dec(p.acks), Dec(n), p.message], ' ');
    FrameAt(EncodeText(text), []);
    assert Frame(EncodeText(text)) + [] == Frame(EncodeText(text));
    DecodeEncode(text);
    CommandCheckedIff(p.id, p.topic, p.acks, n, p.message, crc);
  }

  lemma RecordFits(p: Publication, crc: string -> nat)
    ensures |Record(p.message, crc)| <= |PublicationText(p, crc)|
  {
    hide Join, Record;
    var fields := CommandFields(PublishCommand(p.topic, p.message, p.acks, true), true, crc).value;
    JoinLonger(fields, 3);
  }

  lemma {:induction false} JoinLonger(parts: seq<string>, i: nat)
    requires i < |parts|
    ensures |parts[i]| <= |Join(parts, ' ')|
  {
    if i > 0 {
      JoinLonger(parts[1..], i - 1);
    }
  }

  /** What happens at the broker: a publication arrives, or the consumer polls, or the cache evicts. */
  datatype Action = Publish(p: Publication, expired: bool) | Other(step: Step)

  predicate Possible(a: Action, crc: string -> nat) {
    if a.Publish? then Sendable(a.p, crc) else !a.step.Append?
  }

  /** The step that the broker takes. */
  function StepOf(a: Action, crc: string -> nat): (step: Step)
    requires Possible(a, crc)
  {
    match a
    case Publish(p, expired) =>
      AcceptedIsRecord(p, crc);
      var stored := Accepted(Sent(p, crc), crc).value;
      Append(stored.0, stored.1, expired)
    case Other(step) => step
  }

  function StepsOf(actions: seq<Action>, crc: string -> nat): (steps: seq<Step>)
    requires forall i | 0 <= i < |actions| :: Possible(actions[i], crc)
    ensures |steps| == |actions| && forall i | 0 <= i < |actions| :: steps[i] == StepOf(actions[i], crc)
  {
    seq(|actions|, i requires 0 <= i < |actions| => StepOf(actions[i], crc))
  }

  /** The messages published to a topic, in order, each with its check value. */
  function Messages(actions: seq<Action>, topic: string, crc: string -> nat): seq<(int, string)> {
    if actions == [] then []
    else
      var last := actions[|actions| - 1];
      Messages(actions[..|actions| - 1], topic, crc)
      + (if last.Publish? && last.p.topic == topic then [(crc(last.p.message) as int, last.p.message)] else [])
  }

  /** Every record decodes, to these messages. */
  ghost predicate Decodes(records: seq<seq<byte>>, messages: seq<(int, string)>, crc: string -> nat) {
    && |records| == |messages|
    && forall i | 0 <= i < |records| :: DecodeRecord(records[i], crc) == Ok(messages[i])
  }

  lemma {:induction false} PublishedDecodes(actions: seq<Action>, topic: string, crc: string -> nat)
    requires forall i | 0 <= i < |actions| :: Possible(actions[i], crc)
    ensures Decodes(PayloadsFor(StepsOf(actions, crc), topic), Messages(actions, topic, crc), crc)
  {
    hide DecodeRecord, Possible, StepOf;
    if actions != [] {
      var front, last := actions[..|actions| - 1], actions[|actions| - 1];
      PublishedDecodes(front, topic, crc);
      var steps := StepsOf(actions, crc);
      assert steps[..|steps| - 1] == StepsOf(front, crc);
      LastDecodes(last, crc);
    }
  }

  lemma LastDecodes(a: Action, crc: string -> nat)
    requires Possible(a, crc)
    ensures a.Publish? <==> StepOf(a, crc).Append?
    ensures a.Publish? ==>
              StepOf(a, crc).topic == a.p.topic
              && DecodeRecord(StepOf(a, crc).data, crc) == Ok((crc(a.p.message) as int, a.p.message))
  {
    hide DecodeRecord, Record, Sent, Accepted, Sendable;
    if a.Publish? {
      AcceptedIsRecord(a.p, crc);
      SentIsAscii(a.p, crc);
      RecordDecodes(a.p.message, crc);
    }
  }

  lemma SentIsAscii(p: Publication, crc: string -> nat)
    requires Sendable(p, crc)
    ensures Ascii(p.message)
  {
  }

  /** End to end: a consumer of a new topic receives exactly the published messages, once, in order and intact,
      whatever is published elsewhere, polled or evicted meanwhile. */
  method PublishAndConsume(consumer: Consumer, actions: seq<Action>, sizes: nat -> int, crc: string -> nat)
    returns (received: seq<seq<byte>>)
    requires consumer.Valid() && consumer.topic !in consumer.View().chunks
    requires forall i | 0 <= i < |actions| :: Possible(actions[i], crc)
    requires TopicsSafe(consumer.View().registry.place, consumer.View().chunks.Keys + Topics(StepsOf(actions, crc)))
    modifies consumer, consumer.View(), consumer.View().registry, consumer.View().memory, consumer.View().memory.disk,
             consumer.View().memory.disk.files.Values, consumer.View().memory.cache.Values,
             consumer.View().memory.cleanupQueue
    ensures Decodes(received, Messages(actions, consumer.topic, crc), crc)
  {
    hide Consumer.Valid, TopicsSafe, StepsOf, Decodes, PayloadsFor, Messages, Topics;
    PublishedDecodes(actions, consumer.topic, crc);
    ghost var payloads := PayloadsFor(StepsOf(actions, crc), consumer.topic);
    received := consumer.Consume(StepsOf(actions, crc), sizes);
    assert received == [] + payloads == payloads;
  }
}
