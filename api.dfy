/**
 * SugoAPI: sends a MessagePackage to a Sender in chunks of at most
 * MaxMessageSize messages, stopping at the first chunk the Sender refuses,
 * and encodes a payload for the HTTP "data" parameter.
 */
module Api {
  import opened Options
  import opened Json
  import opened Errors
  import opened Config
  import opened Chunking
  import opened Collector
  import Utf8
  import Base64
  import FormUrl

  /** Reading a payload back as a list of messages: an array whose items are all objects. */
  function ParseMessages(v: Value): Option<seq<Object>>
  {
    if v.Arr? && forall i | 0 <= i < |v.items| :: v.items[i].Obj?
    then Some(seq(|v.items|, i requires 0 <= i < |v.items| => v.items[i].fields))
    else None
  }

  /** The JSONArray a list of messages is sent as: one object per message, in order. */
  function JsonArray(messages: seq<Object>): (v: Value)
    ensures v.Arr? && |v.items| == |messages|
    ensures ParseMessages(v) == Some(messages)
  {
    var v := Arr(seq(|messages|, i requires 0 <= i < |messages| => Obj(messages[i])));
    assert seq(|v.items|, i requires 0 <= i < |v.items| => v.items[i].fields) == messages;
    v
  }

  /** The payloads of a list of chunks, one per chunk. */
  function Payloads(chunks: seq<seq<Object>>): (ps: seq<Value>)
    ensures |ps| == |chunks|
  {
    seq(|chunks|, i requires 0 <= i < |chunks| => JsonArray(chunks[i]))
  }

  /** The lists of messages a log of payloads carries (a payload that is not an array of objects carries none). */
  function Batches(log: seq<Value>): seq<seq<Object>>
  {
    seq(|log|, i requires 0 <= i < |log| => match ParseMessages(log[i]) case Some(ms) => ms case None => [])
  }

  /**
   * SugoAPI.dataString: builds the JSONArray of a chunk one message at a
   * time. Its text form is not modelled: the payload is the array itself.
   */
  method DataString(messages: seq<Object>) returns (payload: Value)
    ensures payload == JsonArray(messages)
  {
    var items: seq<Value> := [];
    var i := 0;
    while i < |messages|
      invariant 0 <= i <= |messages|
      invariant |items| == i
      invariant forall k | 0 <= k < i :: items[k] == Obj(messages[k])
    {
      items := items + [Obj(messages[i])];
      i := i + 1;
    }
    payload := Arr(items);
  }

  /**
   * A Sender (SugoAPI.Sender). Whether sendData accepts a payload is left
   * open: `accepts` answers for each payload, knowing every payload sent
   * before it. `sent` records the payloads in call order.
   */
  class Sender {
    const accepts: (seq<Value>, Value) -> bool
    var sent: seq<Value>

    constructor (accepts: (seq<Value>, Value) -> bool)
      ensures this.accepts == accepts && sent == []
    {
      this.accepts := accepts;
      sent := [];
    }

    /** sendData: one call, recorded, answered by the oracle. */
    method SendData(data: Value) returns (accepted: bool)
      modifies this
      ensures sent == old(sent) + [data]
      ensures accepted == accepts(old(sent), data)
    {
      accepted := accepts(sent, data);
      sent := sent + [data];
    }
  }

  /** What a bulk delivery leaves behind: the sender's log and how the call ended. */
  datatype Delivery = Delivery(log: seq<Value>, outcome: Outcome)

  /**
   * The bulk delivery of `chunks` to a sender whose log is `sent`: each chunk
   * is sent as one payload; the first refused chunk ends the delivery with
   * SugoServerException carrying it.
   */
  function Deliver(accepts: (seq<Value>, Value) -> bool, sent: seq<Value>, chunks: seq<seq<Object>>): Delivery
    decreases |chunks|
  {
    if |chunks| == 0 then Delivery(sent, Pass)
    else
      var payload := JsonArray(chunks[0]);
      if accepts(sent, payload) then Deliver(accepts, sent + [payload], chunks[1..])
      else Delivery(sent + [payload], Fail(Refused(chunks[0])))
  }

  /** The log of a delivery: the old log followed by the payloads of a prefix of the chunks, ending at the refused one. */
  lemma {:induction false} DeliverLog(accepts: (seq<Value>, Value) -> bool, sent: seq<Value>, chunks: seq<seq<Object>>)
    ensures var d := Deliver(accepts, sent, chunks);
      var k := |d.log| - |sent|;
      && 0 <= k <= |chunks|
      && d.log == sent + Payloads(chunks[..k])
      && (d.outcome.Pass? ==> k == |chunks|)
      && (d.outcome.Fail? ==>
            && 0 < k
            && d.outcome.error == Refused(chunks[k - 1])
            && !accepts(d.log[..|d.log| - 1], d.log[|d.log| - 1]))
    decreases |chunks|
  {
    if |chunks| > 0 {
      var payload := JsonArray(chunks[0]);
      var d := Deliver(accepts, sent, chunks);
      if accepts(sent, payload) {
        DeliverLog(accepts, sent + [payload], chunks[1..]);
        var k := |d.log| - |sent|;
        assert Payloads(chunks[..k]) == [payload] + Payloads(chunks[1..][..k - 1]);
      } else {
        assert chunks[..1] == [chunks[0]];
        assert d.log[..|d.log| - 1] == sent;
      }
    }
  }

  /** Every payload a delivery sends before its last one was accepted, and so was the last one when it ends normally. */
  lemma {:induction false} DeliverAccepted(accepts: (seq<Value>, Value) -> bool, sent: seq<Value>, chunks: seq<seq<Object>>)
    ensures var d := Deliver(accepts, sent, chunks);
      && |sent| <= |d.log|
      && d.log[..|sent|] == sent
      && (forall j | |sent| <= j < |d.log| - (if d.outcome.Fail? then 1 else 0) :: accepts(d.log[..j], d.log[j]))
    decreases |chunks|
  {
    if |chunks| > 0 {
      var payload := JsonArray(chunks[0]);
      var d := Deliver(accepts, sent, chunks);
      if accepts(sent, payload) {
        var next := sent + [payload];
        DeliverAccepted(accepts, next, chunks[1..]);
        assert d.log[..|next|] == next;
        assert d.log[..|sent|] == next[..|sent|] == sent;
        assert d.log[|sent|] == next[|sent|] == payload;
      }
    }
  }

  /**
   * A delivery sends a prefix of the chunks, in order, and nothing else.
   * It ends normally only after sending every chunk; otherwise it ends with
   * the last chunk it sent, which the sender refused. Every chunk before
   * that one was accepted.
   */
  lemma DeliverSendsPrefix(accepts: (seq<Value>, Value) -> bool, sent: seq<Value>, chunks: seq<seq<Object>>)
    ensures var d := Deliver(accepts, sent, chunks);
      var k := |d.log| - |sent|;
      && 0 <= k <= |chunks|
      && d.log == sent + Payloads(chunks[..k])
      && (d.outcome.Pass? ==> k == |chunks|)
      && (d.outcome.Fail? ==>
            && 0 < k
            && d.outcome.error == Refused(chunks[k - 1])
            && !accepts(d.log[..|d.log| - 1], d.log[|d.log| - 1]))
      && (forall j | |sent| <= j < |d.log| - (if d.outcome.Fail? then 1 else 0) :: accepts(d.log[..j], d.log[j]))
  {
    DeliverLog(accepts, sent, chunks);
    DeliverAccepted(accepts, sent, chunks);
  }

  /** Every payload a delivery of a message list sends carries between 1 and MaxMessageSize of its messages. */
  lemma DeliverChunkSizes(accepts: (seq<Value>, Value) -> bool, sent: seq<Value>, messages: seq<Object>)
    ensures var d := Deliver(accepts, sent, Chunks(messages));
      && |sent| <= |d.log|
      && d.log[..|sent|] == sent
      && forall j | |sent| <= j < |d.log| ::
           ParseMessages(d.log[j]).Some? && 1 <= |ParseMessages(d.log[j]).value| <= MaxMessageSize
  {
    var cs := Chunks(messages);
    var d := Deliver(accepts, sent, cs);
    DeliverSendsPrefix(accepts, sent, cs);
    ChunkSizes(messages);
    var k := |d.log| - |sent|;
    forall j | |sent| <= j < |d.log|
      ensures ParseMessages(d.log[j]).Some? && 1 <= |ParseMessages(d.log[j]).value| <= MaxMessageSize
    {
      assert d.log[j] == Payloads(cs[..k])[j - |sent|] == JsonArray(cs[j - |sent|]);
    }
  }

  /**
   * A delivery of a message list that ends normally has sent every message
   * exactly once, in order; an empty list sends nothing.
   */
  lemma DeliverAllInOrder(accepts: (seq<Value>, Value) -> bool, sent: seq<Value>, messages: seq<Object>)
    ensures var d := Deliver(accepts, sent, Chunks(messages));
      && (|messages| == 0 ==> d == Delivery(sent, Pass))
      && (d.outcome.Pass? ==> |sent| <= |d.log| && Flatten(Batches(d.log[|sent|..])) == messages)
  {
    var cs := Chunks(messages);
    var d := Deliver(accepts, sent, cs);
    DeliverSendsPrefix(accepts, sent, cs);
    if d.outcome.Pass? {
      assert cs[..|cs|] == cs;
      var ps := d.log[|sent|..];
      assert ps == Payloads(cs);
      assert Batches(ps) == cs;
      FlattenChunks(messages);
    }
  }

  /** A delivery that fails reports the messages of the last payload it sent. */
  lemma DeliverFailureReportsLastChunk(accepts: (seq<Value>, Value) -> bool, sent: seq<Value>, messages: seq<Object>)
    ensures var d := Deliver(accepts, sent, Chunks(messages));
      d.outcome.Fail? ==>
        && d.outcome.error.Refused?
        && |sent| < |d.log|
        && ParseMessages(d.log[|d.log| - 1]) == Some(d.outcome.error.batch)
  {
    var cs := Chunks(messages);
    var d := Deliver(accepts, sent, cs);
    DeliverSendsPrefix(accepts, sent, cs);
    if d.outcome.Fail? {
      var k := |d.log| - |sent|;
      assert d.log[|d.log| - 1] == Payloads(cs[..k])[k - 1] == JsonArray(cs[k - 1]);
    }
  }

  /** A delivery of a message list that ends normally made one send per slice: ChunkCount(|messages|) sends. */
  lemma DeliverSendCount(accepts: (seq<Value>, Value) -> bool, sent: seq<Value>, messages: seq<Object>)
    ensures var d := Deliver(accepts, sent, Chunks(messages));
      d.outcome.Pass? ==> |d.log| - |sent| == ChunkCount(|messages|)
  {
    DeliverSendsPrefix(accepts, sent, Chunks(messages));
    ChunkAt(messages);
  }

  /** With 2 * MaxMessageSize + k messages, 0 < k < MaxMessageSize, all accepted: three sends, of MaxMessageSize, MaxMessageSize and k messages. */
  lemma DeliverThreeChunks(accepts: (seq<Value>, Value) -> bool, sent: seq<Value>, messages: seq<Object>, k: nat)
    requires 0 < k < MaxMessageSize && |messages| == 2 * MaxMessageSize + k
    requires Deliver(accepts, sent, Chunks(messages)).outcome.Pass?
    ensures var log := Deliver(accepts, sent, Chunks(messages)).log;
      && |log| == |sent| + 3
      && var batches := Batches(log[|sent|..]);
      |batches[0]| == MaxMessageSize && |batches[1]| == MaxMessageSize && |batches[2]| == k
  {
    var cs := Chunks(messages);
    DeliverSendsPrefix(accepts, sent, cs);
    ThreeChunks(messages, k);
    var log := Deliver(accepts, sent, cs).log;
    assert cs[..3] == cs;
    assert Batches(log[|sent|..]) == cs;
  }

  /** A sender that refuses everything gets exactly one call, with the first chunk, which the failure carries. */
  lemma DeliverToRefusingSender(accepts: (seq<Value>, Value) -> bool, sent: seq<Value>, messages: seq<Object>)
    requires forall log, payload :: !accepts(log, payload)
    requires |messages| > 0
    ensures var first := messages[..Min(MaxMessageSize, |messages|)];
      Deliver(accepts, sent, Chunks(messages)) == Delivery(sent + [JsonArray(first)], Fail(Refused(first)))
  {
  }

  /** The SugoAPI object: a front end to one Sender. */
  class SugoApi {
    const sender: Sender

    constructor (sender: Sender)
      ensures this.sender == sender
    {
      this.sender := sender;
    }

    /** senderSendData: hands one payload to the sender. */
    method SenderSendData(data: Value) returns (accepted: bool)
      modifies sender
      ensures sender.sent == old(sender.sent) + [data]
      ensures accepted == sender.accepts(old(sender.sent), data)
    {
      accepted := sender.SendData(data);
    }

    /**
     * sendMessages: walks the package's messages in strides of
     * MaxMessageSize, sends each slice as one payload and throws
     * SugoServerException with the slice when the sender refuses it.
     */
    method SendMessages(toSend: MessagePackage) returns (r: Outcome)
      requires toSend.Valid()
      modifies sender
      ensures var d := Deliver(sender.accepts, old(sender.sent), Chunks(toSend.messages));
        sender.sent == d.log && r == d.outcome
    {
      var messages := toSend.EventsMessages();
      ghost var goal := Deliver(sender.accepts, sender.sent, Chunks(messages));
      var i := 0;
      while i < |messages|
        invariant 0 <= i
        invariant goal == Deliver(sender.accepts, sender.sent, Chunks(messages[Min(i, |messages|)..]))
      {
        var endIndex := i + MaxMessageSize;
        endIndex := Min(endIndex, |messages|);
        var batch := messages[i..endIndex];
        ghost var rest := messages[i..];
        assert rest[..endIndex - i] == batch && rest[endIndex - i..] == messages[endIndex..];
        assert Chunks(rest) == [batch] + Chunks(messages[endIndex..]);
        if |batch| > 0 {
          var messagesString := DataString(batch);
          var accepted := SenderSendData(messagesString);
          if !accepted {
            return Fail(Refused(batch));
          }
        }
        i := i + MaxMessageSize;
      }
      r := Pass;
    }

    /**
     * sendMessage: an invalid message throws SugoMessageException before
     * anything is sent; a valid one is sent alone, as a one-element array.
     */
    method SendMessage(message: Object) returns (r: Outcome)
      modifies sender
      ensures !IsValidMessage(message) ==> r == Fail(BadMessage(message)) && sender.sent == old(sender.sent)
      ensures IsValidMessage(message) ==>
        var payload := JsonArray([message]);
        && sender.sent == old(sender.sent) + [payload]
        && r == if sender.accepts(old(sender.sent), payload) then Pass else Fail(Refused([message]))
    {
      var messagePackage := new MessagePackage();
      r := messagePackage.AddMessage(message);
      if r.Fail? {
        return;
      }
      assert messagePackage.messages == [message];
      assert [message][..1] == [message] && [message][1..] == [];
      assert Chunks(messagePackage.messages) == [[message]];
      r := SendMessages(messagePackage);
    }
  }

  /** The text a form-urlencoded base 64 payload stands for, or None if it is not one. */
  function DecodeDataString(encoded: string): Option<string>
  {
    match FormUrl.Decode(encoded)
    case None => None
    case Some(b64) =>
      match Base64.Decode(b64)
      case None => None
      case Some(octets) => Utf8.Decode(octets)
  }

  /**
   * SugoAPI.encodeDataString: the UTF-8 octets of the text, in base 64, then
   * form-urlencoded. None stands for the NullPointerException a null argument raises.
   */
  function EncodeDataString(dataString: Option<string>): (r: Option<string>)
    ensures r.Some? <==> dataString.Some?
  {
    match dataString
    case None => None
    case Some(s) => Some(FormUrl.Encode(Base64.Encode(Utf8.Encode(s))))
  }

  /** Decoding an encoded payload gives back the text. */
  lemma EncodeDataStringRoundTrip(s: string)
    ensures DecodeDataString(EncodeDataString(Some(s)).value) == Some(s)
  {
    var octets := Utf8.Encode(s);
    var b64 := Base64.Encode(octets);
    FormUrl.DecodeEncode(b64);
    Base64.DecodeEncode(octets);
    Utf8.DecodeEncode(s);
  }

  /**
   * The encoded payload is the base 64 text with only "+", "/" and "=" escaped,
   * as "%2B", "%2F" and "%3D"; every other character is a letter or a digit.
   */
  lemma EncodeDataStringEscapes(s: string)
    ensures var b64 := Base64.Encode(Utf8.Encode(s));
      EncodeDataString(Some(s)).value == FormUrl.EscapeBase64(b64)
  {
    FormUrl.EncodeBase64Text(Base64.Encode(Utf8.Encode(s)));
  }

  /** "{}", the text of an empty JSONObject, encodes as "e30%3D". */
  lemma EmptyObjectVector()
    ensures EncodeDataString(Some("{}")) == Some("e30%3D")
  {
    assert Utf8.Encode("{}") == [123, 125];
    assert Base64.Digit(30) == 'e' && Base64.Digit(55) == '3' && Base64.Digit(52) == '0';
    assert Base64.Encode([123, 125]) == "e30=";
    assert FormUrl.Encode("e30=") == "e30%3D";
  }

  /** "[]", the text of an empty JSONArray, encodes as "W10%3D". */
  lemma EmptyArrayVector()
    ensures EncodeDataString(Some("[]")) == Some("W10%3D")
  {
    assert Utf8.Encode("[]") == [91, 93];
    assert Base64.Digit(22) == 'W' && Base64.Digit(53) == '1' && Base64.Digit(52) == '0';
    assert Base64.Encode([91, 93]) == "W10=";
    assert FormUrl.Encode("W10=") == "W10%3D";
  }

  /** The vectors of SugoAPITest: null is refused, and "", "{}" and "[]" encode as "", "e30%3D" and "W10%3D". */
  lemma EncodeDataStringVectors()
    ensures EncodeDataString(None) == None
    ensures EncodeDataString(Some("")) == Some("")
    ensures EncodeDataString(Some("{}")) == Some("e30%3D")
    ensures EncodeDataString(Some("[]")) == Some("W10%3D")
  {
    EmptyObjectVector();
    EmptyArrayVector();
  }
}
