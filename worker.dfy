/**
 * DefaultWorker: builds one message, checks it with the validator and hands
 * it to the sender on its own, with no batching and no retry.
 */
module Worker {
  import opened Options
  import opened Json
  import opened Errors
  import opened Builder
  import opened Collector
  import opened Api

  class DefaultWorker {
    const sender: Sender
    const messageBuilder: MessageBuilder
    const messagePackage: MessagePackage

    /** The builder's token is given here; the package is only ever used to validate. */
    constructor (sender: Sender, token: Option<string>)
      ensures this.sender == sender && messageBuilder == MessageBuilder(token)
      ensures fresh(messagePackage) && messagePackage.messages == []
    {
      this.sender := sender;
      messageBuilder := MessageBuilder(token);
      messagePackage := new MessagePackage();
    }

    /** senderSendData: hands one payload to the sender; the answer is returned to the caller. */
    method SenderSendData(data: Value) returns (accepted: bool)
      modifies sender
      ensures sender.sent == old(sender.sent) + [data]
      ensures accepted == sender.accepts(old(sender.sent), data)
    {
      accepted := sender.SendData(data);
    }

    /**
     * event: builds the message with no distinct id. A valid message is sent
     * alone, as an object rather than an array, and whatever the sender
     * answers the call returns normally. An invalid message throws
     * SugoMessageException carrying it and nothing is sent.
     */
    method Event(eventName: Option<string>, properties: Option<Object>, nowMillis: int) returns (r: Outcome)
      modifies sender
      ensures var m := Builder.Event(messageBuilder, eventName, properties, nowMillis);
        && (IsValidMessage(m) ==> r == Pass && sender.sent == old(sender.sent) + [Obj(m)])
        && (!IsValidMessage(m) ==> r == Fail(BadMessage(m)) && sender.sent == old(sender.sent))
      ensures messagePackage.messages == old(messagePackage.messages)
    {
      var eventObj := Builder.Event(messageBuilder, eventName, properties, nowMillis);
      if IsValidMessage(eventObj) {
        var _ := SenderSendData(Obj(eventObj));
        r := Pass;
      } else {
        r := Fail(BadMessage(eventObj));
      }
    }
  }

  /**
   * What the worker sends is a single object, never a list of messages,
   * whereas the bulk path sends the same message as a one-element list.
   */
  lemma WorkerPayloadIsSingle(m: Object)
    ensures ParseMessages(Obj(m)).None?
    ensures ParseMessages(JsonArray([m])) == Some([m])
  {
  }
}
