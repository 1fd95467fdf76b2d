/**
 * MessagePackage: the validator of Sugo messages and the ordered list of
 * accepted messages that a bulk delivery sends.
 */
module Collector {
  import opened Options
  import opened Json
  import opened Errors
  import opened Builder

  /** JSONObject.getString(key): the text under `key`, or None where org.json throws JSONException. */
  function GetString(o: Object, key: string): Option<string>
  {
    if key in o && o[key].Str? then Some(o[key].s) else None
  }

  /** JSONObject.getJSONObject(key): the object under `key`, or None where org.json throws JSONException. */
  function GetObject(o: Object, key: string): Option<Object>
  {
    if key in o && o[key].Obj? then Some(o[key].fields) else None
  }

  /**
   * MessagePackage.isValidMessage: reads "event" as a string and "properties"
   * as an object, then looks for "token", "time" and "sugo_lib" in it. Any
   * failed read is caught and gives false, so the predicate is total.
   */
  predicate IsValidMessage(message: Object)
    ensures IsValidMessage(message) ==>
      && GetString(message, "event").Some? && GetObject(message, "properties").Some?
      && "token" in message["properties"].fields
      && "time" in message["properties"].fields
      && "sugo_lib" in message["properties"].fields
  {
    var eventName := GetString(message, "event");
    var properties := GetObject(message, "properties");
    if eventName.None? || properties.None? then false
    else
      var p := properties.value;
      "token" in p && "time" in p && "sugo_lib" in p
  }

  /** The envelope shape MessageBuilder promises, stated on its own. */
  predicate HasEnvelopeShape(message: Object)
  {
    && "event" in message && message["event"].Str?
    && "properties" in message && message["properties"].Obj?
    && "token" in message["properties"].fields
    && "time" in message["properties"].fields
    && "sugo_lib" in message["properties"].fields
  }

  /** The validator accepts exactly the messages with the envelope shape. */
  lemma ValidIffEnvelopeShape(message: Object)
    ensures IsValidMessage(message) <==> HasEnvelopeShape(message)
  {
  }

  /**
   * A message the builder produces is valid exactly when it was given an
   * event name and a token was available, from the caller or from the builder.
   */
  lemma BuiltMessageValidity(
    builder: MessageBuilder, distinctId: Option<string>, eventName: Option<string>,
    properties: Option<Object>, nowMillis: int)
    ensures var m := EventWithDistinctId(builder, distinctId, eventName, properties, nowMillis);
      IsValidMessage(m) <==> eventName.Some? && ("token" in CallerProperties(properties) || builder.token.Some?)
  {
  }

  /** A builder with a token always produces a valid message from a non-null event name. */
  lemma BuiltMessageIsValid(
    builder: MessageBuilder, distinctId: Option<string>, eventName: string,
    properties: Option<Object>, nowMillis: int)
    requires builder.token.Some?
    ensures IsValidMessage(EventWithDistinctId(builder, distinctId, Some(eventName), properties, nowMillis))
  {
    BuiltMessageValidity(builder, distinctId, Some(eventName), properties, nowMillis);
  }

  /** A bare property map, without the event/properties wrapper, is rejected. */
  lemma BarePropertiesInvalid(properties: Object)
    requires "event" !in properties
    ensures !IsValidMessage(properties)
  {
  }

  /**
   * The messages of SugoAPITest: the sample properties alone are rejected;
   * the "login" event built from them, and an event built from null
   * properties, are accepted.
   */
  lemma SampleMessages(nowMillis: int)
    ensures var builder, props := MessageBuilder(Some("a token")), map["prop key" := Str("prop value")];
      && !IsValidMessage(props)
      && IsValidMessage(EventWithDistinctId(builder, Some("a distinct id"), Some("login"), Some(props), nowMillis))
      && IsValidMessage(EventWithDistinctId(builder, Some("a distinct id"), Some("empty event"), None, nowMillis))
  {
  }

  /** MessagePackage: the messages accepted so far, in the order they were added. */
  class MessagePackage {
    var messages: seq<Object>

    /** Every message held was accepted by the validator. */
    predicate Valid()
      reads this
    {
      forall i | 0 <= i < |messages| :: IsValidMessage(messages[i])
    }

    /** A new package is empty. */
    constructor ()
      ensures Valid() && messages == []
    {
      messages := [];
    }

    /**
     * addMessage: a valid message is appended at the end; an invalid one
     * throws SugoMessageException carrying it and leaves the package as it was.
     */
    method AddMessage(message: Object) returns (r: Outcome)
      requires Valid()
      modifies this
      ensures Valid()
      ensures IsValidMessage(message) ==> r == Pass && messages == old(messages) + [message]
      ensures !IsValidMessage(message) ==> r == Fail(BadMessage(message)) && messages == old(messages)
    {
      if !IsValidMessage(message) {
        return Fail(BadMessage(message));
      }
      messages := messages + [message];
      r := Pass;
    }

    /** getEventsMessages: the accepted messages in insertion order, each of them valid. */
    function EventsMessages(): (ms: seq<Object>)
      reads this
      requires Valid()
      ensures |ms| == |messages|
      ensures forall i | 0 <= i < |ms| :: HasEnvelopeShape(ms[i])
    {
      messages
    }
  }
}
