/**
 * MessageBuilder: wraps an event name and the caller's properties into a
 * Sugo message `{ "event": name, "properties": { ... } }`, adding the
 * client token, the time in seconds and the library tag when the caller
 * did not supply them.
 */
module Builder {
  import opened Options
  import opened Json

  /** A builder holds only the client token it was created with (possibly null). */
  datatype MessageBuilder = MessageBuilder(token: Option<string>)

  /** The library tag every message carries under "sugo_lib". */
  const LibraryTag: string := "jdk"

  /** Java's `long / 1000` on a time in milliseconds: division truncating toward zero. */
  function Seconds(nowMillis: int): (s: int)
    ensures nowMillis >= 0 ==> 0 <= s && s * 1000 <= nowMillis < s * 1000 + 1000
    ensures nowMillis < 0 ==> s <= 0 && s * 1000 - 1000 < nowMillis <= s * 1000
  {
    if nowMillis >= 0 then nowMillis / 1000 else -((-nowMillis) / 1000)
  }

  /** The caller's properties, a null object read as the empty one. */
  function CallerProperties(properties: Option<Object>): Object
  {
    match properties
    case Some(p) => p
    case None => map[]
  }

  /** The key names the builder may add to or overwrite in the properties. */
  predicate IsReservedKey(k: string)
  {
    k == "token" || k == "time" || k == "sugo_lib" || k == "distinct_id"
  }

  /**
   * The "properties" object of a message: a copy of the caller's properties
   * (the empty object for null) with the builder's additions.
   */
  function MessageProperties(
    builder: MessageBuilder, distinctId: Option<string>, properties: Option<Object>, nowMillis: int): (p: Object)
    // token, time and library tag are added only when absent; a caller's value is kept
    ensures var c := CallerProperties(properties);
      && ("token" in c ==> "token" in p && p["token"] == c["token"])
      && ("token" !in c ==> ("token" in p <==> builder.token.Some?))
      && ("token" !in c && builder.token.Some? ==> p["token"] == Str(builder.token.value))
      && "time" in p
      && p["time"] == (if "time" in c then c["time"] else Num(Seconds(nowMillis)))
      && "sugo_lib" in p
      && p["sugo_lib"] == (if "sugo_lib" in c then c["sugo_lib"] else Str(LibraryTag))
    // a given distinct id always wins; without one the caller's entry is left alone
    ensures var c := CallerProperties(properties);
      && (distinctId.Some? ==> "distinct_id" in p && p["distinct_id"] == Str(distinctId.value))
      && (distinctId.None? ==> ("distinct_id" in p <==> "distinct_id" in c))
      && (distinctId.None? && "distinct_id" in c ==> p["distinct_id"] == c["distinct_id"])
    // every other caller property is carried over unchanged, and nothing else is added
    ensures var c := CallerProperties(properties);
      forall k | !IsReservedKey(k) :: (k in p <==> k in c) && (k in c ==> p[k] == c[k])
  {
    var props := CallerProperties(properties);
    var props := if "token" !in props then Put(props, "token", StrOrNull(builder.token)) else props;
    var props := if "time" !in props then props["time" := Num(Seconds(nowMillis))] else props;
    var props := if "sugo_lib" !in props then props["sugo_lib" := Str(LibraryTag)] else props;
    if distinctId.Some? then props["distinct_id" := Str(distinctId.value)] else props
  }

  /**
   * MessageBuilder.event(distinctId, eventName, properties), with the clock
   * reading passed in as `nowMillis`. A null event name leaves "event" out,
   * because org.json's put with a null value removes the key.
   */
  function EventWithDistinctId(
    builder: MessageBuilder, distinctId: Option<string>, eventName: Option<string>,
    properties: Option<Object>, nowMillis: int): (m: Object)
    // the envelope: "event" holds exactly the given name, "properties" is always an object
    ensures m.Keys == {"properties"} + (if eventName.Some? then {"event"} else {})
    ensures eventName.Some? ==> m["event"] == Str(eventName.value)
    ensures m["properties"].Obj?
    // the properties are the caller's with the builder's additions
    ensures m["properties"] == Obj(MessageProperties(builder, distinctId, properties, nowMillis))
  {
    var data := Put(map[], "event", StrOrNull(eventName));
    data["properties" := Obj(MessageProperties(builder, distinctId, properties, nowMillis))]
  }

  /** MessageBuilder.event(eventName, properties): the same message built with a null distinct id. */
  function Event(builder: MessageBuilder, eventName: Option<string>, properties: Option<Object>, nowMillis: int): (m: Object)
    ensures m == EventWithDistinctId(builder, None, eventName, properties, nowMillis)
    ensures m["properties"].Obj?
    ensures var c, p := CallerProperties(properties), m["properties"].fields;
      && ("distinct_id" in p <==> "distinct_id" in c)
      && ("distinct_id" in c ==> p["distinct_id"] == c["distinct_id"])
  {
    EventWithDistinctId(builder, None, eventName, properties, nowMillis)
  }
}
