# Sugo Java SDK: message envelope, batch and chunked delivery in Dafny

This project models the core of the Sugo Java SDK, a client that reports named
events with key/value properties to a collection service. It covers four parts:

- **MessageBuilder** wraps an event name and the caller's properties into a
  message `{ "event": name, "properties": { ... } }`. It adds the client
  `token`, the `time` in seconds and the library tag `sugo_lib = "jdk"` when
  the caller did not supply them. It sets `distinct_id` whenever one is given.
- **MessagePackage** has a total validator, `isValidMessage`, and an ordered
  list that accepts only valid messages.
- **SugoAPI** sends a package to a `Sender` in slices of at most 50 messages
  (`MAX_MESSAGE_SIZE`). It stops with `SugoServerException` at the first slice
  the sender refuses. `sendMessage` sends a single message this way.
  `encodeDataString` turns a payload into the HTTP `data` parameter: UTF-8,
  then base 64 (section 4 of RFC 4648), then form-urlencoding (section
  17.13.4.1 of HTML 4.01, as `java.net.URLEncoder` applies it).
- **DefaultWorker** builds one message, validates it and sends it on its own.

How things are represented:

- JSON values are the datatype `Json.Value`, and a JSONObject is a
  `map<string, Value>`.
- A Java `null` is `Options.None`. org.json's `put(key, null)` removes the key
  (`Json.Put`), so a null event name or a null token leaves its key out.
- The two exceptions are `Errors.SugoError`, either `BadMessage(message)` or
  `Refused(batch)`. A call returns `Errors.Outcome`: `Pass`, or `Fail(error)`.
- The clock is the parameter `nowMillis`. Java's `long` division truncates
  toward zero, and `Builder.Seconds` writes that out.
- The `Sender` interface is the class `Api.Sender`. Its answer comes from an
  oracle `accepts(previous payloads, payload)`, so any deterministic sender
  can be described. Its `sent` field records every call in order.
- A payload is a JSON value, not its text. A slice is sent as a JSON array of
  its messages (`Api.JsonArray`). The worker sends a single object.
- `sendMessages` is proved against two specification functions:
  `Chunking.Chunks` (the slices) and `Api.Deliver` (send each slice, stop at
  the first refusal). The lemmas beside them state partition, slice sizes,
  order and early stop.
- Every encoding step has a decoder, and the round trip is proved. So
  `Api.DecodeDataString(EncodeDataString(s))` gives back `s`.

Two facts about the code the model keeps:

- MessageBuilder accepts any event name, the empty string included. Among
  event names only null makes the message invalid. A message with no token,
  from the caller or from the builder, is invalid too
  (`Collector.BuiltMessageValidity`).
- MessageBuilder copies the caller's properties by printing and re-parsing
  them. On `Json.Value` that copy is the identity.

## Model

| member | source | states |
|---|---|---|
| Json.Put | src/main/java/io/sugo/sugojavasdk/MessageBuilder.java:43 | org.json put: a null value removes the key; any other value replaces it; other keys keep their values |
| Builder.Seconds | src/main/java/io/sugo/sugojavasdk/MessageBuilder.java:38 | the seconds of a millisecond clock reading, truncated toward zero: s*1000 <= ms < s*1000+1000 for ms >= 0, mirrored for ms < 0 |
| Builder.MessageProperties | src/main/java/io/sugo/sugojavasdk/MessageBuilder.java:45-64 | token, time and sugo_lib are added only when absent, and a caller's value is kept. A missing token stays absent when the builder's token is null. time is Seconds(nowMillis). A given distinct id always wins; without one the caller's entry is untouched. Every other caller property is carried over unchanged, and nothing else is added. Null properties read as the empty object |
| Builder.EventWithDistinctId | src/main/java/io/sugo/sugojavasdk/MessageBuilder.java:37-72 | the envelope holds exactly "properties" and, for a non-null name, "event" equal to it; "properties" is the object MessageProperties describes |
| Builder.Event | src/main/java/io/sugo/sugojavasdk/MessageBuilder.java:21-23 | the two-argument overload is the three-argument one with a null distinct id; distinct_id is present only when the caller supplied it, with the caller's value |
| Collector.IsValidMessage | src/main/java/io/sugo/sugojavasdk/MessagePackage.java:37-53 | isValidMessage is total: GetString and GetObject give None where org.json's getString and getJSONObject throw JSONException, and that failed read makes the result false; so a valid message has a string "event" and an object "properties" holding token, time and sugo_lib |
| Collector.ValidIffEnvelopeShape | src/main/java/io/sugo/sugojavasdk/MessagePackage.java:37-53 | isValidMessage holds iff "event" is a string, "properties" is an object, and that object has token, time and sugo_lib; any other shape gives false, never an error |
| Collector.BuiltMessageValidity | src/main/java/io/sugo/sugojavasdk/MessageBuilder.java:37-72 | a built message is valid iff it was given a non-null event name and a token was available, from the caller's properties or from the builder |
| Collector.BuiltMessageIsValid | src/test/java/io/sugo/sugojavasdk/SugoAPITest.java:85-88 | a builder with a token produces a valid message from any non-null event name, any distinct id and any properties |
| Collector.BarePropertiesInvalid | src/test/java/io/sugo/sugojavasdk/SugoAPITest.java:70-72 | a property map without an "event" key is not a valid message |
| Collector.SampleMessages | src/test/java/io/sugo/sugojavasdk/SugoAPITest.java:70-83 | the test's sample properties are rejected; the "login" event built from them and an event built from null properties are accepted |
| Collector.MessagePackage.constructor | src/main/java/io/sugo/sugojavasdk/MessagePackage.java:14 | a new package is empty |
| Collector.MessagePackage.AddMessage | src/main/java/io/sugo/sugojavasdk/MessagePackage.java:23-29 | a valid message is appended at the end and the call returns normally; an invalid one fails with BadMessage carrying it and leaves the list unchanged; every held message stays valid |
| Collector.MessagePackage.EventsMessages | src/main/java/io/sugo/sugojavasdk/MessagePackage.java:55-57 | the held messages, one per accepted addMessage, each with the envelope shape |
| Api.JsonArray | src/main/java/io/sugo/sugojavasdk/SugoAPI.java:76-82 | a slice's payload is an array with one object per message, which reads back as exactly that slice |
| Api.DataString | src/main/java/io/sugo/sugojavasdk/SugoAPI.java:76-82 | the loop that fills the JSONArray yields JsonArray of the slice |
| Api.Sender.SendData | src/main/java/io/sugo/sugojavasdk/SugoAPI.java:111-113 | one sendData call appends the payload to the log and returns the oracle's answer for it |
| Api.SugoApi.constructor | src/main/java/io/sugo/sugojavasdk/SugoAPI.java:27-29 | the API object holds the given sender |
| Api.SugoApi.SenderSendData | src/main/java/io/sugo/sugojavasdk/SugoAPI.java:104-106 | hands one payload to the sender: the log grows by it and the answer is the sender's |
| Api.SugoApi.SendMessages | src/main/java/io/sugo/sugojavasdk/SugoAPI.java:53-68 | the sender's new log and the outcome are those of Deliver over Chunks of the package's messages |
| Api.DeliverSendsPrefix | src/main/java/io/sugo/sugojavasdk/SugoAPI.java:55-67 | a delivery sends a prefix of the slices, in order, one payload each. It returns normally only after sending all of them; otherwise the last slice sent was refused and is the one the failure carries. Every earlier slice was accepted and no later one is sent |
| Api.DeliverChunkSizes | src/main/java/io/sugo/sugojavasdk/SugoAPI.java:55-60 | every payload sent carries between 1 and MAX_MESSAGE_SIZE messages, and the earlier log is kept as it was |
| Api.DeliverAllInOrder | src/main/java/io/sugo/sugojavasdk/SugoAPI.java:55-58 | an empty package sends nothing and returns normally; a delivery that returns normally has sent every message exactly once, in order (the batches sent, joined, equal the package) |
| Api.DeliverFailureReportsLastChunk | src/main/java/io/sugo/sugojavasdk/SugoAPI.java:62-65 | a failed delivery fails with Refused, after at least one send, carrying exactly the messages of the last payload sent |
| Api.DeliverSendCount | src/main/java/io/sugo/sugojavasdk/SugoAPI.java:55-66 | a delivery of n messages that returns normally made exactly ceil(n/50) sends |
| Api.DeliverThreeChunks | src/test/java/io/sugo/sugojavasdk/SugoAPITest.java:152-194 | 2*50+k messages (0 < k < 50), all accepted, make three sends of 50, 50 and k messages (149 gives 50, 50, 49) |
| Api.DeliverToRefusingSender | src/main/java/io/sugo/sugojavasdk/SugoAPI.java:62-65 | a sender that refuses everything gets exactly one call, with the first slice, and the failure carries that slice |
| Api.SugoApi.SendMessage | src/main/java/io/sugo/sugojavasdk/SugoAPI.java:40-45 | an invalid message fails with BadMessage before any send; a valid one makes exactly one send, a one-element array, and fails with Refused([message]) iff the sender refuses it |
| Api.EncodeDataString | src/main/java/io/sugo/sugojavasdk/SugoAPI.java:89-99 | a null argument fails (the NullPointerException) and any string is encoded |
| Api.EncodeDataStringRoundTrip | src/main/java/io/sugo/sugojavasdk/SugoAPI.java:91-99 | form-url decoding, base 64 decoding and UTF-8 decoding of the encoded payload give back the original text |
| Api.EncodeDataStringEscapes | src/main/java/io/sugo/sugojavasdk/SugoAPI.java:95 | the encoded payload is the base 64 text with only "+", "/" and "=" escaped, as %2B, %2F and %3D |
| Api.EncodeDataStringVectors | src/test/java/io/sugo/sugojavasdk/SugoAPITest.java:205-217 | null fails; "" gives ""; "{}" gives "e30%3D"; "[]" gives "W10%3D" |
| Chunking.Min | src/main/java/io/sugo/sugojavasdk/SugoAPI.java:57 | Math.min: the smaller of the two |
| Chunking.FlattenChunks | src/main/java/io/sugo/sugojavasdk/SugoAPI.java:55-58 | the slices, joined in order, are the whole list: no gap, no overlap |
| Chunking.ChunkAt | src/main/java/io/sugo/sugojavasdk/SugoAPI.java:55-58 | there are ceil(n/50) slices, and slice j is the list from j*50 up to min(j*50+50, n) |
| Chunking.ChunkSizes | src/main/java/io/sugo/sugojavasdk/SugoConfig.java:10 | every slice holds between 1 and 50 elements, and all but the last hold exactly 50 |
| Chunking.ThreeChunks | src/test/java/io/sugo/sugojavasdk/SugoAPITest.java:164-165 | a list of 2*50+k elements (0 < k < 50) makes three slices of 50, 50 and k |
| Utf8.Encode | src/main/java/io/sugo/sugojavasdk/SugoAPI.java:93 | getBytes("utf-8") gives between 1 and 4 octets per character, and on ASCII text it is the identity |
| Utf8.DecodeEncode | src/main/java/io/sugo/sugojavasdk/SugoAPI.java:93 | UTF-8 decoding of the octets gives back the text |
| Base64.Encode | src/main/java/io/sugo/sugojavasdk/SugoAPI.java:94 | the encoding has 4*ceil(n/3) characters, all from the base 64 alphabet or "=" |
| Base64.DecodeEncode | src/main/java/io/sugo/sugojavasdk/SugoAPI.java:94 | base 64 decoding of the encoding gives back the octets |
| FormUrl.Encode | src/main/java/io/sugo/sugojavasdk/SugoAPI.java:95 | URLEncoder never shortens its input |
| FormUrl.DecodeEncode | src/main/java/io/sugo/sugojavasdk/SugoAPI.java:95 | form-url decoding of the encoding gives back the text |
| FormUrl.EncodeBase64Text | src/main/java/io/sugo/sugojavasdk/SugoAPI.java:95 | on base 64 text the encoder escapes only "+", "/" and "=", the alphabet's non-alphanumerics |
| Worker.DefaultWorker.constructor | src/main/java/io/sugo/sugojavasdk/DefaultWorker.java:15-20 | the worker holds the sender, a builder with the given token and a new, empty package |
| Worker.DefaultWorker.SenderSendData | src/main/java/io/sugo/sugojavasdk/DefaultWorker.java:31-33 | hands one payload to the sender: the log grows by it and the answer is the sender's |
| Worker.DefaultWorker.Event | src/main/java/io/sugo/sugojavasdk/DefaultWorker.java:22-29 | builds with no distinct id. A valid message is sent once, alone, as an object, and the call returns normally whatever the sender answers. An invalid message fails with BadMessage carrying it and nothing is sent. The package never grows |
| Worker.WorkerPayloadIsSingle | src/main/java/io/sugo/sugojavasdk/DefaultWorker.java:25 | the worker's payload is a single object, which does not read as a list of messages, while the bulk path's one-message payload reads back as exactly that message |

## Left out

- HttpSender, FileSender and ConsoleSender (SugoAPI.java:115-291) are left out: network I/O, timeouts, streams and logging configuration. HttpSender's acceptance rule (a response body of exactly "1") is one possible `accepts` oracle, and the model allows any oracle.
- The demo programs are left out (threads, a concurrent queue, sleeps, console input). So are the queue-capacity and consumer-count constants in SugoConfig.java, which nothing uses.
- org.json's text form is left out. `JSONArray.toString`, `new JSONObject(String)` and the copy in MessageBuilder.java:49 are identities on `Json.Value`. Numbers are integers only, with no floating point.
- Which Java string a `getString` call accepts for a non-string "event" depends on the org.json version. The model requires a JSON string.
- isValidMessage and addMessage called with a null message object are left out: Java raises NullPointerException, which is not caught. The `eventName == null` branch of isValidMessage (MessagePackage.java:43) is left out too, because getString never returns null.
- `String.getBytes` is modelled on Unicode scalar values. Lone UTF-16 surrogates, which Java would replace by "?", do not arise.
- Base64.Decode accepts non-zero bits in the padding group. It is a decoder for the round trip, not a strict validator.
- Api.SugoApi.SendMessages: uses unbounded integers. In Java, `endIndex = i + 50` (SugoAPI.java:56) overflows when i reaches 2147483600 and wraps to -2147483646; Math.min keeps it, and subList then throws IllegalArgumentException before the last slice is sent. This needs a list of more than 2147483600 messages; the model sends that slice and passes.
- Collector.MessagePackage.AddMessage: holds messages as values. The Java package keeps references to the caller's own JSONObjects. A message the caller changes after adding it is not checked again, and sendMessages sends it as it then is. So `Valid()`, the envelope shape promised by EventsMessages and the `Valid()` precondition of SendMessages describe the messages as they were when added, not as a caller may have changed them since.
- Collector.MessagePackage.EventsMessages: returns the list as a value. The Java method hands out the live list, through which a caller could change the package.
- The two longer vectors of SugoAPITest.java:219-222 are not stated as lemmas. They are instances of Api.EncodeDataStringEscapes and of the round trip.
- `MessageBuilder(String)` (MessageBuilder.java:17-19) is the datatype constructor `Builder.MessageBuilder(token)`. DefaultWorker's `new MessageBuilder()` does not match any constructor in the code, so the worker takes the token as a constructor argument.
