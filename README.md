# Publish closure of the RabbitMQ Groovy DSL, in Dafny

This project models `PublishClosure.call(Object[])`, the operation a Groovy
script uses to publish one AMQP message: `publish(exchange, routingKey, parts...)`.
The call turns its arguments into a message and submits the network publish
to a background thread pool. The model covers the two deterministic halves of
that work and the submission itself:

- **Argument parsing.** With fewer than two arguments the call does nothing
  and returns null. Otherwise the first two arguments, stringified, are the
  exchange and the routing key. Every later Map argument is merged into one
  header map, a later key overriding an earlier one. Every later `byte[]`, and
  the bytes of every later `String` or `GString`, is appended to the body in
  argument order. Any other argument is ignored.
- **Reserved-header extraction.** Inside the submitted sender task the keys
  `contentType`, `correlationId`, `replyTo` and `contentEncoding` are removed
  from the header map. Each one that is present sets the matching content
  property of `basic.publish` (AMQP 0-9-1, class `basic`) to its stringified
  value. The rest of the map becomes the generic `headers` property.

Files:

- `wrappers.dfy`: `Option`, standing for a nullable Java value.
- `java_values.dfy`: the arguments as a tagged union `Obj` (Map, `byte[]`,
  `String`, `GString`, anything else) and `toString()`.
- `publish_arguments.dfy`: the merged header map and the body as functions of
  the arguments after the routing key, with their laws.
- `basic_properties.dfy`: the properties record, the extraction method and
  its specification, and the inverse that puts the properties back as headers.
- `publish_closure.dfy`: the closure as a class whose `senderPool` holds the
  submitted tasks, the parsing loop, `Call`, and the sender task's run.

## Model

| member | source | states |
|---|---|---|
| `MqDsl.PublishClosure.Call` | src/main/java/com/jbrisbin/groovy/mqdsl/PublishClosure.java:52-110 | fewer than two arguments: returns null and submits nothing; otherwise returns the closure itself and submits exactly one sender task, for exchange `args[0]`, routing key `args[1]` and the parsed headers and body, whose run publishes `Published(args)` |
| `MqDsl.PublishClosure.ParseParts` | src/main/java/com/jbrisbin/groovy/mqdsl/PublishClosure.java:59-77 | the loop from index 2 leaves the header map equal to the left-to-right merge of the Map arguments and the body equal to the in-order concatenation of the byte[]/String/GString arguments' bytes |
| `MqDsl.PublishClosure.constructor` | src/main/java/com/jbrisbin/groovy/mqdsl/PublishClosure.java:44-49 | a new closure has submitted nothing and uses the given charset for `getBytes()` |
| `MqDsl.Published` | src/main/java/com/jbrisbin/groovy/mqdsl/PublishClosure.java:53-58 | a message is published exactly when there are at least two arguments, and its exchange and routing key are the stringified first and second arguments |
| `MqDsl.RunSendTask` | src/main/java/com/jbrisbin/groovy/mqdsl/PublishClosure.java:79-100 | the sender task publishes the captured exchange, routing key and body unchanged, with the properties extracted from the captured headers and the non-reserved headers as generic headers |
| `MqDsl.PublishedKeys` | src/main/java/com/jbrisbin/groovy/mqdsl/PublishClosure.java:59-95 | a reserved key's property is set, and a non-reserved key is a generic header, exactly when some Map argument at index 2 or later carries the key; a reserved key is never a generic header |
| `MqDsl.PublishedValue` | src/main/java/com/jbrisbin/groovy/mqdsl/PublishClosure.java:61-95 | the published value of a key is its value in the last Map argument carrying it (stringified for a reserved key): last write wins |
| `MqDsl.PublishedBody` | src/main/java/com/jbrisbin/groovy/mqdsl/PublishClosure.java:60-77 | the published body is the concatenation, in argument order, of every byte[] argument and the encoded bytes of every String/GString argument at index 2 or later |
| `PublishArguments.MergedHeadersAppend` | src/main/java/com/jbrisbin/groovy/mqdsl/PublishClosure.java:61-63 | merging two runs of arguments is the first run's map overridden by the second's |
| `PublishArguments.MergedHeadersDomain` | src/main/java/com/jbrisbin/groovy/mqdsl/PublishClosure.java:59-63 | a key is in the merged map exactly when some Map argument carries it |
| `PublishArguments.MergedHeadersLastWins` | src/main/java/com/jbrisbin/groovy/mqdsl/PublishClosure.java:61-63 | a key's merged value is its value in the last Map argument that carries it |
| `PublishArguments.BodyAppend` | src/main/java/com/jbrisbin/groovy/mqdsl/PublishClosure.java:64-76 | the body of two runs of arguments is the first run's body followed by the second's |
| `PublishArguments.BodyIsJoinedChunks` | src/main/java/com/jbrisbin/groovy/mqdsl/PublishClosure.java:60-76 | the body written argument by argument equals the chunks of all arguments joined from the front |
| `PublishArguments.ChunkInBody` | src/main/java/com/jbrisbin/groovy/mqdsl/PublishClosure.java:64-76 | each argument's bytes appear in the body right after the bytes of the arguments before it |
| `PublishArguments.BodyEmptyWithoutChunks` | src/main/java/com/jbrisbin/groovy/mqdsl/PublishClosure.java:60-76 | with no byte[], String or GString argument the body is empty |
| `PublishArguments.IgnoredArgumentKeepsHeaders` | src/main/java/com/jbrisbin/groovy/mqdsl/PublishClosure.java:61-77 | removing an argument that is not a Map, byte[], String or GString, wherever it stands, leaves the merged headers unchanged |
| `PublishArguments.IgnoredArgumentKeepsBody` | src/main/java/com/jbrisbin/groovy/mqdsl/PublishClosure.java:61-77 | removing such an argument leaves the body unchanged |
| `BasicProperties.ExtractProperties` | src/main/java/com/jbrisbin/groovy/mqdsl/PublishClosure.java:81-95 | each reserved property is set exactly when its key is present, to the key's stringified value; the generic headers hold exactly the non-reserved keys with their values unchanged |
| `BasicProperties.ExtractionIsIdempotent` | src/main/java/com/jbrisbin/groovy/mqdsl/PublishClosure.java:83-95 | extracting again from the generic headers sets no dedicated property and leaves the generic headers as they were |
| `BasicProperties.RestoreAfterExtract` | src/main/java/com/jbrisbin/groovy/mqdsl/PublishClosure.java:83-95 | when the reserved values are Strings, putting the dedicated properties back as headers rebuilds the merged map: extraction loses nothing |
| `BasicProperties.ExtractAfterRestore` | src/main/java/com/jbrisbin/groovy/mqdsl/PublishClosure.java:83-95 | extraction recovers every property from the headers they were restored to |

## Left out

- The cached thread pool and its asynchronous, unordered execution: submission is appending a task to `senderPool`, and a task's run is the separate method `RunSendTask`.
- Opening a channel, `basicPublish` and closing the channel: network I/O through the client library. `RunSendTask` returns the arguments it would pass to `basicPublish` instead.
- The logging of `IOException`s: writing to a `ByteArrayOutputStream` cannot fail, and publish failures are I/O.
- The platform default charset of `String.getBytes()`: an arbitrary function `encode` fixed when the closure is built.
- `toString()` of maps, arrays and other objects, and GString interpolation: an object other than a String carries its rendering, a GString its interpolated text.
- A null exchange or routing key, and a null value under one of the four reserved keys: `toString()` throws on them (the latter ends the sender task before `basicPublish`, so nothing is published). A null argument after the routing key needs no case of its own: it is none of the recognised types, so it is ignored exactly like `OtherObj`.
- A null value under a non-reserved header key cannot be expressed, because `Obj` has no null; the closure passes such a value through to the generic headers untouched.
- The Groovy `Closure` superclass with its `owner`, and the `connection` field: the constructor keeps only the pool and the charset.
- Map keys that are not Strings: header keys are strings here.
- The insertion order of the `LinkedHashMap`: headers are a Dafny `map`.
- The other fields of the client library's properties record, which the closure never sets.
- The always-true check that the header map is not null: the generic headers are always set.
