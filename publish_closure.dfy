/**
 * The publish closure: `call(args)` turns its arguments into one message and
 * submits a sender task for it. The cached thread pool is the sequence of
 * submitted tasks; a task's run is the property extraction followed by the
 * one `basicPublish` it makes, whose arguments are returned as a value.
 */
module MqDsl {
  import opened Wrappers
  import opened JavaValues
  import opened BasicProperties
  import opened PublishArguments

  /** What the submitted Runnable captures: the message before property extraction. */
  datatype SendTask = SendTask(
    exchange: JString,
    routingKey: JString,
    headers: map<JString, Obj>,
    body: seq<byte>)

  /** The arguments of the one `basicPublish` a sender task makes. */
  datatype Publication = Publication(
    exchange: JString,
    routingKey: JString,
    properties: Properties,
    body: seq<byte>)

  /** The task a call with at least two arguments submits. */
  function TaskFor(args: seq<Obj>, encode: JString -> seq<byte>): SendTask
    requires |args| >= 2
  {
    SendTask(ToString(args[0]), ToString(args[1]), MergedHeaders(args[2..]), Body(args[2..], encode))
  }

  /** What running a sender task publishes. */
  function PublicationOf(task: SendTask): Publication {
    Publication(task.exchange, task.routingKey, PropertiesOf(task.headers), task.body)
  }

  /** The message a call publishes, if any. */
  function Published(args: seq<Obj>, encode: JString -> seq<byte>): (m: Option<Publication>)
    ensures m.Some? <==> |args| >= 2
    ensures m.Some? ==> m.value.exchange == ToString(args[0]) && m.value.routingKey == ToString(args[1])
  {
    if |args| < 2 then None else Some(PublicationOf(TaskFor(args, encode)))
  }

  /**
   * The body of the submitted Runnable: build the properties from the
   * captured header map and hand exchange, routing key, properties and body
   * to the channel's `basicPublish`.
   */
  method RunSendTask(task: SendTask) returns (pub: Publication)
    ensures pub == PublicationOf(task)
    ensures pub.exchange == task.exchange && pub.routingKey == task.routingKey && pub.body == task.body
    ensures pub.properties.headers == Some(task.headers - ReservedKeys)
  {
    var properties := ExtractProperties(task.headers);
    pub := Publication(task.exchange, task.routingKey, properties, task.body);
  }

  /**
   * Which keys a published message carries: a reserved key is set as its
   * dedicated property, and any other key is a generic header, exactly when
   * some Map argument after the routing key carries it.
   */
  lemma PublishedKeys(args: seq<Obj>, encode: JString -> seq<byte>, k: JString)
    requires |args| >= 2
    ensures var p := Published(args, encode).value.properties;
            (k in ReservedKeys ==> (Reserved(p, k).Some? <==> CarriedBy(args, k))) &&
            (k !in ReservedKeys ==> (k in p.headers.value <==> CarriedBy(args, k))) &&
            (k in ReservedKeys ==> k !in p.headers.value)
  {
    var parts := args[2..];
    MergedHeadersDomain(parts, k);
    if CarriedBy(args, k) {
      var i :| 2 <= i < |args| && args[i].MapObj? && k in args[i].entries;
      assert parts[i - 2] == args[i];
    }
    if exists i :: 0 <= i < |parts| && parts[i].MapObj? && k in parts[i].entries {
      var i :| 0 <= i < |parts| && parts[i].MapObj? && k in parts[i].entries;
      assert args[i + 2] == parts[i];
    }
  }

  /** Whether some Map argument after the routing key carries the key. */
  predicate CarriedBy(args: seq<Obj>, k: JString) {
    exists i :: 2 <= i < |args| && args[i].MapObj? && k in args[i].entries
  }

  /**
   * Last write wins: the value a published message carries for a key is the
   * one in the last Map argument carrying it, stringified when the key is
   * reserved.
   */
  lemma PublishedValue(args: seq<Obj>, encode: JString -> seq<byte>, i: nat, k: JString)
    requires 2 <= i < |args| && args[i].MapObj? && k in args[i].entries
    requires forall j :: i < j < |args| && args[j].MapObj? ==> k !in args[j].entries
    ensures var p := Published(args, encode).value.properties;
            (k in ReservedKeys ==> Reserved(p, k) == Some(ToString(args[i].entries[k]))) &&
            (k !in ReservedKeys ==> k in p.headers.value && p.headers.value[k] == args[i].entries[k])
  {
    var parts := args[2..];
    forall j | i - 2 < j < |parts| && parts[j].MapObj?
      ensures k !in parts[j].entries
    {
      assert parts[j] == args[j + 2];
    }
    MergedHeadersLastWins(parts, i - 2, k);
  }

  /**
   * The published body is the bytes of every byte[], String and GString
   * argument after the routing key, in argument order.
   */
  lemma PublishedBody(args: seq<Obj>, encode: JString -> seq<byte>)
    requires |args| >= 2
    ensures Published(args, encode).value.body == JoinChunks(args[2..], encode)
  {
    BodyIsJoinedChunks(args[2..], encode);
  }

  class PublishClosure {
    /** `String.getBytes()` under the JVM's default charset. */
    const encode: JString -> seq<byte>
    /** The sender tasks submitted to the thread pool, in submission order. */
    var senderPool: seq<SendTask>

    constructor (encode: JString -> seq<byte>)
      ensures this.encode == encode && senderPool == []
    {
      this.encode := encode;
      senderPool := [];
    }

    /**
     * The loop over the arguments after the routing key: a Map is merged
     * into the headers, a byte[] and the bytes of a String or GString are
     * written to the body, anything else is skipped.
     */
    method ParseParts(args: seq<Obj>) returns (headers: map<JString, Obj>, body: seq<byte>)
      requires |args| >= 2
      ensures headers == MergedHeaders(args[2..])
      ensures body == Body(args[2..], encode)
    {
      headers := map[];
      body := [];
      var i := 2;
      while i < |args|
        invariant 2 <= i <= |args|
        invariant headers == MergedHeaders(args[2..i])
        invariant body == Body(args[2..i], encode)
      {
        assert args[2..i + 1][..i - 2] == args[2..i];
        match args[i] {
          case MapObj(entries, _) =>
            headers := headers + entries;
          case ByteArray(bytes, _) =>
            body := body + bytes;
          case StringObj(text) =>
            body := body + encode(text);
          case GStringObj(text) =>
            body := body + encode(text);
          case OtherObj(_) =>
        }
        i := i + 1;
      }
      assert args[2..i] == args[2..];
    }

    /**
     * `call(args)`: with fewer than two arguments nothing happens and null is
     * returned; otherwise exactly one sender task is submitted and the
     * closure itself is returned.
     */
    method Call(args: seq<Obj>) returns (r: Option<PublishClosure>)
      modifies this`senderPool
      ensures |args| < 2 ==> r == None && senderPool == old(senderPool)
      ensures |args| >= 2 ==> r == Some(this) && senderPool == old(senderPool) + [TaskFor(args, encode)]
      ensures |args| >= 2 ==> PublicationOf(senderPool[|senderPool| - 1]) == Published(args, encode).value
    {
      if |args| < 2 {
        return None;
      }
      var exchange := ToString(args[0]);
      var routingKey := ToString(args[1]);
      var headers, body := ParseParts(args);
      senderPool := senderPool + [SendTask(exchange, routingKey, headers, body)];
      return Some(this);
    }
  }
}
