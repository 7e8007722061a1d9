/**
 * The content properties of an AMQP 0-9-1 `basic.publish` (class `basic`) as
 * far as the publish closure sets them, and the extraction of the four
 * reserved header keys into them.
 */
module BasicProperties {
  import opened Wrappers
  import opened JavaValues

  const ContentTypeKey: JString := "contentType"
  const CorrelationIdKey: JString := "correlationId"
  const ReplyToKey: JString := "replyTo"
  const ContentEncodingKey: JString := "contentEncoding"

  /** The header keys that become dedicated properties instead of generic headers. */
  const ReservedKeys: set<JString> := {ContentTypeKey, CorrelationIdKey, ReplyToKey, ContentEncodingKey}

  /**
   * The properties record; `None` is a property left unset (null).
   * The other fields of the client library's record are never set by the closure.
   */
  datatype Properties = Properties(
    contentType: Option<JString>,
    correlationId: Option<JString>,
    replyTo: Option<JString>,
    contentEncoding: Option<JString>,
    headers: Option<map<JString, Obj>>)

  /** A freshly constructed properties record: every property unset. */
  const Unset := Properties(None, None, None, None, None)

  /** The dedicated property that a reserved key sets. */
  function Reserved(p: Properties, key: JString): Option<JString>
    requires key in ReservedKeys
  {
    if key == ContentTypeKey then p.contentType
    else if key == CorrelationIdKey then p.correlationId
    else if key == ReplyToKey then p.replyTo
    else p.contentEncoding
  }

  /** The stringified value under `key`, or unset when the key is absent. */
  function Stringified(h: map<JString, Obj>, key: JString): Option<JString> {
    if key in h then Some(ToString(h[key])) else None
  }

  /** The properties the sender task builds from the merged header map. */
  function PropertiesOf(h: map<JString, Obj>): Properties {
    Properties(
      Stringified(h, ContentTypeKey),
      Stringified(h, CorrelationIdKey),
      Stringified(h, ReplyToKey),
      Stringified(h, ContentEncodingKey),
      Some(h - ReservedKeys))
  }

  /**
   * The sender task's property extraction: each reserved key that is present
   * is removed from the header map and its stringified value set as the
   * matching property; what is left of the map becomes the generic headers.
   */
  method ExtractProperties(headers: map<JString, Obj>) returns (props: Properties)
    ensures props == PropertiesOf(headers)
    ensures forall key :: key in ReservedKeys ==>
              (Reserved(props, key).Some? <==> key in headers)
    ensures forall key :: key in ReservedKeys && key in headers ==>
              Reserved(props, key) == Some(ToString(headers[key]))
    ensures props.headers.Some?
    ensures forall k :: k in props.headers.value <==> k in headers && k !in ReservedKeys
    ensures forall k :: k in props.headers.value ==> props.headers.value[k] == headers[k]
  {
    var h := headers;
    props := Unset;
    if ContentTypeKey in h {
      props := props.(contentType := Some(ToString(h[ContentTypeKey])));
      h := h - {ContentTypeKey};
    }
    if CorrelationIdKey in h {
      props := props.(correlationId := Some(ToString(h[CorrelationIdKey])));
      h := h - {CorrelationIdKey};
    }
    if ReplyToKey in h {
      props := props.(replyTo := Some(ToString(h[ReplyToKey])));
      h := h - {ReplyToKey};
    }
    if ContentEncodingKey in h {
      props := props.(contentEncoding := Some(ToString(h[ContentEncodingKey])));
      h := h - {ContentEncodingKey};
    }
    props := props.(headers := Some(h));
    assert h == headers - ReservedKeys;
    forall key | key in ReservedKeys
      ensures Reserved(props, key) == Stringified(headers, key)
    {
      ReservedOfExtracted(headers, key);
    }
  }

  /** Extracting again from the generic headers sets no dedicated property and changes no header. */
  lemma ExtractionIsIdempotent(h: map<JString, Obj>)
    ensures PropertiesOf(PropertiesOf(h).headers.value) == PropertiesOf(h).(contentType := None, correlationId := None, replyTo := None, contentEncoding := None)
  {
    var g := h - ReservedKeys;
    assert g - ReservedKeys == g;
  }

  /** The dedicated properties that are set, as String headers under their reserved keys. */
  function ReservedEntries(p: Properties): map<JString, Obj> {
    map key | key in ReservedKeys && Reserved(p, key).Some? :: StringObj(Reserved(p, key).value)
  }

  /** The header map a properties record came from, with each set property as a String header. */
  function RestoreHeaders(p: Properties): map<JString, Obj>
    requires p.headers.Some?
  {
    p.headers.value + ReservedEntries(p)
  }

  /** Each reserved property of the extracted record is the stringified value under its key. */
  lemma ReservedOfExtracted(h: map<JString, Obj>, key: JString)
    requires key in ReservedKeys
    ensures Reserved(PropertiesOf(h), key) == Stringified(h, key)
  {
  }

  /**
   * Extraction loses nothing when the reserved values are Strings: putting the
   * dedicated properties back as headers gives the original map.
   */
  lemma RestoreAfterExtract(h: map<JString, Obj>)
    requires forall key :: key in ReservedKeys && key in h ==> h[key].StringObj?
    ensures RestoreHeaders(PropertiesOf(h)) == h
  {
    var p := PropertiesOf(h);
    var r := RestoreHeaders(p);
    forall k | k in ReservedKeys
      ensures (k in r <==> k in h) && (k in h ==> r[k] == h[k])
    {
      ReservedOfExtracted(h, k);
    }
    assert r.Keys == h.Keys;
  }

  /** Extraction recovers every property from the headers it was restored to. */
  lemma ExtractAfterRestore(p: Properties)
    requires p.headers.Some? && p.headers.value.Keys !! ReservedKeys
    ensures PropertiesOf(RestoreHeaders(p)) == p
  {
    var q := PropertiesOf(RestoreHeaders(p));
    forall key | key in ReservedKeys
      ensures Reserved(q, key) == Reserved(p, key)
    {
      ReservedOfExtracted(RestoreHeaders(p), key);
    }
    assert RestoreHeaders(p) - ReservedKeys == p.headers.value;
  }
}
