/**
 * The Java objects that reach the publish closure, as a closed tagged union.
 * The closure dispatches on `instanceof Map`, `instanceof byte[]` and
 * `instanceof String || instanceof GString`; everything else is ignored.
 */
module JavaValues {

  /** A Java `byte` (signed, 8 bits). */
  type byte = b: int | -128 <= b < 128

  /** A Java `String` as a sequence of characters. */
  type JString = seq<char>

  /**
   * A non-null Java object as far as the closure can tell it apart.
   * `shown` is the object's `toString()` text where the closure may ask for it
   * and Java does not fix it (a map's or an array's rendering).
   */
  datatype Obj =
    | MapObj(entries: map<JString, Obj>, shown: JString)   // a java.util.Map with String keys
    | ByteArray(bytes: seq<byte>, shown: JString)          // a byte[]
    | StringObj(text: JString)                             // a java.lang.String
    | GStringObj(text: JString)                            // a Groovy GString, by its interpolated text
    | OtherObj(shown: JString)                             // any other object

  /** `toString()`: a String is its own text, a GString its interpolated text. */
  function ToString(o: Obj): JString {
    match o
    case MapObj(_, shown) => shown
    case ByteArray(_, shown) => shown
    case StringObj(text) => text
    case GStringObj(text) => text
    case OtherObj(shown) => shown
  }

  /** The arguments the loop body ignores: neither a Map, nor a byte[], nor text. */
  predicate IsIgnored(o: Obj) {
    o.OtherObj?
  }
}
