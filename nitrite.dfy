/** The values the equality filter works on: document identifiers, the field
    values a document holds, documents, the kinds of index the catalog knows
    and the two errors the filter raises. */
module Nitrite {

  /** A Java `long`. */
  newtype int64 = x: int | -0x8000_0000_0000_0000 <= x < 0x8000_0000_0000_0000

  /** A Java `int`. */
  newtype int32 = x: int | -0x8000_0000 <= x < 0x8000_0000

  /** The identifier of a stored document; it wraps a 64-bit number. */
  datatype NitriteId = NitriteId(idValue: int64)

  /** A Java object as it can appear as a filter value or inside a document.
      The Java runtime type tests of the filter (`instanceof Long`,
      `instanceof Comparable`, `!= null`) become the predicates below. */
  datatype Value =
    | Null                                   // Java `null`
    | Long(n: int64)                         // a boxed `java.lang.Long`
    | Integer(i: int32)                      // a boxed `java.lang.Integer`: comparable, but not a Long
    | Text(s: string)                        // a `java.lang.String`
    | Bool(b: bool)                          // a boxed `java.lang.Boolean`
    | Array(items: seq<Value>)               // a list or array of values: not comparable
    | Nested(fields: map<string, Value>)     // an embedded document: not comparable
    | Other(comparable: bool, tag: nat)      // any other object; `comparable` tells whether its class implements Comparable
  {
    /** `value instanceof Long` */
    predicate IsLong() {
      Long?
    }

    /** `value instanceof Comparable` (false for `null`, as in Java) */
    predicate IsComparable() {
      match this
      case Long(_) => true
      case Integer(_) => true
      case Text(_) => true
      case Bool(_) => true
      case Other(c, _) => c
      case _ => false
    }
  }

  /** A document maps field names to values. */
  type Document = map<string, Value>

  /** The kind of an index, as far as the equality filter tells them apart. */
  datatype IndexType = Spatial | NonSpatial

  /** The two `FilterException`s the equality filter throws, by error code. */
  datatype FilterError =
    | EqNotSpatial                           // FE_EQ_NOT_SPATIAL
    | EqualNotComparable(offending: Value)   // FE_EQUAL_NOT_COMPARABLE, naming the value

  /** The outcome of a call that may throw a `FilterException`. */
  datatype Result<+T> = Ok(value: T) | Err(error: FilterError)

  datatype Option<+T> = None | Some(value: T)
}
