/** The GeoJSON geometry the two converters of
    notebooks/search_slc_grd_raw.py receive: a mapping with a `type` and a
    `coordinates` entry (section 3.1.6 and 3.1.7 of RFC 7946). The
    coordinates are kept as a tree of lists, numbers, strings and null (no
    objects), because the converters inspect its shape at run time and fail
    on shapes they do not accept. */
module GeoJson {
  import opened Wrappers

  /** A JSON number as Python holds it: an `int`, or a `float` modelled by its exact value. */
  datatype Num = I(i: int) | F(r: real)

  function ToReal(n: Num): real {
    match n
    case I(i) => i as real
    case F(r) => r
  }

  /** A JSON value inside `coordinates`: a number, a list, a string, or null
      (also what `geometry.get("coordinates")` returns for a missing key). */
  datatype Value = Number(n: Num) | List(items: seq<Value>) | Text(s: string) | Null

  /** `gtype` is `geometry.get("type")`: `None` when the key is missing. */
  datatype Geometry = Geometry(gtype: Option<string>, coordinates: Value)

  /** The `ValueError`s the converters raise, one per message, and the
      run-time errors Python raises on a value of the wrong kind. */
  datatype GeoError =
    | MissingType                  // no `type`, or an empty one
    | PolygonCoordinatesNotList    // a Polygon whose coordinates are not a list
    | MultiPolygonNotNonEmptyList  // a MultiPolygon without a list of parts
    | MultiplePolygons             // several parts under the "error" policy
    | InvalidMultiPolygonPart      // a first part that is not a list
    | UnsupportedType(gtype: string) // any other type name
    | RingsNotNonEmptyList         // shrinking: no rings to shrink
    | NonPositiveShrinkFactor      // a factor that is zero or negative
    | OuterRingTooShort            // an outer ring of fewer than three coordinates
    | RingTooShort                 // any ring of fewer than three coordinates
    | InvalidCoordinate            // a coordinate without both x and y
    | RuntimeTypeError             // TypeError, IndexError or float() ValueError raised by the interpreter

  /** `not gtype`: the key is missing or holds the empty string. */
  predicate TypeMissing(t: Option<string>) {
    t.None? || t.value == ""
  }
}
