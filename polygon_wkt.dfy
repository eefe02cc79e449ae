/** `geojson_to_polygon_wkt` (notebooks/search_slc_grd_raw.py, lines
    28-127): a Polygon or MultiPolygon geometry as a single POLYGON WKT
    string, with no geometric operation. */
module PolygonWkt {
  import opened Wrappers
  import opened GeoJson
  import opened Wkt

  /** The rings the converter goes on to print, or the error it raises
      before printing. `policy` is `on_multipolygon`; any value other than
      "error" behaves as "first". */
  function SelectRings(g: Geometry, policy: string): (r: Result<seq<Value>, GeoError>)
    ensures r.Ok? ==>
      (g.gtype == Some("Polygon") && g.coordinates == List(r.value)) ||
      (g.gtype == Some("MultiPolygon") && g.coordinates.List? && |g.coordinates.items| >= 1 &&
       (policy != "error" || |g.coordinates.items| == 1) && g.coordinates.items[0] == List(r.value))
  {
    if TypeMissing(g.gtype) then Err(MissingType)
    else if g.gtype.value == "Polygon" then
      if g.coordinates.List? then Ok(g.coordinates.items) else Err(PolygonCoordinatesNotList)
    else if g.gtype.value == "MultiPolygon" then
      if !g.coordinates.List? || |g.coordinates.items| == 0 then Err(MultiPolygonNotNonEmptyList)
      else if policy == "error" && |g.coordinates.items| != 1 then Err(MultiplePolygons)
      else if !g.coordinates.items[0].List? then Err(InvalidMultiPolygonPart)
      else Ok(g.coordinates.items[0].items)
    else Err(UnsupportedType(g.gtype.value))
  }

  /** What the converter returns. */
  function PolygonWkt(g: Geometry, policy: string): Result<string, GeoError> {
    var rings :- SelectRings(g, policy);
    RenderPolygon(rings)
  }

  /** The converter, with the `_walk` scan run as a method. */
  method GeojsonToPolygonWkt(g: Geometry, policy: string) returns (r: Result<string, GeoError>)
    ensures r == PolygonWkt(g, policy)
  {
    if TypeMissing(g.gtype) {
      return Err(MissingType);
    }
    var gtype := g.gtype.value;
    if gtype == "Polygon" {
      if !g.coordinates.List? {
        return Err(PolygonCoordinatesNotList);
      }
      r := Serialize(g.coordinates.items);
      return;
    }
    if gtype == "MultiPolygon" {
      var polys := g.coordinates;
      if !polys.List? || |polys.items| == 0 {
        return Err(MultiPolygonNotNonEmptyList);
      }
      if policy == "error" && |polys.items| != 1 {
        return Err(MultiplePolygons);
      }
      var chosen := polys.items[0];
      if !chosen.List? {
        return Err(InvalidMultiPolygonPart);
      }
      r := Serialize(chosen.items);
      return;
    }
    r := Err(UnsupportedType(gtype));
  }

  /** Only "Polygon" and "MultiPolygon" are converted; a missing or empty
      type and every other type name are refused with their own error. */
  lemma TypeGate(g: Geometry, policy: string)
    ensures TypeMissing(g.gtype) ==> PolygonWkt(g, policy) == Err(MissingType)
    ensures !TypeMissing(g.gtype) && g.gtype.value != "Polygon" && g.gtype.value != "MultiPolygon" ==>
      PolygonWkt(g, policy) == Err(UnsupportedType(g.gtype.value))
    ensures PolygonWkt(g, policy).Ok? ==> g.gtype == Some("Polygon") || g.gtype == Some("MultiPolygon")
  {
  }

  /** A MultiPolygon is converted as a Polygon made of its first part,
      whatever the later parts hold, unless `policy` is "error" and there
      are several parts. */
  lemma MultiPolygonIsFirstPart(parts: seq<Value>, policy: string)
    requires |parts| >= 1 && parts[0].List?
    requires policy != "error" || |parts| == 1
    ensures PolygonWkt(Geometry(Some("MultiPolygon"), List(parts)), policy) ==
            PolygonWkt(Geometry(Some("Polygon"), parts[0]), policy)
  {
  }

  /** With "error", more than one part is refused before any part is looked at. */
  lemma ErrorPolicyRefusesSeveral(parts: seq<Value>)
    requires |parts| >= 2
    ensures PolygonWkt(Geometry(Some("MultiPolygon"), List(parts)), "error") == Err(MultiplePolygons)
  {
  }

  /** Each malformed Polygon or MultiPolygon is refused with its own error:
      a Polygon whose `coordinates` is not a list, a MultiPolygon whose
      `coordinates` is not a non-empty list, and a MultiPolygon whose chosen
      first part is not a list. */
  lemma SelectionErrors(g: Geometry, policy: string)
    ensures g.gtype == Some("Polygon") && !g.coordinates.List? ==>
      PolygonWkt(g, policy) == Err(PolygonCoordinatesNotList)
    ensures g.gtype == Some("MultiPolygon") && (!g.coordinates.List? || |g.coordinates.items| == 0) ==>
      PolygonWkt(g, policy) == Err(MultiPolygonNotNonEmptyList)
    ensures (g.gtype == Some("MultiPolygon") && g.coordinates.List? && |g.coordinates.items| >= 1 &&
             (policy != "error" || |g.coordinates.items| == 1) && !g.coordinates.items[0].List?) ==>
      PolygonWkt(g, policy) == Err(InvalidMultiPolygonPart)
  {
  }

  /** Every policy other than "error" converts as "first" does. */
  lemma AnyPolicyActsAsFirst(g: Geometry, policy: string)
    requires policy != "error"
    ensures PolygonWkt(g, policy) == PolygonWkt(g, "first")
  {
  }

  /** The policy matters only for a MultiPolygon with several parts. */
  lemma PolicyIrrelevant(g: Geometry, p1: string, p2: string)
    requires g.gtype != Some("MultiPolygon") || !g.coordinates.List? || |g.coordinates.items| <= 1
    ensures PolygonWkt(g, p1) == PolygonWkt(g, p2)
  {
  }

  /** The converter succeeds exactly when a polygon is selected and its rings
      are printable. When no coordinate is an empty list, the text then reads
      back as those rings, and it says `POLYGON Z` exactly when the scan finds
      a coordinate made of three or more numbers. */
  lemma PolygonWktSpec(g: Geometry, policy: string)
    ensures PolygonWkt(g, policy).Ok? <==>
      SelectRings(g, policy).Ok? && Printable(SelectRings(g, policy).value)
    ensures PolygonWkt(g, policy).Ok? && NonEmptyCoords(SelectRings(g, policy).value) ==>
      var rings := SelectRings(g, policy).value;
      ParseWkt(PolygonWkt(g, policy).value) == Some((HasZ(List(rings)), Tokens(rings)))
  {
    if SelectRings(g, policy).Ok? {
      var rings := SelectRings(g, policy).value;
      RenderOkIff(rings);
      if RenderPolygon(rings).Ok? && NonEmptyCoords(rings) {
        RenderRoundTrip(rings);
      }
    }
  }
}
