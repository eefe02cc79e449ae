/** `geojson_to_shrunk_polygon_wkt` (notebooks/search_slc_grd_raw.py, lines
    130-285): the chosen polygon scaled in XY by 1/factor about its
    outer ring's centroid, Z passed through, then written as POLYGON WKT.
    Floats are modelled by exact reals. */
module Shrink {
  import opened Wrappers
  import opened GeoJson
  import opened Wkt
  import opened Centroid
  import PolygonWkt

  /** The `shrink_factor` a caller gets by default. */
  const DefaultShrinkFactor: real := 20.0

  /** Where a vertex lands when the plane is scaled by `s` about `c`. */
  function ScalePoint(c: Point, s: real, p: Point): Point {
    (c.0 + s * (p.0 - c.0), c.1 + s * (p.1 - c.1))
  }

  /** What a coordinate carries after its XY: its third item, unless it has
      none or that item is null. */
  function ZPart(p: Value): seq<Value>
    requires p.List?
  {
    if |p.items| >= 3 && !p.items[2].Null? then [p.items[2]] else []
  }

  /** One coordinate of `_scale_ring_about_xy_centroid`: `[xs, ys]` or
      `[xs, ys, z]`; the scaled values are always floats. */
  function ScaleCoord(p: Value, c: Point, s: real): Result<Value, GeoError> {
    if !p.List? || |p.items| < 2 then Err(InvalidCoordinate)
    else if !p.items[0].Number? || !p.items[1].Number? then Err(RuntimeTypeError)
    else
      var q := ScalePoint(c, s, (ToReal(p.items[0].n), ToReal(p.items[1].n)));
      Ok(List([Number(F(q.0)), Number(F(q.1))] + ZPart(p)))
  }

  function ScaleCoordAt(c: Point, s: real): Value -> Result<Value, GeoError> {
    p => ScaleCoord(p, c, s)
  }

  /** The input ring is closed: its first and last coordinates agree in x and y. */
  predicate ClosedXY(ring: seq<Value>) {
    |ring| >= 2 && XY(ring[0]).Some? && XY(ring[0]) == XY(ring[|ring| - 1])
  }

  /** `_scale_ring_about_xy_centroid`: every coordinate scaled in order;
      for a closed input the last output coordinate is then replaced by a
      copy of the first. */
  function ScaleRing(ring: seq<Value>, c: Point, s: real): Result<seq<Value>, GeoError> {
    var out :- MapResult(ring, ScaleCoordAt(c, s));
    if ClosedXY(ring) then Ok(out[|out| - 1 := out[0]]) else Ok(out)
  }

  /** One step of the ring loop of `_shrink_polygon_rings`. */
  function ShrinkRing(ring: Value, c: Point, s: real): Result<Value, GeoError> {
    if !ring.List? || |ring.items| < 3 then Err(RingTooShort)
    else
      var out :- ScaleRing(ring.items, c, s);
      Ok(List(out))
  }

  function ShrinkRingAt(c: Point, s: real): Value -> Result<Value, GeoError> {
    r => ShrinkRing(r, c, s)
  }

  /** `_shrink_polygon_rings`: the checks in the order the source makes
      them, the centroid of the outer ring, then every ring scaled by
      1/factor about it. */
  function ShrinkRings(rings: Value, factor: real): Result<seq<Value>, GeoError> {
    if !rings.List? || |rings.items| == 0 then Err(RingsNotNonEmptyList)
    else if factor <= 0.0 then Err(NonPositiveShrinkFactor)
    else
      var outer := rings.items[0];
      if !outer.List? || |outer.items| < 3 then Err(OuterRingTooShort)
      else
        var c :- Centroid.Centroid(outer.items);
        MapResult(rings.items, ShrinkRingAt(c, 1.0 / factor))
  }

  /** The rings the converter hands to the shrinking: those the plain
      converter selects, except that a Polygon's `coordinates` is passed on
      unchecked, so that a non-list reaches the shrinking's own check. */
  function ShrinkInput(g: Geometry, policy: string): Result<Value, GeoError> {
    match PolygonWkt.SelectRings(g, policy)
    case Ok(rings) => Ok(List(rings))
    case Err(PolygonCoordinatesNotList) => Ok(g.coordinates)
    case Err(e) => Err(e)
  }

  /** What the converter returns. */
  function ShrunkPolygonWkt(g: Geometry, policy: string, factor: real): Result<string, GeoError> {
    var rings :- ShrinkInput(g, policy);
    var shrunk :- ShrinkRings(rings, factor);
    RenderPolygon(shrunk)
  }

  // ----- the loops of the source -----

  /** `_scale_ring_about_xy_centroid`: appends one coordinate per step,
      then overwrites `out[-1]` for a closed ring. */
  method ScaleRingAboutCentroid(ring: seq<Value>, c: Point, s: real) returns (r: Result<seq<Value>, GeoError>)
    ensures r == ScaleRing(ring, c, s)
  {
    var out: seq<Value> := [];
    for i := 0 to |ring|
      invariant MapResult(ring[..i], ScaleCoordAt(c, s)) == Ok(out)
    {
      MapResultStep(ring, i, ScaleCoordAt(c, s));
      var p := ring[i];
      if !p.List? || |p.items| < 2 {
        MapResultPrefixErr(ring, i + 1, ScaleCoordAt(c, s));
        return Err(InvalidCoordinate);
      }
      if !p.items[0].Number? || !p.items[1].Number? {
        MapResultPrefixErr(ring, i + 1, ScaleCoordAt(c, s));
        return Err(RuntimeTypeError);
      }
      var x, y := ToReal(p.items[0].n), ToReal(p.items[1].n);
      var z := if |p.items| >= 3 then p.items[2] else Null;
      var xs := c.0 + s * (x - c.0);
      var ys := c.1 + s * (y - c.1);
      ScaleCoordParts(p, c, s, xs, ys, z);
      if z.Null? {
        out := out + [List([Number(F(xs)), Number(F(ys))])];
      } else {
        out := out + [List([Number(F(xs)), Number(F(ys)), z])];
      }
    }
    assert ring[..|ring|] == ring;
    if |ring| >= 2 {
      var firstIn, lastIn := ring[0], ring[|ring| - 1];
      if XY(firstIn).Some? && XY(lastIn).Some? && XY(firstIn).value.0 == XY(lastIn).value.0
        && XY(firstIn).value.1 == XY(lastIn).value.1
      {
        out := out[|out| - 1 := out[0]];
      }
    }
    r := Ok(out);
  }

  /** One step of `_scale_ring_about_xy_centroid`, in the terms of its body:
      `[xs, ys]` when `z` is None, `[xs, ys, z]` otherwise. */
  lemma ScaleCoordParts(p: Value, c: Point, s: real, xs: real, ys: real, z: Value)
    requires p.List? && |p.items| >= 2 && p.items[0].Number? && p.items[1].Number?
    requires xs == c.0 + s * (ToReal(p.items[0].n) - c.0) && ys == c.1 + s * (ToReal(p.items[1].n) - c.1)
    requires z == if |p.items| >= 3 then p.items[2] else Null
    ensures z.Null? ==> ScaleCoordAt(c, s)(p) == Ok(List([Number(F(xs)), Number(F(ys))]))
    ensures !z.Null? ==> ScaleCoordAt(c, s)(p) == Ok(List([Number(F(xs)), Number(F(ys)), z]))
  {
    var x, y := ToReal(p.items[0].n), ToReal(p.items[1].n);
    var head := [Number(F(xs)), Number(F(ys))];
    assert ScalePoint(c, s, (x, y)).0 == xs && ScalePoint(c, s, (x, y)).1 == ys;
    assert ScaleCoordAt(c, s)(p) == ScaleCoord(p, c, s);
    if z.Null? {
      assert head + ZPart(p) == head;
    } else {
      assert head + ZPart(p) == [Number(F(xs)), Number(F(ys)), z];
    }
  }

  /** `_shrink_polygon_rings`: the checks, the centroid, then one scaled
      ring appended per step. */
  method ShrinkPolygonRings(rings: Value, factor: real) returns (r: Result<seq<Value>, GeoError>)
    ensures r == ShrinkRings(rings, factor)
  {
    if !rings.List? || |rings.items| == 0 {
      return Err(RingsNotNonEmptyList);
    }
    if factor <= 0.0 {
      return Err(NonPositiveShrinkFactor);
    }
    var s := 1.0 / factor;
    var outer := rings.items[0];
    if !outer.List? || |outer.items| < 3 {
      return Err(OuterRingTooShort);
    }
    var cr := OuterRingCentroid(outer.items);
    if cr.Err? {
      return Err(cr.error);
    }
    var c := cr.value;
    var outRings: seq<Value> := [];
    var items := rings.items;
    for i := 0 to |items|
      invariant MapResult(items[..i], ShrinkRingAt(c, s)) == Ok(outRings)
    {
      MapResultStep(items, i, ShrinkRingAt(c, s));
      var ring := items[i];
      if !ring.List? || |ring.items| < 3 {
        MapResultPrefixErr(items, i + 1, ShrinkRingAt(c, s));
        return Err(RingTooShort);
      }
      var scaled := ScaleRingAboutCentroid(ring.items, c, s);
      if scaled.Err? {
        MapResultPrefixErr(items, i + 1, ShrinkRingAt(c, s));
        return Err(scaled.error);
      }
      outRings := outRings + [List(scaled.value)];
    }
    assert items[..|items|] == items;
    r := Ok(outRings);
  }

  /** The converter: select, shrink, scan for Z, print. */
  method GeojsonToShrunkPolygonWkt(g: Geometry, policy: string, factor: real) returns (r: Result<string, GeoError>)
    ensures r == ShrunkPolygonWkt(g, policy, factor)
  {
    if TypeMissing(g.gtype) {
      return Err(MissingType);
    }
    var gtype := g.gtype.value;
    var rings: Value;
    if gtype == "Polygon" {
      rings := g.coordinates;
    } else if gtype == "MultiPolygon" {
      var polys := g.coordinates;
      if !polys.List? || |polys.items| == 0 {
        return Err(MultiPolygonNotNonEmptyList);
      }
      if policy == "error" && |polys.items| != 1 {
        return Err(MultiplePolygons);
      }
      rings := polys.items[0];
      if !rings.List? {
        return Err(InvalidMultiPolygonPart);
      }
    } else {
      return Err(UnsupportedType(gtype));
    }
    var shrunk := ShrinkPolygonRings(rings, factor);
    if shrunk.Err? {
      return Err(shrunk.error);
    }
    r := Serialize(shrunk.value);
  }

  // ----- when shrinking succeeds -----

  /** A ring the shrinking accepts: a list of at least three coordinates,
      each a list whose first two items are numbers. */
  predicate ValidRing(r: Value) {
    r.List? && |r.items| >= 3 && forall j :: 0 <= j < |r.items| ==> XY(r.items[j]).Some?
  }

  predicate ValidRings(rings: Value) {
    rings.List? && |rings.items| > 0 && forall i :: 0 <= i < |rings.items| ==> ValidRing(rings.items[i])
  }

  lemma ScaleCoordOk(p: Value, c: Point, s: real)
    ensures ScaleCoord(p, c, s).Ok? <==> XY(p).Some?
  {
  }

  lemma ScaleRingOk(ring: seq<Value>, c: Point, s: real)
    ensures ScaleRing(ring, c, s).Ok? <==> forall j :: 0 <= j < |ring| ==> XY(ring[j]).Some?
  {
    MapResultOk(ring, ScaleCoordAt(c, s));
    forall j | 0 <= j < |ring| ensures ScaleCoordAt(c, s)(ring[j]).Ok? <==> XY(ring[j]).Some? {
      ScaleCoordOk(ring[j], c, s);
    }
  }

  /** Shrinking succeeds exactly when the factor is positive and every ring
      is a list of at least three coordinates with numeric x and y. */
  lemma ShrinkRingsOkIff(rings: Value, factor: real)
    ensures ShrinkRings(rings, factor).Ok? <==> factor > 0.0 && ValidRings(rings)
  {
    if rings.List? && |rings.items| > 0 && factor > 0.0 {
      var outer := rings.items[0];
      if outer.List? && |outer.items| >= 3 {
        if Centroid.Centroid(outer.items).Ok? {
          var c := Centroid.Centroid(outer.items).value;
          var s := 1.0 / factor;
          MapResultOk(rings.items, ShrinkRingAt(c, s));
          forall i | 0 <= i < |rings.items|
            ensures ShrinkRingAt(c, s)(rings.items[i]).Ok? <==> ValidRing(rings.items[i])
          {
            var r := rings.items[i];
            if r.List? {
              ScaleRingOk(r.items, c, s);
            }
          }
        } else {
          assert !ValidRing(outer);
        }
      } else {
        assert !ValidRing(outer);
      }
    }
  }

  // ----- where every coordinate goes -----

  /** The x and y a valid coordinate is written with after scaling: two floats. */
  function ScaledXY(p: Value, c: Point, s: real): seq<Value>
    requires XY(p).Some?
  {
    var q := ScalePoint(c, s, XY(p).value);
    [Number(F(q.0)), Number(F(q.1))]
  }

  /** The input coordinate whose Z output coordinate `j` carries: its own,
      except that the last one of a closed ring carries the first one's. */
  function ZSource(ring: seq<Value>, j: nat): nat {
    if ClosedXY(ring) && j == |ring| - 1 then 0 else j
  }

  /** The scaling center: the outer ring's centroid. */
  function Center(rings: Value): Point
    requires ValidRings(rings)
  {
    Centroid.Centroid(rings.items[0].items).value
  }

  /** Every output coordinate is its input coordinate moved to the scaled
      position and followed by the Z (if any) of its Z source. */
  lemma ScaleRingPointwise(ring: seq<Value>, c: Point, s: real)
    requires ScaleRing(ring, c, s).Ok?
    ensures |ScaleRing(ring, c, s).value| == |ring|
    ensures forall j :: 0 <= j < |ring| ==>
      XY(ring[j]).Some? && ring[ZSource(ring, j)].List? &&
      ScaleRing(ring, c, s).value[j] == List(ScaledXY(ring[j], c, s) + ZPart(ring[ZSource(ring, j)]))
  {
    ScaleRingOk(ring, c, s);
    MapResultOk(ring, ScaleCoordAt(c, s));
    var mapped := MapResult(ring, ScaleCoordAt(c, s)).value;
    forall j | 0 <= j < |ring|
      ensures mapped[j] == List(ScaledXY(ring[j], c, s) + ZPart(ring[j]))
    {
      assert ScaleCoordAt(c, s)(ring[j]) == ScaleCoord(ring[j], c, s);
    }
    if ClosedXY(ring) {
      assert ScaledXY(ring[0], c, s) == ScaledXY(ring[|ring| - 1], c, s);
    }
  }

  /** The whole polygon: rings and coordinates keep their number and
      order, every vertex is scaled by 1/factor about the outer ring's
      centroid, and Z values travel unchanged. */
  lemma ShrinkRingsPointwise(rings: Value, factor: real)
    requires ShrinkRings(rings, factor).Ok?
    ensures factor > 0.0 && ValidRings(rings)
    ensures var out := ShrinkRings(rings, factor).value;
      |out| == |rings.items| &&
      forall i :: 0 <= i < |out| ==>
        var ring := rings.items[i].items;
        out[i].List? && |out[i].items| == |ring| &&
        forall j :: 0 <= j < |ring| ==>
          XY(ring[j]).Some? && ring[ZSource(ring, j)].List? &&
          out[i].items[j] == List(ScaledXY(ring[j], Center(rings), 1.0 / factor) + ZPart(ring[ZSource(ring, j)]))
  {
    ShrinkRingsOkIff(rings, factor);
    var c := Center(rings);
    var s := 1.0 / factor;
    MapResultOk(rings.items, ShrinkRingAt(c, s));
    var out := ShrinkRings(rings, factor).value;
    forall i | 0 <= i < |out|
      ensures var ring := rings.items[i].items;
        out[i].List? && |out[i].items| == |ring| &&
        forall j :: 0 <= j < |ring| ==>
          XY(ring[j]).Some? && ring[ZSource(ring, j)].List? &&
          out[i].items[j] == List(ScaledXY(ring[j], c, s) + ZPart(ring[ZSource(ring, j)]))
    {
      assert ShrinkRingAt(c, s)(rings.items[i]) == ShrinkRing(rings.items[i], c, s);
      ScaleRingOk(rings.items[i].items, c, s);
      ScaleRingPointwise(rings.items[i].items, c, s);
    }
  }

  lemma XYOfScaled(p: Value, c: Point, s: real, z: seq<Value>)
    requires XY(p).Some?
    ensures XY(List(ScaledXY(p, c, s) + z)) == Some(ScalePoint(c, s, XY(p).value))
  {
    var l := ScaledXY(p, c, s) + z;
    assert l[0] == ScaledXY(p, c, s)[0] && l[1] == ScaledXY(p, c, s)[1];
  }

  /** Output coordinate `j` of ring `i`, as a point. */
  lemma ShrunkXY(rings: Value, factor: real, i: nat, j: nat)
    requires ShrinkRings(rings, factor).Ok?
    requires i < |rings.items|
    ensures ValidRings(rings) && j < |rings.items[i].items| ==>
      var out := ShrinkRings(rings, factor).value;
      |out| == |rings.items| && out[i].List? && |out[i].items| == |rings.items[i].items| &&
      XY(out[i].items[j]) == Some(ScalePoint(Center(rings), 1.0 / factor, XY(rings.items[i].items[j]).value))
  {
    ShrinkRingsPointwise(rings, factor);
    if j < |rings.items[i].items| {
      var ring := rings.items[i].items;
      XYOfScaled(ring[j], Center(rings), 1.0 / factor, ZPart(ring[ZSource(ring, j)]));
    }
  }

  lemma DifferenceScales(c: real, s: real, a: real, b: real, factor: real)
    requires factor != 0.0 && s == 1.0 / factor
    ensures (c + s * (a - c)) - (c + s * (b - c)) == (a - b) / factor
  {
  }

  lemma PointDifferenceScales(c: Point, p: Point, q: Point, factor: real)
    requires factor != 0.0
    ensures ScalePoint(c, 1.0 / factor, p).0 - ScalePoint(c, 1.0 / factor, q).0 == (p.0 - q.0) / factor
    ensures ScalePoint(c, 1.0 / factor, p).1 - ScalePoint(c, 1.0 / factor, q).1 == (p.1 - q.1) / factor
  {
    DifferenceScales(c.0, 1.0 / factor, p.0, q.0, factor);
    DifferenceScales(c.1, 1.0 / factor, p.1, q.1, factor);
  }

  /** Shrinking is a uniform scaling: the x and y offsets between any two
      vertices of the polygon, in any of its rings, are divided by the factor. */
  lemma ShrinkScalesOffsets(rings: Value, factor: real, i: nat, j: nat, k: nat, l: nat)
    requires ShrinkRings(rings, factor).Ok?
    requires i < |rings.items| && k < |rings.items|
    ensures ValidRings(rings)
    ensures j < |rings.items[i].items| && l < |rings.items[k].items| ==>
      var out := ShrinkRings(rings, factor).value;
      var p, q := XY(rings.items[i].items[j]).value, XY(rings.items[k].items[l]).value;
      |out| == |rings.items| && out[i].List? && out[k].List? && j < |out[i].items| && l < |out[k].items| &&
      XY(out[i].items[j]).Some? && XY(out[k].items[l]).Some? &&
      XY(out[i].items[j]).value.0 - XY(out[k].items[l]).value.0 == (p.0 - q.0) / factor &&
      XY(out[i].items[j]).value.1 - XY(out[k].items[l]).value.1 == (p.1 - q.1) / factor
  {
    ShrinkRingsOkIff(rings, factor);
    if j < |rings.items[i].items| && l < |rings.items[k].items| {
      ShrunkXY(rings, factor, i, j);
      ShrunkXY(rings, factor, k, l);
      var p, q := XY(rings.items[i].items[j]).value, XY(rings.items[k].items[l]).value;
      PointDifferenceScales(Center(rings), p, q, factor);
    }
  }

  /** A factor of 1 leaves every vertex where it was. */
  lemma ShrinkByOneKeepsXY(rings: Value, i: nat, j: nat)
    requires ShrinkRings(rings, 1.0).Ok?
    requires i < |rings.items|
    ensures ValidRings(rings)
    ensures j < |rings.items[i].items| ==>
      var out := ShrinkRings(rings, 1.0).value;
      |out| == |rings.items| && out[i].List? && |out[i].items| == |rings.items[i].items| &&
      XY(out[i].items[j]) == XY(rings.items[i].items[j])
  {
    ShrinkRingsOkIff(rings, 1.0);
    if j < |rings.items[i].items| {
      ShrunkXY(rings, 1.0, i, j);
      var c, p := Center(rings), XY(rings.items[i].items[j]).value;
      assert 1.0 / 1.0 == 1.0;
      assert ScalePoint(c, 1.0, p) == p;
    }
  }

  lemma ScaleInjective(c: real, s: real, a: real, b: real)
    requires s != 0.0
    ensures c + s * (a - c) == c + s * (b - c) <==> a == b
  {
    if c + s * (a - c) == c + s * (b - c) {
      assert s * (a - b) == 0.0;
    }
  }

  /** Scaling both ends by the same non-zero factor keeps them equal or unequal. */
  lemma EndsClosed(o: seq<Value>, r: seq<Value>, c: Point, s: real)
    requires s != 0.0 && |o| == |r| >= 1
    requires XY(r[0]).Some? && XY(r[|r| - 1]).Some?
    requires XY(o[0]) == Some(ScalePoint(c, s, XY(r[0]).value))
    requires XY(o[|o| - 1]) == Some(ScalePoint(c, s, XY(r[|r| - 1]).value))
    ensures ClosedXY(o) <==> ClosedXY(r)
  {
    var p, q := XY(r[0]).value, XY(r[|r| - 1]).value;
    ScaleInjective(c.0, s, p.0, q.0);
    ScaleInjective(c.1, s, p.1, q.1);
  }

  /** A ring comes out closed exactly when it went in closed, and then its
      last coordinate is an exact copy of its first, Z included. */
  lemma ShrinkKeepsClosure(rings: Value, factor: real, i: nat)
    requires ShrinkRings(rings, factor).Ok?
    requires i < |rings.items|
    ensures ValidRings(rings)
    ensures var out := ShrinkRings(rings, factor).value;
      out[i].List? &&
      (ClosedXY(out[i].items) <==> ClosedXY(rings.items[i].items)) &&
      (ClosedXY(rings.items[i].items) ==> out[i].items[|out[i].items| - 1] == out[i].items[0])
  {
    ShrinkRingsOkIff(rings, factor);
    var ring := rings.items[i].items;
    var n := |ring|;
    var out := ShrinkRings(rings, factor).value;
    ShrunkXY(rings, factor, i, 0);
    ShrunkXY(rings, factor, i, n - 1);
    EndsClosed(out[i].items, ring, Center(rings), 1.0 / factor);
    if ClosedXY(ring) {
      ClosedEndsCopied(rings, factor, i);
    }
  }

  /** The last coordinate of a closed ring comes out as a copy of the first. */
  lemma ClosedEndsCopied(rings: Value, factor: real, i: nat)
    requires ShrinkRings(rings, factor).Ok?
    requires i < |rings.items| && rings.items[i].List? && ClosedXY(rings.items[i].items)
    ensures var out := ShrinkRings(rings, factor).value;
      out[i].List? && |out[i].items| == |rings.items[i].items| &&
      out[i].items[|out[i].items| - 1] == out[i].items[0]
  {
    ShrinkRingsPointwise(rings, factor);
    var ring := rings.items[i].items;
    var c, s := Center(rings), 1.0 / factor;
    assert ScaledXY(ring[|ring| - 1], c, s) == ScaledXY(ring[0], c, s);
  }

  // ----- the text -----

  /** The Z a coordinate passes on can be printed: there is none, or it is a number. */
  predicate ZPrintable(p: Value)
    requires p.List?
  {
    ZPart(p) == [] || ZPart(p)[0].Number?
  }

  /** Every Z that reaches the output can be printed. */
  predicate ZsPrintable(rings: Value)
    requires ValidRings(rings)
  {
    forall i, j :: 0 <= i < |rings.items| && 0 <= j < |rings.items[i].items| ==>
      ZPrintable(rings.items[i].items[ZSource(rings.items[i].items, j)])
  }

  /** Some coordinate that reaches the output carries a Z. */
  predicate SomeZ(rings: Value)
    requires ValidRings(rings)
  {
    exists i, j :: 0 <= i < |rings.items| && 0 <= j < |rings.items[i].items| &&
      ZPart(rings.items[i].items[ZSource(rings.items[i].items, j)]) != []
  }

  lemma ShrunkCoord(rings: Value, factor: real, i: nat, j: nat)
    requires ShrinkRings(rings, factor).Ok?
    requires i < |rings.items|
    ensures ValidRings(rings)
    ensures j < |rings.items[i].items| ==>
      var out := ShrinkRings(rings, factor).value;
      var ring := rings.items[i].items;
      var z := ZPart(ring[ZSource(ring, j)]);
      |out| == |rings.items| && out[i].List? && |out[i].items| == |rings.items[i].items| && out[i].items[j].List? &&
      |out[i].items[j].items| == 2 + |z| &&
      out[i].items[j].items[0].Number? && out[i].items[j].items[1].Number? &&
      (|z| == 1 ==> out[i].items[j].items[2] == z[0])
  {
    ShrinkRingsPointwise(rings, factor);
  }

  /** The shrunk rings are printable exactly when every Z that reaches
      them is a number; they then hold only numbers, and the scan finds a
      Z exactly when one reaches them. */
  lemma ShrunkRingsPrintable(rings: Value, factor: real)
    requires ShrinkRings(rings, factor).Ok?
    ensures ValidRings(rings)
    ensures Printable(ShrinkRings(rings, factor).value) <==> ZsPrintable(rings)
    ensures ZsPrintable(rings) ==> NumericRings(ShrinkRings(rings, factor).value) && NonEmptyCoords(ShrinkRings(rings, factor).value)
    ensures ZsPrintable(rings) ==> (HasZ(List(ShrinkRings(rings, factor).value)) <==> SomeZ(rings))
  {
    ShrinkRingsOkIff(rings, factor);
    var out := ShrinkRings(rings, factor).value;
    ShrunkKinds(rings, factor);
    if ZsPrintable(rings) {
      assert NumericRings(out);
      HasZNumericRings(out);
    }
  }

  /** What every shrunk coordinate is made of, ring by ring. */
  lemma ShrunkKinds(rings: Value, factor: real)
    requires ShrinkRings(rings, factor).Ok?
    ensures ValidRings(rings)
    ensures var out := ShrinkRings(rings, factor).value;
      |out| == |rings.items| &&
      forall i :: 0 <= i < |out| ==> out[i].List? && |out[i].items| == |rings.items[i].items|
    ensures var out := ShrinkRings(rings, factor).value;
      forall i, j :: 0 <= i < |out| && 0 <= j < |rings.items[i].items| ==>
        var ring := rings.items[i].items;
        var c := out[i].items[j];
        c.List? && |c.items| >= 2 &&
        (PrintableCoord(c) <==> ZPrintable(ring[ZSource(ring, j)])) &&
        (ZPrintable(ring[ZSource(ring, j)]) ==> IsLeaf(c.items)) &&
        (|c.items| >= 3 <==> ZPart(ring[ZSource(ring, j)]) != [])
  {
    ShrinkRingsOkIff(rings, factor);
    var out := ShrinkRings(rings, factor).value;
    forall i | 0 <= i < |rings.items|
      ensures i < |out| && out[i].List? && |out[i].items| == |rings.items[i].items|
    {
      ShrunkCoord(rings, factor, i, 0);
    }
    forall i, j | 0 <= i < |rings.items| && 0 <= j < |rings.items[i].items|
      ensures var ring := rings.items[i].items;
        var c := out[i].items[j];
        c.List? && |c.items| >= 2 &&
        (PrintableCoord(c) <==> ZPrintable(ring[ZSource(ring, j)])) &&
        (ZPrintable(ring[ZSource(ring, j)]) ==> IsLeaf(c.items)) &&
        (|c.items| >= 3 <==> ZPart(ring[ZSource(ring, j)]) != [])
    {
      ShrunkCoord(rings, factor, i, j);
    }
  }

  /** The converter succeeds exactly when a polygon is selected, the factor
      is positive, every ring is valid and every Z that reaches the output
      is a number. */
  lemma ShrunkPolygonWktOkIff(g: Geometry, policy: string, factor: real)
    ensures ShrunkPolygonWkt(g, policy, factor).Ok? <==>
      ShrinkInput(g, policy).Ok? && factor > 0.0 && ValidRings(ShrinkInput(g, policy).value) &&
      ZsPrintable(ShrinkInput(g, policy).value)
  {
    if ShrinkInput(g, policy).Ok? {
      var rings := ShrinkInput(g, policy).value;
      ShrinkRingsOkIff(rings, factor);
      if ShrinkRings(rings, factor).Ok? {
        ShrunkRingsPrintable(rings, factor);
        RenderOkIff(ShrinkRings(rings, factor).value);
      }
    }
  }

  /** The text reads back as the shrunk rings, and says `POLYGON Z`
      exactly when some Z reaches the output. */
  lemma ShrunkPolygonWktText(g: Geometry, policy: string, factor: real)
    requires ShrunkPolygonWkt(g, policy, factor).Ok?
    ensures ShrinkInput(g, policy).Ok? && ShrinkRings(ShrinkInput(g, policy).value, factor).Ok?
    ensures var rings := ShrinkInput(g, policy).value;
      ValidRings(rings) &&
      ParseWkt(ShrunkPolygonWkt(g, policy, factor).value) ==
        Some((SomeZ(rings), Tokens(ShrinkRings(rings, factor).value)))
  {
    var rings := ShrinkInput(g, policy).value;
    ShrunkPolygonWktOkIff(g, policy, factor);
    var out := ShrinkRings(rings, factor).value;
    ShrunkRingsPrintable(rings, factor);
    RenderRoundTrip(out);
  }

  // ----- what the two converters share -----

  /** The shrinking converter chooses the same rings as the plain one and
      refuses the same geometries with the same errors; the one difference
      is a Polygon whose `coordinates` is not a list, which it refuses
      later, as a ring list that is not a non-empty list. */
  lemma SameSelection(g: Geometry, policy: string, factor: real)
    ensures PolygonWkt.SelectRings(g, policy).Ok? ==>
      ShrinkInput(g, policy) == Ok(List(PolygonWkt.SelectRings(g, policy).value))
    ensures ShrinkInput(g, policy).Err? ==>
      PolygonWkt.SelectRings(g, policy) == Err(ShrinkInput(g, policy).error)
    ensures PolygonWkt.SelectRings(g, policy).Err? && PolygonWkt.SelectRings(g, policy).error != PolygonCoordinatesNotList ==>
      ShrunkPolygonWkt(g, policy, factor) == Err(PolygonWkt.SelectRings(g, policy).error)
    ensures PolygonWkt.SelectRings(g, policy) == Err(PolygonCoordinatesNotList) ==>
      ShrunkPolygonWkt(g, policy, factor) == Err(RingsNotNonEmptyList)
  {
  }

  /** A missing or empty type and every type other than "Polygon" and
      "MultiPolygon" are refused before the factor is looked at. */
  lemma ShrunkTypeGate(g: Geometry, policy: string, factor: real)
    ensures TypeMissing(g.gtype) ==> ShrunkPolygonWkt(g, policy, factor) == Err(MissingType)
    ensures !TypeMissing(g.gtype) && g.gtype.value != "Polygon" && g.gtype.value != "MultiPolygon" ==>
      ShrunkPolygonWkt(g, policy, factor) == Err(UnsupportedType(g.gtype.value))
    ensures ShrunkPolygonWkt(g, policy, factor).Ok? ==> g.gtype == Some("Polygon") || g.gtype == Some("MultiPolygon")
  {
  }

  /** A malformed MultiPolygon is refused as the plain converter refuses it,
      before the factor is looked at. */
  lemma ShrunkSelectionErrors(g: Geometry, policy: string, factor: real)
    ensures g.gtype == Some("MultiPolygon") && (!g.coordinates.List? || |g.coordinates.items| == 0) ==>
      ShrunkPolygonWkt(g, policy, factor) == Err(MultiPolygonNotNonEmptyList)
    ensures (g.gtype == Some("MultiPolygon") && g.coordinates.List? && |g.coordinates.items| >= 1 &&
             (policy != "error" || |g.coordinates.items| == 1) && !g.coordinates.items[0].List?) ==>
      ShrunkPolygonWkt(g, policy, factor) == Err(InvalidMultiPolygonPart)
  {
  }

  /** With "error", more than one part is refused before any part is looked at. */
  lemma ShrunkErrorPolicyRefusesSeveral(parts: seq<Value>, factor: real)
    requires |parts| >= 2
    ensures ShrunkPolygonWkt(Geometry(Some("MultiPolygon"), List(parts)), "error", factor) == Err(MultiplePolygons)
  {
  }

  /** A MultiPolygon is shrunk as the Polygon made of its first part,
      unless `policy` is "error" and there are several parts. */
  lemma ShrunkMultiPolygonIsFirstPart(parts: seq<Value>, policy: string, factor: real)
    requires |parts| >= 1 && parts[0].List?
    requires policy != "error" || |parts| == 1
    ensures ShrunkPolygonWkt(Geometry(Some("MultiPolygon"), List(parts)), policy, factor) ==
            ShrunkPolygonWkt(Geometry(Some("Polygon"), parts[0]), policy, factor)
  {
  }

  /** The rings are checked before the factor, and the factor before the
      outer ring, so each error names the first check that fails. */
  lemma ShrinkCheckOrder(rings: Value, factor: real)
    ensures !rings.List? || |rings.items| == 0 ==> ShrinkRings(rings, factor) == Err(RingsNotNonEmptyList)
    ensures rings.List? && |rings.items| > 0 && factor <= 0.0 ==>
      ShrinkRings(rings, factor) == Err(NonPositiveShrinkFactor)
    ensures rings.List? && |rings.items| > 0 && factor > 0.0 ==>
      (!rings.items[0].List? || |rings.items[0].items| < 3 ==> ShrinkRings(rings, factor) == Err(OuterRingTooShort))
  {
  }
}
