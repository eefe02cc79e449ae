/** A worked case of the shrinking converter: the 4 x 4 square with
    corners (0, 0) and (4, 4), shrunk by a factor of 2 about its centroid
    (2, 2), becomes the 2 x 2 square with corners (1, 1) and (3, 3). */
module ShrinkExample {
  import opened Wrappers
  import opened NumFormat
  import opened GeoJson
  import opened Wkt
  import opened Centroid
  import opened Shrink

  /** An integer coordinate `[x, y]` as JSON gives it. */
  function C(x: int, y: int): Value {
    List([Number(I(x)), Number(I(y))])
  }

  /** A float coordinate `[x, y]` as the shrinking writes it. */
  function D(x: int, y: int): Value {
    List([Number(F(x as real)), Number(F(y as real))])
  }

  function Square(): seq<Value> {
    [C(0, 0), C(4, 0), C(4, 4), C(0, 4), C(0, 0)]
  }

  function SquareGeometry(): Geometry {
    Geometry(Some("Polygon"), List([List(Square())]))
  }

  lemma SquarePoints()
    ensures MapResult(Square(), PointOf) == Ok([(0.0, 0.0), (4.0, 0.0), (4.0, 4.0), (0.0, 4.0), (0.0, 0.0)])
  {
    MapResultOk(Square(), PointOf);
    var got := MapResult(Square(), PointOf).value;
    assert got == [(0.0, 0.0), (4.0, 0.0), (4.0, 4.0), (0.0, 4.0), (0.0, 0.0)];
  }

  lemma FiveSums(a: Point, b: Point, c: Point, d: Point, e: Point)
    ensures Shoelace([a, b, c, d, e]) == Step(Step(Step(Step(Acc(0.0, 0.0, 0.0), a, b), b, c), c, d), d, e)
  {
    var q := [a, b, c, d, e];
    assert q[..4] == [a, b, c, d];
    assert [a, b, c, d][..3] == [a, b, c];
    assert [a, b, c][..2] == [a, b];
    assert [a, b][..1] == [a];
    assert Shoelace([a]) == Acc(0.0, 0.0, 0.0);
    assert Shoelace([a, b]) == Step(Acc(0.0, 0.0, 0.0), a, b);
    assert Shoelace([a, b, c]) == Step(Shoelace([a, b]), b, c);
    assert Shoelace([a, b, c, d]) == Step(Shoelace([a, b, c]), c, d);
  }

  lemma SquareCentroid()
    ensures Centroid.Centroid(Square()) == Ok((2.0, 2.0))
  {
    SquarePoints();
    var q := [(0.0, 0.0), (4.0, 0.0), (4.0, 4.0), (0.0, 4.0), (0.0, 0.0)];
    FiveSums(q[0], q[1], q[2], q[3], q[4]);
    assert Shoelace(q) == Acc(32.0, 192.0, 192.0);
    assert CentroidOf(q) == (192.0 / (6.0 * 16.0), 192.0 / (6.0 * 16.0));
  }

  lemma SquareShrunk(rings: Value)
    requires rings == List([List(Square())])
    ensures ShrinkRings(rings, 2.0) == Ok([List(SmallSquare())])
  {
    SquareCentroid();
    assert ValidRings(rings) by {
      assert forall j :: 0 <= j < 5 ==> XY(Square()[j]).Some?;
    }
    ShrinkRingsOkIff(rings, 2.0);
    ShrinkRingsPointwise(rings, 2.0);
    assert Center(rings) == (2.0, 2.0);
    var out := ShrinkRings(rings, 2.0).value;
    var want := SmallSquare();
    assert !ClosedXY(Square()) || ZPart(Square()[0]) == [];
    forall j | 0 <= j < 5 ensures out[0].items[j] == want[j] {
      assert ZPart(Square()[ZSource(Square(), j)]) == [];
    }
    assert out[0].items == want;
    assert out == [List(want)];
  }

  lemma Digit(x: int)
    requires 0 <= x < 10
    ensures FmtNum(Number(F(x as real))) == Ok([DigitChar(x)])
  {
    assert Pow10(15) >= 10;
    FormatG15Integral(x);
    assert IntToString(x) == [DigitChar(x)];
  }

  lemma SmallCoord(x: int, y: int)
    requires 0 <= x < 10 && 0 <= y < 10
    ensures FmtCoord(D(x, y)) == Ok([DigitChar(x)] + " " + [DigitChar(y)])
  {
    Digit(x);
    Digit(y);
    var parts := [Number(F(x as real)), Number(F(y as real))];
    assert Take3(parts) == parts;
    MapResultOk(parts, FmtNum);
    assert MapResult(parts, FmtNum).value == [[DigitChar(x)], [DigitChar(y)]];
    assert JoinWith([[DigitChar(x)], [DigitChar(y)]], " ") == [DigitChar(x)] + " " + [DigitChar(y)];
  }

  lemma {:induction false} Join5(a: string, b: string, c: string, d: string, e: string, sep: string)
    ensures JoinWith([a, b, c, d, e], sep) == a + sep + b + sep + c + sep + d + sep + e
  {
    assert [a, b, c, d, e][1..] == [b, c, d, e];
    assert [b, c, d, e][1..] == [c, d, e];
    assert [c, d, e][1..] == [d, e];
    assert [d, e][1..] == [e];
    assert JoinWith([e], sep) == e;
    assert JoinWith([d, e], sep) == d + sep + e;
    assert JoinWith([c, d, e], sep) == c + sep + (d + sep + e);
    assert JoinWith([b, c, d, e], sep) == b + sep + (c + sep + (d + sep + e));
  }

  lemma CoordText(c: Value, x: int, y: int, t: string)
    requires c == D(x, y)
    requires 0 <= x < 10 && 0 <= y < 10 && t == [DigitChar(x), ' ', DigitChar(y)]
    ensures FmtCoord(c) == Ok(t)
  {
    SmallCoord(x, y);
    var a := [DigitChar(x)] + " " + [DigitChar(y)];
    assert |a| == 3 && a[0] == t[0] && a[1] == t[1] && a[2] == t[2];
    assert a == t;
  }

  /** The shrunk ring, as a variable so that its formatting is proved step by step. */
  function SmallSquare(): seq<Value> {
    [D(1, 1), D(3, 1), D(3, 3), D(1, 3), D(1, 1)]
  }

  lemma SquareCoordTexts(cs: seq<Value>, ys: seq<string>)
    requires cs == SmallSquare()
    requires ys == ["1 1", "3 1", "3 3", "1 3", "1 1"]
    ensures forall i :: 0 <= i < 5 ==> FmtCoord(cs[i]) == Ok(ys[i])
  {
    assert DigitChar(1) == '1' && DigitChar(3) == '3';
    forall i | 0 <= i < 5 ensures FmtCoord(cs[i]) == Ok(ys[i]) {
      if i == 0 || i == 4 {
        CoordText(cs[i], 1, 1, ys[i]);
      } else if i == 1 {
        CoordText(cs[i], 3, 1, ys[i]);
      } else if i == 2 {
        CoordText(cs[i], 3, 3, ys[i]);
      } else {
        CoordText(cs[i], 1, 3, ys[i]);
      }
    }
  }

  lemma SquareCoords(cs: seq<Value>, ys: seq<string>)
    requires cs == SmallSquare()
    requires ys == ["1 1", "3 1", "3 3", "1 3", "1 1"]
    ensures MapResult(cs, FmtCoord) == Ok(ys)
  {
    SquareCoordTexts(cs, ys);
    MapResultAll(cs, FmtCoord, ys);
  }

  lemma SquareRingText()
    ensures "(" + ("1 1" + ", " + "3 1" + ", " + "3 3" + ", " + "1 3" + ", " + "1 1") + ")" == "(1 1, 3 1, 3 3, 1 3, 1 1)"
  {
    assert "1 1" + ", " + "3 1" + ", " + "3 3" + ", " + "1 3" + ", " + "1 1" == "1 1, 3 1, 3 3, 1 3, 1 1";
  }

  lemma SquareRing(ring: Value)
    requires ring == List(SmallSquare())
    ensures FmtRing(ring) == Ok("(1 1, 3 1, 3 3, 1 3, 1 1)")
  {
    SquareCoords(ring.items, ["1 1", "3 1", "3 3", "1 3", "1 1"]);
    Join5("1 1", "3 1", "3 3", "1 3", "1 1", ", ");
    SquareRingText();
  }

  lemma SquareFlat(out: seq<Value>)
    requires out == [List(SmallSquare())]
    ensures !HasZ(List(out))
  {
    HasZNumericRings(out);
  }

  lemma SquareRings(out: seq<Value>)
    requires out == [List(SmallSquare())]
    ensures MapResult(out, FmtRing) == Ok(["(1 1, 3 1, 3 3, 1 3, 1 1)"])
  {
    SquareRing(out[0]);
    MapResultAll(out, FmtRing, ["(1 1, 3 1, 3 3, 1 3, 1 1)"]);
  }

  lemma SquareRendered(out: seq<Value>)
    requires out == [List(SmallSquare())]
    ensures RenderPolygon(out) == Ok("POLYGON ((1 1, 3 1, 3 3, 1 3, 1 1))")
  {
    SquareFlat(out);
    SquareRings(out);
    assert JoinWith(["(1 1, 3 1, 3 3, 1 3, 1 1)"], ", ") == "(1 1, 3 1, 3 3, 1 3, 1 1)";
    SquareText();
  }

  lemma SquareText()
    ensures Prefix(false) + "(" + "(1 1, 3 1, 3 3, 1 3, 1 1)" + ")" == "POLYGON ((1 1, 3 1, 3 3, 1 3, 1 1))"
  {
  }

  /** Shrinking the 4 x 4 square by 2 gives the 2 x 2 square in its middle,
      closed, in two dimensions, with the floats printed without decimals. */
  lemma SquareExample(g: Geometry)
    requires g == SquareGeometry()
    ensures ShrunkPolygonWkt(g, "first", 2.0) == Ok("POLYGON ((1 1, 3 1, 3 3, 1 3, 1 1))")
  {
    SquareShrunk(g.coordinates);
    SquareRendered(ShrinkRings(g.coordinates, 2.0).value);
  }
}
