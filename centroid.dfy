/** `_outer_ring_centroid_xy` (notebooks/search_slc_grd_raw.py, lines
    187-218): the XY centroid of the outer ring by the signed-area (shoelace)
    formula, with the vertex mean as fallback for a ring of (almost) zero
    area. Floats are modelled by exact reals. */
module Centroid {
  import opened Wrappers
  import opened GeoJson

  type Point = (real, real)

  /** `(p[0], p[1])` as numbers, or None when the ring's arithmetic would
      raise on `p`: not a list, fewer than two items, or a non-number. */
  function XY(p: Value): Option<Point> {
    if p.List? && |p.items| >= 2 && p.items[0].Number? && p.items[1].Number? then
      Some((ToReal(p.items[0].n), ToReal(p.items[1].n)))
    else None
  }

  function PointOf(p: Value): Result<Point, GeoError> {
    match XY(p)
    case Some(q) => Ok(q)
    case None => Err(RuntimeTypeError)
  }

  function Cross(p: Point, q: Point): real {
    p.0 * q.1 - q.0 * p.1
  }

  /** The loop's three accumulators: twice the signed area, and the
      unnormalised first moments in x and y. */
  datatype Acc = Acc(a: real, mx: real, my: real)

  /** One loop step, over the edge from `p` to `q`. */
  function Step(acc: Acc, p: Point, q: Point): Acc {
    var c := Cross(p, q);
    Acc(acc.a + c, acc.mx + (p.0 + q.0) * c, acc.my + (p.1 + q.1) * c)
  }

  /** The sums over the edges `(i, i + 1)` for `i` in `range(n - 1)`: every
      consecutive pair, and no edge from the last vertex back to the first. */
  function Shoelace(q: seq<Point>): Acc
    decreases |q|
  {
    if |q| < 2 then Acc(0.0, 0.0, 0.0)
    else Step(Shoelace(q[..|q| - 1]), q[|q| - 2], q[|q| - 1])
  }

  function SumX(q: seq<Point>): real
    decreases |q|
  {
    if |q| == 0 then 0.0 else SumX(q[..|q| - 1]) + q[|q| - 1].0
  }

  function SumY(q: seq<Point>): real
    decreases |q|
  {
    if |q| == 0 then 0.0 else SumY(q[..|q| - 1]) + q[|q| - 1].1
  }

  /** `(sum(xs) / len(xs), sum(ys) / len(ys))`, every vertex counted as often as it occurs. */
  function Mean(q: seq<Point>): Point
    requires |q| > 0
  {
    (SumX(q) / (|q| as real), SumY(q) / (|q| as real))
  }

  function Abs(r: real): real {
    if r < 0.0 then -r else r
  }

  /** The degeneracy threshold on the signed area, 1e-15. */
  const Eps: real := 0.000000000000001

  /** The centroid of the vertices `q`. Fewer than three vertices give
      their mean, and no vertex at all the origin. */
  function CentroidOf(q: seq<Point>): Point {
    if |q| < 3 then
      if |q| == 0 then (0.0, 0.0) else Mean(q)
    else
      var acc := Shoelace(q);
      var area := 0.5 * acc.a;
      if Abs(area) < Eps then Mean(q)
      else (acc.mx / (6.0 * area), acc.my / (6.0 * area))
  }

  /** What `_outer_ring_centroid_xy` returns, or the interpreter's error;
      it fails exactly when some vertex lacks a numeric x or y. */
  function Centroid(ring: seq<Value>): (r: Result<Point, GeoError>)
    ensures r.Ok? <==> forall j :: 0 <= j < |ring| ==> XY(ring[j]).Some?
  {
    MapResultOk(ring, PointOf);
    var q :- MapResult(ring, PointOf);
    Ok(CentroidOf(q))
  }

  /** `_outer_ring_centroid_xy`: the vertices as points, the mean for fewer
      than three, otherwise the loop's sums, halved and divided. */
  method OuterRingCentroid(ring: seq<Value>) returns (r: Result<Point, GeoError>)
    ensures r == Centroid(ring)
  {
    var pts := MapResult(ring, PointOf);
    if pts.Err? {
      return Err(pts.error);
    }
    var xys := pts.value;
    if |xys| < 3 {
      if |xys| == 0 {
        return Ok((0.0, 0.0));
      }
      return Ok(Mean(xys));
    }
    var a, mx, my := ShoelaceSums(xys);
    CentroidFromSums(xys, Acc(a, mx, my));
    a := a * 0.5;
    if Abs(a) < Eps {
      return Ok(Mean(xys));
    }
    r := Ok((mx / (6.0 * a), my / (6.0 * a)));
  }

  /** The loop of `_outer_ring_centroid_xy`: the three accumulators,
      updated over the edges `(i, i + 1)`. */
  method ShoelaceSums(xys: seq<Point>) returns (a: real, mx: real, my: real)
    requires |xys| >= 1
    ensures Acc(a, mx, my) == Shoelace(xys)
  {
    a, mx, my := 0.0, 0.0, 0.0;
    var n := |xys|;
    for i := 0 to n - 1
      invariant Acc(a, mx, my) == Shoelace(xys[..i + 1])
    {
      ShoelaceStep(xys, i);
      var x0, y0 := xys[i].0, xys[i].1;
      var x1, y1 := xys[i + 1].0, xys[i + 1].1;
      var cross := Cross(xys[i], xys[i + 1]);
      a := a + cross;
      mx := mx + (x0 + x1) * cross;
      my := my + (y0 + y1) * cross;
    }
    assert xys[..n] == xys;
  }

  /** One more edge of the loop. */
  lemma ShoelaceStep(q: seq<Point>, i: nat)
    requires i + 2 <= |q|
    ensures Shoelace(q[..i + 2]) == Step(Shoelace(q[..i + 1]), q[i], q[i + 1])
  {
    assert q[..i + 2][..i + 1] == q[..i + 1];
  }

  /** The centroid from the loop's sums, with the area halved as `A *= 0.5` does. */
  lemma CentroidFromSums(q: seq<Point>, acc: Acc)
    requires |q| >= 3 && Shoelace(q) == acc
    ensures Abs(acc.a * 0.5) < Eps ==> CentroidOf(q) == Mean(q)
    ensures Abs(acc.a * 0.5) >= Eps ==>
      CentroidOf(q) == (acc.mx / (6.0 * (acc.a * 0.5)), acc.my / (6.0 * (acc.a * 0.5)))
  {
    assert 0.5 * acc.a == acc.a * 0.5;
  }

  // ----- the sums as the textbook states them -----

  /** The sums over the first `k` edges of the cyclic polygon `v`, the edge
      after the last vertex leading back to the first. */
  function EdgeSums(v: seq<Point>, k: nat): Acc
    requires k <= |v|
  {
    if k == 0 then Acc(0.0, 0.0, 0.0)
    else Step(EdgeSums(v, k - 1), v[k - 1], v[if k == |v| then 0 else k])
  }

  /** The shoelace sums of the polygon with vertices `v`, closing edge included. */
  function CyclicShoelace(v: seq<Point>): Acc {
    EdgeSums(v, |v|)
  }

  lemma {:induction false} ClosedPrefix(q: seq<Point>, k: nat)
    requires |q| >= 2 && q[|q| - 1] == q[0]
    requires k <= |q| - 1
    ensures Shoelace(q[..k + 1]) == EdgeSums(q[..|q| - 1], k)
  {
    var v := q[..|q| - 1];
    if k > 0 {
      ClosedPrefix(q, k - 1);
      assert q[..k + 1][..k] == q[..k];
    }
  }

  /** For a closed ring (last vertex repeating the first) the loop's
      open-chain sums are the cyclic shoelace sums of its distinct vertices:
      the edge back to the start is the last pair the loop visits. */
  lemma ClosedRingShoelace(q: seq<Point>)
    requires |q| >= 2 && q[|q| - 1] == q[0]
    ensures Shoelace(q) == CyclicShoelace(q[..|q| - 1])
  {
    ClosedPrefix(q, |q| - 1);
    assert q[..|q|] == q;
  }

  lemma {:induction false} OpenPrefix(q: seq<Point>, k: nat)
    requires 1 <= k <= |q|
    ensures Shoelace(q[..k]) == EdgeSums(q, k - 1)
  {
    if k > 1 {
      OpenPrefix(q, k - 1);
      assert q[..k][..k - 1] == q[..k - 1];
    }
  }

  /** For an open ring the closing edge is left out: the cyclic sums are
      the loop's sums plus that one edge. */
  lemma OpenRingShoelace(q: seq<Point>)
    requires |q| >= 1
    ensures CyclicShoelace(q) == Step(Shoelace(q), q[|q| - 1], q[0])
  {
    OpenPrefix(q, |q|);
    assert q[..|q|] == q;
  }

  // ----- what the centroid is -----

  lemma TriangleMomentX(x1: real, y1: real, x2: real, y2: real, x3: real, y3: real)
    ensures (x1 + x2) * (x1 * y2 - x2 * y1) + (x2 + x3) * (x2 * y3 - x3 * y2) + (x3 + x1) * (x3 * y1 - x1 * y3)
         == (x1 + x2 + x3) * ((x1 * y2 - x2 * y1) + (x2 * y3 - x3 * y2) + (x3 * y1 - x1 * y3))
  {
  }

  lemma TriangleMomentY(x1: real, y1: real, x2: real, y2: real, x3: real, y3: real)
    ensures (y1 + y2) * (x1 * y2 - x2 * y1) + (y2 + y3) * (x2 * y3 - x3 * y2) + (y3 + y1) * (x3 * y1 - x1 * y3)
         == (y1 + y2 + y3) * ((x1 * y2 - x2 * y1) + (x2 * y3 - x3 * y2) + (x3 * y1 - x1 * y3))
  {
  }

  lemma DivideOut(m: real, t: real)
    requires t != 0.0
    ensures (m * t) / (6.0 * (0.5 * t)) == m / 3.0
  {
  }

  lemma TriangleSums(a: Point, b: Point, c: Point)
    ensures Shoelace([a, b, c, a]) == Step(Step(Step(Acc(0.0, 0.0, 0.0), a, b), b, c), c, a)
  {
    var q := [a, b, c, a];
    assert q[..3] == [a, b, c] && q[..3][..2] == [a, b] && q[..3][..2][..1] == [a];
    assert Shoelace([a]) == Acc(0.0, 0.0, 0.0);
    assert Shoelace([a, b]) == Step(Acc(0.0, 0.0, 0.0), a, b);
    assert Shoelace([a, b, c]) == Step(Shoelace([a, b]), b, c);
  }

  lemma TriangleSteps(a: Point, b: Point, c: Point, t: real, mx: real, my: real)
    requires t == Cross(a, b) + Cross(b, c) + Cross(c, a)
    requires mx == a.0 + b.0 + c.0 && my == a.1 + b.1 + c.1
    ensures Step(Step(Step(Acc(0.0, 0.0, 0.0), a, b), b, c), c, a) == Acc(t, mx * t, my * t)
  {
    var c1, c2, c3 := Cross(a, b), Cross(b, c), Cross(c, a);
    var s := Step(Step(Step(Acc(0.0, 0.0, 0.0), a, b), b, c), c, a);
    assert s.a == 0.0 + c1 + c2 + c3;
    assert s.mx == 0.0 + (a.0 + b.0) * c1 + (b.0 + c.0) * c2 + (c.0 + a.0) * c3;
    assert s.my == 0.0 + (a.1 + b.1) * c1 + (b.1 + c.1) * c2 + (c.1 + a.1) * c3;
    TriangleMomentX(a.0, a.1, b.0, b.1, c.0, c.1);
    TriangleMomentY(a.0, a.1, b.0, b.1, c.0, c.1);
  }

  lemma TriangleAcc(a: Point, b: Point, c: Point, t: real, mx: real, my: real)
    requires t == Cross(a, b) + Cross(b, c) + Cross(c, a)
    requires mx == a.0 + b.0 + c.0 && my == a.1 + b.1 + c.1
    ensures Shoelace([a, b, c, a]) == Acc(t, mx * t, my * t)
  {
    TriangleSums(a, b, c);
    TriangleSteps(a, b, c, t, mx, my);
  }

  lemma CentroidOfMoments(q: seq<Point>, mx: real, my: real, t: real)
    requires |q| >= 3 && Shoelace(q) == Acc(t, mx * t, my * t) && Abs(0.5 * t) >= Eps
    ensures CentroidOf(q) == (mx / 3.0, my / 3.0)
  {
    DivideOut(mx, t);
    DivideOut(my, t);
  }

  /** For a closed triangle of non-zero area the area centroid is the mean
      of its three corners. */
  lemma TriangleCentroid(a: Point, b: Point, c: Point)
    requires Abs(0.5 * (Cross(a, b) + Cross(b, c) + Cross(c, a))) >= Eps
    ensures CentroidOf([a, b, c, a]) == ((a.0 + b.0 + c.0) / 3.0, (a.1 + b.1 + c.1) / 3.0)
  {
    var t := Cross(a, b) + Cross(b, c) + Cross(c, a);
    var mx, my := a.0 + b.0 + c.0, a.1 + b.1 + c.1;
    TriangleAcc(a, b, c, t, mx, my);
    CentroidOfMoments([a, b, c, a], mx, my, t);
  }

  /** When the area is below the threshold, every vertex (the repeated
      closing one included) weighs the same. */
  lemma DegenerateIsMean(q: seq<Point>)
    requires |q| >= 3 && Abs(0.5 * Shoelace(q).a) < Eps
    ensures CentroidOf(q) == Mean(q)
  {
  }

  lemma ThreeSums(a: Point, b: Point, c: Point)
    ensures Shoelace([a, b, c]) == Step(Step(Acc(0.0, 0.0, 0.0), a, b), b, c)
    ensures SumX([a, b, c]) == a.0 + b.0 + c.0 && SumY([a, b, c]) == a.1 + b.1 + c.1
  {
    var q := [a, b, c];
    assert q[..2] == [a, b] && [a, b][..1] == [a] && [a][..0] == [];
    assert Shoelace([a]) == Acc(0.0, 0.0, 0.0);
    assert Shoelace([a, b]) == Step(Acc(0.0, 0.0, 0.0), a, b);
    assert SumX([a]) == SumX([]) + a.0;
    assert SumY([a]) == SumY([]) + a.1;
    assert SumX([a, b]) == a.0 + b.0 && SumY([a, b]) == a.1 + b.1;
  }

  /** Three points on the x axis enclose no area and fall back to their mean. */
  lemma OnXAxis(x1: real, x2: real, x3: real)
    ensures CentroidOf([(x1, 0.0), (x2, 0.0), (x3, 0.0)]) == ((x1 + x2 + x3) / 3.0, 0.0)
  {
    var q := [(x1, 0.0), (x2, 0.0), (x3, 0.0)];
    ThreeSums(q[0], q[1], q[2]);
    assert Shoelace(q).a == 0.0;
    assert |q| as real == 3.0;
    assert Mean(q) == ((x1 + x2 + x3) / 3.0, 0.0 / 3.0);
  }

  /** The vertices (0, 0), (1, 0), (2, 0) give (1, 0). */
  lemma CollinearExample()
    ensures CentroidOf([(0.0, 0.0), (1.0, 0.0), (2.0, 0.0)]) == (1.0, 0.0)
  {
    OnXAxis(0.0, 1.0, 2.0);
  }
}
