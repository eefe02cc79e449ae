/** Writing a polygon's rings as WKT text (`POLYGON (...)` / `POLYGON Z (...)`
    after section 7 of OGC Simple Features Access, Part 1, which the text
    follows for rings of numeric coordinates with two or three components), as
    both converters of notebooks/search_slc_grd_raw.py do: the Z scan
    `_is_3d_coords` (lines 70-87), the `_fmt_*` helpers (lines 89-102) and
    the final f-string (lines 112-113). A reader for the same text is the
    partner that shows the rendering keeps every ring, coordinate and
    component, in order, and adds nothing. */
module Wkt {
  import opened Wrappers
  import opened GeoJson
  import opened NumFormat

  // ----- dimensionality -----

  /** A list that `_walk` takes for a coordinate: non-empty, every item a number. */
  predicate IsLeaf(items: seq<Value>) {
    |items| > 0 && forall i :: 0 <= i < |items| ==> items[i].Number?
  }

  /** Some coordinate anywhere in `v` has three or more components. The
      scan stops at a leaf and descends into every other list; strings and
      numbers outside a list are ignored. */
  predicate HasZ(v: Value)
    decreases v
  {
    match v
    case List(items) =>
      if IsLeaf(items) then |items| >= 3
      else exists i :: 0 <= i < |items| && HasZ(items[i])
    case _ => false
  }

  /** `_walk`: the recursive scan. Python's `nonlocal found` flag is threaded
      through as an in and out parameter; once set, every later call returns
      at once. */
  method Walk(o: Value, found: bool) returns (found': bool)
    ensures found' == (found || HasZ(o))
    decreases o
  {
    if found {
      return true;
    }
    found' := false;
    if o.List? {
      if IsLeaf(o.items) {
        if |o.items| >= 3 {
          found' := true;
        }
      } else {
        for i := 0 to |o.items|
          invariant found' == exists j :: 0 <= j < i && HasZ(o.items[j])
        {
          found' := Walk(o.items[i], found');
        }
      }
    }
  }

  /** `_is_3d_coords`. */
  method IsThreeD(obj: Value) returns (b: bool)
    ensures b == HasZ(obj)
  {
    b := Walk(obj, false);
  }

  // ----- formatting -----

  /** `_fmt_num` on a number. */
  function NumText(n: Num): string {
    match n
    case I(i) => IntToString(i)
    case F(r) => FormatG15(r)
  }

  /** `_fmt_num`; anything but a number makes `float()` or the slicing
      raise. A number prints as digits, sign, point and exponent only. */
  function FmtNum(v: Value): (r: Result<string, GeoError>)
    ensures r.Ok? <==> v.Number?
    ensures r.Ok? ==> NumberText(r.value)
  {
    if v.Number? then
      NumTextIsNumberText(v.n);
      Ok(NumText(v.n))
    else Err(RuntimeTypeError)
  }

  lemma NumTextIsNumberText(n: Num)
    ensures NumberText(NumText(n))
  {
    match n
    case I(i) => IntToStringIsNumberText(i);
    case F(r) => FormatG15IsNumberText(r);
  }

  /** `coord[:3]`. */
  function Take3<T>(s: seq<T>): (r: seq<T>)
    ensures |r| == if |s| < 3 then |s| else 3
    ensures r == s[..|r|]
  {
    if |s| <= 3 then s else s[..3]
  }

  /** Python's `sep.join(xs)`. */
  function JoinWith(xs: seq<string>, sep: string): string
    decreases |xs|
  {
    if |xs| == 0 then ""
    else if |xs| == 1 then xs[0]
    else xs[0] + sep + JoinWith(xs[1..], sep)
  }

  /** `_fmt_coord`: the first three components, space-separated. It fails
      exactly on a non-list or a non-number among the first three items. */
  function FmtCoord(c: Value): (r: Result<string, GeoError>)
    ensures r.Ok? <==> PrintableCoord(c)
  {
    if !c.List? then Err(RuntimeTypeError)
    else
      CoordPrintable(c);
      var parts :- MapResult(Take3(c.items), FmtNum);
      Ok(JoinWith(parts, " "))
  }

  lemma CoordPrintable(c: Value)
    requires c.List?
    ensures MapResult(Take3(c.items), FmtNum).Ok? <==> PrintableCoord(c)
  {
    var t := Take3(c.items);
    MapResultOk(t, FmtNum);
    assert forall k :: 0 <= k < |t| ==> t[k] == c.items[k];
  }

  /** `_fmt_ring` over `_fmt_coord_list`: coordinates joined by ", ", in
      parentheses. It fails exactly on a non-list or an unprintable coordinate. */
  function FmtRing(r: Value): (res: Result<string, GeoError>)
    ensures res.Ok? <==> PrintableRing(r)
  {
    if !r.List? then Err(RuntimeTypeError)
    else
      MapResultOk(r.items, FmtCoord);
      var coords :- MapResult(r.items, FmtCoord);
      Ok("(" + JoinWith(coords, ", ") + ")")
  }

  function Prefix(z: bool): string {
    if z then "POLYGON Z " else "POLYGON "
  }

  /** The text both converters return for the rings they settled on. */
  function RenderPolygon(rings: seq<Value>): Result<string, GeoError> {
    var parts :- MapResult(rings, FmtRing);
    Ok(Prefix(HasZ(List(rings))) + "(" + JoinWith(parts, ", ") + ")")
  }

  /** `f"POLYGON{dim} ({', '.join(_fmt_ring(r) for r in rings)})"` with
      `dim` from the scan. */
  method Serialize(rings: seq<Value>) returns (r: Result<string, GeoError>)
    ensures r == RenderPolygon(rings)
  {
    var z := IsThreeD(List(rings));
    var dim := if z then " Z" else "";
    var parts := MapResult(rings, FmtRing);
    if parts.Err? {
      return Err(parts.error);
    }
    assert "POLYGON" + dim + " (" == Prefix(z) + "(";
    r := Ok("POLYGON" + dim + " (" + JoinWith(parts.value, ", ") + ")");
  }

  /** The text starts with `POLYGON Z ` exactly when the scan finds a leaf (a
      non-empty list made only of numbers) with three or more items; a
      coordinate such as `[1, 2, 3, "x"]` is no leaf and does not count. */
  lemma RenderPrefix(rings: seq<Value>)
    requires RenderPolygon(rings).Ok?
    ensures var s := RenderPolygon(rings).value;
      && (HasZ(List(rings)) ==> |s| >= 11 && s[..11] == "POLYGON Z (")
      && (!HasZ(List(rings)) ==> |s| >= 9 && s[..9] == "POLYGON (")
  {
  }

  /** An empty ring list is not rejected: it renders as `POLYGON ()`. */
  lemma RenderEmpty()
    ensures RenderPolygon([]) == Ok("POLYGON ()")
  {
    assert !HasZ(List([]));
    assert MapResult([], FmtRing) == Ok([]);
    assert JoinWith([], ", ") == "";
    assert Prefix(false) + "(" + "" + ")" == "POLYGON ()";
  }

  /** What the formatting accepts: every ring a list, every coordinate a
      list, and its first three components numbers (a fourth component is
      never looked at). */
  predicate Printable(rings: seq<Value>) {
    forall i :: 0 <= i < |rings| ==> PrintableRing(rings[i])
  }

  predicate PrintableRing(r: Value) {
    r.List? && forall j :: 0 <= j < |r.items| ==> PrintableCoord(r.items[j])
  }

  predicate PrintableCoord(c: Value) {
    c.List? && forall k :: 0 <= k < |c.items| && k < 3 ==> c.items[k].Number?
  }

  /** Rendering fails exactly when some ring, coordinate or shown component has the wrong kind. */
  lemma RenderOkIff(rings: seq<Value>)
    ensures RenderPolygon(rings).Ok? <==> Printable(rings)
  {
    MapResultOk(rings, FmtRing);
  }

  /** Rings whose coordinates are lists of numbers only. */
  predicate NumericRings(rings: seq<Value>) {
    forall i :: 0 <= i < |rings| ==> NumericRing(rings[i])
  }

  predicate NumericRing(r: Value) {
    r.List? && forall j :: 0 <= j < |r.items| ==> r.items[j].List? && IsLeaf(r.items[j].items)
  }

  lemma HasZRing(r: Value)
    requires NumericRing(r)
    ensures HasZ(r) <==> exists j :: 0 <= j < |r.items| && |r.items[j].items| >= 3
  {
    if |r.items| > 0 {
      assert !r.items[0].Number?;
    }
    if HasZ(r) {
      var j :| 0 <= j < |r.items| && HasZ(r.items[j]);
      assert |r.items[j].items| >= 3;
    }
    if exists j :: 0 <= j < |r.items| && |r.items[j].items| >= 3 {
      var j :| 0 <= j < |r.items| && |r.items[j].items| >= 3;
      assert HasZ(r.items[j]);
    }
  }

  /** For such rings the scan answers exactly: is there a coordinate with a
      third component? */
  lemma HasZNumericRings(rings: seq<Value>)
    requires NumericRings(rings)
    ensures HasZ(List(rings)) <==>
      exists i, j :: 0 <= i < |rings| && 0 <= j < |rings[i].items| && |rings[i].items[j].items| >= 3
  {
    if |rings| > 0 {
      assert !rings[0].Number?;
    }
    forall i | 0 <= i < |rings|
      ensures HasZ(rings[i]) <==> exists j :: 0 <= j < |rings[i].items| && |rings[i].items[j].items| >= 3
    {
      HasZRing(rings[i]);
    }
  }

  // ----- reading the text back -----

  /** Python's `s.split(c)`: the pieces between occurrences of `c`. */
  function Split(s: string, c: char): (r: seq<string>)
    ensures |r| >= 1
    decreases |s|
  {
    if |s| == 0 then [""]
    else
      var tail := Split(s[1..], c);
      if s[0] == c then [""] + tail else [[s[0]] + tail[0]] + tail[1..]
  }

  function Unspace(p: string): string {
    if |p| > 0 && p[0] == ' ' then p[1..] else p
  }

  /** A coordinate's components. */
  function ParseCoord(t: string): seq<string> {
    Split(t, ' ')
  }

  /** The coordinates between a ring's parentheses. */
  function ParseCoordList(body: string): seq<seq<string>> {
    if body == "" then []
    else
      var pieces := Split(body, ',');
      seq(|pieces|, i requires 0 <= i < |pieces| => ParseCoord(if i == 0 then pieces[0] else Unspace(pieces[i])))
  }

  /** What precedes ring `i`'s coordinates once the text is cut at every `)`. */
  function Opener(i: nat): string {
    if i == 0 then "(" else ", ("
  }

  function DropOpener(p: string, i: nat): string {
    var o := Opener(i);
    if |o| <= |p| && p[..|o|] == o then p[|o|..] else p
  }

  predicate Opens(p: string, i: nat) {
    var o := Opener(i);
    |o| <= |p| && p[..|o|] == o
  }

  /** The rings between the outer parentheses. */
  function ParseRings(inner: string): Option<seq<seq<seq<string>>>> {
    if inner == "" then Some([])
    else
      var pieces := Split(inner, ')');
      var n := |pieces| - 1;
      if pieces[n] == "" && forall i :: 0 <= i < n ==> Opens(pieces[i], i) then
        Some(seq(n, i requires 0 <= i < n => ParseCoordList(DropOpener(pieces[i], i))))
      else None
  }

  /** Reads `POLYGON [Z ](...)` into the Z flag and, per ring and per
      coordinate, the text of each component. */
  function ParseWkt(s: string): Option<(bool, seq<seq<seq<string>>>)> {
    var z := |s| >= 11 && s[..11] == "POLYGON Z (";
    var start := if z then 11 else 9;
    if !z && !(|s| >= 9 && s[..9] == "POLYGON (") then None
    else if |s| < start + 1 || s[|s| - 1] != ')' then None
    else
      match ParseRings(s[start..|s| - 1])
      case None => None
      case Some(rings) => Some((z, rings))
  }

  /** The text of a value that `FmtNum` accepts. */
  function ValueText(v: Value): string {
    if v.Number? then NumText(v.n) else ""
  }

  function CoordTokens(c: Value): seq<string> {
    if c.List? then
      var parts := Take3(c.items);
      seq(|parts|, k requires 0 <= k < |parts| => ValueText(parts[k]))
    else []
  }

  function RingTokens(r: Value): seq<seq<string>> {
    if r.List? then seq(|r.items|, j requires 0 <= j < |r.items| => CoordTokens(r.items[j])) else []
  }

  /** Per ring, per coordinate, the text of its first min(len, 3) components. */
  function Tokens(rings: seq<Value>): seq<seq<seq<string>>> {
    seq(|rings|, i requires 0 <= i < |rings| => RingTokens(rings[i]))
  }

  /** Every coordinate of every ring has at least one component (an empty
      coordinate prints as nothing, and then `[]` and `[[]]` print alike). */
  predicate NonEmptyCoords(rings: seq<Value>) {
    forall i, j :: 0 <= i < |rings| && rings[i].List? && 0 <= j < |rings[i].items| ==>
      !rings[i].items[j].List? || |rings[i].items[j].items| > 0
  }

  // ----- splitting what was joined -----

  lemma {:induction false} SplitNoSep(a: string, c: char)
    requires c !in a
    ensures Split(a, c) == [a]
    decreases |a|
  {
    if |a| > 0 {
      SplitNoSep(a[1..], c);
      assert [a[0]] + a[1..] == a;
    }
  }

  lemma {:induction false} SplitConcat(a: string, rest: string, c: char)
    requires c !in a
    ensures Split(a + [c] + rest, c) == [a] + Split(rest, c)
    decreases |a|
  {
    var s := a + [c] + rest;
    if |a| == 0 {
      assert s[1..] == rest;
    } else {
      assert s[1..] == a[1..] + [c] + rest;
      SplitConcat(a[1..], rest, c);
      assert [a[0]] + a[1..] == a;
    }
  }

  lemma {:induction false} SplitJoin(xs: seq<string>, c: char)
    requires |xs| >= 1
    requires forall i :: 0 <= i < |xs| ==> c !in xs[i]
    ensures Split(JoinWith(xs, [c]), c) == xs
    decreases |xs|
  {
    if |xs| == 1 {
      SplitNoSep(xs[0], c);
    } else {
      SplitJoin(xs[1..], c);
      SplitConcat(xs[0], JoinWith(xs[1..], [c]), c);
      assert [xs[0]] + xs[1..] == xs;
    }
  }

  lemma {:induction false} JoinLacks(xs: seq<string>, sep: string, c: char)
    requires c !in sep
    requires forall i :: 0 <= i < |xs| ==> c !in xs[i]
    ensures c !in JoinWith(xs, sep)
    decreases |xs|
  {
    if |xs| > 1 {
      JoinLacks(xs[1..], sep, c);
    }
  }

  lemma JoinStartsWith(xs: seq<string>, sep: string)
    requires |xs| >= 1
    ensures |xs[0]| <= |JoinWith(xs, sep)| && JoinWith(xs, sep)[..|xs[0]|] == xs[0]
  {
  }

  function Spaced(xs: seq<string>): (r: seq<string>)
    ensures |r| == |xs|
  {
    seq(|xs|, i requires 0 <= i < |xs| => " " + xs[i])
  }

  /** A space in front of ", "-joined text moves onto every element of a ","-join. */
  lemma {:induction false} SpaceJoin(ys: seq<string>)
    requires |ys| >= 1
    ensures " " + JoinWith(ys, ", ") == JoinWith(Spaced(ys), ",")
    decreases |ys|
  {
    if |ys| > 1 {
      SpaceJoin(ys[1..]);
      assert Spaced(ys)[1..] == Spaced(ys[1..]);
    }
  }

  lemma RegroupSpace(a: string, j: string)
    ensures a + "," + (" " + j) == a + ", " + j
  {
    var l := a + "," + (" " + j);
    var r := a + ", " + j;
    assert |l| == |r|;
    forall k | 0 <= k < |l| ensures l[k] == r[k] {
      if k < |a| {
      } else if k == |a| {
      } else if k == |a| + 1 {
      } else {
        assert l[k] == j[k - |a| - 2];
      }
    }
  }

  /** ", "-joined text is the ","-join of the first element and the spaced rest. */
  lemma CoordPieces(cs: seq<string>)
    requires |cs| >= 1
    ensures JoinWith(cs, ", ") == JoinWith([cs[0]] + Spaced(cs[1..]), ",")
  {
    var pieces := [cs[0]] + Spaced(cs[1..]);
    if |cs| > 1 {
      var j := JoinWith(cs[1..], ", ");
      SpaceJoin(cs[1..]);
      assert pieces[0] == cs[0] && pieces[1..] == Spaced(cs[1..]);
      calc {
        JoinWith(pieces, ",");
        cs[0] + "," + JoinWith(Spaced(cs[1..]), ",");
        cs[0] + "," + (" " + j);
        { RegroupSpace(cs[0], j); }
        cs[0] + ", " + j;
        JoinWith(cs, ", ");
      }
    } else {
      assert pieces == cs;
    }
  }

  /** Reading back a ", "-joined list of coordinate texts. */
  lemma CoordListRoundTrip(cs: seq<string>)
    requires forall j :: 0 <= j < |cs| ==> cs[j] != "" && ',' !in cs[j] && cs[j][0] != ' '
    ensures ParseCoordList(JoinWith(cs, ", ")) == seq(|cs|, j requires 0 <= j < |cs| => ParseCoord(cs[j]))
  {
    if |cs| > 0 {
      var body := JoinWith(cs, ", ");
      JoinStartsWith(cs, ", ");
      assert body != "";
      var pieces := [cs[0]] + Spaced(cs[1..]);
      CoordPieces(cs);
      forall i | 0 <= i < |pieces| ensures ',' !in pieces[i] {
        if i > 0 {
          assert pieces[i] == " " + cs[i];
        }
      }
      SplitJoin(pieces, ',');
      var got := ParseCoordList(body);
      var want := seq(|cs|, j requires 0 <= j < |cs| => ParseCoord(cs[j]));
      assert |got| == |want|;
      forall i | 0 <= i < |cs| ensures got[i] == want[i] {
        if i > 0 {
          assert pieces[i] == " " + cs[i];
          assert Unspace(pieces[i]) == cs[i];
        }
      }
    }
  }

  function Wraps(bs: seq<string>): (r: seq<string>)
    ensures |r| == |bs|
  {
    seq(|bs|, i requires 0 <= i < |bs| => "(" + bs[i] + ")")
  }

  /** The text of rings `bs`, preceded by `p`, cut at every `)`. */
  function RingPieces(p: string, bs: seq<string>): (r: seq<string>)
    requires |bs| >= 1
    ensures |r| == |bs| + 1 && r[|bs|] == "" && r[0] == p + "(" + bs[0]
    ensures forall i :: 1 <= i < |bs| ==> r[i] == ", (" + bs[i]
    decreases |bs|
  {
    if |bs| == 1 then [p + "(" + bs[0], ""] else [p + "(" + bs[0]] + RingPieces(", ", bs[1..])
  }

  lemma Regroup(p: string, b: string, j: string)
    ensures p + (("(" + b + ")") + ", " + j) == (p + "(" + b) + ")" + (", " + j)
  {
  }

  lemma {:induction false} WrapJoin(p: string, bs: seq<string>)
    requires |bs| >= 1
    ensures p + JoinWith(Wraps(bs), ", ") == JoinWith(RingPieces(p, bs), ")")
    decreases |bs|
  {
    if |bs| > 1 {
      WrapJoin(", ", bs[1..]);
      var w := Wraps(bs);
      assert w[1..] == Wraps(bs[1..]);
      var j := JoinWith(w[1..], ", ");
      assert JoinWith(w, ", ") == w[0] + ", " + j;
      var first := p + "(" + bs[0];
      var rest := RingPieces(", ", bs[1..]);
      var pieces := RingPieces(p, bs);
      assert pieces == [first] + rest;
      assert pieces[1..] == rest;
      assert JoinWith(pieces, ")") == first + ")" + JoinWith(rest, ")");
      assert JoinWith(rest, ")") == ", " + j;
      Regroup(p, bs[0], j);
    }
  }

  /** Reading back the ", "-joined rings. */
  lemma RingsRoundTrip(bs: seq<string>)
    requires forall i :: 0 <= i < |bs| ==> ')' !in bs[i]
    ensures ParseRings(JoinWith(Wraps(bs), ", ")) ==
      Some(seq(|bs|, i requires 0 <= i < |bs| => ParseCoordList(bs[i])))
  {
    if |bs| > 0 {
      var inner := JoinWith(Wraps(bs), ", ");
      InnerPieces(bs);
      PiecesOpen(bs);
      var pieces := RingPieces("", bs);
      var got := ParseRings(inner).value;
      var want := seq(|bs|, i requires 0 <= i < |bs| => ParseCoordList(bs[i]));
      assert |got| == |want|;
      forall i | 0 <= i < |bs| ensures got[i] == want[i] {
        assert got[i] == ParseCoordList(DropOpener(pieces[i], i));
      }
      assert got == want;
    } else {
      assert JoinWith(Wraps(bs), ", ") == "";
      assert seq(|bs|, i requires 0 <= i < |bs| => ParseCoordList(bs[i])) == [];
    }
  }

  /** Cutting the joined rings at every `)` gives the ring pieces. */
  lemma InnerPieces(bs: seq<string>)
    requires |bs| > 0 && forall i :: 0 <= i < |bs| ==> ')' !in bs[i]
    ensures JoinWith(Wraps(bs), ", ") != ""
    ensures Split(JoinWith(Wraps(bs), ", "), ')') == RingPieces("", bs)
  {
    var inner := JoinWith(Wraps(bs), ", ");
    JoinStartsWith(Wraps(bs), ", ");
    WrapJoin("", bs);
    var pieces := RingPieces("", bs);
    assert "" + inner == inner;
    PiecesLack(bs);
    SplitJoin(pieces, ')');
    assert [')'] == ")";
    assert Split(inner, ')') == pieces;
  }

  /** No ring piece holds a `)`. */
  lemma PiecesLack(bs: seq<string>)
    requires |bs| > 0 && forall i :: 0 <= i < |bs| ==> ')' !in bs[i]
    ensures forall i :: 0 <= i < |bs| + 1 ==> ')' !in RingPieces("", bs)[i]
  {
    var pieces := RingPieces("", bs);
    forall i | 0 <= i < |bs| + 1 ensures ')' !in pieces[i] {
      if i == 0 {
        LacksCat("(", bs[0], ')');
      } else if i < |bs| {
        LacksCat(", (", bs[i], ')');
      }
    }
  }

  lemma LacksCat(a: string, b: string, c: char)
    requires c !in a && c !in b
    ensures c !in a + b
  {
  }

  /** Every ring piece starts with its opener, and drops to the ring's body. */
  lemma PiecesOpen(bs: seq<string>)
    requires |bs| > 0
    ensures forall i :: 0 <= i < |bs| ==>
      Opens(RingPieces("", bs)[i], i) && DropOpener(RingPieces("", bs)[i], i) == bs[i]
  {
    var pieces := RingPieces("", bs);
    forall i | 0 <= i < |bs| ensures Opens(pieces[i], i) && DropOpener(pieces[i], i) == bs[i] {
      if i == 0 {
        assert pieces[0] == "(" + bs[0];
      }
    }
  }

  /** A coordinate's text reads back as the texts of its first three components. */
  lemma CoordRoundTrip(c: Value)
    requires FmtCoord(c).Ok? && c.List? && |c.items| > 0
    ensures var t := FmtCoord(c).value;
      t != "" && ',' !in t && ')' !in t && t[0] != ' ' && ParseCoord(t) == CoordTokens(c)
  {
    var parts := Take3(c.items);
    MapResultOk(parts, FmtNum);
    var strs := MapResult(parts, FmtNum).value;
    forall k | 0 <= k < |strs| ensures NumberText(strs[k]) && strs[k] == ValueText(parts[k]) {
      match parts[k].n
      case I(i) => IntToStringIsNumberText(i);
      case F(r) => FormatG15IsNumberText(r);
    }
    var t := JoinWith(strs, " ");
    JoinLacks(strs, " ", ',');
    JoinLacks(strs, " ", ')');
    JoinStartsWith(strs, " ");
    SplitJoin(strs, ' ');
  }

  /** A ring's text is its coordinates' texts between parentheses. */
  lemma RingRoundTrip(r: Value)
    requires FmtRing(r).Ok? && r.List?
    requires forall j :: 0 <= j < |r.items| ==> !r.items[j].List? || |r.items[j].items| > 0
    ensures exists b :: FmtRing(r).value == "(" + b + ")" && ')' !in b && ParseCoordList(b) == RingTokens(r)
  {
    MapResultOk(r.items, FmtCoord);
    var cs := MapResult(r.items, FmtCoord).value;
    forall j | 0 <= j < |cs|
      ensures cs[j] != "" && ',' !in cs[j] && ')' !in cs[j] && cs[j][0] != ' '
      ensures ParseCoord(cs[j]) == CoordTokens(r.items[j])
    {
      CoordRoundTrip(r.items[j]);
    }
    var b := JoinWith(cs, ", ");
    JoinLacks(cs, ", ", ')');
    CoordListRoundTrip(cs);
    assert FmtRing(r).value == "(" + b + ")";
  }

  /** The header and the closing parenthesis are read back as written. */
  lemma ParseFramed(z: bool, inner: string)
    ensures ParseWkt(Prefix(z) + "(" + inner + ")") ==
      match ParseRings(inner) case None => None case Some(rs) => Some((z, rs))
  {
    var s := Prefix(z) + "(" + inner + ")";
    var start := if z then 11 else 9;
    assert s[start..|s| - 1] == inner;
    if z {
      assert s[..11] == "POLYGON Z (";
    } else {
      assert s[..9] == "POLYGON (" && s[8] == '(';
    }
  }

  /** The rendered rings, with their parentheses taken off. */
  lemma RingBodies(rings: seq<Value>) returns (bodies: seq<string>)
    requires MapResult(rings, FmtRing).Ok?
    requires NonEmptyCoords(rings)
    ensures MapResult(rings, FmtRing).value == Wraps(bodies)
    ensures forall i :: 0 <= i < |bodies| ==> ')' !in bodies[i]
    ensures |bodies| == |rings|
    ensures forall i :: 0 <= i < |bodies| ==> ParseCoordList(bodies[i]) == RingTokens(rings[i])
  {
    MapResultOk(rings, FmtRing);
    var parts := MapResult(rings, FmtRing).value;
    bodies := seq(|rings|, i requires 0 <= i < |rings| => parts[i][1..|parts[i]| - 1]);
    forall i | 0 <= i < |rings|
      ensures parts[i] == "(" + bodies[i] + ")" && ')' !in bodies[i]
      ensures ParseCoordList(bodies[i]) == RingTokens(rings[i])
    {
      assert FmtRing(rings[i]).Ok?;
      RingRoundTrip(rings[i]);
      var b :| FmtRing(rings[i]).value == "(" + b + ")" && ')' !in b && ParseCoordList(b) == RingTokens(rings[i]);
      assert bodies[i] == b;
    }
    assert parts == Wraps(bodies);
  }

  /** The rendered text reads back as exactly the rendered rings: the Z flag,
      then every ring, every coordinate and the first min(len, 3) components
      of each, all in input order, with nothing added (no closing vertex). */
  lemma RenderRoundTrip(rings: seq<Value>)
    requires RenderPolygon(rings).Ok?
    requires NonEmptyCoords(rings)
    ensures ParseWkt(RenderPolygon(rings).value) == Some((HasZ(List(rings)), Tokens(rings)))
  {
    var bodies := RingBodies(rings);
    RingsRoundTrip(bodies);
    var z := HasZ(List(rings));
    var inner := JoinWith(Wraps(bodies), ", ");
    assert RenderPolygon(rings).value == Prefix(z) + "(" + inner + ")";
    ParseFramed(z, inner);
    var toks := seq(|bodies|, i requires 0 <= i < |bodies| => ParseCoordList(bodies[i]));
    assert |toks| == |Tokens(rings)|;
    forall i | 0 <= i < |rings| ensures toks[i] == Tokens(rings)[i] {
    }
    assert toks == Tokens(rings);
  }
}
