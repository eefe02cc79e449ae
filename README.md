# WORLDSAR polygon, metadata and product-id helpers in Dafny

This project models three pieces of the WORLDSAR Sentinel-1 tooling.

1. The two GeoJSON-to-WKT converters of `notebooks/search_slc_grd_raw.py`.
   - `geojson_to_polygon_wkt` writes a Polygon, or the first part of a
     MultiPolygon, as `POLYGON (...)` or `POLYGON Z (...)`. For rings of
     numeric coordinates with two or three components, the text follows
     section 7 of OGC Simple Features Access, Part 1. Three outputs fall
     outside that grammar: an empty ring list prints `POLYGON ()` where the
     grammar writes `POLYGON EMPTY`, an empty coordinate prints as nothing,
     and `[1, 2, 3, "x"]` prints three values under a plain `POLYGON`.
   - `geojson_to_shrunk_polygon_wkt` makes the same choice of polygon. It
     checks the rings and computes the outer ring's shoelace centroid. It then
     scales every ring in XY about that centroid by `1/shrink_factor`, passes Z
     through and copies the first vertex over the last of a closed ring. Last,
     it prints the result the same way.
   - The geometry follows sections 3.1.6 and 3.1.7 of RFC 7946. Its
     `coordinates` are kept as a tree of lists, numbers, strings and null
     (`GeoJson.Value`), because both converters inspect its shape at run time
     and raise on shapes they do not accept.
   - Every `ValueError` is a constructor of `GeoJson.GeoError`.
2. `extract_core_metadata_sentinel` of `pyscripts/core_metadata.py`.
   - It keeps the entries of an HDF5 attribute map whose keys are in a fixed
     list of 16 keys, in the order of that list.
   - It decodes byte values as UTF-8. Decoding is strict: failures raise, as
     `bytes.decode('utf-8')` does.
3. `extract_product_id` of `pyscripts/main.py`.
   - It returns group 1 of `re.search(r"/([^/]+?)_[^/_]+\.dim$", path)`, or
     `None` when there is no match.
   - The model states the regular expression's meaning as a string function.
     It follows Python's rule that `$` also matches before one final newline.

Where the source has loops or mutates state, the model uses methods with
loop invariants. Each such method is proved equal to a specification
function, and the lemmas are stated about that function. These loops are:

- the `_walk` scan with its `nonlocal found` flag;
- the centroid accumulation loop;
- the append-then-overwrite loop of `_scale_ring_about_xy_centroid`;
- the ring loop of `_shrink_polygon_rings`.

The formatting helpers, the metadata comprehension and the regular
expression are pure functions.

Floats are modelled by exact reals. `f"{x:.15g}"` is implemented on the
exact value: it rounds to 15 significant digits, half to even, and uses the
fixed or scientific layout as `g` does.

The module files are:

- `wrappers.dfy`: Option and Result, and `MapResult`, which models a Python
  loop or comprehension that stops at the first exception.
- `geojson.dfy`: the geometry and its errors.
- `num_format.dfy`: `str` on an int and `.15g` on a real.
- `wkt.dfy`: the Z scan, the `_fmt_*` helpers, the final text, and a reader
  that parses the text back.
- `polygon_wkt.dfy`: `geojson_to_polygon_wkt`.
- `centroid.dfy`: `_outer_ring_centroid_xy`.
- `shrink.dfy`: the scaling, `_shrink_polygon_rings` and
  `geojson_to_shrunk_polygon_wkt`.
- `shrink_example.dfy`: the 4 × 4 square worked through to its WKT text.
- `utf8.dfy`: strict UTF-8, per table 3-7 of the Unicode Standard, section 3.9.
- `core_metadata.dfy`: `extract_core_metadata_sentinel`.
- `product_id.dfy`: `extract_product_id`.

Three behaviours of the code are worth noting:

- Each coordinate prints its first `min(len, 3)` components, whatever the
  polygon's dimension (lines 96 and 179). A coordinate such as `[1, 2, 3, "x"]`
  is not a numeric leaf, so it does not promote the output to `POLYGON Z`.
  It is still printed as `1 2 3`, because the fourth item is never formatted.
- The centroid loop sums the edges `(i, i + 1)` with no wrap-around edge. For
  a closed ring this equals the usual cyclic shoelace sum
  (`Centroid.ClosedRingShoelace`). For an open ring it misses the closing edge
  (`Centroid.OpenRingShoelace`).
- The docstring of `extract_core_metadata_sentinel` names 11 keys. The key
  list in the code has 16, and those are the ones the model keeps.

## Model

| member | source | states |
|---|---|---|
| Wkt.Walk | notebooks/search_slc_grd_raw.py:74-85 | The recursive scan with its `found` flag returns `found or HasZ(o)`. `HasZ` says that some leaf (a non-empty list of numbers) has at least three items. |
| Wkt.IsThreeD | notebooks/search_slc_grd_raw.py:70-87 | `_is_3d_coords` answers exactly `HasZ`. |
| Wkt.HasZNumericRings | notebooks/search_slc_grd_raw.py:157-171 | For rings of numeric coordinates, the scan is true iff some coordinate has a third component. |
| Wkt.Serialize | notebooks/search_slc_grd_raw.py:112-113 | The f-string with the scanned `dim` equals `RenderPolygon`, the specification of the text. |
| Wkt.RenderPrefix | notebooks/search_slc_grd_raw.py:112-113 | The text starts with `POLYGON Z (` when the scan finds a leaf (a non-empty list made only of numbers) with three or more items, and with `POLYGON (` otherwise. `[1, 2, 3, "x"]` is not a leaf, so on its own it gives `POLYGON (`. |
| Wkt.RenderEmpty | notebooks/search_slc_grd_raw.py:108-113 | An empty ring list is not refused; it prints `POLYGON ()`. |
| Wkt.FmtNum | notebooks/search_slc_grd_raw.py:89-93 | `_fmt_num` succeeds iff its argument is a number. Its text is then non-empty and uses only digits, sign, point and `e`. |
| Wkt.FmtCoord | notebooks/search_slc_grd_raw.py:95-96 | `_fmt_coord` succeeds iff the coordinate is a list whose first min(len, 3) items are numbers. |
| Wkt.FmtRing | notebooks/search_slc_grd_raw.py:98-99 | `_fmt_ring` succeeds iff the ring is a list of printable coordinates. |
| Wkt.RenderOkIff | notebooks/search_slc_grd_raw.py:89-113 | Printing fails exactly when a ring, a coordinate or one of the first three components has the wrong kind. |
| Wkt.CoordRoundTrip | notebooks/search_slc_grd_raw.py:95-96 | For a non-empty coordinate (an empty one prints as nothing), the text splits at single spaces back into the texts of its first min(len, 3) components. It holds no comma, no parenthesis and no leading space. |
| Wkt.RingRoundTrip | notebooks/search_slc_grd_raw.py:98-102 | A ring's text is `(` + body + `)`, and the body reads back as its coordinates' component texts. |
| Wkt.RenderRoundTrip | notebooks/search_slc_grd_raw.py:112-113 | When no coordinate is an empty list, the whole text reads back as the Z flag and, per ring and per coordinate, the component texts, in input order. Nothing is added: no closing vertex, no extra ring. An empty coordinate prints as nothing, so `[[]]` and `[]` are not told apart by the text. |
| NumFormat.IntToStringRoundTrip | notebooks/search_slc_grd_raw.py:91-92 | `str` on an int is undone by `int` on its text. |
| NumFormat.FormatG15Integral | notebooks/search_slc_grd_raw.py:89-93 | A float holding a whole number of at most 15 digits prints under `.15g` exactly as the int does under `str`. |
| NumFormat.FormatG15IsNumberText | notebooks/search_slc_grd_raw.py:93 | `.15g` output is non-empty and uses only digits, sign, point and `e`, so it never breaks the WKT separators. |
| PolygonWkt.SelectRings | notebooks/search_slc_grd_raw.py:108-123 | Selected rings are the `coordinates` of a Polygon, or the first part of a MultiPolygon whose coordinates are a non-empty list. Under "error" that list must have exactly one part. |
| PolygonWkt.GeojsonToPolygonWkt | notebooks/search_slc_grd_raw.py:104-127 | The converter equals `PolygonWkt`: the checks in source order, the choice of rings, then `RenderPolygon`. |
| PolygonWkt.TypeGate | notebooks/search_slc_grd_raw.py:104-106 | A missing or empty type gives `MissingType`. Any type other than Polygon and MultiPolygon gives `UnsupportedType` with that name. A success implies one of the two. |
| PolygonWkt.MultiPolygonIsFirstPart | notebooks/search_slc_grd_raw.py:115-125 | A MultiPolygon converts exactly as the Polygon made of its first part, unless the policy is "error" and there are several parts. |
| PolygonWkt.ErrorPolicyRefusesSeveral | notebooks/search_slc_grd_raw.py:119-120 | Under "error", two or more parts give `MultiplePolygons`. |
| PolygonWkt.SelectionErrors | notebooks/search_slc_grd_raw.py:108-123 | Polygon coordinates that are not a list give `PolygonCoordinatesNotList`. MultiPolygon coordinates that are not a non-empty list give `MultiPolygonNotNonEmptyList`. A first part that is not a list, when the policy lets it be chosen, gives `InvalidMultiPolygonPart`. |
| PolygonWkt.AnyPolicyActsAsFirst | notebooks/search_slc_grd_raw.py:119-121 | Any policy value other than "error" converts every geometry exactly as "first" does. |
| PolygonWkt.PolicyIrrelevant | notebooks/search_slc_grd_raw.py:115-125 | The policy changes nothing unless the geometry is a MultiPolygon with several parts. |
| PolygonWkt.PolygonWktSpec | notebooks/search_slc_grd_raw.py:104-127 | Success iff rings are selected and printable. When no coordinate is an empty list, the text then reads back as those rings, with the Z flag of the scan. |
| Centroid.Centroid | notebooks/search_slc_grd_raw.py:187-218 | The centroid is computed iff every outer-ring vertex has numeric x and y. |
| Centroid.OuterRingCentroid | notebooks/search_slc_grd_raw.py:187-218 | The accumulation loop equals `CentroidOf`. That function gives the mean for fewer than three vertices, and the open-chain shoelace sums divided by 6A. It falls back to the mean when abs(A) < 1e-15. |
| Centroid.ShoelaceSums | notebooks/search_slc_grd_raw.py:199-209 | The loop over `range(n - 1)` leaves in its three accumulators the sums `Shoelace` gives over the consecutive pairs of the vertex list. |
| Centroid.ClosedRingShoelace | notebooks/search_slc_grd_raw.py:199-210 | For a closed ring, the loop's sums equal the textbook cyclic shoelace sums over the ring without its repeated vertex. |
| Centroid.OpenRingShoelace | notebooks/search_slc_grd_raw.py:203-209 | For an open ring, the cyclic sums are the loop's sums plus the one missing closing edge. |
| Centroid.TriangleCentroid | notebooks/search_slc_grd_raw.py:199-218 | A closed triangle of non-zero area has as centroid the mean of its three corners. |
| Centroid.DegenerateIsMean | notebooks/search_slc_grd_raw.py:212-215 | A ring whose area is below the threshold gets the vertex mean. |
| Centroid.OnXAxis | notebooks/search_slc_grd_raw.py:212-215 | Three points on the x axis get their mean. |
| Centroid.CollinearExample | notebooks/search_slc_grd_raw.py:212-215 | (0, 0), (1, 0), (2, 0) give (1, 0). |
| Shrink.ScaleRingAboutCentroid | notebooks/search_slc_grd_raw.py:220-240 | The append loop and the in-place overwrite of `out[-1]` equal `ScaleRing`. |
| Shrink.ShrinkPolygonRings | notebooks/search_slc_grd_raw.py:242-259 | The checks, the centroid and the ring loop equal `ShrinkRings`. |
| Shrink.GeojsonToShrunkPolygonWkt | notebooks/search_slc_grd_raw.py:262-285 | The converter equals `ShrunkPolygonWkt`: select, shrink, scan, print. |
| Shrink.ScaleCoordOk | notebooks/search_slc_grd_raw.py:224-229 | Scaling a coordinate succeeds iff it is a list whose first two items are numbers. |
| Shrink.ScaleRingOk | notebooks/search_slc_grd_raw.py:222-233 | Scaling a ring succeeds iff every coordinate has numeric x and y. |
| Shrink.ShrinkRingsOkIff | notebooks/search_slc_grd_raw.py:242-259 | Shrinking succeeds iff the factor is positive and the rings are a non-empty list of rings, each with at least three coordinates with numeric x and y. |
| Shrink.ShrinkCheckOrder | notebooks/search_slc_grd_raw.py:243-251 | The ring list is checked before the factor, and the factor before the outer ring. Each failure gives its own error. |
| Shrink.ScaleRingPointwise | notebooks/search_slc_grd_raw.py:222-239 | Output coordinate j is input coordinate j scaled about the center, followed by the Z (if any) of its Z source. The Z source is the first coordinate for the last vertex of a closed ring, and itself otherwise. |
| Shrink.ShrinkRingsPointwise | notebooks/search_slc_grd_raw.py:253-258 | Ring count, ring lengths and order are kept. Every vertex of every ring, holes included, is scaled by 1/factor about the outer ring's centroid. Z travels unchanged, and items past the third are dropped. |
| Shrink.ShrunkXY | notebooks/search_slc_grd_raw.py:228-229 | Output vertex (i, j) is `c + (p - c)/factor` for input vertex p and centroid c. |
| Shrink.ShrinkScalesOffsets | notebooks/search_slc_grd_raw.py:228-229 | The x and y offsets between any two output vertices are the input offsets divided by the factor: a uniform scaling. |
| Shrink.ShrinkByOneKeepsXY | notebooks/search_slc_grd_raw.py:247 | With factor 1 every vertex keeps its x and y. |
| Shrink.ScaleInjective | notebooks/search_slc_grd_raw.py:228-229 | Scaling by a non-zero s maps distinct values to distinct values. |
| Shrink.ShrinkKeepsClosure | notebooks/search_slc_grd_raw.py:235-239 | A ring comes out closed iff it went in closed. Its last coordinate is then an exact copy of its first, Z included. |
| Shrink.ShrunkCoord | notebooks/search_slc_grd_raw.py:227-233 | An output coordinate holds two numbers, followed by the third item of its Z source when that item exists and is not null. |
| Shrink.ShrunkRingsPrintable | notebooks/search_slc_grd_raw.py:269-270 | The shrunk rings print iff every Z that reaches them is a number. Then the output is `POLYGON Z` iff some Z reaches them. |
| Shrink.ShrunkPolygonWktOkIff | notebooks/search_slc_grd_raw.py:262-285 | The converter succeeds iff a polygon is selected, the factor is positive, the rings are valid and every Z that reaches the output is a number. |
| Shrink.ShrunkPolygonWktText | notebooks/search_slc_grd_raw.py:266-270 | The text reads back as the shrunk rings, with the Z flag set iff some Z reaches the output. |
| Shrink.SameSelection | notebooks/search_slc_grd_raw.py:262-283 | The shrinking converter selects the same rings as the plain one. Conversely, every refusal of the plain selection is a refusal of the shrinking converter with the same error. A Polygon whose coordinates are not a list is the one exception: it is refused later, with `RingsNotNonEmptyList`. |
| Shrink.ShrunkTypeGate | notebooks/search_slc_grd_raw.py:262-264 | A missing or empty type, or an unsupported type (line 285), is refused with the same errors as the plain converter. |
| Shrink.ShrunkMultiPolygonIsFirstPart | notebooks/search_slc_grd_raw.py:272-283 | A MultiPolygon whose first part is a list shrinks as the Polygon made of that part, unless the policy is "error" and there are several parts. |
| Shrink.ShrunkSelectionErrors | notebooks/search_slc_grd_raw.py:272-280 | MultiPolygon coordinates that are not a non-empty list, or a chosen first part that is not a list, are refused with the plain converter's error, whatever the factor. |
| Shrink.ShrunkErrorPolicyRefusesSeveral | notebooks/search_slc_grd_raw.py:276-277 | Under "error", two or more parts give `MultiplePolygons`, whatever the factor. |
| ShrinkExample.SquareExample | notebooks/search_slc_grd_raw.py:242-270 | The square (0,0),(4,0),(4,4),(0,4),(0,0) shrunk by 2 prints `POLYGON ((1 1, 3 1, 3 3, 1 3, 1 1))`. |
| Utf8.DecodeEncode | pyscripts/core_metadata.py:66-69 | Decoding the UTF-8 encoding of any text gives that text back. |
| Utf8.EncodeDecode | pyscripts/core_metadata.py:66-69 | Any bytes that decode are exactly the encoding of their decoding, so strict decoding loses nothing. |
| Utf8.DecodeInjective | pyscripts/core_metadata.py:66-69 | Different byte strings never decode to the same text. |
| Utf8.DecodeAscii | pyscripts/core_metadata.py:66-69 | Bytes below 0x80 decode one character each, to the same code. |
| Utf8.SurrogateRefused | pyscripts/core_metadata.py:68-69 | An encoded surrogate (ED A0 80) raises. |
| Utf8.OverlongRefused | pyscripts/core_metadata.py:68-69 | An overlong form (C0 AF) raises. |
| CoreMetadata.DecodeAttr | pyscripts/core_metadata.py:66-70 | `_decode` leaves no bytes behind. It copies a non-byte value unchanged, and fails on bytes exactly when they are not UTF-8. A decoded text encodes back to the same bytes. |
| CoreMetadata.ExtractCoreMetadata | pyscripts/core_metadata.py:44-95 | A success has at most 16 entries, each under a listed key present in the map, with a value that holds no bytes. |
| CoreMetadata.CoreKeysDistinct | pyscripts/core_metadata.py:72-89 | The key list has 16 distinct keys. |
| CoreMetadata.CollectOkIff | pyscripts/core_metadata.py:91-95 | The comprehension raises iff some listed key present in the map holds bytes that are not UTF-8. |
| CoreMetadata.CollectError | pyscripts/core_metadata.py:91-95 | The error names a listed key present in the map whose value fails to decode. |
| CoreMetadata.ExtractKeySet | pyscripts/core_metadata.py:72-95 | The output's key set is exactly the map's keys that are in the list. The keys are distinct. A failure names a key whose bytes do not decode. |
| CoreMetadata.ExtractOrder | pyscripts/core_metadata.py:91-95 | Output keys follow the order of the fixed list, not the input order. |
| CoreMetadata.ExtractValues | pyscripts/core_metadata.py:66-70 | A byte value becomes the text it decodes to, and that text encodes back to the same bytes. Any other value, null included, is copied unchanged. |
| CoreMetadata.ExtractIgnoresOthers | pyscripts/core_metadata.py:91-95 | Adding entries under keys outside the list, whatever they hold, changes nothing. |
| CoreMetadata.ToMapLookup | pyscripts/core_metadata.py:91-95 | With distinct keys, the dictionary built from the entries maps each key to its entry's value. |
| CoreMetadata.ExtractIdempotent | pyscripts/core_metadata.py:66-95 | Applying the function to its own output returns the same mapping. |
| ProductId.ExtractProductId | pyscripts/main.py:78-80 | A result is found only when the path ends in `.dim`, before an optional final newline. It is non-empty and holds no `/`. |
| ProductId.MatchGivesId | pyscripts/main.py:79-80 | Wherever the pattern matches, with group g, the function returns g. |
| ProductId.IdGivesMatch | pyscripts/main.py:79-80 | A returned value is the group of a match of the pattern. |
| ProductId.NoneIffNoMatch | pyscripts/main.py:79-80 | The function returns None exactly when the pattern matches nowhere. |
| ProductId.IdShape | pyscripts/main.py:79 | A result is non-empty and has no `/`. `/` + result + `_` + tail + `.dim` ends the path, before an optional final newline, and the tail is non-empty with no `_` or `/`. |
| ProductId.NoneWithoutDimOrSlash | pyscripts/main.py:79-80 | A path without `.dim` at its end, or without any `/`, gives None. |
| ProductId.NoneCases | pyscripts/main.py:79-80 | The last component gives None when it has no `_`, when its last `_` is directly followed by `.dim`, or when its only `_` directly follows the `/`. |
| ProductId.NewlineIgnored | pyscripts/main.py:79 | One final newline after `.dim` changes nothing, as `$` matches before it. |
| ProductId.TwoNewlines | pyscripts/main.py:79 | Two final newlines give None. |
| ProductId.SentinelExample | pyscripts/main.py:179-180 | The pipeline's product path `…/S1A_IW_SLC__1SDV_…_670F_TC.dim` gives `S1A_IW_SLC__1SDV_…_670F`. |

## Left out

- `adjust_time` (notebooks/search_slc_grd_raw.py:11-25) is not modelled: it only wraps `datetime` parsing and formatting.
- The catalog search functions (notebooks/search_slc_grd_raw.py:289-392) are not modelled. They query a remote service, build pandas DataFrames, sample at random and print.
- `read_h5` (pyscripts/core_metadata.py:6-41) is not modelled: it is HDF5 file input through h5py. The attribute map is a parameter.
- The rest of pyscripts/main.py (environment, argument parsing, processing-engine calls and geometry helpers whose code is not part of this model) is not modelled.
- pyscripts/0_wkt_finder.py is not modelled: it is a network search, and its WKT comes from shapely.
- IEEE-754 binary floats are not modelled. Centroid, scaling and `.15g` work on exact reals, so rounding in the arithmetic and binary-to-decimal effects are not captured. `float` inputs are assumed finite.
- Float overflow is not modelled. An `int` too large for a float raises `OverflowError` where it meets float arithmetic, as in `A += cross` (notebooks/search_slc_grd_raw.py:207) and `x - cx` (lines 228-229). Float results can also reach `inf`. The model computes on exact reals, so it never raises `OverflowError` and never produces `inf`.
- Wkt.FmtNum: does not model CPython's limit on integer-to-string conversion. Since CPython 3.10.7, `str(n)` (notebooks/search_slc_grd_raw.py:92) raises `ValueError` for an `int` of more than 4300 digits. The model prints any `int`, so `RenderOkIff`, `PolygonWktSpec` and `ShrunkPolygonWktOkIff` count such a coordinate, or such a Z passed through by the shrinking converter, as printable. The limit depends on the interpreter version and its settings.
- JSON objects inside `coordinates` are not modelled: the tree has no object case. In the source, an object where a list of rings or parts is expected is refused, an object used as a coordinate raises on `coord[:3]`, and an object used as a ring is iterated over its keys, which are strings (see the line on strings below).
- Python's `bool` counting as an `int`, and tuples accepted by `_walk` but refused by the list checks, are not modelled. The tree has no booleans or tuples.
- String values are not modelled as `float()` and slicing see them. A string coordinate or component always fails in the model (`RuntimeTypeError`). Python slices such a string and calls `float()` on its characters, and prints those that parse, such as a coordinate given as the string `"12"`.
- A `type` that is not a string (a number, a list) is not modelled. `type` is an optional string, and an empty string counts as missing.
- The interpreter's own exceptions (`TypeError`, `IndexError`, a `ValueError` from `float()`) are one error, `RuntimeTypeError`, without their messages. The converters' own `ValueError`s keep one constructor each, also without message text.
- Where the source offers a default (`on_multipolygon="first"`, `shrink_factor=20.0`), the model takes an explicit argument. `Shrink.DefaultShrinkFactor` holds the default factor.
- An attribute value is `bytes` or `bytearray` (one constructor), text, int, float, bool, null or an array. Other h5py objects and the contents of arrays are not decoded, as in the source.
