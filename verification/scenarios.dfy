/**
 Concrete scenarios from the repository's tests, stated against the model.
 Rasterization uses `RectFill`, a fill that paints the clipped bounding box of
 a ring; for the axis-aligned rectangles used here that is the set of pixels
 the image library's polygon fill paints, boundary included.
 */
module Scenarios {
  import opened PyJson
  import opened Parser
  import opened ParserProperties
  import opened Rasterizer
  import opened RasterizerProperties
  import opened Encoder
  import opened EncoderProperties

  // ---------------------------------------------------------------------------
  // A concrete fill for rectangles
  // ---------------------------------------------------------------------------

  function MinOf(s: seq<int>): (m: int)
    requires |s| > 0
    ensures forall i :: 0 <= i < |s| ==> m <= s[i]
    ensures exists i :: 0 <= i < |s| && s[i] == m
  {
    if |s| == 1 then s[0]
    else
      var rest := MinOf(s[1..]);
      assert forall i :: 1 <= i < |s| ==> s[1..][i - 1] == s[i];
      if s[0] < rest then s[0] else rest
  }

  function MaxOf(s: seq<int>): (m: int)
    requires |s| > 0
    ensures forall i :: 0 <= i < |s| ==> s[i] <= m
    ensures exists i :: 0 <= i < |s| && s[i] == m
  {
    if |s| == 1 then s[0]
    else
      var rest := MaxOf(s[1..]);
      assert forall i :: 1 <= i < |s| ==> s[1..][i - 1] == s[i];
      if s[0] > rest then s[0] else rest
  }

  function Xs(ring: seq<PixelPoint>): (r: seq<int>)
    ensures |r| == |ring| && forall i :: 0 <= i < |ring| ==> r[i] == ring[i].x
  {
    seq(|ring|, i requires 0 <= i < |ring| => ring[i].x)
  }

  function Ys(ring: seq<PixelPoint>): (r: seq<int>)
    ensures |r| == |ring| && forall i :: 0 <= i < |ring| ==> r[i] == ring[i].y
  {
    seq(|ring|, i requires 0 <= i < |ring| => ring[i].y)
  }

  /** The pixels of the box `[x0, x1] x [y0, y1]` that lie inside the image. */
  function Box(x0: int, y0: int, x1: int, y1: int, height: nat, width: nat): (r: set<Pixel>)
    ensures forall p :: p in r <==>
              0 <= p.row < height && 0 <= p.col < width && y0 <= p.row <= y1 && x0 <= p.col <= x1
  {
    set row: int, col: int | 0 <= row < height && 0 <= col < width && y0 <= row <= y1 && x0 <= col <= x1
      :: Pixel(row, col)
  }

  /** The pixels of the ring's bounding box, boundary included, clipped to the image. */
  function RectFill(ring: seq<PixelPoint>, height: nat, width: nat): set<Pixel> {
    if |ring| == 0 then {}
    else Box(MinOf(Xs(ring)), MinOf(Ys(ring)), MaxOf(Xs(ring)), MaxOf(Ys(ring)), height, width)
  }

  /** `RectFill` keeps the fill's promise to stay inside the image. */
  lemma RectFillInBounds()
    ensures FillInBounds(RectFill)
  {
  }

  /** The closed ring of the rectangle `[x0, x1] x [y0, y1]`, corners in drawing order. */
  function Rect(x0: int, y0: int, x1: int, y1: int): Ring {
    [Point(x0 as real, y0 as real), Point(x1 as real, y0 as real), Point(x1 as real, y1 as real),
     Point(x0 as real, y1 as real), Point(x0 as real, y0 as real)]
  }

  lemma RoundInteger(n: int)
    ensures RoundHalfEven(n as real) == n
  {
    RoundingIsUnique(n as real, n);
  }

  lemma PixelsOfRect(x0: int, y0: int, x1: int, y1: int)
    ensures PolygonToPixelCoords(Rect(x0, y0, x1, y1)) ==
            [PixelPoint(x0, y0), PixelPoint(x1, y0), PixelPoint(x1, y1), PixelPoint(x0, y1), PixelPoint(x0, y0)]
  {
    RoundInteger(x0);
    RoundInteger(x1);
    RoundInteger(y0);
    RoundInteger(y1);
  }

  lemma MinOfIs(s: seq<int>, v: int)
    requires |s| > 0 && v in s && forall i :: 0 <= i < |s| ==> v <= s[i]
    ensures MinOf(s) == v
  {
  }

  lemma MaxOfIs(s: seq<int>, v: int)
    requires |s| > 0 && v in s && forall i :: 0 <= i < |s| ==> s[i] <= v
    ensures MaxOf(s) == v
  {
  }

  /** The extremes of the coordinate sequence `[lo, hi, hi, lo, lo]` of a rectangle's ring. */
  lemma ExtremesOfCorners(lo: int, hi: int)
    requires lo <= hi
    ensures MinOf([lo, hi, hi, lo, lo]) == lo && MaxOf([lo, hi, hi, lo, lo]) == hi
  {
    var s := [lo, hi, hi, lo, lo];
    assert s[0] == lo && s[1] == hi;
    MinOfIs(s, lo);
    MaxOfIs(s, hi);
  }

  /** The same for the y coordinates, `[lo, lo, hi, hi, lo]`. */
  lemma ExtremesOfCornersY(lo: int, hi: int)
    requires lo <= hi
    ensures MinOf([lo, lo, hi, hi, lo]) == lo && MaxOf([lo, lo, hi, hi, lo]) == hi
  {
    var s := [lo, lo, hi, hi, lo];
    assert s[0] == lo && s[2] == hi;
    MinOfIs(s, lo);
    MaxOfIs(s, hi);
  }

  /** A rectangle with integer corners paints exactly its clipped pixel box. */
  lemma RectFillOfRect(x0: int, y0: int, x1: int, y1: int, height: nat, width: nat)
    requires x0 <= x1 && y0 <= y1
    ensures RectFill(PolygonToPixelCoords(Rect(x0, y0, x1, y1)), height, width) == Box(x0, y0, x1, y1, height, width)
  {
    PixelsOfRect(x0, y0, x1, y1);
    var ring := PolygonToPixelCoords(Rect(x0, y0, x1, y1));
    assert Xs(ring) == [x0, x1, x1, x0, x0];
    assert Ys(ring) == [y0, y0, y1, y1, y0];
    ExtremesOfCorners(x0, x1);
    ExtremesOfCornersY(y0, y1);
  }

  /** What a record with a rectangular cell ring and optional rectangular nucleus paints. */
  lemma CoveredRects(id: int, cell: (int, int, int, int), nucleus: Option<(int, int, int, int)>, height: nat, width: nat)
    requires cell.0 <= cell.2 && cell.1 <= cell.3
    requires nucleus.Some? ==> nucleus.value.0 <= nucleus.value.2 && nucleus.value.1 <= nucleus.value.3
    ensures var rec := CellGeometry(id, Rect(cell.0, cell.1, cell.2, cell.3),
                                    if nucleus.Some? then Some(Rect(nucleus.value.0, nucleus.value.1, nucleus.value.2, nucleus.value.3)) else None);
            && Covered(rec, CellLayer, RectFill, height, width) == Box(cell.0, cell.1, cell.2, cell.3, height, width)
            && Covered(rec, NucleusLayer, RectFill, height, width) ==
               if nucleus.Some? then Box(nucleus.value.0, nucleus.value.1, nucleus.value.2, nucleus.value.3, height, width) else {}
  {
    var cellRing := Rect(cell.0, cell.1, cell.2, cell.3);
    RectFillOfRect(cell.0, cell.1, cell.2, cell.3, height, width);
    if nucleus.Some? {
      var (x0, y0, x1, y1) := nucleus.value;
      var rec := CellGeometry(id, cellRing, Some(Rect(x0, y0, x1, y1)));
      assert LayerPolygon(rec, NucleusLayer) == Some(Rect(x0, y0, x1, y1));
      RectFillOfRect(x0, y0, x1, y1, height, width);
    } else {
      var rec := CellGeometry(id, cellRing, None);
      assert LayerPolygon(rec, NucleusLayer) == None;
    }
  }

  /** Last write wins for two records, spelled out. */
  lemma LastCoverOfTwo(a: CellGeometry, b: CellGeometry, layer: Layer, fill: FillFn, height: nat, width: nat, p: Pixel)
    ensures LastCover([a, b], layer, fill, height, width, p) ==
            if p in Covered(b, layer, fill, height, width) then b.cellId
            else if p in Covered(a, layer, fill, height, width) then a.cellId
            else 0
  {
    assert [a, b][..1] == [a];
    assert [a][..0] == [];
  }

  // ---------------------------------------------------------------------------
  // Rasterizer scenarios
  // ---------------------------------------------------------------------------

  /** Fractional vertices round to the nearest pixel, a half to the even neighbour. */
  lemma RoundingScenario()
    ensures PolygonToPixelCoords([Point(10.4, 20.6), Point(30.5, 20.4)]) == [PixelPoint(10, 21), PixelPoint(30, 20)]
  {
    RoundingIsUnique(10.4, 10);
    RoundingIsUnique(20.6, 21);
    RoundingIsUnique(30.5, 30);
    RoundingIsUnique(20.4, 20);
  }

  /** Two disjoint cells with nuclei: each id inside its own square, background elsewhere. */
  lemma TwoCellsScenario()
    ensures var records := [CellGeometry(1, Rect(5, 5, 15, 15), Some(Rect(7, 7, 13, 13))),
                            CellGeometry(2, Rect(25, 25, 35, 35), Some(Rect(27, 27, 33, 33)))];
            && LastCover(records, CellLayer, RectFill, 50, 50, Pixel(10, 10)) == 1
            && LastCover(records, NucleusLayer, RectFill, 50, 50, Pixel(10, 10)) == 1
            && LastCover(records, CellLayer, RectFill, 50, 50, Pixel(30, 30)) == 2
            && LastCover(records, NucleusLayer, RectFill, 50, 50, Pixel(30, 30)) == 2
            && LastCover(records, CellLayer, RectFill, 50, 50, Pixel(0, 0)) == 0
            && LastCover(records, NucleusLayer, RectFill, 50, 50, Pixel(0, 0)) == 0
  {
    var a := CellGeometry(1, Rect(5, 5, 15, 15), Some(Rect(7, 7, 13, 13)));
    var b := CellGeometry(2, Rect(25, 25, 35, 35), Some(Rect(27, 27, 33, 33)));
    CoveredRects(1, (5, 5, 15, 15), Some((7, 7, 13, 13)), 50, 50);
    CoveredRects(2, (25, 25, 35, 35), Some((27, 27, 33, 33)), 50, 50);
    forall layer, p | p in {Pixel(10, 10), Pixel(30, 30), Pixel(0, 0)} {
      LastCoverOfTwo(a, b, layer, RectFill, 50, 50, p);
    }
  }

  /**
   Overlapping cells: the later record owns the shared pixels. (The second
   ring of the repository's fixture ends on a repeated corner instead of its
   first point; it has the same bounding box.)
   */
  lemma OverlapScenario()
    ensures var records := [CellGeometry(1, Rect(10, 10, 30, 30), None),
                            CellGeometry(2, Rect(20, 20, 40, 40), None)];
            && LastCover(records, CellLayer, RectFill, 50, 50, Pixel(15, 15)) == 1
            && LastCover(records, CellLayer, RectFill, 50, 50, Pixel(25, 25)) == 2
            && LastCover(records, CellLayer, RectFill, 50, 50, Pixel(35, 35)) == 2
  {
    var a := CellGeometry(1, Rect(10, 10, 30, 30), None);
    var b := CellGeometry(2, Rect(20, 20, 40, 40), None);
    CoveredRects(1, (10, 10, 30, 30), None, 50, 50);
    CoveredRects(2, (20, 20, 40, 40), None, 50, 50);
    LastCoverOfTwo(a, b, CellLayer, RectFill, 50, 50, Pixel(15, 15));
    LastCoverOfTwo(a, b, CellLayer, RectFill, 50, 50, Pixel(25, 25));
    LastCoverOfTwo(a, b, CellLayer, RectFill, 50, 50, Pixel(35, 35));
  }

  /** A large id is stored exactly in both grids. */
  lemma LargeIdScenario()
    ensures var records := [CellGeometry(100000, Rect(10, 10, 20, 20), Some(Rect(12, 12, 18, 18)))];
            && LastCover(records, CellLayer, RectFill, 50, 50, Pixel(15, 15)) == 100000
            && LastCover(records, NucleusLayer, RectFill, 50, 50, Pixel(15, 15)) == 100000
  {
    var records := [CellGeometry(100000, Rect(10, 10, 20, 20), Some(Rect(12, 12, 18, 18)))];
    CoveredRects(100000, (10, 10, 20, 20), Some((12, 12, 18, 18)), 50, 50);
    LastWriteWins(records, CellLayer, RectFill, 50, 50, Pixel(15, 15), 0);
    LastWriteWins(records, NucleusLayer, RectFill, 50, 50, Pixel(15, 15), 0);
  }

  /** A cell without a nucleus leaves the whole nucleus grid at background. */
  lemma NoNucleusScenario(p: Pixel)
    ensures var records := [CellGeometry(1, Rect(10, 10, 20, 20), None)];
            && LastCover(records, CellLayer, RectFill, 50, 50, Pixel(15, 15)) == 1
            && LastCover(records, NucleusLayer, RectFill, 50, 50, p) == 0
  {
    var records := [CellGeometry(1, Rect(10, 10, 20, 20), None)];
    assert LastCover(records, NucleusLayer, RectFill, 50, 50, p) == 0;
    assert LastCover(records, CellLayer, RectFill, 50, 50, Pixel(15, 15)) == 1 by {
      CoveredRects(1, (10, 10, 20, 20), None, 50, 50);
      LastWriteWins(records, CellLayer, RectFill, 50, 50, Pixel(15, 15), 0);
    }
  }

  /**
   A nucleus id need not survive in the cell grid: when a later cell covers an
   earlier cell completely, the earlier nucleus still shows its id in the
   nucleus grid while no cell pixel holds it.
   */
  lemma NucleusIdWithoutCell(p: Pixel)
    ensures var records := [CellGeometry(1, Rect(10, 10, 20, 20), Some(Rect(12, 12, 18, 18))),
                            CellGeometry(2, Rect(5, 5, 25, 25), None)];
            && LastCover(records, NucleusLayer, RectFill, 50, 50, Pixel(15, 15)) == 1
            && LastCover(records, CellLayer, RectFill, 50, 50, p) != 1
  {
    var a := CellGeometry(1, Rect(10, 10, 20, 20), Some(Rect(12, 12, 18, 18)));
    var b := CellGeometry(2, Rect(5, 5, 25, 25), None);
    CoveredRects(1, (10, 10, 20, 20), Some((12, 12, 18, 18)), 50, 50);
    CoveredRects(2, (5, 5, 25, 25), None, 50, 50);
    LastCoverOfTwo(a, b, NucleusLayer, RectFill, 50, 50, Pixel(15, 15));
    LastCoverOfTwo(a, b, CellLayer, RectFill, 50, 50, p);
  }

  /** Converting small int32 masks keeps their values; a mask already in the chosen type is returned as is. */
  lemma ConvertScenarios()
    ensures ConvertMaskDtype(Mask(Int32, [[1, 2], [3, 4]]), 4) == Mask(UInt8, [[1, 2], [3, 4]])
    ensures ConvertMaskDtype(Mask(Int32, [[1, 256], [1000, 0]]), 1000) == Mask(UInt16, [[1, 256], [1000, 0]])
    ensures ConvertMaskDtype(Mask(Int32, [[1, 100000], [0, 0]]), 100000) == Mask(UInt32, [[1, 100000], [0, 0]])
    ensures ConvertMaskDtype(Mask(UInt8, [[1, 2], [3, 4]]), 4) == Mask(UInt8, [[1, 2], [3, 4]])
  {
    assert AllIn([[1, 2], [3, 4]], 0, 255);
    assert AllIn([[1, 256], [1000, 0]], 0, 65535);
    assert AllIn([[1, 100000], [0, 0]], 0, 0xFFFF_FFFF);
  }

  // ---------------------------------------------------------------------------
  // Parser scenarios
  // ---------------------------------------------------------------------------

  function Pt(x: real, y: real): J {
    Arr([Num(x), Num(y)])
  }

  /** Polygon coordinates of the rectangle `[x0, x1] x [y0, y1]`. */
  function RectCoords(x0: int, y0: int, x1: int, y1: int): J {
    var l, t, r, b := x0 as real, y0 as real, x1 as real, y1 as real;
    Arr([Arr([Pt(l, t), Pt(r, t), Pt(r, b), Pt(l, b), Pt(l, t)])])
  }

  /** Both parser copies read rectangle coordinates back as the rectangle's ring. */
  lemma ParseRectCoords(variant: Variant, x0: int, y0: int, x1: int, y1: int)
    ensures ParsePolygonCoordinates(variant, RectCoords(x0, y0, x1, y1)) == Ok(Rect(x0, y0, x1, y1))
  {
    var coords := RectCoords(x0, y0, x1, y1);
    assert PolygonShaped(coords);
    PolygonInputAgrees(coords);
    assert RingOf(coords.items[0].items) == Rect(x0, y0, x1, y1);
  }

  /** A square ring is returned point by point, closing point included. */
  lemma SimpleSquareScenario()
    ensures ParsePolygonOnly(RectCoords(0, 0, 10, 10)) ==
            Ok([Point(0.0, 0.0), Point(10.0, 0.0), Point(10.0, 10.0), Point(0.0, 10.0), Point(0.0, 0.0)])
  {
    ParseRectCoords(PolygonOnly, 0, 0, 10, 10);
  }

  /** A polygon with a hole: only the exterior ring is kept. */
  lemma PolygonWithHoleScenario()
    ensures var exterior := Arr([Pt(0.0, 0.0), Pt(100.0, 0.0), Pt(100.0, 100.0), Pt(0.0, 100.0), Pt(0.0, 0.0)]);
            var hole := Arr([Pt(20.0, 20.0), Pt(80.0, 20.0), Pt(80.0, 80.0), Pt(20.0, 80.0), Pt(20.0, 20.0)]);
            && ParsePolygonOnly(Arr([exterior, hole])).Ok?
            && |ParsePolygonOnly(Arr([exterior, hole])).value| == 5
            && ParsePolygonOnly(Arr([exterior, hole])).value[0] == Point(0.0, 0.0)
  {
    var exterior := Arr([Pt(0.0, 0.0), Pt(100.0, 0.0), Pt(100.0, 100.0), Pt(0.0, 100.0), Pt(0.0, 0.0)]);
    var hole := Arr([Pt(20.0, 20.0), Pt(80.0, 20.0), Pt(80.0, 80.0), Pt(20.0, 80.0), Pt(20.0, 20.0)]);
    assert PolygonShaped(Arr([exterior, hole]));
    PolygonInputAgrees(Arr([exterior, hole]));
  }

  /** A cell feature of the test fixtures, with optional nucleus coordinates. */
  function CellFeature(coords: J, nucleus: Option<J>): J {
    var base := map["geometry" := Obj(map["coordinates" := coords]),
                    "properties" := Obj(map["objectType" := Str("cell")])];
    match nucleus
    case None => Obj(base)
    case Some(n) => Obj(base["nucleusGeometry" := Obj(map["coordinates" := n])])
  }

  function AnnotationFeature(): J {
    Obj(map["geometry" := Obj(map["coordinates" := RectCoords(0, 0, 100, 100)]),
            "properties" := Obj(map["objectType" := Str("annotation")])])
  }

  /** A rectangular cell feature yields its rectangle, and its nucleus rectangle when it has one. */
  lemma ClassifyRectCell(variant: Variant, cell: (int, int, int, int), nucleus: Option<(int, int, int, int)>)
    ensures var f := CellFeature(RectCoords(cell.0, cell.1, cell.2, cell.3),
                                 if nucleus.Some? then Some(RectCoords(nucleus.value.0, nucleus.value.1, nucleus.value.2, nucleus.value.3)) else None);
            && IsCellFeature(f)
            && Classify(f, variant) ==
               Ok(Some(Extracted(Rect(cell.0, cell.1, cell.2, cell.3),
                                 if nucleus.Some? then Some(Rect(nucleus.value.0, nucleus.value.1, nucleus.value.2, nucleus.value.3)) else None)))
  {
    ParseRectCoords(variant, cell.0, cell.1, cell.2, cell.3);
    if nucleus.Some? {
      ParseRectCoords(variant, nucleus.value.0, nucleus.value.1, nucleus.value.2, nucleus.value.3);
    }
  }

  lemma ClassifyAnnotation(variant: Variant)
    ensures WellFormedNonCell(AnnotationFeature())
    ensures Classify(AnnotationFeature(), variant) == Ok(None)
  {
    assert Str("annotation") != Str("cell");
  }

  /** Two cells around an annotation, as in the mixed test fixture. */
  function MixedFeatures(): seq<J> {
    [CellFeature(RectCoords(10, 10, 20, 20), Some(RectCoords(12, 12, 18, 18))),
     AnnotationFeature(),
     CellFeature(RectCoords(30, 30, 40, 40), None)]
  }

  /** One accepted feature appended to the stream's input. */
  lemma AcceptedStepSome(features: seq<J>, f: J, variant: Variant, before: seq<Extracted>, e: Extracted)
    requires Accepted(features, variant) == Ok(before)
    requires Classify(f, variant) == Ok(Some(e))
    ensures Accepted(features + [f], variant) == Ok(before + [e])
  {
    AcceptedSnoc(features, f, variant);
  }

  /** One skipped feature appended to the stream's input. */
  lemma AcceptedStepNone(features: seq<J>, f: J, variant: Variant, before: seq<Extracted>)
    requires Accepted(features, variant) == Ok(before)
    requires Classify(f, variant) == Ok(None)
    ensures Accepted(features + [f], variant) == Ok(before)
  {
    AcceptedSnoc(features, f, variant);
  }

  /** The stream over a cell, a skipped feature and a cell. */
  lemma AcceptedOfThree(a: J, b: J, c: J, variant: Variant, ea: Extracted, ec: Extracted)
    requires Classify(a, variant) == Ok(Some(ea))
    requires Classify(b, variant) == Ok(None)
    requires Classify(c, variant) == Ok(Some(ec))
    ensures Accepted([a, b, c], variant) == Ok([ea, ec])
  {
    Appended([], a, b, c);
    Appended([], ea, ec, ec);
    AcceptedStepSome([], a, variant, [], ea);
    AcceptedStepNone([a], b, variant, [ea]);
    AcceptedStepSome([a, b], c, variant, [ea], ec);
  }

  /**
   Building a short list one element at a time. The parameter `empty` stands
   for `[]` so that the empty list has the element type `T`; stating these
   equalities here rather than inside the stream lemmas keeps those proofs small.
   */
  lemma Appended<T>(empty: seq<T>, x: T, y: T, z: T)
    requires empty == []
    ensures empty + [x] == [x] && [x] + [y] == [x, y] && [x, y] + [z] == [x, y, z]
  {
  }

  /** The count over three features, one step at a time. */
  lemma CountOfThree(a: J, b: J, c: J, na: nat, nb: nat, nc: nat)
    requires CountOne(a) == Ok(na) && CountOne(b) == Ok(nb) && CountOne(c) == Ok(nc)
    ensures CountCells([a, b, c]) == Ok(na + nb + nc)
  {
    assert [a][..0] == [];
    assert CountCells([a]) == Ok(na);
    assert [a, b][..1] == [a];
    assert CountCells([a, b]) == Ok(na + nb);
    assert [a, b, c][..2] == [a, b];
  }

  /**
   The mixed fixture yields two records, the second without a nucleus, in
   both parser copies.
   */
  lemma MixedFeaturesScenario(variant: Variant)
    ensures Accepted(MixedFeatures(), variant) ==
            Ok([Extracted(Rect(10, 10, 20, 20), Some(Rect(12, 12, 18, 18))),
                Extracted(Rect(30, 30, 40, 40), None)])
  {
    var f0 := CellFeature(RectCoords(10, 10, 20, 20), Some(RectCoords(12, 12, 18, 18)));
    var f2 := CellFeature(RectCoords(30, 30, 40, 40), None);
    ClassifyRectCell(variant, (10, 10, 20, 20), Some((12, 12, 18, 18)));
    ClassifyAnnotation(variant);
    ClassifyRectCell(variant, (30, 30, 40, 40), None);
    AcceptedOfThree(f0, AnnotationFeature(), f2, variant,
                    Extracted(Rect(10, 10, 20, 20), Some(Rect(12, 12, 18, 18))),
                    Extracted(Rect(30, 30, 40, 40), None));
  }

  /** The counting pass finds the same two cells. */
  lemma MixedFeaturesCount()
    ensures CountCells(MixedFeatures()) == Ok(2)
  {
    var f0 := CellFeature(RectCoords(10, 10, 20, 20), Some(RectCoords(12, 12, 18, 18)));
    var f2 := CellFeature(RectCoords(30, 30, 40, 40), None);
    assert CountOne(f0) == Ok(1);
    assert CountOne(AnnotationFeature()) == Ok(0);
    assert CountOne(f2) == Ok(1);
    CountOfThree(f0, AnnotationFeature(), f2, 1, 0, 1);
  }

  /** An empty feature collection gives no records and a count of 0. */
  lemma EmptyCollectionScenario(variant: Variant)
    ensures Accepted([], variant) == Ok([])
    ensures CountCells([]) == Ok(0)
  {
  }

  /** The records streamed from the mixed fixture, numbered from 1. */
  lemma MixedFeaturesRecords(variant: Variant)
    ensures Accepted(MixedFeatures(), variant).Ok?
    ensures Numbered(Accepted(MixedFeatures(), variant).value) ==
            [CellGeometry(1, Rect(10, 10, 20, 20), Some(Rect(12, 12, 18, 18))),
             CellGeometry(2, Rect(30, 30, 40, 40), None)]
  {
    MixedFeaturesScenario(variant);
    NumberedOfTwo(Extracted(Rect(10, 10, 20, 20), Some(Rect(12, 12, 18, 18))),
                  Extracted(Rect(30, 30, 40, 40), None));
  }

  lemma NumberedOfTwo(a: Extracted, b: Extracted)
    ensures Numbered([a, b]) == [CellGeometry(1, a.cell, a.nucleus), CellGeometry(2, b.cell, b.nucleus)]
  {
  }

  /** What the mixed fixture's records paint in a 50 by 50 image. */
  lemma MixedRecordsRasterized(a: CellGeometry, b: CellGeometry)
    requires a == CellGeometry(1, Rect(10, 10, 20, 20), Some(Rect(12, 12, 18, 18)))
    requires b == CellGeometry(2, Rect(30, 30, 40, 40), None)
    ensures LastCover([a, b], CellLayer, RectFill, 50, 50, Pixel(15, 15)) == 1
    ensures LastCover([a, b], NucleusLayer, RectFill, 50, 50, Pixel(15, 15)) == 1
    ensures LastCover([a, b], CellLayer, RectFill, 50, 50, Pixel(35, 35)) == 2
    ensures LastCover([a, b], NucleusLayer, RectFill, 50, 50, Pixel(35, 35)) == 0
    ensures LastCover([a, b], CellLayer, RectFill, 50, 50, Pixel(0, 0)) == 0
  {
    CoveredRects(1, (10, 10, 20, 20), Some((12, 12, 18, 18)), 50, 50);
    CoveredRects(2, (30, 30, 40, 40), None, 50, 50);
    forall layer, p | p in {Pixel(15, 15), Pixel(35, 35), Pixel(0, 0)} {
      LastCoverOfTwo(a, b, layer, RectFill, 50, 50, p);
    }
  }

  /** The two records streamed from the mixed fixture. */
  function MixedRecords(): (r: seq<CellGeometry>)
    ensures |r| == 2 && r[0].cellId == 1 && r[1].cellId == 2
  {
    [CellGeometry(1, Rect(10, 10, 20, 20), Some(Rect(12, 12, 18, 18))),
     CellGeometry(2, Rect(30, 30, 40, 40), None)]
  }

  /**
   End to end on the mixed fixture: the extractor yields `MixedRecords()`;
   any pair of grids that rasterizes them into a 50 by 50 image labels both
   squares, keeps (0, 0) as background, and is encoded by the command-line
   step as 8-bit masks with every label kept.
   */
  lemma MixedFeaturesEndToEnd(variant: Variant, cell: Grid, nucleus: Grid)
    requires Rasterizes(cell, MixedRecords(), CellLayer, RectFill, 50, 50)
    requires Rasterizes(nucleus, MixedRecords(), NucleusLayer, RectFill, 50, 50)
    ensures Accepted(MixedFeatures(), variant).Ok?
    ensures Numbered(Accepted(MixedFeatures(), variant).value) == MixedRecords()
    ensures cell[15][15] == 1 && nucleus[15][15] == 1
    ensures cell[35][35] == 2 && nucleus[35][35] == 0
    ensures cell[0][0] == 0
    ensures EncodeMasks(Mask(Int32, cell), Mask(Int32, nucleus)) == Ok((Mask(UInt8, cell), Mask(UInt8, nucleus)))
  {
    MixedFeaturesRecords(variant);
    MixedGridsLabels(cell, nucleus);
    MixedGridsEncode(cell, nucleus);
  }

  lemma MixedGridsLabels(cell: Grid, nucleus: Grid)
    requires Rasterizes(cell, MixedRecords(), CellLayer, RectFill, 50, 50)
    requires Rasterizes(nucleus, MixedRecords(), NucleusLayer, RectFill, 50, 50)
    ensures cell[15][15] == 1 && nucleus[15][15] == 1
    ensures cell[35][35] == 2 && nucleus[35][35] == 0
    ensures cell[0][0] == 0
  {
    var records := MixedRecords();
    MixedRecordsRasterized(records[0], records[1]);
    assert records == [records[0], records[1]];
  }

  lemma MixedGridsEncode(cell: Grid, nucleus: Grid)
    requires Rasterizes(cell, MixedRecords(), CellLayer, RectFill, 50, 50)
    requires Rasterizes(nucleus, MixedRecords(), NucleusLayer, RectFill, 50, 50)
    ensures EncodeMasks(Mask(Int32, cell), Mask(Int32, nucleus)) == Ok((Mask(UInt8, cell), Mask(UInt8, nucleus)))
  {
    EncodedTypeFitsIds(cell, nucleus, MixedRecords(), RectFill, 50, 50, 2);
    assert DetermineOptimalDtype(2) == UInt8;
  }
}
