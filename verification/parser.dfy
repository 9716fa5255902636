/**
 Geometry extraction: turning decoded GeoJSON features into cell geometry
 records. Both copies of the parser are modelled. They share the feature
 filter and the id counter of `stream_cell_geometries` and differ only in how
 `parse_polygon_coordinates` picks the ring out of a coordinate array.
 */
module Parser {
  import opened PyJson

  /** A vertex in image coordinates, `x` to the right and `y` downwards. */
  datatype Point = Point(x: real, y: real)

  type Ring = seq<Point>

  /** One record of the extractor's output. */
  datatype CellGeometry = CellGeometry(cellId: int, cellPolygon: Ring, nucleusPolygon: Option<Ring>)

  /** The geometry of one accepted feature, before it is given an id. */
  datatype Extracted = Extracted(cell: Ring, nucleus: Option<Ring>)

  /** Which copy of `parse_polygon_coordinates` is used. */
  datatype Variant =
    | PolygonOnly        // src/segmentation_mask_maker/parser.py
    | MultiPolygonAware  // src/geojson2masks/parser.py

  // ---------------------------------------------------------------------------
  // Rings
  // ---------------------------------------------------------------------------

  /** A coordinate that `(float(pt[0]), float(pt[1]))` accepts. */
  predicate PointLike(pt: J) {
    pt.Arr? && |pt.items| >= 2 && pt.items[0].Num? && pt.items[1].Num?
  }

  function ToPoint(pt: J): Point
    requires PointLike(pt)
  {
    Point(pt.items[0].n, pt.items[1].n)
  }

  predicate AllPointLike(pts: seq<J>) {
    forall i :: 0 <= i < |pts| ==> PointLike(pts[i])
  }

  /** `(float(pt[0]), float(pt[1]))` */
  function ConvertPoint(pt: J): (r: Result<Point>)
    ensures r.Ok? <==> PointLike(pt)
    ensures r.Ok? ==> PointLike(pt) && r.value == ToPoint(pt)
  {
    var x0 :- Index(pt, 0);
    var x :- ToFloat(x0);
    var y0 :- Index(pt, 1);
    var y :- ToFloat(y0);
    Ok(Point(x, y))
  }

  /** `[(float(pt[0]), float(pt[1])) for pt in pts]`: every point converted, in order. */
  function ConvertPoints(pts: seq<J>): (r: Result<Ring>)
    ensures r.Ok? <==> AllPointLike(pts)
    ensures r.Ok? ==> |r.value| == |pts|
    ensures r.Ok? ==> forall i :: 0 <= i < |pts| ==> PointLike(pts[i]) && r.value[i] == ToPoint(pts[i])
  {
    if |pts| == 0 then Ok([])
    else
      var p :- ConvertPoint(pts[0]);
      var rest :- ConvertPoints(pts[1..]);
      Ok([p] + rest)
  }

  /** Pointwise conversion of a list of coordinate pairs. */
  function RingOf(pts: seq<J>): (r: Ring)
    requires AllPointLike(pts)
    ensures |r| == |pts|
  {
    seq(|pts|, i requires 0 <= i < |pts| => ToPoint(pts[i]))
  }

  lemma ConvertPointsIsRingOf(pts: seq<J>)
    ensures AllPointLike(pts) ==> ConvertPoints(pts) == Ok(RingOf(pts))
  {
    if AllPointLike(pts) {
      var r := ConvertPoints(pts);
      assert r.value == RingOf(pts);
    }
  }

  /** `[ring, hole, ...]` with `ring` a list of coordinate pairs. */
  predicate PolygonShaped(coords: J) {
    && coords.Arr?
    && |coords.items| > 0
    && coords.items[0].Arr?
    && AllPointLike(coords.items[0].items)
  }

  /** `[[ring, hole, ...], polygon, ...]` with `ring` a non-empty list of coordinate pairs. */
  predicate MultiPolygonShaped(coords: J) {
    && coords.Arr?
    && |coords.items| > 0
    && coords.items[0].Arr?
    && |coords.items[0].items| > 0
    && coords.items[0].items[0].Arr?
    && |coords.items[0].items[0].items| > 0
    && AllPointLike(coords.items[0].items[0].items)
  }

  /**
   The simple copy: the ring is always `coords[0]`. A truthy `coords[0]` that
   is not a list cannot be converted: a number is not iterable, the points of a
   string are one-character strings without a second element, and the points
   of a dict are its string keys, which the model does not read as numbers
   (Python's `float()` would accept a key such as "12").
   */
  function ParsePolygonOnly(coords: J): (r: Result<Ring>)
    ensures !Truthy(coords) ==> r == Ok([])
    // the parse raises exactly when a truthy `coords[0]` is not a Polygon ring
    ensures r.Raised? <==>
              && Truthy(coords)
              && !(coords.Arr? && !Truthy(coords.items[0]))
              && !PolygonShaped(coords)
    ensures PolygonShaped(coords) ==> r == Ok(RingOf(coords.items[0].items))
    ensures r.Ok? && r.value != [] ==> PolygonShaped(coords) && r.value == RingOf(coords.items[0].items)
  {
    if !Truthy(coords) then Ok([])
    else
      var ring :- Index(coords, 0);
      if !Truthy(ring) then Ok([])
      else if ring.Arr? then ConvertPointsIsRingOf(ring.items); ConvertPoints(ring.items)
      else Raised
  }

  /**
   The MultiPolygon-aware copy: if `coords[0][0]` is a non-empty list whose
   first element is itself a list, the ring is `coords[0][0]` (the exterior
   ring of the first polygon); otherwise, if `coords[0][0]` is a list, the
   ring is `coords[0]`; a scalar at `coords[0][0]` gives no ring.
   */
  function ParseMultiPolygonAware(coords: J): (r: Result<Ring>)
    ensures !Truthy(coords) ==> r == Ok([])
    ensures PolygonShaped(coords) ==> r == Ok(RingOf(coords.items[0].items))
    ensures MultiPolygonShaped(coords) ==> r == Ok(RingOf(coords.items[0].items[0].items))
    // the parse raises exactly when `coords[0]` or `coords[0][0]` cannot be
    // indexed, or when a list at `coords[0][0]` selects a ring that does not convert
    ensures r.Raised? <==>
              Truthy(coords) &&
              (|| Unindexable(coords)
               || (&& coords.Arr?
                   && Truthy(coords.items[0])
                   && (|| Unindexable(coords.items[0])
                       || (&& coords.items[0].Arr?
                           && coords.items[0].items[0].Arr?
                           && !PolygonShaped(coords)
                           && !MultiPolygonShaped(coords)))))
    ensures r.Ok? && r.value != [] ==>
      || (PolygonShaped(coords) && r.value == RingOf(coords.items[0].items))
      || (MultiPolygonShaped(coords) && r.value == RingOf(coords.items[0].items[0].items))
  {
    if !Truthy(coords) then Ok([])
    else
      var first :- Index(coords, 0);
      if !Truthy(first) then Ok([])
      else
        var head :- Index(first, 0);
        if !head.Arr? then Ok([])
        else if |head.items| > 0 && head.items[0].Arr? then
          ConvertPointsIsRingOf(head.items);
          assert AllPointLike(head.items) ==> PointLike(head.items[0]);
          ConvertPoints(head.items)
        else
          ConvertPointsIsRingOf(first.items);
          assert AllPointLike(first.items) ==> PointLike(first.items[0]);
          ConvertPoints(first.items)
  }

  function ParsePolygonCoordinates(variant: Variant, coords: J): Result<Ring> {
    match variant
    case PolygonOnly => ParsePolygonOnly(coords)
    case MultiPolygonAware => ParseMultiPolygonAware(coords)
  }

  // ---------------------------------------------------------------------------
  // Features
  // ---------------------------------------------------------------------------

  /** A feature whose `properties.objectType` is the string "cell". */
  predicate IsCellFeature(f: J) {
    && f.Obj?
    && "properties" in f.fields
    && f.fields["properties"].Obj?
    && "objectType" in f.fields["properties"].fields
    && f.fields["properties"].fields["objectType"] == Str("cell")
  }

  /** A dict feature, with a dict or no `properties`, that is not a cell. */
  predicate WellFormedNonCell(f: J) {
    && f.Obj?
    && ("properties" in f.fields ==> f.fields["properties"].Obj?)
    && !IsCellFeature(f)
  }

  /** `feature.get('nucleusGeometry', {}).get('coordinates', [])` */
  function NucleusCoordinates(f: J): (r: Result<J>)
    ensures r.Ok? <==> f.Obj? && ("nucleusGeometry" in f.fields ==> f.fields["nucleusGeometry"].Obj?)
    ensures r.Ok? && "nucleusGeometry" in f.fields && "coordinates" in f.fields["nucleusGeometry"].fields ==>
              r.value == f.fields["nucleusGeometry"].fields["coordinates"]
    ensures r.Ok? && !("nucleusGeometry" in f.fields && "coordinates" in f.fields["nucleusGeometry"].fields) ==>
              r.value == Arr([])
  {
    var g :- Get(f, "nucleusGeometry", Obj(map[]));
    Get(g, "coordinates", Arr([]))
  }

  /** `feature.get('geometry', {}).get('coordinates', [])` */
  function CellCoordinates(f: J): (r: Result<J>)
    ensures r.Ok? <==> f.Obj? && ("geometry" in f.fields ==> f.fields["geometry"].Obj?)
    ensures r.Ok? && "geometry" in f.fields && "coordinates" in f.fields["geometry"].fields ==>
              r.value == f.fields["geometry"].fields["coordinates"]
    ensures r.Ok? && !("geometry" in f.fields && "coordinates" in f.fields["geometry"].fields) ==>
              r.value == Arr([])
  {
    var g :- Get(f, "geometry", Obj(map[]));
    Get(g, "coordinates", Arr([]))
  }

  /**
   One iteration of the extraction loop: `Ok(None)` when the feature is
   skipped, `Ok(Some(e))` when a record is yielded for it.
   */
  function Classify(f: J, variant: Variant): (r: Result<Option<Extracted>>)
    ensures r.Ok? ==> f.Obj? && ("properties" in f.fields ==> f.fields["properties"].Obj?)
    ensures WellFormedNonCell(f) ==> r == Ok(None)
    ensures r.Ok? && r.value.Some? ==> IsCellFeature(f) && |r.value.value.cell| > 0
    ensures r.Ok? && r.value.Some? ==>
              CellCoordinates(f).Ok? && ParsePolygonCoordinates(variant, CellCoordinates(f).value) == Ok(r.value.value.cell)
  {
    var properties :- Get(f, "properties", Obj(map[]));
    var objectType :- Get(properties, "objectType", Null);
    if objectType != Str("cell") then Ok(None)
    else
      var cellCoords :- CellCoordinates(f);
      var cell :- ParsePolygonCoordinates(variant, cellCoords);
      if |cell| == 0 then Ok(None)
      else
        var nucleusCoords :- NucleusCoordinates(f);
        if !Truthy(nucleusCoords) then Ok(Some(Extracted(cell, None)))
        else
          var nucleus :- ParsePolygonCoordinates(variant, nucleusCoords);
          Ok(Some(Extracted(cell, Some(nucleus))))
  }

  /**
   Both directions of the loop body's outcome: which features yield a record,
   with which nucleus, and which are skipped.
   */
  lemma ClassifyCases(f: J, variant: Variant)
    // a record is yielded exactly for a cell feature whose cell ring parses to a
    // non-empty ring and whose nucleus, when present, parses too
    ensures var r := Classify(f, variant);
            r.Ok? && r.value.Some? <==>
              && IsCellFeature(f)
              && CellCoordinates(f).Ok?
              && ParsePolygonCoordinates(variant, CellCoordinates(f).value).Ok?
              && ParsePolygonCoordinates(variant, CellCoordinates(f).value).value != []
              && NucleusCoordinates(f).Ok?
              && (Truthy(NucleusCoordinates(f).value) ==> ParsePolygonCoordinates(variant, NucleusCoordinates(f).value).Ok?)
    ensures var r := Classify(f, variant);
            r.Ok? && r.value.Some? ==>
              r.value.value.nucleus ==
                if Truthy(NucleusCoordinates(f).value)
                then Some(ParsePolygonCoordinates(variant, NucleusCoordinates(f).value).value)
                else None
    // a feature is skipped exactly when it is a well-formed non-cell, or a cell
    // feature whose cell ring parses to the empty ring
    ensures var r := Classify(f, variant);
            r == Ok(None) <==>
              || WellFormedNonCell(f)
              || (IsCellFeature(f) && CellCoordinates(f).Ok? && ParsePolygonCoordinates(variant, CellCoordinates(f).value) == Ok([]))
  {
  }

  /** A cell feature that is skipped because its cell ring is empty. */
  predicate Dropped(f: J, variant: Variant) {
    IsCellFeature(f) && Classify(f, variant) == Ok(None)
  }

  /**
   Reference definition of the extractor's output without ids: the geometry of
   every accepted feature, in input order; `Raised` if any feature raises.
   */
  function Accepted(features: seq<J>, variant: Variant): (r: Result<seq<Extracted>>)
    ensures r.Ok? ==> |r.value| <= |features|
    ensures r.Ok? ==> forall k :: 0 <= k < |r.value| ==> |r.value[k].cell| > 0
    decreases |features|
  {
    if |features| == 0 then Ok([])
    else
      var earlier :- Accepted(features[..|features| - 1], variant);
      var last :- Classify(features[|features| - 1], variant);
      match last
      case None => Ok(earlier)
      case Some(e) => Ok(earlier + [e])
  }

  /** Ids 1, 2, ... given to the accepted geometries in order. */
  function Numbered(accepted: seq<Extracted>): (r: seq<CellGeometry>)
    ensures |r| == |accepted|
    // forgetting the ids gives back the accepted geometries
    ensures forall k :: 0 <= k < |r| ==> Extracted(r[k].cellPolygon, r[k].nucleusPolygon) == accepted[k]
    // the ids count up from 1 without gaps
    ensures forall k :: 0 <= k < |r| ==> r[k].cellId == k + 1
  {
    seq(|accepted|, k requires 0 <= k < |accepted| =>
      CellGeometry(k + 1, accepted[k].cell, accepted[k].nucleus))
  }

  lemma NumberedSnoc(accepted: seq<Extracted>, e: Extracted)
    ensures Numbered(accepted + [e]) == Numbered(accepted) + [CellGeometry(|accepted| + 1, e.cell, e.nucleus)]
  {
  }

  /** One more feature: the filter's step on the end of the input. */
  lemma AcceptedSnoc(features: seq<J>, f: J, variant: Variant)
    ensures Accepted(features + [f], variant) ==
            match Accepted(features, variant)
            case Raised => Raised
            case Ok(earlier) =>
              match Classify(f, variant)
              case Raised => Raised
              case Ok(None) => Ok(earlier)
              case Ok(Some(e)) => Ok(earlier + [e])
  {
    assert (features + [f])[..|features|] == features;
  }

  lemma {:induction false} AcceptedRaisedExtends(features: seq<J>, more: seq<J>, variant: Variant)
    requires Accepted(features, variant).Raised?
    ensures Accepted(features + more, variant).Raised?
    decreases |more|
  {
    if |more| > 0 {
      var shorter := features + more[..|more| - 1];
      assert features + more == shorter + [more[|more| - 1]];
      AcceptedRaisedExtends(features, more[..|more| - 1], variant);
      AcceptedSnoc(shorter, more[|more| - 1], variant);
    } else {
      assert features + more == features;
    }
  }

  /** One iteration of the extraction loop, in terms of the filter. */
  lemma StreamStep(features: seq<J>, i: nat, variant: Variant, accepted: seq<Extracted>, c: Result<Option<Extracted>>)
    requires i < |features| && Accepted(features[..i], variant) == Ok(accepted)
    requires c == Classify(features[i], variant)
    ensures c.Raised? ==> Accepted(features, variant).Raised?
    ensures c == Ok(None) ==> Accepted(features[..i + 1], variant) == Ok(accepted)
    ensures c.Ok? && c.value.Some? ==> Accepted(features[..i + 1], variant) == Ok(accepted + [c.value.value])
  {
    assert features[..i + 1] == features[..i] + [features[i]];
    AcceptedSnoc(features[..i], features[i], variant);
    if Classify(features[i], variant).Raised? {
      AcceptedRaisedExtends(features[..i + 1], features[i + 1..], variant);
      assert features[..i + 1] + features[i + 1..] == features;
    }
  }

  /**
   `stream_cell_geometries`: the loop over the features with the id counter.
   It raises when any feature raises; otherwise it yields the accepted
   geometries numbered 1..N in input order.
   */
  method StreamCellGeometries(features: seq<J>, variant: Variant) returns (r: Result<seq<CellGeometry>>)
    ensures r.Raised? <==> Accepted(features, variant).Raised?
    ensures r.Ok? ==> r.value == Numbered(Accepted(features, variant).value)
    ensures r.Ok? ==> forall k :: 0 <= k < |r.value| ==> r.value[k].cellId == k + 1
    ensures r.Ok? ==> forall k :: 0 <= k < |r.value| ==> |r.value[k].cellPolygon| > 0
  {
    var cellId := 1;
    var records: seq<CellGeometry> := [];
    ghost var accepted: seq<Extracted> := [];
    var i := 0;
    while i < |features|
      invariant 0 <= i <= |features|
      invariant Accepted(features[..i], variant) == Ok(accepted)
      invariant records == Numbered(accepted)
      invariant cellId == |accepted| + 1
    {
      var c := Classify(features[i], variant);
      StreamStep(features, i, variant, accepted, c);
      if c.Raised? {
        return Raised;
      }
      if c.value.Some? {
        var e := c.value.value;
        NumberedSnoc(accepted, e);
        records := records + [CellGeometry(cellId, e.cell, e.nucleus)];
        accepted := accepted + [e];
        cellId := cellId + 1;
      }
      i := i + 1;
    }
    assert features[..i] == features;
    r := Ok(records);
  }

  // ---------------------------------------------------------------------------
  // Counting
  // ---------------------------------------------------------------------------

  /** Positions of the features that satisfy `p`. */
  function Indices(features: seq<J>, p: J -> bool): set<nat> {
    set k: nat | k < |features| && p(features[k])
  }

  lemma IndicesSnoc(features: seq<J>, p: J -> bool)
    requires |features| > 0
    ensures |Indices(features, p)| ==
            |Indices(features[..|features| - 1], p)| + (if p(features[|features| - 1]) then 1 else 0)
  {
    var n := |features| - 1;
    var prefix := features[..n];
    assert Indices(features, p) == Indices(prefix, p) + (if p(features[n]) then {n} else {});
  }

  /** A feature that `count_cells` sees and that makes `props.get` raise. */
  predicate BadProperties(f: J) {
    f.Obj? && "properties" in f.fields && !f.fields["properties"].Obj?
  }

  /**
   One step of `count_cells`. The reader only yields the `properties` value of
   features that are dicts and carry that key; every other feature is unseen.
   */
  function CountOne(f: J): (r: Result<nat>)
    ensures r.Raised? <==> BadProperties(f)
    ensures r.Ok? ==> r.value <= 1 && (r.value == 1 <==> IsCellFeature(f))
  {
    if f.Obj? && "properties" in f.fields then
      var objectType :- Get(f.fields["properties"], "objectType", Null);
      Ok(if objectType == Str("cell") then 1 else 0)
    else Ok(0)
  }

  /** `count_cells`: how many features have `objectType` "cell". */
  function CountCells(features: seq<J>): (r: Result<nat>)
    ensures r.Raised? <==> exists k :: 0 <= k < |features| && BadProperties(features[k])
    ensures r.Ok? ==> r.value == |Indices(features, IsCellFeature)|
    decreases |features|
  {
    if |features| == 0 then Ok(0)
    else
      var n := |features| - 1;
      var earlier :- CountCells(features[..n]);
      var one :- CountOne(features[n]);
      IndicesSnoc(features, IsCellFeature);
      Ok(earlier + one)
  }
}
