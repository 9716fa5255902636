/**
 Rasterization: filling each record's rings into a cell grid and a nucleus
 grid, in record order, so that a later record overwrites an earlier one.
 The polygon fill of the image library is a foreign call; it is a parameter
 `fill` here, and nothing is assumed about its fill rule.
 */
module Rasterizer {
  import opened PyJson
  import opened Parser

  const Int32Min: int := -0x8000_0000
  const Int32Max: int := 0x7FFF_FFFF

  // ---------------------------------------------------------------------------
  // Rounding vertices to pixels
  // ---------------------------------------------------------------------------

  /** `n` is the nearest integer to `x`, and the even one when `x` lies halfway. */
  predicate RoundsTo(x: real, n: int) {
    && -0.5 <= n as real - x <= 0.5
    && ((n as real - x == 0.5 || x - n as real == 0.5) ==> n % 2 == 0)
  }

  /** Round half to even, as numpy's `round` does. */
  function RoundHalfEven(x: real): (n: int)
    ensures RoundsTo(x, n)
  {
    var f := x.Floor;
    var frac := x - f as real;
    if frac < 0.5 then f
    else if frac > 0.5 then f + 1
    else if f % 2 == 0 then f
    else f + 1
  }

  /** A vertex in pixel coordinates, `(x, y)` as the fill expects. */
  datatype PixelPoint = PixelPoint(x: int, y: int)

  /** `polygon_to_pixel_coords`: each coordinate rounded on its own, count and order kept. */
  function PolygonToPixelCoords(polygon: Ring): (r: seq<PixelPoint>)
    ensures |r| == |polygon|
    ensures forall i :: 0 <= i < |r| ==> RoundsTo(polygon[i].x, r[i].x) && RoundsTo(polygon[i].y, r[i].y)
  {
    seq(|polygon|, i requires 0 <= i < |polygon| =>
      PixelPoint(RoundHalfEven(polygon[i].x), RoundHalfEven(polygon[i].y)))
  }

  // ---------------------------------------------------------------------------
  // Grids
  // ---------------------------------------------------------------------------

  /** A grid position: `row` is the y coordinate, `col` the x coordinate. */
  datatype Pixel = Pixel(row: int, col: int)

  type Grid = seq<seq<int>>

  /** `height` rows of `width` columns each. */
  predicate IsGrid(g: Grid, height: nat, width: nat) {
    |g| == height && forall row :: 0 <= row < height ==> |g[row]| == width
  }

  /** The foreign polygon fill: the pixels a ring covers in a `height` by `width` image. */
  type FillFn = (seq<PixelPoint>, nat, nat) -> set<Pixel>

  /** The fill's promise: every pixel it reports lies inside the image. */
  ghost predicate FillInBounds(fill: FillFn) {
    forall ring, height, width, p | p in fill(ring, height, width) ::
      0 <= p.row < height && 0 <= p.col < width
  }

  /** `np.zeros((height, width))` */
  function Zeros(height: nat, width: nat): (g: Grid)
    ensures IsGrid(g, height, width)
    ensures forall row, col :: 0 <= row < height && 0 <= col < width ==> g[row][col] == 0
  {
    seq(height, row => seq(width, col => 0))
  }

  /** Writes `v` into every pixel of the grid that lies in `pixels`. */
  function Paint(g: Grid, height: nat, width: nat, pixels: set<Pixel>, v: int): (g': Grid)
    requires IsGrid(g, height, width)
    ensures IsGrid(g', height, width)
    ensures forall row, col :: 0 <= row < height && 0 <= col < width ==>
              g'[row][col] == if Pixel(row, col) in pixels then v else g[row][col]
  {
    seq(height, row requires 0 <= row < height =>
      seq(width, col requires 0 <= col < width =>
        if Pixel(row, col) in pixels then v else g[row][col]))
  }

  // ---------------------------------------------------------------------------
  // Which record paints which pixel
  // ---------------------------------------------------------------------------

  datatype Layer = CellLayer | NucleusLayer

  /**
   The ring a record fills in a layer: the cell ring always, the nucleus ring
   only when present and non-empty.
   */
  function LayerPolygon(rec: CellGeometry, layer: Layer): (r: Option<Ring>)
    ensures layer == CellLayer ==> r == Some(rec.cellPolygon)
    ensures layer == NucleusLayer ==> (r.Some? <==> rec.nucleusPolygon.Some? && rec.nucleusPolygon.value != [])
    ensures layer == NucleusLayer && r.Some? ==> r == rec.nucleusPolygon
  {
    match layer
    case CellLayer => Some(rec.cellPolygon)
    case NucleusLayer =>
      if rec.nucleusPolygon.Some? && |rec.nucleusPolygon.value| > 0 then rec.nucleusPolygon else None
  }

  /** The pixels a record paints in a layer. */
  function Covered(rec: CellGeometry, layer: Layer, fill: FillFn, height: nat, width: nat): (r: set<Pixel>)
    ensures LayerPolygon(rec, layer).None? ==> r == {}
  {
    match LayerPolygon(rec, layer)
    case Some(polygon) => fill(PolygonToPixelCoords(polygon), height, width)
    case None => {}
  }

  /** With an in-bounds fill, a record paints only pixels inside the image. */
  lemma CoveredInBounds(rec: CellGeometry, layer: Layer, fill: FillFn, height: nat, width: nat)
    requires FillInBounds(fill)
    ensures forall p | p in Covered(rec, layer, fill, height, width) :: 0 <= p.row < height && 0 <= p.col < width
  {
    if LayerPolygon(rec, layer).Some? {
      var ring := PolygonToPixelCoords(LayerPolygon(rec, layer).value);
      assert Covered(rec, layer, fill, height, width) == fill(ring, height, width);
    }
  }

  /**
   Reference definition of the last-write-wins rule: the id of the last
   record that paints `p` in the layer, or 0 when none does.
   */
  function LastCover(records: seq<CellGeometry>, layer: Layer, fill: FillFn, height: nat, width: nat, p: Pixel): (v: int)
    ensures v == 0 || exists k :: 0 <= k < |records| && records[k].cellId == v && p in Covered(records[k], layer, fill, height, width)
    decreases |records|
  {
    if |records| == 0 then 0
    else
      var last := records[|records| - 1];
      if p in Covered(last, layer, fill, height, width) then last.cellId
      else
        var v := LastCover(records[..|records| - 1], layer, fill, height, width, p);
        assert v != 0 ==> exists k :: 0 <= k < |records| - 1 && records[k].cellId == v && p in Covered(records[k], layer, fill, height, width) by {
          if v != 0 {
            var k :| 0 <= k < |records| - 1 && records[..|records| - 1][k].cellId == v
                     && p in Covered(records[..|records| - 1][k], layer, fill, height, width);
            assert records[..|records| - 1][k] == records[k];
          }
        }
        v
  }

  /** The grid a layer ends up with: every pixel holds its `LastCover` value. */
  predicate Rasterizes(g: Grid, records: seq<CellGeometry>, layer: Layer, fill: FillFn, height: nat, width: nat) {
    && IsGrid(g, height, width)
    && forall row, col :: 0 <= row < height && 0 <= col < width ==>
         g[row][col] == LastCover(records, layer, fill, height, width, Pixel(row, col))
  }

  // ---------------------------------------------------------------------------
  // create_label_masks
  // ---------------------------------------------------------------------------

  /** The two grids and the progress calls made while building them. */
  datatype LabelMasks = LabelMasks(cell: Grid, nucleus: Grid, progress: seq<(int, int)>)

  /** `if progress_callback and total_cells:` */
  predicate ReportsProgress(totalCells: Option<int>, hasCallback: bool) {
    hasCallback && totalCells.Some? && totalCells.value != 0
  }

  /** One more record: it wins the pixels it paints. */
  lemma LastCoverAppend(records: seq<CellGeometry>, rec: CellGeometry, layer: Layer, fill: FillFn,
                        height: nat, width: nat, p: Pixel)
    ensures LastCover(records + [rec], layer, fill, height, width, p) ==
            if p in Covered(rec, layer, fill, height, width) then rec.cellId
            else LastCover(records, layer, fill, height, width, p)
  {
    assert (records + [rec])[..|records|] == records;
  }

  lemma LastCoverSnoc(records: seq<CellGeometry>, i: nat, layer: Layer, fill: FillFn, height: nat, width: nat)
    requires i < |records|
    ensures forall p :: LastCover(records[..i + 1], layer, fill, height, width, p) ==
              if p in Covered(records[i], layer, fill, height, width) then records[i].cellId
              else LastCover(records[..i], layer, fill, height, width, p)
  {
    assert records[..i + 1][..i] == records[..i];
  }

  /** Painting record `i` over the grid of the records before it gives the grid of the records up to it. */
  lemma RasterizesSnoc(g: Grid, records: seq<CellGeometry>, i: nat, layer: Layer, fill: FillFn, height: nat, width: nat)
    requires i < |records|
    requires Rasterizes(g, records[..i], layer, fill, height, width)
    ensures Rasterizes(Paint(g, height, width, Covered(records[i], layer, fill, height, width), records[i].cellId),
                       records[..i + 1], layer, fill, height, width)
  {
    LastCoverSnoc(records, i, layer, fill, height, width);
  }

  /**
   `create_label_masks`: two zeroed `height` by `width` grids; each record
   fills its cell ring with its id in the cell grid and, when it has a
   non-empty nucleus ring, that ring in the nucleus grid; after each record
   the progress callback receives `(k, total_cells)` when both are given.
   Negative dimensions make the grid allocation raise.
   */
  method CreateLabelMasks(records: seq<CellGeometry>, width: int, height: int,
                          totalCells: Option<int>, hasCallback: bool, fill: FillFn)
    returns (r: Result<LabelMasks>)
    requires forall k :: 0 <= k < |records| ==> Int32Min <= records[k].cellId <= Int32Max
    ensures r.Raised? <==> width < 0 || height < 0
    ensures r.Ok? ==> Rasterizes(r.value.cell, records, CellLayer, fill, height, width)
    ensures r.Ok? ==> Rasterizes(r.value.nucleus, records, NucleusLayer, fill, height, width)
    ensures r.Ok? && ReportsProgress(totalCells, hasCallback) ==>
              |r.value.progress| == |records| &&
              forall k :: 0 <= k < |records| ==> r.value.progress[k] == (k + 1, totalCells.value)
    ensures r.Ok? && !ReportsProgress(totalCells, hasCallback) ==> r.value.progress == []
  {
    if width < 0 || height < 0 {
      return Raised;
    }
    var cellMask := Zeros(height, width);
    var nucleusMask := Zeros(height, width);
    var progress: seq<(int, int)> := [];
    var processed := 0;
    while processed < |records|
      invariant 0 <= processed <= |records|
      invariant Rasterizes(cellMask, records[..processed], CellLayer, fill, height, width)
      invariant Rasterizes(nucleusMask, records[..processed], NucleusLayer, fill, height, width)
      invariant ReportsProgress(totalCells, hasCallback) ==>
                  |progress| == processed &&
                  forall k :: 0 <= k < processed ==> progress[k] == (k + 1, totalCells.value)
      invariant !ReportsProgress(totalCells, hasCallback) ==> progress == []
    {
      var rec := records[processed];
      RasterizesSnoc(cellMask, records, processed, CellLayer, fill, height, width);
      RasterizesSnoc(nucleusMask, records, processed, NucleusLayer, fill, height, width);
      cellMask := Paint(cellMask, height, width, Covered(rec, CellLayer, fill, height, width), rec.cellId);
      nucleusMask := Paint(nucleusMask, height, width, Covered(rec, NucleusLayer, fill, height, width), rec.cellId);
      if ReportsProgress(totalCells, hasCallback) {
        progress := progress + [(processed + 1, totalCells.value)];
      }
      processed := processed + 1;
    }
    assert records[..processed] == records;
    r := Ok(LabelMasks(cellMask, nucleusMask, progress));
  }
}
