/**
 Properties of mask encoding: the width thresholds, monotonicity of the
 choice, idempotence of conversion, and lossless encoding of rasterized
 label grids.
 */
module EncoderProperties {
  import opened Parser
  import opened Rasterizer
  import opened Encoder

  /** The thresholds: up to 255 in 8 bits, up to 65535 in 16 bits, beyond that 32 bits. */
  lemma DtypeThresholds()
    ensures DetermineOptimalDtype(0) == UInt8 && DetermineOptimalDtype(1) == UInt8
    ensures DetermineOptimalDtype(255) == UInt8 && DetermineOptimalDtype(256) == UInt16
    ensures DetermineOptimalDtype(1000) == UInt16 && DetermineOptimalDtype(6446) == UInt16
    ensures DetermineOptimalDtype(65535) == UInt16 && DetermineOptimalDtype(65536) == UInt32
    ensures DetermineOptimalDtype(100000) == UInt32 && DetermineOptimalDtype(1000000) == UInt32
  {
  }

  /** A larger maximum never selects a narrower type. */
  lemma DtypeMonotone(a: int, b: int)
    requires a <= b
    ensures Bits(DetermineOptimalDtype(a)) <= Bits(DetermineOptimalDtype(b))
  {
  }

  /** Converting twice is converting once. */
  lemma ConvertIdempotent(m: Mask, maxCellId: int)
    ensures ConvertMaskDtype(ConvertMaskDtype(m, maxCellId), maxCellId) == ConvertMaskDtype(m, maxCellId)
  {
  }

  /** Labels in `[0, maxCellId]` survive conversion, for any 32-bit maximum. */
  lemma ConvertKeepsLabelsUpToMax(m: Mask, maxCellId: int)
    requires 0 <= maxCellId <= MaxValue(UInt32)
    requires AllIn(m.data, 0, maxCellId)
    ensures ConvertMaskDtype(m, maxCellId).data == m.data
  {
  }

  /**
   Rasterizing records whose ids are non-negative int32 values and encoding
   both grids together loses no label.
   */
  lemma RasterizedMasksEncodeLosslessly(cell: Grid, nucleus: Grid, records: seq<CellGeometry>,
                                        fill: FillFn, height: nat, width: nat)
    requires Rasterizes(cell, records, CellLayer, fill, height, width)
    requires Rasterizes(nucleus, records, NucleusLayer, fill, height, width)
    requires forall k :: 0 <= k < |records| ==> 0 <= records[k].cellId <= Int32Max
    requires height > 0 && width > 0
    ensures EncodeMasks(Mask(Int32, cell), Mask(Int32, nucleus)).Ok?
    ensures EncodeMasks(Mask(Int32, cell), Mask(Int32, nucleus)).value.0.data == cell
    ensures EncodeMasks(Mask(Int32, cell), Mask(Int32, nucleus)).value.1.data == nucleus
  {
    assert |cell[0]| > 0 && |nucleus[0]| > 0;
    RasterizedLabelsInRange(cell, records, CellLayer, fill, height, width);
    RasterizedLabelsInRange(nucleus, records, NucleusLayer, fill, height, width);
  }

  lemma RasterizedLabelsInRange(g: Grid, records: seq<CellGeometry>, layer: Layer,
                                fill: FillFn, height: nat, width: nat)
    requires Rasterizes(g, records, layer, fill, height, width)
    requires forall k :: 0 <= k < |records| ==> 0 <= records[k].cellId <= Int32Max
    ensures AllIn(g, 0, Int32Max)
  {
    RasterizedLabelsAtMost(g, records, layer, fill, height, width, Int32Max);
  }

  /** A rasterized grid holds no label above the largest record id. */
  lemma RasterizedLabelsAtMost(g: Grid, records: seq<CellGeometry>, layer: Layer,
                               fill: FillFn, height: nat, width: nat, n: int)
    requires Rasterizes(g, records, layer, fill, height, width)
    requires forall k :: 0 <= k < |records| ==> 0 <= records[k].cellId <= n
    ensures AllIn(g, 0, if n < 0 then 0 else n)
  {
    forall i, j | 0 <= i < |g| && 0 <= j < |g[i]|
      ensures 0 <= g[i][j] <= if n < 0 then 0 else n
    {
      var v := LastCover(records, layer, fill, height, width, Pixel(i, j));
      if v != 0 {
        var k :| 0 <= k < |records| && records[k].cellId == v && Pixel(i, j) in Covered(records[k], layer, fill, height, width);
      }
    }
  }

  /**
   The encoding of rasterized grids is never wider than the type chosen for
   the largest record id, and it keeps every label.
   */
  lemma EncodedTypeFitsIds(cell: Grid, nucleus: Grid, records: seq<CellGeometry>,
                           fill: FillFn, height: nat, width: nat, n: int)
    requires Rasterizes(cell, records, CellLayer, fill, height, width)
    requires Rasterizes(nucleus, records, NucleusLayer, fill, height, width)
    requires forall k :: 0 <= k < |records| ==> 0 <= records[k].cellId <= n
    requires n <= Int32Max
    requires height > 0 && width > 0
    ensures var r := EncodeMasks(Mask(Int32, cell), Mask(Int32, nucleus));
            && r.Ok?
            && Bits(r.value.0.dtype) <= Bits(DetermineOptimalDtype(n))
            && r.value.0 == Mask(r.value.0.dtype, cell)
            && r.value.1 == Mask(r.value.0.dtype, nucleus)
  {
    RasterizedMasksEncodeLosslessly(cell, nucleus, records, fill, height, width);
    var bound := if n < 0 then 0 else n;
    RasterizedLabelsAtMost(cell, records, CellLayer, fill, height, width, n);
    RasterizedLabelsAtMost(nucleus, records, NucleusLayer, fill, height, width, n);
    assert |cell[0]| > 0 && |nucleus[0]| > 0;
    var cellMax := GridMax(cell).value;
    var nucleusMax := GridMax(nucleus).value;
    var m := if cellMax > nucleusMax then cellMax else nucleusMax;
    assert LargestLabel(m, cell, nucleus);
    assert m <= bound;
    DtypeMonotone(m, bound);
  }
}
