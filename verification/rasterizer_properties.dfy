/**
 Properties of rasterization: rounding is exactly round-half-to-even, later
 records win shared pixels, untouched pixels stay background, the nucleus
 layer never influences the cell layer, and every label is a record's id.
 */
module RasterizerProperties {
  import opened PyJson
  import opened Parser
  import opened Rasterizer

  // ---------------------------------------------------------------------------
  // Rounding
  // ---------------------------------------------------------------------------

  /** Exactly one integer rounds `x` half to even, and `RoundHalfEven` finds it. */
  lemma RoundingIsUnique(x: real, n: int)
    requires RoundsTo(x, n)
    ensures n == RoundHalfEven(x)
  {
  }

  /** Integer coordinates come back unchanged. */
  lemma IntegerCoordinatesUnchanged(polygon: Ring)
    requires forall i :: 0 <= i < |polygon| ==> polygon[i].x.Floor as real == polygon[i].x && polygon[i].y.Floor as real == polygon[i].y
    ensures forall i :: 0 <= i < |polygon| ==>
              PolygonToPixelCoords(polygon)[i] == PixelPoint(polygon[i].x.Floor, polygon[i].y.Floor)
  {
    forall i | 0 <= i < |polygon|
      ensures PolygonToPixelCoords(polygon)[i] == PixelPoint(polygon[i].x.Floor, polygon[i].y.Floor)
    {
      RoundingIsUnique(polygon[i].x, polygon[i].x.Floor);
      RoundingIsUnique(polygon[i].y, polygon[i].y.Floor);
    }
  }

  // ---------------------------------------------------------------------------
  // Last write wins
  // ---------------------------------------------------------------------------

  /** A pixel holds the id of the last record, in input order, that paints it. */
  lemma {:induction false} LastWriteWins(records: seq<CellGeometry>, layer: Layer, fill: FillFn,
                                         height: nat, width: nat, p: Pixel, k: nat)
    requires k < |records|
    requires p in Covered(records[k], layer, fill, height, width)
    requires forall j :: k < j < |records| ==> p !in Covered(records[j], layer, fill, height, width)
    ensures LastCover(records, layer, fill, height, width, p) == records[k].cellId
    decreases |records|
  {
    var n := |records| - 1;
    if k < n {
      var prefix := records[..n];
      assert forall j :: k < j < |prefix| ==> prefix[j] == records[j];
      LastWriteWins(prefix, layer, fill, height, width, p, k);
    }
  }

  /** A pixel that no record paints stays background. */
  lemma {:induction false} UncoveredIsBackground(records: seq<CellGeometry>, layer: Layer, fill: FillFn,
                                                 height: nat, width: nat, p: Pixel)
    requires forall k :: 0 <= k < |records| ==> p !in Covered(records[k], layer, fill, height, width)
    ensures LastCover(records, layer, fill, height, width, p) == 0
    decreases |records|
  {
    if |records| > 0 {
      var prefix := records[..|records| - 1];
      assert forall k :: 0 <= k < |prefix| ==> prefix[k] == records[k];
      UncoveredIsBackground(prefix, layer, fill, height, width, p);
    }
  }

  /**
   With a fill that stays inside the image, every pixel the last record paints
   shows that record's id, whatever came before.
   */
  lemma LastRecordShowsThrough(records: seq<CellGeometry>, layer: Layer, fill: FillFn, height: nat, width: nat)
    requires FillInBounds(fill)
    requires |records| > 0
    ensures forall p | p in Covered(records[|records| - 1], layer, fill, height, width) ::
              0 <= p.row < height && 0 <= p.col < width &&
              LastCover(records, layer, fill, height, width, p) == records[|records| - 1].cellId
  {
    var last := records[|records| - 1];
    forall p | p in Covered(last, layer, fill, height, width)
      ensures 0 <= p.row < height && 0 <= p.col < width
    {
      var polygon := LayerPolygon(last, layer).value;
      assert p in fill(PolygonToPixelCoords(polygon), height, width);
    }
  }

  // ---------------------------------------------------------------------------
  // Independence of the two layers
  // ---------------------------------------------------------------------------

  /** The records with their nucleus rings removed. */
  function WithoutNuclei(records: seq<CellGeometry>): (r: seq<CellGeometry>)
    ensures |r| == |records|
  {
    seq(|records|, k requires 0 <= k < |records| => records[k].(nucleusPolygon := None))
  }

  /** Nucleus rings never change the cell grid. */
  lemma {:induction false} CellLayerIgnoresNuclei(records: seq<CellGeometry>, fill: FillFn,
                                                  height: nat, width: nat, p: Pixel)
    ensures LastCover(records, CellLayer, fill, height, width, p) ==
            LastCover(WithoutNuclei(records), CellLayer, fill, height, width, p)
    decreases |records|
  {
    if |records| > 0 {
      var n := |records| - 1;
      assert WithoutNuclei(records)[..n] == WithoutNuclei(records[..n]);
      CellLayerIgnoresNuclei(records[..n], fill, height, width, p);
    }
  }

  /** A record without a non-empty nucleus ring leaves no trace in the nucleus grid. */
  lemma {:induction false} RecordWithoutNucleusInvisible(before: seq<CellGeometry>, rec: CellGeometry,
                                                         after: seq<CellGeometry>, fill: FillFn,
                                                         height: nat, width: nat, p: Pixel)
    requires rec.nucleusPolygon.None? || rec.nucleusPolygon.value == []
    ensures LastCover(before + [rec] + after, NucleusLayer, fill, height, width, p) ==
            LastCover(before + after, NucleusLayer, fill, height, width, p)
    decreases |after|
  {
    var with := before + [rec] + after;
    var without := before + after;
    if |after| == 0 {
      assert with == before + [rec];
      assert without == before;
      LastCoverAppend(before, rec, NucleusLayer, fill, height, width, p);
    } else {
      var shorter := after[..|after| - 1];
      var last := after[|after| - 1];
      RecordWithoutNucleusInvisible(before, rec, shorter, fill, height, width, p);
      assert with == before + [rec] + shorter + [last];
      assert without == before + shorter + [last];
      LastCoverAppend(before + [rec] + shorter, last, NucleusLayer, fill, height, width, p);
      LastCoverAppend(before + shorter, last, NucleusLayer, fill, height, width, p);
    }
  }

  // ---------------------------------------------------------------------------
  // Label values
  // ---------------------------------------------------------------------------

  /**
   Every label in a rasterized grid is 0 or the id of a record that paints
   that pixel; ids that fit the 32-bit working type are stored exactly, so
   every label fits it too.
   */
  lemma LabelsAreRecordIds(g: Grid, records: seq<CellGeometry>, layer: Layer, fill: FillFn, height: nat, width: nat)
    requires Rasterizes(g, records, layer, fill, height, width)
    requires forall k :: 0 <= k < |records| ==> Int32Min <= records[k].cellId <= Int32Max
    ensures forall row, col | 0 <= row < height && 0 <= col < width && g[row][col] != 0 ::
              exists k :: 0 <= k < |records| && records[k].cellId == g[row][col]
                          && Pixel(row, col) in Covered(records[k], layer, fill, height, width)
    ensures forall row, col | 0 <= row < height && 0 <= col < width :: Int32Min <= g[row][col] <= Int32Max
  {
    forall row, col | 0 <= row < height && 0 <= col < width
      ensures Int32Min <= g[row][col] <= Int32Max
    {
      var v := LastCover(records, layer, fill, height, width, Pixel(row, col));
      if v != 0 {
        var k :| 0 <= k < |records| && records[k].cellId == v && Pixel(row, col) in Covered(records[k], layer, fill, height, width);
      }
    }
  }
}
