/**
 Mask encoding: choosing the narrowest unsigned integer width that holds the
 largest id, and converting the int32 working grids to it.
 */
module Encoder {
  import opened PyJson
  import opened Rasterizer

  /** The element types a mask can have: the signed working type and the three unsigned outputs. */
  datatype DType = Int32 | UInt8 | UInt16 | UInt32

  function Bits(d: DType): nat {
    match d
    case UInt8 => 8
    case UInt16 => 16
    case Int32 => 32
    case UInt32 => 32
  }

  predicate Unsigned(d: DType) {
    d != Int32
  }

  function MinValue(d: DType): int {
    if d == Int32 then Int32Min else 0
  }

  function MaxValue(d: DType): int {
    match d
    case UInt8 => 0xFF
    case UInt16 => 0xFFFF
    case Int32 => Int32Max
    case UInt32 => 0xFFFF_FFFF
  }

  predicate Representable(v: int, d: DType) {
    MinValue(d) <= v <= MaxValue(d)
  }

  /**
   `determine_optimal_dtype`: the narrowest unsigned type whose maximum is at
   least `maxCellId`; 32 bits when even that is too narrow.
   */
  function DetermineOptimalDtype(maxCellId: int): (d: DType)
    ensures Unsigned(d)
    ensures maxCellId <= MaxValue(UInt32) ==> maxCellId <= MaxValue(d)
    ensures forall u :: Unsigned(u) && Bits(u) < Bits(d) ==> maxCellId > MaxValue(u)
    ensures maxCellId > MaxValue(UInt16) ==> d == UInt32
  {
    if maxCellId <= 255 then UInt8
    else if maxCellId <= 65535 then UInt16
    else UInt32
  }

  /**
   numpy's integer `astype`: the value modulo 2^bits, read back in the
   target's range (two's complement for the signed type).
   */
  function Wrap(v: int, d: DType): (r: int)
    ensures Representable(r, d)
    ensures (r - v) % (MaxValue(d) - MinValue(d) + 1) == 0
    ensures Representable(v, d) ==> r == v
  {
    var m := MaxValue(d) - MinValue(d) + 1;
    (v - MinValue(d)) % m + MinValue(d)
  }

  /** A label mask: its element type and its values. */
  datatype Mask = Mask(dtype: DType, data: Grid)

  /** Same number of rows, and of columns in each row. */
  predicate SameShape(a: Grid, b: Grid) {
    |a| == |b| && forall i :: 0 <= i < |a| ==> |a[i]| == |b[i]|
  }

  /** Every value lies in `[lo, hi]`. */
  predicate AllIn(g: Grid, lo: int, hi: int) {
    forall i, j :: 0 <= i < |g| && 0 <= j < |g[i]| ==> lo <= g[i][j] <= hi
  }

  /** Every value fits the mask's element type. */
  predicate WellTyped(m: Mask) {
    AllIn(m.data, MinValue(m.dtype), MaxValue(m.dtype))
  }

  /** `mask.astype(d)` */
  function AsType(m: Mask, d: DType): (r: Mask)
    ensures r.dtype == d && SameShape(r.data, m.data)
    ensures forall i, j :: 0 <= i < |m.data| && 0 <= j < |m.data[i]| ==> r.data[i][j] == Wrap(m.data[i][j], d)
  {
    Mask(d, seq(|m.data|, i requires 0 <= i < |m.data| =>
      seq(|m.data[i]|, j requires 0 <= j < |m.data[i]| => Wrap(m.data[i][j], d))))
  }

  /**
   `convert_mask_dtype`: the mask in the type chosen for `maxCellId`, with
   every value kept when all of them fit that type; the mask itself when it
   already has that type.
   */
  function ConvertMaskDtype(m: Mask, maxCellId: int): (r: Mask)
    ensures r.dtype == DetermineOptimalDtype(maxCellId)
    ensures SameShape(r.data, m.data)
    ensures m.dtype == r.dtype ==> r == m
    ensures AllIn(m.data, 0, MaxValue(r.dtype)) ==> r.data == m.data
    ensures WellTyped(m) ==> WellTyped(r)
  {
    var target := DetermineOptimalDtype(maxCellId);
    if m.dtype != target then
      var r := AsType(m, target);
      assert AllIn(m.data, 0, MaxValue(target)) ==> r.data == m.data by {
        if AllIn(m.data, 0, MaxValue(target)) {
          assert forall i :: 0 <= i < |m.data| ==> r.data[i] == m.data[i];
        }
      }
      r
    else m
  }

  // ---------------------------------------------------------------------------
  // Largest label
  // ---------------------------------------------------------------------------

  /** The grid holds at least one value. */
  predicate HasElement(g: Grid) {
    exists i :: 0 <= i < |g| && |g[i]| > 0
  }

  function SeqMax(s: seq<int>): (m: int)
    requires |s| > 0
    ensures (exists j :: 0 <= j < |s| && s[j] == m) && forall j :: 0 <= j < |s| ==> s[j] <= m
  {
    if |s| == 1 then s[0]
    else
      var rest := SeqMax(s[..|s| - 1]);
      assert forall j :: 0 <= j < |s| - 1 ==> s[..|s| - 1][j] == s[j];
      if s[|s| - 1] > rest then s[|s| - 1] else rest
  }

  /** `mask.max()`: numpy raises on an array without elements. */
  function GridMax(g: Grid): (r: Result<int>)
    ensures r.Ok? <==> HasElement(g)
    ensures r.Ok? ==> (exists i, j :: 0 <= i < |g| && 0 <= j < |g[i]| && g[i][j] == r.value)
    ensures r.Ok? ==> forall i, j :: 0 <= i < |g| && 0 <= j < |g[i]| ==> g[i][j] <= r.value
    decreases |g|
  {
    if |g| == 0 then Raised
    else
      var n := |g| - 1;
      var prefix := g[..n];
      assert forall i :: 0 <= i < n ==> prefix[i] == g[i];
      var earlier := GridMax(prefix);
      if |g[n]| == 0 then earlier
      else
        var last := SeqMax(g[n]);
        match earlier
        case Raised => Ok(last)
        case Ok(e) => Ok(if last > e then last else e)
  }

  /** `v` is one of the grid's values. */
  predicate OccursIn(v: int, g: Grid) {
    exists i, j :: 0 <= i < |g| && 0 <= j < |g[i]| && g[i][j] == v
  }

  /** `m` is the largest label over both grids. */
  predicate LargestLabel(m: int, a: Grid, b: Grid) {
    && (OccursIn(m, a) || OccursIn(m, b))
    && (forall i, j :: 0 <= i < |a| && 0 <= j < |a[i]| ==> a[i][j] <= m)
    && (forall i, j :: 0 <= i < |b| && 0 <= j < |b[i]| ==> b[i][j] <= m)
  }

  /** The larger of the two grids' maxima is the only largest label. */
  lemma LargestLabelOfMaxima(a: Grid, b: Grid)
    requires HasElement(a) && HasElement(b)
    ensures var ma := GridMax(a).value; var mb := GridMax(b).value;
            forall m :: LargestLabel(m, a, b) <==> m == if ma > mb then ma else mb
  {
    var ma := GridMax(a).value;
    var mb := GridMax(b).value;
    var top := if ma > mb then ma else mb;
    assert LargestLabel(top, a, b);
    forall m | LargestLabel(m, a, b)
      ensures m == top
    {
      if OccursIn(m, a) {
        assert m <= ma;
      } else {
        assert m <= mb;
      }
    }
  }

  // ---------------------------------------------------------------------------
  // Encoding both masks together
  // ---------------------------------------------------------------------------

  /**
   The encoding step of the command-line tool: both masks are converted with
   the same maximum, the largest label over the two, so they share one type
   and, when every label is a non-negative int32, keep all their values.
   */
  function EncodeMasks(cell: Mask, nucleus: Mask): (r: Result<(Mask, Mask)>)
    ensures r.Ok? <==> HasElement(cell.data) && HasElement(nucleus.data)
    ensures r.Ok? ==> r.value.0.dtype == r.value.1.dtype && Unsigned(r.value.0.dtype)
    ensures r.Ok? ==> SameShape(r.value.0.data, cell.data) && SameShape(r.value.1.data, nucleus.data)
    ensures r.Ok? && AllIn(cell.data, 0, Int32Max) && AllIn(nucleus.data, 0, Int32Max) ==>
              r.value.0.data == cell.data && r.value.1.data == nucleus.data
    // the shared type is the one chosen for the largest label over both masks
    ensures r.Ok? ==> forall m :: LargestLabel(m, cell.data, nucleus.data) ==> r.value.0.dtype == DetermineOptimalDtype(m)
  {
    var cellMax :- GridMax(cell.data);
    var nucleusMax :- GridMax(nucleus.data);
    var maxCellId := if cellMax > nucleusMax then cellMax else nucleusMax;
    LargestLabelOfMaxima(cell.data, nucleus.data);
    Ok((ConvertMaskDtype(cell, maxCellId), ConvertMaskDtype(nucleus, maxCellId)))
  }
}
