/**
 Properties of the geometry extractor: how each parser copy picks a ring, how
 the two copies relate, which features the stream skips, and how the
 separate counting pass relates to the stream.
 */
module ParserProperties {
  import opened PyJson
  import opened Parser

  // ---------------------------------------------------------------------------
  // Ring selection
  // ---------------------------------------------------------------------------

  /** Missing or empty coordinates, or an empty `coords[0]`, give the empty ring in both copies. */
  lemma EmptyCoordinatesGiveEmptyRing(variant: Variant, coords: J)
    requires !Truthy(coords) || (coords.Arr? && |coords.items| > 0 && !Truthy(coords.items[0]))
    ensures ParsePolygonCoordinates(variant, coords) == Ok([])
  {
  }

  /**
   On Polygon input both copies return the exterior ring `coords[0]`,
   converted point by point with length, order and closing point kept.
   */
  lemma PolygonInputAgrees(coords: J)
    requires PolygonShaped(coords)
    ensures ParsePolygonOnly(coords) == Ok(RingOf(coords.items[0].items))
    ensures ParseMultiPolygonAware(coords) == Ok(RingOf(coords.items[0].items))
  {
    var ring := coords.items[0].items;
    ConvertPointsIsRingOf(ring);
    if |ring| > 0 {
      assert PointLike(ring[0]);
    }
  }

  /**
   On MultiPolygon input the aware copy returns the exterior ring of the first
   polygon; the simple copy raises, because its "points" are whole rings.
   */
  lemma MultiPolygonInputTakesFirstExterior(coords: J)
    requires MultiPolygonShaped(coords)
    ensures ParseMultiPolygonAware(coords) == Ok(RingOf(coords.items[0].items[0].items))
    ensures ParsePolygonOnly(coords).Raised?
  {
    var polygon := coords.items[0].items;
    var ring := polygon[0].items;
    ConvertPointsIsRingOf(ring);
    assert PointLike(ring[0]);
    assert !PointLike(polygon[0]);
    assert !AllPointLike(polygon);
  }

  /**
   A scalar at `coords[0][0]` gives no ring in the aware copy, while the
   simple copy raises on the same input.
   */
  lemma ScalarAtDepthTwo(coords: J)
    requires coords.Arr? && |coords.items| > 0 && coords.items[0].Arr?
    requires |coords.items[0].items| > 0 && !coords.items[0].items[0].Arr?
    ensures ParseMultiPolygonAware(coords) == Ok([])
    ensures ParsePolygonOnly(coords).Raised?
  {
    assert !PointLike(coords.items[0].items[0]);
  }

  /** Rings after the first (holes) never affect the result, in either copy. */
  lemma HolesIgnored(variant: Variant, ring: J, holes: seq<J>)
    ensures ParsePolygonCoordinates(variant, Arr([ring] + holes)) == ParsePolygonCoordinates(variant, Arr([ring]))
  {
    assert ([ring] + holes)[0] == ring;
  }

  /** In the aware copy, holes of the first polygon and all later polygons are ignored. */
  lemma LaterPolygonsIgnored(ring: J, holes: seq<J>, polygons: seq<J>)
    requires ring.Arr? && |ring.items| > 0 && ring.items[0].Arr?
    ensures ParseMultiPolygonAware(Arr([Arr([ring] + holes)] + polygons)) == ParseMultiPolygonAware(Arr([Arr([ring])]))
  {
    assert ([Arr([ring] + holes)] + polygons)[0] == Arr([ring] + holes);
    assert ([ring] + holes)[0] == ring;
  }

  // ---------------------------------------------------------------------------
  // Nucleus
  // ---------------------------------------------------------------------------

  /**
   A yielded record has no nucleus exactly when the nucleus coordinates are
   missing or empty; otherwise it carries their parsed ring, which may be
   empty (coordinates `[[]]` give `Some([])`, not `None`).
   */
  lemma NucleusAbsentExactlyWhenCoordinatesEmpty(f: J, variant: Variant, e: Extracted)
    requires Classify(f, variant) == Ok(Some(e))
    ensures NucleusCoordinates(f).Ok?
    ensures e.nucleus.None? <==> !Truthy(NucleusCoordinates(f).value)
    ensures e.nucleus.Some? ==> ParsePolygonCoordinates(variant, NucleusCoordinates(f).value) == Ok(e.nucleus.value)
  {
  }

  // ---------------------------------------------------------------------------
  // The feature filter
  // ---------------------------------------------------------------------------

  /**
   A skipped feature (a non-cell, or a cell with an empty ring) can be removed
   from anywhere in the input without changing the stream; in particular it
   consumes no id.
   */
  lemma {:induction false} SkippedFeatureIrrelevant(before: seq<J>, f: J, after: seq<J>, variant: Variant)
    requires Classify(f, variant) == Ok(None)
    ensures Accepted(before + [f] + after, variant) == Accepted(before + after, variant)
    decreases |after|
  {
    var with := before + [f] + after;
    var without := before + after;
    if |after| == 0 {
      assert with == before + [f];
      assert without == before;
      AcceptedSnoc(before, f, variant);
    } else {
      var shorter := after[..|after| - 1];
      var last := after[|after| - 1];
      SkippedFeatureIrrelevant(before, f, shorter, variant);
      assert with == before + [f] + shorter + [last];
      assert without == before + shorter + [last];
      AcceptedSnoc(before + [f] + shorter, last, variant);
      AcceptedSnoc(before + shorter, last, variant);
    }
  }

  /** Every well-formed non-cell feature is skipped, wherever it appears. */
  lemma NonCellFeatureIrrelevant(before: seq<J>, f: J, after: seq<J>, variant: Variant)
    requires WellFormedNonCell(f)
    ensures Accepted(before + [f] + after, variant) == Accepted(before + after, variant)
    ensures CountCells(before + [f] + after) == CountCells(before + after)
  {
    SkippedFeatureIrrelevant(before, f, after, variant);
    var with := before + [f] + after;
    var without := before + after;
    assert !BadProperties(f);
    assert (exists k :: 0 <= k < |with| && BadProperties(with[k]))
       <==> (exists k :: 0 <= k < |without| && BadProperties(without[k])) by {
      forall k | 0 <= k < |with| && BadProperties(with[k])
        ensures exists j :: 0 <= j < |without| && BadProperties(without[j])
      {
        if k < |before| {
          assert without[k] == with[k];
        } else {
          assert without[k - 1] == with[k];
        }
      }
      forall k | 0 <= k < |without| && BadProperties(without[k])
        ensures exists j :: 0 <= j < |with| && BadProperties(with[j])
      {
        if k < |before| {
          assert with[k] == without[k];
        } else {
          assert with[k + 1] == without[k];
        }
      }
    }
    if CountCells(with).Ok? {
      CellIndicesWithout(before, f, after);
    }
  }

  lemma {:induction false} CellIndicesWithout(before: seq<J>, f: J, after: seq<J>)
    requires !IsCellFeature(f)
    ensures |Indices(before + [f] + after, IsCellFeature)| == |Indices(before + after, IsCellFeature)|
    decreases |after|
  {
    var with := before + [f] + after;
    var without := before + after;
    if |after| == 0 {
      assert with[..|with| - 1] == before;
      assert without == before;
      IndicesSnoc(with, IsCellFeature);
    } else {
      var shorter := after[..|after| - 1];
      CellIndicesWithout(before, f, shorter);
      assert with[..|with| - 1] == before + [f] + shorter;
      assert without[..|without| - 1] == before + shorter;
      IndicesSnoc(with, IsCellFeature);
      IndicesSnoc(without, IsCellFeature);
    }
  }

  // ---------------------------------------------------------------------------
  // The counting pass against the stream
  // ---------------------------------------------------------------------------

  /**
   When the stream completes, the counting pass completes too, and it counts
   exactly the yielded records plus the cell features dropped for an empty
   cell ring.
   */
  lemma {:induction false} CountIsAcceptedPlusDropped(features: seq<J>, variant: Variant)
    requires Accepted(features, variant).Ok?
    ensures CountCells(features).Ok?
    ensures CountCells(features).value ==
            |Accepted(features, variant).value| + |Indices(features, f => Dropped(f, variant))|
    decreases |features|
  {
    if |features| > 0 {
      var n := |features| - 1;
      var f := features[n];
      var c := Classify(f, variant);
      AcceptedLastStep(features, variant, c);
      CountIsAcceptedPlusDropped(features[..n], variant);
      IndicesSnoc(features, f => Dropped(f, variant));
      CountOneOfClassified(f, variant, c);
      forall k | 0 <= k < |features[..n]| ensures !BadProperties(features[..n][k]) {
      }
    }
  }

  /** When the stream completes, so do its prefix and its last feature, which adds at most one geometry. */
  lemma AcceptedLastStep(features: seq<J>, variant: Variant, c: Result<Option<Extracted>>)
    requires |features| > 0 && Accepted(features, variant).Ok?
    requires c == Classify(features[|features| - 1], variant)
    ensures c.Ok? && Accepted(features[..|features| - 1], variant).Ok?
    ensures |Accepted(features, variant).value| == |Accepted(features[..|features| - 1], variant).value| + if c.value.Some? then 1 else 0
  {
  }

  /** A feature the stream gets through adds one to the count exactly when it is yielded or dropped. */
  lemma CountOneOfClassified(f: J, variant: Variant, c: Result<Option<Extracted>>)
    requires c == Classify(f, variant) && c.Ok?
    ensures !BadProperties(f)
    ensures CountOne(f) == Ok(if c.value.Some? || Dropped(f, variant) then 1 else 0)
  {
  }

  /**
   The progress total may overstate: the count is at least the number of
   yielded records, with equality exactly when no cell feature is dropped.
   */
  lemma CountBoundsStream(features: seq<J>, variant: Variant)
    requires Accepted(features, variant).Ok?
    ensures CountCells(features).Ok?
    ensures CountCells(features).value >= |Accepted(features, variant).value|
    ensures CountCells(features).value == |Accepted(features, variant).value|
            <==> forall k :: 0 <= k < |features| ==> !Dropped(features[k], variant)
  {
    CountIsAcceptedPlusDropped(features, variant);
    var dropped := Indices(features, f => Dropped(f, variant));
    if exists k :: 0 <= k < |features| && Dropped(features[k], variant) {
      var k :| 0 <= k < |features| && Dropped(features[k], variant);
      assert k in dropped;
    }
  }
}
