# Segmentation mask maker: a Dafny model of the extraction, rasterization and encoding core

The tool turns a QuPath GeoJSON export of segmented cells into two label
images, a cell mask and a nucleus mask, in three stages:

1. **Geometry extraction.** `stream_cell_geometries` walks the features, keeps
   those whose `properties.objectType` is `"cell"` and whose cell ring is
   non-empty, and numbers them 1, 2, ... in input order. `count_cells` is a
   separate pass that counts cell features to size a progress bar.
   `parse_polygon_coordinates` picks the ring out of a coordinate array. It
   exists in two copies: `src/segmentation_mask_maker/parser.py` always takes
   `coords[0]`, and `src/geojson2masks/parser.py` also recognises MultiPolygon
   nesting. Both copies are modelled; `Parser.Variant` selects one.
2. **Rasterization.** `create_label_masks` starts from two zeroed
   `height x width` grids. Each record fills its cell ring with its id in the
   cell grid and, when it has a non-empty nucleus ring, that ring in the
   nucleus grid. Later records overwrite earlier ones. Vertices are rounded half
   to even by `polygon_to_pixel_coords`.
3. **Encoding.** `determine_optimal_dtype` picks the narrowest of uint8, uint16
   and uint32 for the largest id. `convert_mask_dtype` converts a mask to that
   type. The command-line tool takes the largest id over both masks and
   converts both with it.

The model works on decoded JSON values (`PyJson.J`), not on the file. Python
exceptions are the `Raised` case of `PyJson.Result`. The polygon fill of the
image library is a parameter `fill: FillFn` of the rasterizer. The ghost
predicate `FillInBounds` states what the model relies on from it: every
reported pixel lies inside the image. Each output pixel is specified by the
reference function `Rasterizer.LastCover`: the id of the last record that
paints it, or 0. `Scenarios.RectFill` is a concrete fill for axis-aligned
rectangles: their bounding box, boundary included, clipped to the image. The
repository's test cases are restated with it.

Files: `py_json.dfy` (JSON values and the Python operations on them),
`parser.dfy` and `parser_properties.dfy` (extraction), `rasterizer.dfy` and
`rasterizer_properties.dfy`, `encoder.dfy` and `encoder_properties.dfy`, and
`scenarios.dfy` (the test cases).

Where the repository's tests and docstrings promise more than its code does,
the model follows the code:

- `tests/test_cli.py:143-162` asserts that every nonzero nucleus id also
  appears in the cell grid. That holds for the test fixture, but the code does
  not ensure it in general. `Scenarios.NucleusIdWithoutCell` gives two records
  where a later cell covers an earlier one completely: the earlier nucleus
  keeps its id in the nucleus grid, while no cell pixel holds that id.
- `tests/test_parser.py:181-191` asserts at least 3 points per ring on the
  real data file. Neither parser checks this: any non-empty ring is accepted,
  and nothing here assumes a minimum length.
- The docstring of the simple copy (`src/segmentation_mask_maker/parser.py:24-25`)
  calls the outer list the multi-polygon level, but the code takes `coords[0]`
  as the ring. On MultiPolygon input that copy raises, and on a scalar at
  `coords[0][0]` too. The docstring of the aware copy
  (`src/geojson2masks/parser.py:24-28`) matches its code. Both copies are
  modelled, and `ParserProperties.PolygonInputAgrees` proves that they agree on
  Polygon input.
- The docstring of `determine_optimal_dtype` (`rasterizer.py:86-87`) promises
  a type that holds every id. Above 2^32 - 1 the code still returns uint32,
  and `astype` then wraps the value (`Encoder.Wrap`). The model states
  preservation only when every value lies in `[0, max]` of the chosen type.

## Model

| member | source | states |
|---|---|---|
| PyJson.Truthy | src/segmentation_mask_maker/parser.py:27 | Python truth value: false exactly for None, 0, the empty string, the empty list and the empty dict. The same test decides `if not cell_polygon` (parser.py:66), `if nucleus_coords` (parser.py:72) and `if cell.nucleus_polygon` (rasterizer.py:68). |
| PyJson.Index | src/segmentation_mask_maker/parser.py:31-32 | `coords[0]`, `pt[0]`, `pt[1]`: succeeds exactly on a list or string with that index in range. A list gives its element; a string gives a one-character string. |
| PyJson.Get | src/segmentation_mask_maker/parser.py:57-63 | `.get(key, default)` succeeds exactly on a dict. It returns the key's value when the key is present and the default otherwise. |
| PyJson.ToFloat | src/segmentation_mask_maker/parser.py:32 | `float()` of a decoded number is that number. Every other value raises in the model; numeric strings are listed under Left out. |
| Parser.ConvertPoint | src/segmentation_mask_maker/parser.py:32 | A point converts exactly when it is a list whose first two entries are numbers, giving `(pt[0], pt[1])`. |
| Parser.ConvertPoints | src/geojson2masks/parser.py:48 | A ring converts exactly when every point does. The result has the same length, order and closing point, and is converted pointwise. |
| Parser.CellCoordinates | src/segmentation_mask_maker/parser.py:62-63 | `feature.get('geometry', {}).get('coordinates', [])` raises exactly when the feature, or a present `geometry`, is not a dict. Otherwise it is `geometry.coordinates` when both keys are present, and `[]` otherwise. |
| Parser.NucleusCoordinates | src/segmentation_mask_maker/parser.py:70-71 | The same for `nucleusGeometry`: it raises exactly when the feature, or a present `nucleusGeometry`, is not a dict, and otherwise gives its `coordinates` or `[]`. |
| Parser.ParsePolygonOnly | src/segmentation_mask_maker/parser.py:27-32 | Missing or empty coordinates give the empty ring. On Polygon input the ring is `coords[0]` converted pointwise. Conversely, every non-empty result is exactly that conversion of a Polygon-shaped input. It raises exactly when a truthy `coords[0]` is not a list of coordinate pairs, so `[[[1]]]` aborts instead of giving the empty ring. |
| Parser.ParseMultiPolygonAware | src/geojson2masks/parser.py:30-48 | Missing or empty coordinates give the empty ring. On Polygon input the ring is `coords[0]`, and on MultiPolygon input it is `coords[0][0]`, converted pointwise. Conversely, every non-empty result is one of these two. It raises exactly when `coords[0]` or `coords[0][0]` cannot be indexed (a number or a dict), or when a list at `coords[0][0]` selects a ring that does not convert. |
| Parser.Classify | src/segmentation_mask_maker/parser.py:57-78 | One loop iteration. It succeeds only on a dict feature whose properties are a dict or absent. A well-formed non-cell feature is skipped. A yielded record comes from a cell feature and carries the non-empty ring parsed from `geometry.coordinates`. |
| Parser.ClassifyCases | src/segmentation_mask_maker/parser.py:57-78 | Both directions. A record is yielded exactly for a cell feature whose cell ring parses to a non-empty ring and whose nucleus coordinates, when present, parse too; its nucleus is `None` exactly when those coordinates are missing or empty. A feature is skipped exactly when it is a well-formed non-cell, or a cell feature whose cell ring parses to the empty ring. |
| Parser.Accepted | src/segmentation_mask_maker/parser.py:55-67 | Reference filter: at most one geometry per feature, each with a non-empty cell ring. |
| Parser.Numbered | src/segmentation_mask_maker/parser.py:74-80 | The ids count up from 1 without gaps, one per accepted geometry. Dropping the ids gives the accepted geometries back. |
| Parser.AcceptedRaisedExtends | src/segmentation_mask_maker/parser.py:55 | Once a feature raises, the stream raises whatever follows. |
| Parser.StreamCellGeometries | src/segmentation_mask_maker/parser.py:48-80 | The generator raises exactly when the reference filter raises. Otherwise it yields exactly the accepted geometries in input order, with ids 1..N and no gaps, each with a non-empty cell ring. This holds for both copies; the loop in src/geojson2masks/parser.py:64-96 is the same. |
| Parser.CountCells | src/segmentation_mask_maker/parser.py:95-101 | The count raises exactly when some feature has a `properties` value that is not a dict. Otherwise it equals the number of positions holding a cell feature. The counting pass in src/geojson2masks/parser.py:111-117 is the same. |
| Parser.CountOne | src/segmentation_mask_maker/parser.py:97-100 | One feature's share of the count raises exactly when its `properties` value is not a dict. Otherwise it is 1 for a cell feature and 0 for any other. |
| ParserProperties.EmptyCoordinatesGiveEmptyRing | src/geojson2masks/parser.py:30-31 | Missing or empty coordinates, or an empty `coords[0]`, give the empty ring in both copies. |
| ParserProperties.PolygonInputAgrees | src/segmentation_mask_maker/parser.py:27-32 | On Polygon input both copies return `coords[0]` converted pointwise. Length, order and closing point are kept, so the two copies agree. |
| ParserProperties.MultiPolygonInputTakesFirstExterior | src/geojson2masks/parser.py:36-41 | On MultiPolygon input the aware copy returns the first polygon's exterior ring. The simple copy raises. |
| ParserProperties.ScalarAtDepthTwo | src/geojson2masks/parser.py:37-46 | A scalar at `coords[0][0]` gives the empty ring in the aware copy. The simple copy raises in the model; Python accepts a numeric string there (see Left out). |
| ParserProperties.HolesIgnored | src/segmentation_mask_maker/parser.py:30-32 | Rings after the first never change the result, in either copy. |
| ParserProperties.LaterPolygonsIgnored | src/geojson2masks/parser.py:39-41 | Holes of the first polygon and all later polygons never change the aware copy's result. |
| ParserProperties.NucleusAbsentExactlyWhenCoordinatesEmpty | src/geojson2masks/parser.py:85-88 | A yielded record has no nucleus exactly when the nucleus coordinates are missing or empty. Otherwise it has their parsed ring, possibly empty. |
| ParserProperties.SkippedFeatureIrrelevant | src/segmentation_mask_maker/parser.py:57-67 | A skipped feature can be removed from anywhere in the input without changing the stream. In particular it uses no id. |
| ParserProperties.NonCellFeatureIrrelevant | src/segmentation_mask_maker/parser.py:57-59 | A well-formed non-cell feature affects neither the stream nor the count. |
| ParserProperties.CellIndicesWithout | src/segmentation_mask_maker/parser.py:98-100 | Removing a non-cell feature leaves the number of cell positions unchanged. |
| ParserProperties.CountIsAcceptedPlusDropped | src/geojson2masks/parser.py:72-117 | When the stream completes, so does the count. The count equals the yielded records plus the cell features dropped for an empty cell ring. |
| ParserProperties.CountBoundsStream | src/geojson2masks/parser.py:72-117 | The count is at least the number of yielded records. They are equal exactly when no cell feature is dropped. |
| Rasterizer.RoundHalfEven | src/segmentation_mask_maker/rasterizer.py:28 | The result is the nearest integer, and the even one on a tie. |
| Rasterizer.PolygonToPixelCoords | src/segmentation_mask_maker/rasterizer.py:26-30 | Point count and order are kept, and each coordinate is rounded half to even on its own. |
| Rasterizer.Zeros | src/segmentation_mask_maker/rasterizer.py:58-59 | A `height x width` grid of zeros. |
| Rasterizer.Paint | src/segmentation_mask_maker/rasterizer.py:65 | A fill writes the colour into exactly the pixels it covers, leaves the rest, and keeps the shape. |
| Rasterizer.LayerPolygon | src/segmentation_mask_maker/rasterizer.py:63-70 | In the cell grid a record fills its cell ring. In the nucleus grid it fills its nucleus ring exactly when that ring is present and non-empty, and nothing otherwise. |
| Rasterizer.Covered | src/segmentation_mask_maker/rasterizer.py:64-70 | A record that fills no ring in a grid paints no pixel there. |
| Rasterizer.CoveredInBounds | src/segmentation_mask_maker/rasterizer.py:65 | With an in-bounds fill, every pixel a record paints lies inside the image. |
| Rasterizer.LastCover | src/segmentation_mask_maker/rasterizer.py:61-70 | Reference value of a pixel: 0, or the id of some record that paints it. |
| Rasterizer.LastCoverAppend | src/segmentation_mask_maker/rasterizer.py:62-65 | One more record takes every pixel it paints and leaves the others as they were. |
| Rasterizer.RasterizesSnoc | src/segmentation_mask_maker/rasterizer.py:62-70 | Painting the next record over the grid of the records before it gives the grid of the records up to it. |
| Rasterizer.CreateLabelMasks | src/segmentation_mask_maker/rasterizer.py:58-76 | Negative dimensions raise (grid allocation). Otherwise both grids are `height x width`, and every pixel holds the id of the last record painting it in that layer, or 0. When a callback and a non-zero total are given, there is one progress call per record, `(k, total)` for k = 1..n; otherwise there are none. |
| RasterizerProperties.RoundingIsUnique | src/segmentation_mask_maker/rasterizer.py:28 | Only one integer is nearest with ties to even, and the rounding function returns it. |
| RasterizerProperties.IntegerCoordinatesUnchanged | src/segmentation_mask_maker/rasterizer.py:26-30 | Integer vertices come back unchanged. |
| RasterizerProperties.LastWriteWins | src/segmentation_mask_maker/rasterizer.py:62-65 | A pixel holds the id of the last record, in input order, that paints it. |
| RasterizerProperties.UncoveredIsBackground | src/segmentation_mask_maker/rasterizer.py:58-65 | A pixel that no record paints stays 0. |
| RasterizerProperties.LastRecordShowsThrough | src/segmentation_mask_maker/rasterizer.py:65 | With an in-bounds fill, every pixel the last record paints is in the image and shows its id. |
| RasterizerProperties.CellLayerIgnoresNuclei | src/segmentation_mask_maker/rasterizer.py:63-70 | Nucleus rings never change the cell grid. |
| RasterizerProperties.RecordWithoutNucleusInvisible | src/segmentation_mask_maker/rasterizer.py:68-70 | A record without a non-empty nucleus ring leaves no trace in the nucleus grid. |
| RasterizerProperties.LabelsAreRecordIds | src/segmentation_mask_maker/rasterizer.py:63-70 | Every nonzero label is the id of a record that paints that pixel. Ids that fit int32 are stored exactly. |
| Encoder.DetermineOptimalDtype | src/segmentation_mask_maker/rasterizer.py:89-94 | The chosen type is unsigned and holds `max_cell_id` whenever uint32 can. Every narrower unsigned type is too small. Above 65535 it is uint32. |
| Encoder.Wrap | src/segmentation_mask_maker/rasterizer.py:110 | `astype` reduces a value modulo the type's range into that range. Values that fit are unchanged. |
| Encoder.AsType | src/segmentation_mask_maker/rasterizer.py:110 | The converted mask has the target type and the same shape, and each element is wrapped on its own. |
| Encoder.ConvertMaskDtype | src/segmentation_mask_maker/rasterizer.py:108-111 | The result has the type chosen for `max_cell_id` and the same shape. It is the input itself when already of that type. Values are kept when all lie in `[0, max]` of that type. A well-typed mask stays well-typed. |
| Encoder.GridMax | src/segmentation_mask_maker/cli.py:154 | `mask.max()` raises on a mask without elements. Otherwise it is an element that bounds all others. |
| Encoder.EncodeMasks | src/segmentation_mask_maker/cli.py:154-160 | Both masks are encoded with one shared unsigned type and keep their shapes. Every label is kept when all labels are non-negative int32 values. The shared type is the one chosen for the largest label over both masks, which is what `max(cell_mask.max(), nucleus_mask.max())` computes. |
| EncoderProperties.DtypeThresholds | src/segmentation_mask_maker/rasterizer.py:89-94 | Up to 255 gives 8 bits, up to 65535 gives 16, above that 32 (at the test values 0 ... 1000000). |
| EncoderProperties.DtypeMonotone | src/segmentation_mask_maker/rasterizer.py:89-94 | A larger maximum never selects a narrower type. |
| EncoderProperties.ConvertIdempotent | src/segmentation_mask_maker/rasterizer.py:108-111 | Converting twice is converting once. |
| EncoderProperties.ConvertKeepsLabelsUpToMax | src/segmentation_mask_maker/rasterizer.py:108-111 | Every value in `[0, max_cell_id]` survives conversion. |
| EncoderProperties.RasterizedLabelsAtMost | src/segmentation_mask_maker/rasterizer.py:58-76 | A rasterized grid holds no label above the largest record id, and none below 0. |
| EncoderProperties.EncodedTypeFitsIds | src/segmentation_mask_maker/cli.py:141-160 | Encoding rasterized grids loses no label, and the type is never wider than the one chosen for the largest record id. |
| EncoderProperties.RasterizedLabelsInRange | src/segmentation_mask_maker/rasterizer.py:58-76 | A rasterized grid of non-negative int32 ids holds only labels in `[0, 2^31 - 1]`. |
| EncoderProperties.RasterizedMasksEncodeLosslessly | src/segmentation_mask_maker/cli.py:141-160 | Rasterizing non-empty grids and encoding both together loses no label. |
| Scenarios.RectFillInBounds | src/segmentation_mask_maker/rasterizer.py:65 | The rectangle fill used by the scenarios keeps the fill's in-bounds promise. |
| Scenarios.SimpleSquareScenario | tests/test_parser.py:20-30 | The square test ring comes back as its five points, closing point included. |
| Scenarios.PolygonWithHoleScenario | tests/test_parser.py:46-56 | For a polygon with a hole only the five-point exterior ring is returned. |
| Scenarios.ClassifyAnnotation | tests/conftest.py:46-59 | The annotation fixture is a well-formed non-cell feature and is skipped. |
| Scenarios.MixedFeaturesScenario | tests/test_parser.py:108-113 | The mixed fixture yields exactly the two cell geometries, the second without a nucleus, in both copies. |
| Scenarios.MixedFeaturesCount | tests/test_parser.py:145-148 | The count over the mixed fixture is 2. |
| Scenarios.EmptyCollectionScenario | tests/test_parser.py:115-164 | No features give no records and a count of 0. |
| Scenarios.MixedFeaturesRecords | tests/test_parser.py:108-113 | The mixed fixture's records have ids 1 and 2; the first has its nucleus and the second has none. This carries the per-record checks of the two-cell fixture (ids from 1, parsed rings, a cell without a nucleus) over to the mixed fixture, where the skipped annotation uses no id. |
| Scenarios.MixedFeaturesEndToEnd | src/segmentation_mask_maker/cli.py:141-160 | The extractor yields the two records of the mixed fixture. Any pair of grids rasterizing them into a 50 by 50 image labels both squares and keeps (0, 0) as background, and the encoding step turns them into uint8 masks with every label kept. |
| Scenarios.RoundingScenario | tests/test_rasterizer.py:28-36 | 10.4, 20.6, 30.5 and 20.4 round to 10, 21, 30 and 20. |
| Scenarios.TwoCellsScenario | tests/test_rasterizer.py:67-94 | Two disjoint cells show their ids in both grids, and (0, 0) stays 0. |
| Scenarios.OverlapScenario | tests/test_rasterizer.py:172-196 | In the overlap the later cell wins; outside it each cell keeps its own id. |
| Scenarios.LargeIdScenario | tests/test_rasterizer.py:157-170 | The id 100000 is stored exactly in both grids. |
| Scenarios.NoNucleusScenario | tests/test_rasterizer.py:96-113 | A cell without a nucleus is labelled in the cell grid and leaves every nucleus pixel 0. |
| Scenarios.NucleusIdWithoutCell | tests/test_cli.py:143-162 | A nucleus id can be absent from the cell grid when a later cell covers its cell. |
| Scenarios.ConvertScenarios | tests/test_rasterizer.py:224-254 | The test masks convert to uint8, uint16 and uint32 with their values kept. A uint8 mask with maximum 4 is returned as is. |

## Left out

- Reading the file: ijson's incremental parsing, file opening and the memory bound. The model takes the decoded feature list.
- Internals of `cv2.fillPoly`. It is the parameter `fill`, and no fill rule or treatment of degenerate polygons is assumed. `RectFill` stands in for it only in the scenarios, on axis-aligned rectangles.
- The float32 cast in `polygon_to_pixel_coords` and the int32 overflow of rounded coordinates. Coordinates are exact reals and only the round-half-even step is modelled.
- The `(N, 1, 2)` array shape of the pixel coordinates. It is an encoding detail for the fill; the model keeps a flat list of `(x, y)` points.
- PyJson.ToFloat: `float()` of a numeric string such as `"12"` or `" 3.5 "` is not modelled. The model raises on every value that is not a number.
- ParserProperties.ScalarAtDepthTwo: the simple copy's raise is the model's. Python reads a string of at least two digits at `coords[0][0]`, such as `"12"`, as the point `(1.0, 2.0)` instead of raising on it.
- Parser.ConvertPoint: `float()` of a numeric string, and JSON booleans, are not modelled. A string coordinate raises in the model, while Python would accept `"12"`. The JSON value type has no booleans.
- Parser.Classify: it records only that an exception is raised, not which one. Which error fires first can depend on dict key order, which a map does not have.
- Rasterizer.CreateLabelMasks: requires every id to fit int32. The grids are int32, and what `fillPoly` does with a colour outside that range is the image library's concern.
- Encoder.ConvertMaskDtype: `result is mask` (object identity) is modelled as returning the same value.
- numpy dtype objects are the enumeration `Encoder.DType`.
- Everything else in `src/segmentation_mask_maker/cli.py`: argument parsing, the progress bar, printing, file naming and TIFF writing. Only the encoding step (cli.py:154-160) is modelled.
- The progress callback's effect is not modelled. Its calls are returned as the list `progress`.
- A general "nucleus ids are a subset of cell ids" property is not stated, because the code does not guarantee it (see `Scenarios.NucleusIdWithoutCell`).
