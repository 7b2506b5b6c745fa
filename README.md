# Zonal statistics and grid generation, modelled in Dafny

This project models two geoprocessing scripts.

`ZonalStats.py` computes, for every feature of a polygon layer, the
statistics of every band of a raster inside that feature's zone. The model
covers each step of `zonal_stats`:

- split the polygon argument into container path, file name and layer name
  (`get_file_path_fc`);
- search the layers for the first one with that name;
- advance a fresh feature cursor FID + 1 times;
- flatten the outer rings of a polygon or multipolygon into x and y lists;
- take the bounding box and its midpoint centroid, and check the centroid
  against the raster extent, bounds included;
- compute the pixel window (truncation toward zero, plus one, `pixelWidth`
  on both axes);
- read the nodata value and each band's `ColorInterp` label out of the
  `gdal.Info` report text;
- mask the window with the burnt zone and the nodata value;
- compute `avg`, `mean` and population `variance` per band, keyed by label or
  band number.

It also covers `loop_zonal_stats`, which collects those results for feature
positions 0 .. n-1. Every `sys.exit` and every uncaught Python exception ends
the run, so each becomes a `Fatal` value inside a `Result`.

`generateGrid.py` is modelled twice:

- as written: the cell counts, the `numpy.linspace` axes and the nested loops
  that list the cells column by column with their column and row numbers;
- corrected: the axis the doc comment describes, with cells of side `cell_m`
  (see Findings).

Modules, one per file:

| file | module | what |
|---|---|---|
| outcome.dfy | Outcome | `Option`, `Fatal`, `Result` |
| pytext.dfy | PyText | `str.find`, `str.split`, `str.strip`, `os.path.splitext`, `int()`, `str(int)` |
| paths.dfy | FilePaths | `get_file_path_fc` |
| layers.dfy | Layers | layer search loop, feature cursor class |
| geometry.dfy | Geometry | ring flattening, bounding box, centroid test, pixel window |
| info.dfy | GdalInfo | nodata value and band label from the `gdal.Info` text |
| bandstats.dfy | BandStats | masking, statistics, windowed band reads, the band loop |
| zonal.dfy | Zonal | `zonal_stats`, `loop_zonal_stats` |
| grid.dfy | Grid | `generateGrid` |

Each loop of the scripts is a Dafny method, and each method is proved equal
to a specification function. The properties are then proved about those
functions: `FindLayer` / `LayerSearch`, `FetchFeature`, `FlattenPoints` /
`OuterPoints`, `BandTable` / `Table`, `ZonalStats` / `ZonalStatsSpec`,
`LoopZonalStats` / `LoopSpec` and `GenerateGrid` / `GridCells`. The feature
cursor is a class whose `position` field `GetNextFeature` advances.

External calls become inputs:

- Files are looked up in an environment (`Zonal.Env`): vector files by path
  to their layers, rasters by path to their georeference, size, projection
  text, `gdal.Info` report and band grids.
- `gdal.RasterizeLayer` is a function `burn(request, column, row)`, given the
  whole zone layer and the target grid.

The scripts behave as follows where a reader might expect otherwise:

- The `+1` in the pixel counts does not guarantee that the window covers the
  bounding box. `Geometry.WindowMissesBoxEnd` gives a box whose right edge
  lies outside its window.
- A zone that exactly covers the raster passes the extent test. Its window is
  then one pixel larger than the band, and the band read fails
  (`Zonal.EdgeZoneOverruns`).
- An empty inclusion set prints no warning. The statistics are simply
  `AllMasked`.
- The nodata value is parsed as an integer from the report text. It is not
  read as a float.
- The mask burns the whole layer, not only the current feature
  (`Zonal.SameBoxSameStats`).
- Band 1's tag `Band 1` is a prefix of `Band 10`, so band 1 can pick up band
  10's label (`GdalInfo.BandOneMatchesBandTen`).
- A layer name that is also the name of a directory in front of the file cuts
  the path at that directory: `C:\data\roads.gdb\data` gives file path `C:`
  (`FilePaths.FilePathFcLayerNameInPath`).
- The first component with a dot is taken for the file even when it is a
  directory: `C:\Users\j.doe\roads.shp` gives file name `j.doe` and layer
  name `roads.shp` (`FilePaths.FilePathFcDottedDirectory`).

## Model

| member | source | states |
|---|---|---|
| PyText.FindFrom | ZonalStats.py:143 | the index found is an occurrence at or after `from`, no earlier one exists there, and None means none exists |
| PyText.Split | ZonalStats.py:143 | `str.split` gives at least one piece; the pieces join back to the text (SplitJoin), hold no separator (SplitPiecesFree), and are a single piece exactly when the separator is absent (SplitSingle) |
| PyText.SplitJoin | ZonalStats.py:178 | joining the pieces of a split with the separator gives back the text |
| PyText.SplitPiecesFree | ZonalStats.py:178 | no piece of a split contains the separator |
| PyText.SplitSingle | ZonalStats.py:143 | a split has a single piece exactly when the separator does not occur, so `[1]` raises IndexError exactly then |
| PyText.SplitAtFirst | ZonalStats.py:143 | when the first occurrence follows `a`, the split is `a` followed by the split of the rest |
| PyText.SplitFirstAfter | ZonalStats.py:156 | when no occurrence starts inside `a`, the first piece of `a + b` is `a` plus the first piece of `b` |
| PyText.SplitCharConcat | ZonalStats.py:178 | splitting on a character distributes over a text joined by that character |
| PyText.TrimLeft | ZonalStats.py:179 | the result is a suffix whose first character is kept, and everything removed is in the strip set |
| PyText.TrimRight | ZonalStats.py:179 | the result is a prefix whose last character is kept, and everything removed is in the strip set |
| PyText.Strip | ZonalStats.py:179 | the result is no longer than the text and neither of its ends is a strip character; StripPadded shows that exactly the padding goes |
| PyText.StripPadded | ZonalStats.py:179 | `strip` removes exactly the padding around a text whose ends are not strip characters |
| PyText.LastIndexOf | ZonalStats.py:182 | the index of the last occurrence of a character, or -1 |
| PyText.Stem | ZonalStats.py:182 | the result is the path itself or the path cut at a dot after which no `/` follows; StemDropsExtension shows a plain name loses exactly its last extension |
| PyText.StemDropsExtension | ZonalStats.py:182 | `os.path.splitext(base + "." + ext)[0]` is `base` |
| PyText.Show | ZonalStats.py:143 | `str(n)` is digits with an optional leading minus |
| PyText.ParseInt | ZonalStats.py:143 | `int()` on ASCII text, stated by ParseStrippedShow, ParseShow, ParseSurrounded, ParseRejects and ParseRejectsSeparator: it reads back `str(n)` with the whitespace `int()` strips (space, `\t`, `\n`, `\v`, `\f`, `\r`) on either side and rejects any character inside other than an ASCII digit or an underscore |
| PyText.ParseStrippedShow | ZonalStats.py:143 | `int(str(n)) == n` |
| PyText.ParseShow | ZonalStats.py:143 | `int()` reads back `str(n)` followed by any of space, `\t`, `\n`, `\v`, `\f`, `\r` |
| PyText.ParseSurrounded | ZonalStats.py:143 | `int()` reads back `str(n)` with any of space, `\t`, `\n`, `\v`, `\f`, `\r` before and after it |
| PyText.ParseRejectsSeparator | ZonalStats.py:143 | `int()` rejects `str(n)` followed by one of the separator characters 28 .. 31, which it does not strip |
| PyText.ParseRejects | ZonalStats.py:143 | `int()` rejects a text that has, after its first character, a character other than an ASCII digit or an underscore |
| FilePaths.Dotted | ZonalStats.py:178 | every kept component contains a dot |
| FilePaths.DottedFirst | ZonalStats.py:178 | the list comprehension is empty exactly when no component has a dot; otherwise its head is the first dotted component |
| FilePaths.FilePathFc | ZonalStats.py:177-185 | `get_file_path_fc`; its outcomes are stated by FilePathFcShape, FilePathFcPlainFile, FilePathFcContainer, FilePathFcDottedDirectory and FilePathFcLayerNameInPath |
| FilePaths.FilePathFcShape | ZonalStats.py:177-185 | the call fails exactly when no component has a dot; otherwise the file name is the first dotted component, has no backslash, and the file path is a prefix of the argument |
| FilePaths.FilePathFcPlainFile | ZonalStats.py:180-182 | `dir\name.ext` gives path `dir\name.ext`, file `name.ext`, layer `name` |
| FilePaths.FilePathFcContainer | ZonalStats.py:183-184 | `dir\store.gdb\layer` gives path `dir\store.gdb`, file `store.gdb`, layer `layer` |
| FilePaths.FilePathFcDottedDirectory | ZonalStats.py:178-184 | `dir\dotted\last` with a dot-free `dir` gives path `dir\dotted`, file `dotted` and layer `last`, even when `dotted` is a directory and `last` has an extension |
| FilePaths.FilePathFcLayerNameInPath | ZonalStats.py:179-184 | `drive\fc\name.ext\fc` gives path `drive`, file `name.ext`, layer `fc`: the path is cut at the directory named like the layer |
| Layers.FirstIndex | ZonalStats.py:47-50 | the first index at or after `from` holding the name, or None when there is none |
| Layers.LayerSearch | ZonalStats.py:47-52 | a layer found carries the feature-class name |
| Layers.LayerSearchCases | ZonalStats.py:47-52 | found at i iff i is the first match; not found iff layers exist and none matches; NoLayers iff there are none |
| Layers.FindLayer | ZonalStats.py:47-52 | the loop with `break` returns the search's outcome |
| Layers.FeatureCursor.constructor | ZonalStats.py:69-71 | a fresh cursor is at position 0 over the layer's features |
| Layers.FeatureCursor.GetNextFeature | ZonalStats.py:71 | returns the feature under the cursor, or None, and moves the cursor on by one |
| Layers.FetchFeature | ZonalStats.py:69-74 | both branches advance the cursor FID + 1 times, and the result is the feature at position FID, or None past the end |
| Layers.SparseIdentifiers | ZonalStats.py:69 | with stored identifiers 3 and 7, FID 1 reaches the feature whose identifier is 7 |
| Geometry.MemberRings | ZonalStats.py:83-91 | succeeds iff every member has an outer ring; fails with MissingOuterRing otherwise |
| Geometry.Planar | ZonalStats.py:80-101 | entry i of the x and y lists is the x and y of point i, for every point and no other; failures pass through unchanged |
| Geometry.SingleMemberIsPolygon | ZonalStats.py:80-99 | a one-member multipolygon yields exactly the points of that polygon |
| Geometry.MemberRingsAppend | ZonalStats.py:83-91 | the points of joined member lists are the joined points; joining fails iff a side fails |
| Geometry.XsYsSnoc | ZonalStats.py:89-90 | appending a point appends its x and y |
| Geometry.AppendRing | ZonalStats.py:87-90 | the inner loop appends the x and y of every point of the ring |
| Geometry.MemberRingsStep | ZonalStats.py:83-91 | one more member adds its outer ring after the points collected so far |
| Geometry.FlattenPoints | ZonalStats.py:76-101 | the loops return the x and y of ring 0 of a polygon or of each member's ring 0 in order, MissingOuterRing, or UnsupportedGeometry for any other type |
| Geometry.MinOf | ZonalStats.py:104 | `min` is an element no larger than any element |
| Geometry.MaxOf | ZonalStats.py:105 | `max` is an element no smaller than any element |
| Geometry.BoundingBox | ZonalStats.py:104-107 | the bounds are elements enclosing every point; an empty list fails with NoPoints |
| Geometry.CentroidInBox | ZonalStats.py:104-109 | the midpoint centroid lies inside the bounding box |
| Geometry.CentroidInRaster | ZonalStats.py:111-114 | the extent test on the midpoint centroid, bounds included; BoxInsideRasterPasses and SouthUpRejectsAll state when it passes |
| Geometry.BoxInsideRasterPasses | ZonalStats.py:111-114 | a box inside the extent, edges included, passes the test |
| Geometry.SouthUpRejectsAll | ZonalStats.py:111-114 | with a positive pixel height no box passes |
| Geometry.Trunc | ZonalStats.py:117-120 | `int()` truncates toward zero |
| Geometry.CountBracket | ZonalStats.py:119-120 | a count is at least 1 and brackets the span between count-1 and count pixels |
| Geometry.WindowOf | ZonalStats.py:117-120 | the pixel window; WindowCounts, WindowOffsets, WindowMissesBoxEnd and WindowRowsUseWidth state its counts and offsets |
| Geometry.WindowCounts | ZonalStats.py:119-120 | with a positive pixel width both counts are at least 1, and `(count-1)*pw <= span < count*pw` on both axes |
| Geometry.WindowOffsets | ZonalStats.py:117-118 | for a box right of and below the origin, the offsets are the whole numbers of pixel widths to its corner |
| Geometry.WindowMissesBoxEnd | ZonalStats.py:117-120 | the window of box x 0.9..1.8 at unit pixels is column 0 alone, which stops before 1.8 |
| Geometry.WindowRowsUseWidth | ZonalStats.py:118 | the row offset divides by the pixel width: 6 where pixel height 2 would give 3 |
| GdalInfo.NodataValue | ZonalStats.py:141-145 | the nodata value read from the report, stated by NodataAbsent, NodataWord, NodataReadsBack and NodataRunsIntoNextLine |
| GdalInfo.NodataAbsent | ZonalStats.py:141-145 | without the marker the nodata value is None |
| GdalInfo.NodataWord | ZonalStats.py:143 | the word after the first marker, up to the next space, is what gets parsed |
| GdalInfo.NodataReadsBack | ZonalStats.py:143 | a value written after the marker and followed by a space, or by whitespace other than a space (tab, line feed, vertical tab, form feed, carriage return) and then a space or the end, reads back |
| GdalInfo.NodataRunsIntoNextLine | ZonalStats.py:143-145 | a value followed by a line break and a word is lost, and the warning is printed |
| GdalInfo.BandTag | ZonalStats.py:156 | the tag starts with `B` and has no line break |
| GdalInfo.BandLabel | ZonalStats.py:155-159 | the `ColorInterp` label of a band, stated by LabelReadsBack and BandOneMatchesBandTen |
| GdalInfo.KeyOf | ZonalStats.py:155-169 | the dictionary key of a band: its label when one is read, else its number; BandStats.TableKeys states the keys of the result |
| GdalInfo.LabelReadsBack | ZonalStats.py:156 | a paragraph `Band k ... ColorInterp=<label>` yields that label |
| GdalInfo.BandOneMatchesBandTen | ZonalStats.py:156 | band 1 takes the label of band 10 from a report with only band 10 |
| BandStats.Kept | ZonalStats.py:161-166 | the pixels the masked array keeps, stated by KeptMembers, KeptPositions and KeptMultiplicity |
| BandStats.KeptRowMembers | ZonalStats.py:162-166 | a value is kept in a row iff some pixel with that value has a nonzero mask and is not nodata |
| BandStats.KeptMembers | ZonalStats.py:162-166 | a value is kept iff some pixel with that value has a nonzero mask and, when nodata is known, differs from it (how often: BandStats.KeptMultiplicity) |
| BandStats.KeptRowPositions | ZonalStats.py:162-166 | the kept pixels of a row are exactly the pixels at its kept columns, each once, in column order |
| BandStats.KeptPositions | ZonalStats.py:162-166 | the kept pixels are exactly the pixels at the (row, column) positions with a nonzero mask that are not nodata, each once, in row-major order |
| BandStats.KeptMultiplicity | ZonalStats.py:162-173 | a value occurs among the kept pixels as often as there are kept (row, column) positions holding it, so the sum, mean and variance count each included pixel once and no excluded pixel |
| BandStats.NodataOnlyRemoves | ZonalStats.py:165-166 | masking the nodata value never adds pixels |
| BandStats.StatsOf | ZonalStats.py:169-173 | all-masked iff no pixel is kept; `avg == mean` |
| BandStats.SumBounds | ZonalStats.py:169-170 | bounds on the elements bound the sum |
| BandStats.Mean | ZonalStats.py:169-170 | the mean of the kept pixels; MeanBetween and StatsRange place it between the smallest and largest kept pixel |
| BandStats.MeanBetween | ZonalStats.py:170 | the mean lies between bounds of the elements |
| BandStats.SquaredDeviationNonNegative | ZonalStats.py:173 | the sum of squared deviations is non-negative |
| BandStats.SquareSign | ZonalStats.py:173 | a square is non-negative, and positive off zero |
| BandStats.Variance | ZonalStats.py:173 | the population variance; VarianceNonNegative and VarianceZero state its sign and when it vanishes |
| BandStats.VarianceNonNegative | ZonalStats.py:173 | the population variance is non-negative |
| BandStats.SquaredDeviationZero | ZonalStats.py:173 | the squared deviations vanish iff every element equals the centre |
| BandStats.VarianceZero | ZonalStats.py:173 | the variance is 0 iff every kept pixel equals the mean |
| BandStats.UniformZone | ZonalStats.py:169-173 | a zone of uniform value v has mean v and variance 0 |
| BandStats.StatsRange | ZonalStats.py:169-173 | the variance is non-negative and the mean lies between the smallest and largest kept pixel |
| BandStats.NodataPixelsIgnored | ZonalStats.py:162-173 | pixels -9999, 5, 5, -9999 with nodata -9999 keep 5, 5 and give mean 5 and variance 0 |
| BandStats.ReadWindow | ZonalStats.py:152 | a window inside the band reads the pixels at the offsets; one outside fails with WindowOutOfRange |
| BandStats.BandResult | ZonalStats.py:151-173 | one band's statistics exist iff the window is inside the band |
| BandStats.BandTable | ZonalStats.py:147-173 | the band loop returns the table of all bands, or the first read failure |
| BandStats.StoreFails | ZonalStats.py:147-169 | storing succeeds iff every value does, and fails with their common error |
| BandStats.StoreKeys | ZonalStats.py:169 | the keys stored are the keys of the values stored |
| BandStats.StoreLastWins | ZonalStats.py:169 | a value survives unless a later one has the same key |
| BandStats.Table | ZonalStats.py:147-173 | the statistics dictionary after n bands, stated by TableFails, TableKeys and TableLastWins |
| BandStats.TableFails | ZonalStats.py:152 | the table fails iff there is a band and the window leaves the band, with WindowOutOfRange |
| BandStats.TableKeys | ZonalStats.py:155-169 | the table's keys are the keys (label or number) of bands 1 .. n |
| BandStats.TableLastWins | ZonalStats.py:155-169 | a band's statistics survive unless a later band has the same key |
| Zonal.OpenZone | ZonalStats.py:41-52 | an opened zone has parsed its path, and a layer found indexes the layer list |
| Zonal.OpenLayers | ZonalStats.py:43-52 | the layers are the file's; a layer found carries the name; none found means no layers; failures are FileOpenFailed or FeatureNotFound |
| Zonal.OpenZoneLayers | ZonalStats.py:41-52 | the opening steps return what OpenZone specifies |
| Zonal.BurntPixelsCounted | ZonalStats.py:135-166 | a band's statistics run over exactly the burnt pixels of the window that differ from nodata, each once, in row-major order |
| Zonal.ZonalStats | ZonalStats.py:35-174 | the body of `zonal_stats` returns what ZonalStatsSpec specifies |
| Zonal.ZonalStatsSpec | ZonalStats.py:35-174 | `zonal_stats` as a function, stated by FeatureErrors, ZonalOutputShape, SameBoxSameStats and EdgeZoneOverruns |
| Zonal.ZoneOutput | ZonalStats.py:108-174 | the steps from the bounding box on return what BoxStats specifies |
| Zonal.LoopZonalStats | ZonalStats.py:188-210 | the loop returns what LoopSpec specifies |
| Zonal.LoopSpec | ZonalStats.py:188-210 | `loop_zonal_stats` as a function, stated by CollectKeys, CollectFirstError and LoopInnerErrors |
| Zonal.CollectStops | ZonalStats.py:205-208 | once a prefix fails, every longer prefix fails with the same error |
| Zonal.CollectKeys | ZonalStats.py:205-210 | a successful dictionary has exactly the keys 0 .. n-1, each holding that feature's result |
| Zonal.CollectFirstError | ZonalStats.py:205-208 | the loop fails iff some feature fails, with the error of the first failing feature |
| Zonal.LoopInnerErrors | ZonalStats.py:188-210 | once the layer is found, a failing run never ends on the path, the file, the layer search or a missing feature |
| Zonal.FeatureErrors | ZonalStats.py:35-174 | for a feature position of the found layer, `zonal_stats` fails only on the raster, the geometry, the window or the band reads |
| Zonal.AfterOpenErrors | ZonalStats.py:55-174 | past the layer search, the same holds for the remaining steps |
| Zonal.ZoneBoxErrors | ZonalStats.py:69-107 | the box fails only on a missing feature, ring or point, or an unsupported type; FeatureMissing iff FID is past the end |
| Zonal.BoxStatsErrors | ZonalStats.py:108-174 | past the box, a run fails only on the extent test, the pixel width, the window size or a band read |
| Zonal.ZonalOutputShape | ZonalStats.py:141-173 | a result has one entry per distinct band key, and the nodata warning is printed iff no nodata value was read |
| Zonal.SameBoxSameStats | ZonalStats.py:135 | two features with the same bounding box get the same statistics, whatever their shapes |
| Zonal.EdgeZoneOverruns | ZonalStats.py:111-120 | a zone that exactly covers a 10 x 10 raster passes the extent test, gets an 11 x 11 window, and that window leaves the band |
| Grid.Ceil | generateGrid.py:14-15 | `ceil` is the least integer not below its argument |
| Grid.PointCount | generateGrid.py:14-15 | the count brackets span / cell_m from above, and a zero cell size fails |
| Grid.Linspace | generateGrid.py:16-17 | `linspace` returns `num` points |
| Grid.AxisAsWritten | generateGrid.py:14-17 | the axis fails only on a zero cell size or a negative count |
| Grid.LinspaceSpacing | generateGrid.py:16-17 | with at least two points the axis starts at lo, ends at hi, and is evenly spaced by (hi-lo)/(num-1) |
| Grid.AxisCellsTooWide | generateGrid.py:14-17 | as written, the axis has fewer than span / cell_m cells, each wider than cell_m |
| Grid.TwentyMetresOneCell | generateGrid.py:14-17 | a 20 m span with 10 m cells gives axis [0, 20]: one 20 m cell |
| Grid.IntendedAxis | generateGrid.py:8-17 | the corrected axis fails only on a zero cell size or a negative count |
| Grid.IntendedAxisCovers | generateGrid.py:8-17 | the corrected axis starts at lo, steps by cell_m, has ceil(span / cell_m) cells, and its last cell is the first to reach hi |
| Grid.CellCountBrackets | generateGrid.py:14 | ceil(span / cell_m) cells of side cell_m cover the span, one fewer does not |
| Grid.GridCols | generateGrid.py:28 | one column number per cell |
| Grid.GridRows | generateGrid.py:29 | one row number per cell |
| Grid.GridCells | generateGrid.py:24-27 | (len(x)-1)·(len(y)-1) cells |
| Grid.GenerateGrid | generateGrid.py:20-29 | the nested loops produce exactly the cells, columns and rows the functions list |
| Grid.GridListsEveryCell | generateGrid.py:24-29 | cell (i, j) is entry i·(len(y)-1)+j, with column i and row j |
| Grid.GridEntriesDistinct | generateGrid.py:24-29 | every entry's column and row are in range, and no (column, row) pair appears twice |
| Grid.RightNeighbourSharesEdge | generateGrid.py:26 | the right edge of cell (i, j) is the left edge of cell (i+1, j) |
| Grid.UpperNeighbourSharesEdge | generateGrid.py:26 | the top edge of cell (i, j) is the bottom edge of cell (i, j+1) |
| Grid.ColumnMajor | generateGrid.py:24-29 | entry i·ny + j decodes back to column i and row j |

## Left out

- Median (ZonalStats.py:171): `numpy.median` on a masked array may or may not honour the mask, depending on numpy.
- Standard deviation (ZonalStats.py:172): a floating-point square root; only the variance it comes from is modelled.
- Floating point: coordinates, pixels and statistics are exact reals, so there is no rounding and no NaN.
- `geom.Transform` and the spatial-reference objects (ZonalStats.py:58-66, 77-79): features are given already in the raster's reference system.
- A feature without a geometry (ZonalStats.py:77): `GetGeometryRef()` returns None and the next attribute access raises AttributeError. Every modelled feature carries a geometry, so this failure is not modelled. It would end the run like the modelled failures do.
- PyText.ParseInt / PyText.ParseRejects: only ASCII digits and the ASCII whitespace `int()` strips (space, tab, line feed, vertical tab, form feed, carriage return) are modelled, because `gdal.Info` prints its numbers in ASCII. Python's `int()` also accepts other Unicode decimal digits (`int("1\u0663") == 13`) and strips other Unicode whitespace (`int("\xa05") == 5`). The model rejects these, so ParseRejects is a statement about ASCII text.
- GDAL and OGR internals: opening files, `GetGeoTransform`, the MEM driver and `RasterizeLayer` are inputs of the environment. Skew terms of the geotransform are not used by the script and are not carried.
- The printing of `gdal.Info` before the SRS error (ZonalStats.py:63) and the nodata warning text: the warning is a flag in the result.
- The `TypeError` raised when the open-failure message is concatenated with the exception (ZonalStats.py:46, 197): the run ends either way, modelled as FileOpenFailed.
- The repeated `get_file_path_fc` call (ZonalStats.py:189) is pure, and the zone file is re-opened for every feature: both are modelled as the same lookup in an unchanging environment.
- Process exit status, `main` and the `__main__` blocks of both scripts.
- Grid.GenerateGrid: shapely polygons, the GeoDataFrame, the CRS, `tqdm` and the shapefile output; a cell is its four corners.
- Grid.GenerateGrid: takes the two axes as inputs. The axes `numpy.linspace` builds are modelled separately by Grid.AxisAsWritten.
- wfs2shp.py and koffee.py are not part of this model.

## Findings

| source | as written | input that shows it | evidently intended | confidence | as-written member | corrected member |
|---|---|---|---|---|---|---|
| generateGrid.py:14-17 | `cellsX = ceil(span / cell_m)` is passed to `linspace` as the number of points, giving cellsX-1 cells of width span/(cellsX-1), each wider than cell_m | bbox x 0..20 with cell_m 10: axis [0, 20], one 20 m cell | cells of side cell_m starting at xmin, ceil(span / cell_m) of them, covering the span | not executed | Grid.AxisCellsTooWide | Grid.IntendedAxisCovers |
