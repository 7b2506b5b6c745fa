/** `zonal_stats` and `loop_zonal_stats` (ZonalStats.py:35-174 and 188-210):
    the statistics of every raster band inside the zone of one feature, and
    the dictionary of those results for every feature of the zone layer.
    Files are looked up in an environment; an uncaught exception or a
    `sys.exit` ends the run with a `Fatal` value. */
module Zonal {
  import opened Outcome
  import opened FilePaths
  import opened Geometry
  import opened Layers
  import opened GdalInfo
  import opened BandStats

  /** An opened raster: georeference, size in pixels, projection text (empty
      when undefined), the `gdal.Info` report and the bands in order. */
  datatype Raster = Raster(
    gt: GeoTransform, xSize: nat, ySize: nat,
    projection: string, info: string, bands: seq<Grid>)

  predicate RasterShaped(r: Raster)
  {
    forall b :: 0 <= b < |r.bands| ==> Shaped(r.bands[b], r.xSize, r.ySize)
  }

  /** What `gdal.RasterizeLayer` is given: the whole zone layer and the grid
      of the in-memory target (origin, pixel sizes, columns and rows). */
  datatype BurnRequest = BurnRequest(
    layer: Layer, originX: real, pixelWidth: real, originY: real, pixelHeight: real,
    cols: nat, rows: nat)

  /** The files the run can open, by path, and the rasterizer: `burn(req, c, r)`
      tells whether cell (column c, row r) of the target is burnt. */
  datatype Files = Files(
    vectors: map<string, seq<Layer>>,
    rasters: map<string, Raster>,
    burn: (BurnRequest, nat, nat) -> bool)

  predicate WellFormed(files: Files)
  {
    forall path :: path in files.rasters ==> RasterShaped(files.rasters[path])
  }

  /** An environment whose every raster band has the raster's size. */
  type Env = files: Files | WellFormed(files)
    witness Files(map[], map[], (req: BurnRequest, c: nat, r: nat) => false)

  /** The burnt target read back as floats: 1 where burnt, 0 elsewhere. */
  function Mask(env: Env, req: BurnRequest): (m: Grid)
    ensures Shaped(m, req.cols, req.rows)
    ensures forall i, j :: 0 <= i < req.rows && 0 <= j < req.cols ==>
      m[i][j] == (if env.burn(req, j, i) then 1.0 else 0.0)
  {
    seq(req.rows, i requires 0 <= i < req.rows =>
      seq(req.cols, j requires 0 <= j < req.cols => if env.burn(req, j, i) then 1.0 else 0.0))
  }

  /** The statistics of a band run over exactly the burnt pixels of the
      window that differ from the nodata value, each once and in row-major
      order. */
  lemma BurntPixelsCounted(env: Env, req: BurnRequest, data: Grid, nodata: Option<int>)
    returns (pos: seq<(nat, nat)>)
    requires Shaped(data, req.cols, req.rows)
    ensures |pos| == |Kept(data, Mask(env, req), nodata)|
    ensures forall k :: 0 <= k < |pos| ==>
      pos[k].0 < req.rows && pos[k].1 < req.cols
      && Kept(data, Mask(env, req), nodata)[k] == data[pos[k].0][pos[k].1]
    ensures forall k, l :: 0 <= k < l < |pos| ==> Before(pos[k], pos[l])
    ensures forall r, c :: 0 <= r < req.rows && 0 <= c < req.cols ==>
      ((r, c) in pos <==> env.burn(req, c, r) && (nodata.None? || data[r][c] != nodata.value as real))
  {
    pos := KeptPositions(data, Mask(env, req), nodata);
  }

  /** The result of one `zonal_stats` call: the statistics dictionary and
      whether the nodata warning was printed. */
  datatype ZonalOutput = ZonalOutput(stats: map<BandKey, Stats>, nodataWarning: bool)

  /** The zone file's layers and the index of the layer named like the
      feature class; `None` when the file has no layer at all. */
  datatype Opened = Opened(layers: seq<Layer>, found: Option<nat>)

  /** Parsing the path, opening the vector file and searching its layers
      (ZonalStats.py:41-52 and 192-203). A file without layers is not an
      error yet: the search loop never runs and `lyr` stays unbound. */
  function OpenZone(env: Env, zonePath: string): (r: Result<Opened>)
    ensures r.Ok? ==> FilePathFc(zonePath).Some?
    ensures r.Ok? && r.value.found.Some? ==> r.value.found.value < |r.value.layers|
  {
    match FilePathFc(zonePath)
    case None => Err(NoDottedComponent)
    case Some(parts) => OpenLayers(env, parts)
  }

  /** Opening the file and searching for the layer named like the feature
      class; the layers found are those of the file. */
  function OpenLayers(env: Env, parts: PathParts): (r: Result<Opened>)
    ensures r.Ok? ==> parts.filePath in env.vectors && r.value.layers == env.vectors[parts.filePath]
    ensures r.Ok? && r.value.found.Some? ==>
      r.value.found.value < |r.value.layers|
      && r.value.layers[r.value.found.value].name == parts.fcName
    ensures r.Ok? && r.value.found.None? ==> r.value.layers == []
    ensures r.Err? ==> r.error == FileOpenFailed(parts.filePath) || r.error == FeatureNotFound(parts.fcName, parts.filePath)
  {
    if parts.filePath !in env.vectors then Err(FileOpenFailed(parts.filePath))
    else
      var layers := env.vectors[parts.filePath];
      match LayerSearch(Names(layers), parts.fcName, parts.filePath)
      case Ok(i) => Ok(Opened(layers, Some(i)))
      case Err(e) => if e == NoLayers then Ok(Opened(layers, None)) else Err(e)
  }

  /** The feature at traversal position `fid`; reading past the end yields
      None and the next call on it fails. */
  function FeatureResult(features: seq<Feature>, fid: nat): (r: Result<Feature>)
    ensures r.Ok? <==> fid < |features|
    ensures r.Ok? ==> r.value == features[fid]
    ensures r.Err? ==> r.error == FeatureMissing(fid)
  {
    match FeatureAt(features, fid)
    case Some(f) => Ok(f)
    case None => Err(FeatureMissing(fid))
  }

  /** The bounding box of the feature's outer-ring points (lines 69-107). */
  function ZoneBox(layer: Layer, fid: nat): Result<Box>
  {
    var feat :- FeatureResult(layer.features, fid);
    var points :- Planar(OuterPoints(feat.shape));
    BoundingBox(points.0, points.1)
  }

  /** Everything after the bounding box (lines 108-174): the extent test, the
      pixel window, the burnt mask of the whole layer, the nodata value and
      the band loop. */
  function BoxStats(env: Env, raster: Raster, layer: Layer, box: Box): Result<ZonalOutput>
    requires RasterShaped(raster)
  {
    var gt := raster.gt;
    if !CentroidInRaster(box, gt, raster.xSize, raster.ySize) then Err(PolygonOutsideRaster)
    else if gt.pixelWidth == 0.0 then Err(ZeroPixelWidth)
    else
      var w := WindowOf(box, gt);
      if w.xcount < 1 || w.ycount < 1 then Err(EmptyWindow)
      else
        var req := BurnRequest(layer, box.xmin, gt.pixelWidth, box.ymax, gt.pixelHeight,
                               w.xcount, w.ycount);
        var nodata := NodataValue(raster.info);
        var inp := BandInputs(raster.bands, raster.xSize, raster.ySize, w, Mask(env, req),
                              nodata, raster.info);
        var table :- Table(inp, |raster.bands|);
        Ok(ZonalOutput(table, nodata.None?))
  }

  /** `zonal_stats(FID, input_zone_polygon, input_value_raster)`. The raster
      is opened first but a missing raster only fails at its first use, after
      the layer search; a missing layer fails after that. */
  function ZonalStatsSpec(env: Env, fid: nat, zonePath: string, rasterPath: string): Result<ZonalOutput>
  {
    var zone :- OpenZone(env, zonePath);
    AfterOpen(env, zone, fid, rasterPath)
  }

  /** `zonal_stats` once the zone file is open and its layers searched. */
  function AfterOpen(env: Env, zone: Opened, fid: nat, rasterPath: string): Result<ZonalOutput>
    requires zone.found.Some? ==> zone.found.value < |zone.layers|
  {
    if rasterPath !in env.rasters then Err(RasterOpenFailed)
    else if zone.found.None? then Err(NoLayers)
    else
      var raster := env.rasters[rasterPath];
      if raster.projection == "" then Err(RasterSrsUndefined)
      else
        var layer := zone.layers[zone.found.value];
        var box :- ZoneBox(layer, fid);
        BoxStats(env, raster, layer, box)
  }

  /** The result of `zonal_stats` for each feature index. */
  function PerFeature(env: Env, zonePath: string, rasterPath: string): nat -> Result<ZonalOutput>
  {
    (fid: nat) => ZonalStatsSpec(env, fid, zonePath, rasterPath)
  }

  /** The dictionary of the results for indices 0 .. n-1, stopping at the
      first failure. */
  function Collect(results: nat -> Result<ZonalOutput>, n: nat): Result<map<nat, ZonalOutput>>
  {
    if n == 0 then Ok(map[])
    else
      var prev :- Collect(results, n - 1);
      var out :- results(n - 1);
      Ok(prev[n - 1 := out])
  }

  /** `loop_zonal_stats`: one `zonal_stats` call per feature of the zone
      layer; here a file without layers fails at once. */
  function LoopSpec(env: Env, zonePath: string, rasterPath: string): Result<map<nat, ZonalOutput>>
  {
    var zone :- OpenZone(env, zonePath);
    if zone.found.None? then Err(NoLayers)
    else Collect(PerFeature(env, zonePath, rasterPath), |zone.layers[zone.found.value].features|)
  }

  /** The opening steps shared by both functions of the script. */
  method OpenZoneLayers(env: Env, zonePath: string) returns (r: Result<Opened>)
    ensures r == OpenZone(env, zonePath)
  {
    var parts := FilePathFc(zonePath);
    if parts.None? {
      return Err(NoDottedComponent);
    }
    var filePath := parts.value.filePath;
    if filePath !in env.vectors {
      return Err(FileOpenFailed(filePath));
    }
    var layers := env.vectors[filePath];
    var search := FindLayer(Names(layers), parts.value.fcName, filePath);
    if search.Ok? {
      r := Ok(Opened(layers, Some(search.value)));
    } else if search.error == NoLayers {
      r := Ok(Opened(layers, None));
    } else {
      r := Err(search.error);
    }
  }

  /** The body of `zonal_stats`, step by step. */
  method ZonalStats(env: Env, fid: nat, zonePath: string, rasterPath: string) returns (r: Result<ZonalOutput>)
    ensures r == ZonalStatsSpec(env, fid, zonePath, rasterPath)
  {
    var zone := OpenZoneLayers(env, zonePath);
    if zone.Err? {
      return Err(zone.error);
    }
    if rasterPath !in env.rasters {
      return Err(RasterOpenFailed);
    }
    if zone.value.found.None? {
      return Err(NoLayers);
    }
    var raster := env.rasters[rasterPath];
    if raster.projection == "" {
      return Err(RasterSrsUndefined);
    }
    var layer := zone.value.layers[zone.value.found.value];
    var feat, _ := FetchFeature(layer.features, fid);
    if feat.None? {
      return Err(FeatureMissing(fid));
    }
    var points := FlattenPoints(feat.value.shape);
    if points.Err? {
      return Err(points.error);
    }
    var box := BoundingBox(points.value.0, points.value.1);
    if box.Err? {
      return Err(NoPoints);
    }
    assert ZoneBox(layer, fid) == box;
    r := ZoneOutput(env, raster, layer, box.value);
  }

  /** Lines 108-174 of `zonal_stats`, from the bounding box on. */
  method ZoneOutput(env: Env, raster: Raster, layer: Layer, box: Box) returns (r: Result<ZonalOutput>)
    requires RasterShaped(raster)
    ensures r == BoxStats(env, raster, layer, box)
  {
    var gt := raster.gt;
    if !CentroidInRaster(box, gt, raster.xSize, raster.ySize) {
      return Err(PolygonOutsideRaster);
    }
    if gt.pixelWidth == 0.0 {
      return Err(ZeroPixelWidth);
    }
    var w := WindowOf(box, gt);
    if w.xcount < 1 || w.ycount < 1 {
      return Err(EmptyWindow);
    }
    var mask := Mask(env, BurnRequest(layer, box.xmin, gt.pixelWidth, box.ymax, gt.pixelHeight,
                                      w.xcount, w.ycount));
    var nodata := NodataValue(raster.info);
    var table := BandTable(BandInputs(raster.bands, raster.xSize, raster.ySize, w, mask,
                                      nodata, raster.info));
    if table.Err? {
      return Err(table.error);
    }
    r := Ok(ZonalOutput(table.value, nodata.None?));
  }

  /** The body of `loop_zonal_stats`. */
  method LoopZonalStats(env: Env, zonePath: string, rasterPath: string) returns (r: Result<map<nat, ZonalOutput>>)
    ensures r == LoopSpec(env, zonePath, rasterPath)
  {
    var zone := OpenZoneLayers(env, zonePath);
    if zone.Err? {
      return Err(zone.error);
    }
    if zone.value.found.None? {
      return Err(NoLayers);
    }
    var n := |zone.value.layers[zone.value.found.value].features|;
    var statDict: map<nat, ZonalOutput> := map[];
    ghost var results := PerFeature(env, zonePath, rasterPath);
    for fid := 0 to n
      invariant Collect(results, fid) == Ok(statDict)
    {
      var out := ZonalStats(env, fid, zonePath, rasterPath);
      if out.Err? {
        CollectStops(results, fid + 1, n);
        return Err(out.error);
      }
      statDict := statDict[fid := out.value];
    }
    r := Ok(statDict);
  }

  /** Once a prefix fails, every longer prefix fails with the same error. */
  lemma {:induction false} CollectStops(results: nat -> Result<ZonalOutput>, m: nat, n: nat)
    requires m <= n && Collect(results, m).Err?
    ensures Collect(results, n) == Collect(results, m)
    decreases n - m
  {
    if m < n {
      CollectStops(results, m, n - 1);
    }
  }

  /** A successful collection holds exactly the indices 0 .. n-1, each with
      its own result. */
  lemma {:induction false} CollectKeys(results: nat -> Result<ZonalOutput>, n: nat)
    ensures Collect(results, n).Ok? ==>
      && (forall f: nat :: f in Collect(results, n).value <==> f < n)
      && forall f: nat :: f < n ==> results(f).Ok? && Collect(results, n).value[f] == results(f).value
  {
    if n > 0 && Collect(results, n).Ok? {
      CollectKeys(results, n - 1);
    }
  }

  /** The collection fails exactly when some index fails, and then with the
      error of the first failing index. */
  lemma {:induction false} CollectFirstError(results: nat -> Result<ZonalOutput>, n: nat)
    ensures Collect(results, n).Err? <==> exists f: nat :: f < n && results(f).Err?
    ensures Collect(results, n).Err? ==>
      exists f: nat :: f < n && results(f).Err? && Collect(results, n).error == results(f).error
        && forall g: nat :: g < f ==> results(g).Ok?
  {
    if n > 0 {
      CollectFirstError(results, n - 1);
      CollectKeys(results, n - 1);
    }
  }

  /** Inside the loop the path, the file and the layer are found again and
      every feature index exists, so once the layer was found a failing run
      never ends with those errors. */
  lemma LoopInnerErrors(env: Env, zonePath: string, rasterPath: string)
    requires OpenZone(env, zonePath).Ok? && OpenZone(env, zonePath).value.found.Some?
    ensures var r := LoopSpec(env, zonePath, rasterPath);
      r.Err? ==>
        !r.error.NoDottedComponent? && !r.error.FileOpenFailed? && !r.error.FeatureNotFound?
        && !r.error.NoLayers? && !r.error.FeatureMissing?
  {
    var zone := OpenZone(env, zonePath).value;
    var n := |zone.layers[zone.found.value].features|;
    var results := PerFeature(env, zonePath, rasterPath);
    CollectFirstError(results, n);
    if Collect(results, n).Err? {
      var f: nat :| f < n && results(f).Err? && Collect(results, n).error == results(f).error;
      FeatureErrors(env, f, zonePath, rasterPath);
    }
  }

  /** For an index of the found layer, `zonal_stats` fails only on the
      raster, the geometry, the window or the band reads. */
  lemma FeatureErrors(env: Env, fid: nat, zonePath: string, rasterPath: string)
    requires OpenZone(env, zonePath).Ok? && OpenZone(env, zonePath).value.found.Some?
    requires fid < |OpenZone(env, zonePath).value.layers[OpenZone(env, zonePath).value.found.value].features|
    ensures var r := ZonalStatsSpec(env, fid, zonePath, rasterPath);
      r.Err? ==>
        !r.error.NoDottedComponent? && !r.error.FileOpenFailed? && !r.error.FeatureNotFound?
        && !r.error.NoLayers? && !r.error.FeatureMissing?
  {
    AfterOpenErrors(env, OpenZone(env, zonePath).value, fid, rasterPath);
  }

  lemma AfterOpenErrors(env: Env, zone: Opened, fid: nat, rasterPath: string)
    requires zone.found.Some? && zone.found.value < |zone.layers|
    requires fid < |zone.layers[zone.found.value].features|
    ensures var r := AfterOpen(env, zone, fid, rasterPath);
      r.Err? ==>
        !r.error.NoDottedComponent? && !r.error.FileOpenFailed? && !r.error.FeatureNotFound?
        && !r.error.NoLayers? && !r.error.FeatureMissing?
  {
    var layer := zone.layers[zone.found.value];
    ZoneBoxErrors(layer, fid);
    if rasterPath in env.rasters && env.rasters[rasterPath].projection != "" && ZoneBox(layer, fid).Ok? {
      var raster := env.rasters[rasterPath];
      var box := ZoneBox(layer, fid).value;
      assert AfterOpen(env, zone, fid, rasterPath) == BoxStats(env, raster, layer, box);
      BoxStatsErrors(env, raster, layer, box);
    }
  }

  /** The box of an existing feature fails only on its geometry. */
  lemma ZoneBoxErrors(layer: Layer, fid: nat)
    ensures ZoneBox(layer, fid).Err? ==>
      var e := ZoneBox(layer, fid).error;
      e == FeatureMissing(fid) || e == MissingOuterRing || e.UnsupportedGeometry? || e == NoPoints
    ensures ZoneBox(layer, fid).Err? && ZoneBox(layer, fid).error == FeatureMissing(fid) <==>
      fid >= |layer.features|
  {
    if fid < |layer.features| {
      var g := layer.features[fid].shape;
      if g.MultiPolygon? {
        assert OuterPoints(g).Err? ==> OuterPoints(g).error == MissingOuterRing;
      }
    }
  }

  /** Past the bounding box, a run fails only on the extent test, the pixel
      width, the window size or the band reads. */
  lemma BoxStatsErrors(env: Env, raster: Raster, layer: Layer, box: Box)
    requires RasterShaped(raster)
    ensures BoxStats(env, raster, layer, box).Err? ==>
      var e := BoxStats(env, raster, layer, box).error;
      e == PolygonOutsideRaster || e == ZeroPixelWidth || e == EmptyWindow || e == WindowOutOfRange
  {
    var gt := raster.gt;
    if CentroidInRaster(box, gt, raster.xSize, raster.ySize) && gt.pixelWidth != 0.0 {
      var w := WindowOf(box, gt);
      if w.xcount >= 1 && w.ycount >= 1 {
        var req := BurnRequest(layer, box.xmin, gt.pixelWidth, box.ymax, gt.pixelHeight,
                               w.xcount, w.ycount);
        var inp := BandInputs(raster.bands, raster.xSize, raster.ySize, w, Mask(env, req),
                              NodataValue(raster.info), raster.info);
        TableFails(inp, |raster.bands|);
      }
    }
  }

  /** A successful call reports one entry per distinct band key and prints
      the warning exactly when no nodata value was read. */
  lemma ZonalOutputShape(env: Env, fid: nat, zonePath: string, rasterPath: string)
    requires ZonalStatsSpec(env, fid, zonePath, rasterPath).Ok?
    ensures rasterPath in env.rasters
    ensures var raster := env.rasters[rasterPath];
      var out := ZonalStatsSpec(env, fid, zonePath, rasterPath).value;
      && out.stats.Keys == (set b | 1 <= b <= |raster.bands| :: KeyOf(raster.info, b))
      && (out.nodataWarning <==> NodataValue(raster.info).None?)
  {
    var raster := env.rasters[rasterPath];
    var zone := OpenZone(env, zonePath).value;
    var layer := zone.layers[zone.found.value];
    var box := ZoneBox(layer, fid).value;
    var w := WindowOf(box, raster.gt);
    var req := BurnRequest(layer, box.xmin, raster.gt.pixelWidth, box.ymax, raster.gt.pixelHeight,
                           w.xcount, w.ycount);
    var inp := BandInputs(raster.bands, raster.xSize, raster.ySize, w, Mask(env, req),
                          NodataValue(raster.info), raster.info);
    TableKeys(inp, |raster.bands|);
  }

  /** The mask burns the whole layer, not the chosen feature: two features
      of the layer with the same bounding box get the same statistics,
      whatever their shapes. */
  lemma SameBoxSameStats(env: Env, zonePath: string, rasterPath: string, f1: nat, f2: nat)
    requires OpenZone(env, zonePath).Ok? && OpenZone(env, zonePath).value.found.Some?
    requires var zone := OpenZone(env, zonePath).value;
      var layer := zone.layers[zone.found.value];
      ZoneBox(layer, f1).Ok? && ZoneBox(layer, f1) == ZoneBox(layer, f2)
    ensures ZonalStatsSpec(env, f1, zonePath, rasterPath) == ZonalStatsSpec(env, f2, zonePath, rasterPath)
  {
  }

  /** A zone that covers a 10 x 10 raster of unit pixels exactly passes the
      extent test, yet its window has 11 columns and 11 rows, one more than
      the band holds, so the band read fails. */
  lemma EdgeZoneOverruns()
    ensures var box := Box(0.0, 10.0, 0.0, 10.0);
      var gt := GeoTransform(0.0, 1.0, 10.0, -1.0);
      CentroidInRaster(box, gt, 10, 10)
      && WindowOf(box, gt) == Window(0, 0, 11, 11)
      && !InsideBand(WindowOf(box, gt), 10, 10)
  {
    var box := Box(0.0, 10.0, 0.0, 10.0);
    var gt := GeoTransform(0.0, 1.0, 10.0, -1.0);
    assert Trunc(10.0) == 10;
    assert Trunc(0.0) == 0;
  }
}
