/** Failure values shared by the zonal-statistics and grid models.

    The script ends a run either through `sys.exit("[ ERROR ] ...")` or
    through an uncaught Python exception; both stop the whole run, so both
    become a `Fatal` value carried by `Result`. */
module Outcome {

  datatype Option<+T> = None | Some(value: T)

  /** Every way a run of ZonalStats.py or generateGrid.py can end early. */
  datatype Fatal =
    | NoDottedComponent                          // IndexError in get_file_path_fc
    | FileOpenFailed(path: string)               // ogr.Open failed
    | NoLayers                                   // empty layer list: `lyr` is never bound
    | FeatureNotFound(fcName: string, filePath: string)
    | RasterOpenFailed                           // gdal.Open returned None
    | RasterSrsUndefined
    | FeatureMissing(fid: nat)                   // cursor exhausted before position fid
    | MissingOuterRing                           // polygon without ring 0
    | UnsupportedGeometry(name: string)
    | NoPoints                                   // min() of an empty list
    | PolygonOutsideRaster
    | ZeroPixelWidth                             // division by pixelWidth == 0
    | EmptyWindow                                // MEM raster of non-positive size
    | WindowOutOfRange                           // ReadAsArray outside the band
    | ZeroCellSize                               // division by cell_m == 0
    | NegativeSampleCount                        // numpy.linspace with num < 0

  datatype Result<+T> = Ok(value: T) | Err(error: Fatal) {
    predicate IsFailure() { Err? }

    function PropagateFailure<U>(): Result<U>
      requires Err?
    {
      Err(error)
    }

    function Extract(): T
      requires Ok?
    {
      value
    }
  }
}
