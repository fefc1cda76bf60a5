/**
 * Stage 3: the national forest basal area, the per-cell sum of the 324
 * zero-nulled species rasters ignoring no-data, saved as
 * `ba_null_natl_forest` in `ba_null.gdb`.
 */
module NationalSum {
  import opened Wrappers
  import opened Grids
  import opened Batch
  import ZeroToNull

  const NationalName := "ba_null_natl_forest"

  function NationalPath(): Path {
    Path(ZeroToNull.NullContainer, NationalName)
  }

  /** CellStatistics(listing, "SUM", "DATA") over the extent of the first listed raster. */
  function NationalGrid(listing: seq<Raster>): (r: Grid)
    requires listing != []
    ensures |r| == |listing[0].grid|
  {
    CellSum(GridsOf(listing), |listing[0].grid|)
  }

  /** The script: sum and save when exactly 324 rasters are listed, otherwise change nothing. */
  function Stage(listing: seq<Raster>, store: Store): (r: Store)
    ensures |listing| != ZeroToNull.ExpectedRasterCount ==> r == store
    ensures |listing| == ZeroToNull.ExpectedRasterCount ==>
      r.Keys == store.Keys + {NationalPath()} && r[NationalPath()] == NationalGrid(listing)
    ensures forall p :: p in store && p != NationalPath() ==> r[p] == store[p]
  {
    if |listing| == ZeroToNull.ExpectedRasterCount then store[NationalPath() := NationalGrid(listing)]
    else store
  }

  /**
   * Each cell of the national raster is the sum of the data values of the listed
   * rasters at that cell, and no-data exactly where every listed raster is no-data.
   */
  lemma NationalCells(listing: seq<Raster>, i: int)
    requires listing != [] && 0 <= i < |listing[0].grid|
    ensures NationalGrid(listing)[i] == SumOfPresent(Column(GridsOf(listing), i))
    ensures NationalGrid(listing)[i].None? <==> forall k :: 0 <= k < |listing| ==> At(listing[k].grid, i).None?
  {
    CellSumNoData(GridsOf(listing), |listing[0].grid|, i);
  }
}
