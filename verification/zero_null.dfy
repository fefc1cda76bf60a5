/**
 * Stage 2: set zero basal area to no-data in every species raster, writing
 * each result under the same name into `ba_null.gdb`, but only when exactly
 * 324 rasters are listed.
 */
module ZeroToNull {
  import opened Wrappers
  import opened Grids
  import opened Batch

  const ExpectedRasterCount := 324
  const NullContainer := "ba_null.gdb"

  /** The output keeps the input raster's name, inside `ba_null.gdb`. */
  function OutputPath(r: Raster): Path {
    Path(NullContainer, r.name)
  }

  /** SetNull(g, g, "VALUE = 0"). */
  function SetZeroNull(g: Grid): (r: Grid)
    ensures |r| == |g|
    ensures forall i :: 0 <= i < |g| ==> (r[i].None? <==> g[i].None? || g[i].value == 0.0)
    ensures forall i :: 0 <= i < |g| && r[i].Some? ==> r[i] == g[i]
  {
    SetNull(g, v => v == 0.0)
  }

  function Target(r: Raster): Result<Path, Failure> {
    Success(OutputPath(r))
  }

  function Work(r: Raster): Outcome {
    Saved(SetZeroNull(r.grid))
  }

  /** The whole script over the listing of the basal-area container. */
  function Stage(listing: seq<Raster>, store: Store): (r: Run)
    ensures r.failure.None?
    ensures |listing| != ExpectedRasterCount ==> r.store == store
    ensures forall p :: p in store ==> p in r.store && r.store[p] == store[p]
    ensures forall p :: p in r.store && p !in store ==>
      exists k :: 0 <= k < |listing| && p == OutputPath(listing[k]) && r.store[p] == SetZeroNull(listing[k].grid)
  {
    if |listing| == ExpectedRasterCount then
      ResumeCompletes(listing, store, Target, Work);
      Resume(listing, store, Target, Work)
    else Run(store, None)
  }

  /** With 324 rasters listed, every one of them has an output in `ba_null.gdb` afterwards. */
  lemma StageCoversListing(listing: seq<Raster>, store: Store)
    requires |listing| == ExpectedRasterCount
    ensures forall k :: 0 <= k < |listing| ==> Path(NullContainer, listing[k].name) in Stage(listing, store).store
  {
    ResumeCompletes(listing, store, Target, Work);
    CompletedRunSettles(listing, store, Target, Work);
  }

  /** An output that already exists is neither recomputed nor overwritten. */
  lemma ExistingOutputKept(listing: seq<Raster>, store: Store, r: Raster)
    requires r in listing && OutputPath(r) in store
    ensures Stage(listing, store).store[OutputPath(r)] == store[OutputPath(r)]
  {
  }

  /** A second run over the same listing writes nothing. */
  lemma RerunWritesNothing(listing: seq<Raster>, store: Store)
    ensures var after := Stage(listing, store).store;
      Stage(listing, after) == Run(after, None)
  {
    if |listing| == ExpectedRasterCount {
      ResumeCompletes(listing, store, Target, Work);
      Batch.RerunWritesNothing(listing, store, Target, Work);
    }
  }
}
