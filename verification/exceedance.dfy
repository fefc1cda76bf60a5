/**
 * Stage 5: for each element (n, s), response variable (growth, survival) and
 * proportion raster, the cells where total deposition reaches the species'
 * critical load, carrying the proportion there and no-data elsewhere, saved
 * as `<raster>_exc_<e>_<rv>_1719` in `<E>_dep_1719.gdb`.
 */
module Exceedance {
  import opened Wrappers
  import opened Grids
  import opened Names
  import opened SpeciesTable
  import opened Batch

  /** One pass of the innermost loop: an element, a response variable and a proportion raster. */
  datatype Item = Item(e: Element, rv: ResponseVariable, spp: Raster)

  function OutputContainer(e: Element): string {
    ElementCapitalized(e) + "_dep_1719.gdb"
  }

  function Suffix(e: Element, rv: ResponseVariable): string {
    "_exc_" + ElementName(e) + "_" + ResponseName(rv) + "_1719"
  }

  function OutputName(spp: string, e: Element, rv: ResponseVariable): string {
    spp + Suffix(e, rv)
  }

  function Target(it: Item): Result<Path, Failure> {
    Success(Path(OutputContainer(it.e), OutputName(it.spp.name, it.e, it.rv)))
  }

  /**
   * `Con(tdep, spp, 0, "VALUE >= k1")` followed by `SetNull(c, c, "VALUE = 0")`:
   * the proportion where deposition reaches the critical load and the proportion
   * is not zero; no-data everywhere else.
   */
  function ExceedanceGrid(tdep: Grid, prop: Grid, k1: real): (r: Grid)
    ensures |r| == |tdep|
    ensures forall i :: 0 <= i < |tdep| ==>
      (r[i].Some? <==> tdep[i].Some? && tdep[i].value >= k1 && At(prop, i).Some? && At(prop, i).value != 0.0)
    ensures forall i :: 0 <= i < |tdep| && r[i].Some? ==> r[i] == At(prop, i)
  {
    var con := Con(tdep, (v: real) => v >= k1, prop, Constant(|tdep|, Some(0.0)));
    SetNull(con, (v: real) => v == 0.0)
  }

  /** A higher critical load never adds exceeded cells. */
  lemma ExceedanceShrinks(tdep: Grid, prop: Grid, k1: real, k1': real, i: int)
    requires k1 <= k1' && 0 <= i < |tdep|
    ensures ExceedanceGrid(tdep, prop, k1')[i].Some? ==> ExceedanceGrid(tdep, prop, k1)[i] == ExceedanceGrid(tdep, prop, k1')[i]
  {
  }

  /** The body of the innermost loop once the output is known to be missing. */
  function Compute(tables: Tables, tdep: Deposition, it: Item): (o: Outcome)
    ensures o.failure.Some? <==> SpeciesCode(it.spp.name).None?
    ensures o.output.Some? <==>
      SpeciesCode(it.spp.name).Some? && CriticalLoad(tables, it.rv, SpeciesCode(it.spp.name).value, it.e).Some?
    ensures o.output.Some? ==>
      o.output.value == ExceedanceGrid(tdep.For(it.e), it.spp.grid, CriticalLoad(tables, it.rv, SpeciesCode(it.spp.name).value, it.e).value)
  {
    match SpeciesCode(it.spp.name)
    case None => Crashed(UnparsableName(it.spp.name))
    case Some(code) =>
      match ParamsFor(tables.For(it.rv), code, it.e)
      case None => Skipped
      case Some(p) =>
        if p.k1.None? then Skipped
        else Saved(ExceedanceGrid(tdep.For(it.e), it.spp.grid, p.k1.value))
  }

  function Work(tables: Tables, tdep: Deposition): Item -> Outcome {
    it => Compute(tables, tdep, it)
  }

  function ItemsFor(listing: seq<Raster>, e: Element, rv: ResponseVariable): (items: seq<Item>)
    ensures |items| == |listing|
    ensures forall k :: 0 <= k < |listing| ==> items[k] == Item(e, rv, listing[k])
  {
    seq(|listing|, k requires 0 <= k < |listing| => Item(e, rv, listing[k]))
  }

  /** The nested loops `for element in [n, s]: for rv in [growth, survival]: for raster in ListRasters()`. */
  function Items(listing: seq<Raster>): (items: seq<Item>)
    ensures forall it: Item :: it in items <==> it.spp in listing
  {
    var items := ItemsFor(listing, N, Growth) + ItemsFor(listing, N, Survival)
      + ItemsFor(listing, S, Growth) + ItemsFor(listing, S, Survival);
    assert forall it: Item :: it.spp in listing ==> it in items by {
      forall it: Item | it.spp in listing
        ensures it in items
      {
        var k :| 0 <= k < |listing| && listing[k] == it.spp;
        if it.e == N && it.rv == Growth {
          assert ItemsFor(listing, N, Growth)[k] == it;
        } else if it.e == N {
          assert ItemsFor(listing, N, Survival)[k] == it;
        } else if it.rv == Growth {
          assert ItemsFor(listing, S, Growth)[k] == it;
        } else {
          assert ItemsFor(listing, S, Survival)[k] == it;
        }
      }
    }
    items
  }

  /** `g` is the exceedance grid of a listed raster with a critical load, saved at `p`. */
  ghost predicate ExceedanceOf(listing: seq<Raster>, tables: Tables, tdep: Deposition, p: Path, g: Grid) {
    exists it: Item, code: int, k1: real ::
      && it.spp in listing && Target(it) == Success(p)
      && SpeciesCode(it.spp.name) == Some(code) && CriticalLoad(tables, it.rv, code, it.e) == Some(k1)
      && g == ExceedanceGrid(tdep.For(it.e), it.spp.grid, k1)
  }

  lemma ExceedanceWitness(listing: seq<Raster>, tables: Tables, tdep: Deposition, p: Path, g: Grid, it: Item, code: int, k1: real)
    requires it.spp in listing && Target(it) == Success(p)
    requires SpeciesCode(it.spp.name) == Some(code) && CriticalLoad(tables, it.rv, code, it.e) == Some(k1)
    requires g == ExceedanceGrid(tdep.For(it.e), it.spp.grid, k1)
    ensures ExceedanceOf(listing, tables, tdep, p, g)
  {
  }

  /** The script over the listing of `spp_proportion_ba.gdb`. */
  function Stage(listing: seq<Raster>, store: Store, tables: Tables, tdep: Deposition): (r: Run)
    ensures forall p :: p in store ==> p in r.store && r.store[p] == store[p]
    ensures forall p :: p in r.store && p !in store ==> ExceedanceOf(listing, tables, tdep, p, r.store[p])
  {
    NewOutputsAreExceedances(listing, store, tables, tdep);
    Resume(Items(listing), store, Target, Work(tables, tdep))
  }

  lemma NewOutputsAreExceedances(listing: seq<Raster>, store: Store, tables: Tables, tdep: Deposition)
    ensures var r := Resume(Items(listing), store, Target, Work(tables, tdep));
      forall p :: p in r.store && p !in store ==> ExceedanceOf(listing, tables, tdep, p, r.store[p])
  {
    var items := Items(listing);
    var r := Resume(items, store, Target, Work(tables, tdep));
    forall p | p in r.store && p !in store
      ensures ExceedanceOf(listing, tables, tdep, p, r.store[p])
    {
      var k :| 0 <= k < |items| && Target(items[k]) == Success(p) && Work(tables, tdep)(items[k]).output == Some(r.store[p]);
      var it := items[k];
      assert it in items;
      var o := Compute(tables, tdep, it);
      assert o.output == Some(r.store[p]);
      var code := SpeciesCode(it.spp.name).value;
      var k1 := CriticalLoad(tables, it.rv, code, it.e).value;
      ExceedanceWitness(listing, tables, tdep, p, r.store[p], it, code, k1);
    }
  }

  // ------------------------------------------------------------- the outputs

  /** Output names are told apart by their stem and response variable. */
  lemma OutputNameInjective(a: string, b: string, e: Element, rv: ResponseVariable, rv': ResponseVariable)
    requires OutputName(a, e, rv) == OutputName(b, e, rv')
    ensures a == b && rv == rv'
  {
    var x := Suffix(e, rv);
    var y := Suffix(e, rv');
    EndChar(a, x, b, y, 6);
    SuffixCancel(a, b, x);
  }

  lemma TargetInjective(listing: seq<Raster>, a: Item, b: Item)
    requires DistinctNames(listing) && a.spp in listing && b.spp in listing
    requires Target(a) == Target(b)
    ensures a == b
  {
    assert a.e == b.e by {
      assert OutputContainer(a.e)[0] == ElementCapitalized(a.e)[0];
      assert OutputContainer(b.e)[0] == ElementCapitalized(b.e)[0];
    }
    OutputNameInjective(a.spp.name, b.spp.name, a.e, a.rv, b.rv);
    var i :| 0 <= i < |listing| && listing[i] == a.spp;
    var j :| 0 <= j < |listing| && listing[j] == b.spp;
  }

  lemma ItemsFunctional(listing: seq<Raster>, tables: Tables, tdep: Deposition)
    requires DistinctNames(listing)
    ensures Functional(Items(listing), Target, Work(tables, tdep))
  {
    var items := Items(listing);
    forall i, j | 0 <= i < |items| && 0 <= j < |items| && Target(items[i]) == Target(items[j])
      ensures items[i] == items[j]
    {
      assert items[i] in items && items[j] in items;
      TargetInjective(listing, items[i], items[j]);
    }
  }

  /** When every listed name parses, the script runs to completion. */
  lemma StageCompletes(listing: seq<Raster>, store: Store, tables: Tables, tdep: Deposition)
    requires forall r :: r in listing ==> SpeciesCode(r.name).Some?
    ensures Stage(listing, store, tables, tdep).failure.None?
  {
    var items := Items(listing);
    forall k | 0 <= k < |items|
      ensures Compute(tables, tdep, items[k]).failure.None?
    {
      assert items[k] in items;
    }
    ResumeCompletes(items, store, Target, Work(tables, tdep));
  }

  /** A name that does not parse stops the script, unless its outputs all exist already. */
  lemma UnparsableNameStops(listing: seq<Raster>, store: Store, tables: Tables, tdep: Deposition, it: Item)
    requires DistinctNames(listing) && it.spp in listing && SpeciesCode(it.spp.name).None?
    requires Target(it).value !in store
    ensures Stage(listing, store, tables, tdep).failure.Some?
  {
    ItemsFunctional(listing, tables, tdep);
    assert it in Items(listing);
    ResumeStopsMember(Items(listing), store, Target, Work(tables, tdep), it);
  }


  /**
   * After a completed run, a raster whose output was missing has one exactly
   * when its species has a critical load, and it is the exceedance grid.
   */
  lemma StageWritesExceedance(listing: seq<Raster>, store: Store, tables: Tables, tdep: Deposition, it: Item, code: int)
    requires DistinctNames(listing) && it.spp in listing && SpeciesCode(it.spp.name) == Some(code)
    requires Target(it).value !in store
    requires Stage(listing, store, tables, tdep).failure.None?
    ensures var out := Stage(listing, store, tables, tdep).store;
      && (Target(it).value in out <==> CriticalLoad(tables, it.rv, code, it.e).Some?)
      && (CriticalLoad(tables, it.rv, code, it.e).Some? ==>
            out[Target(it).value] == ExceedanceGrid(tdep.For(it.e), it.spp.grid, CriticalLoad(tables, it.rv, code, it.e).value))
  {
    ItemsFunctional(listing, tables, tdep);
    assert it in Items(listing);
    ResumeWritesMember(Items(listing), store, Target, Work(tables, tdep), it);
    assert Work(tables, tdep)(it) == Compute(tables, tdep, it);
  }

  /** A second run over the same listing writes nothing. */
  lemma RerunWritesNothing(listing: seq<Raster>, store: Store, tables: Tables, tdep: Deposition)
    requires Stage(listing, store, tables, tdep).failure.None?
    ensures var after := Stage(listing, store, tables, tdep).store;
      Stage(listing, after, tables, tdep) == Run(after, None)
  {
    Batch.RerunWritesNothing(Items(listing), store, Target, Work(tables, tdep));
  }
}
