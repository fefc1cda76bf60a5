/**
 * Stage 6: the effect of deposition on a species' growth or survival,
 * `num / den - 1`, where `num` is the species' response at the masked
 * deposition and `den` its response at the reference deposition (`dep_max`
 * above it, `min_dep` otherwise). One script per response variable, plus the
 * legacy growth script that names its outputs `_reduction`.
 */
module Effects {
  import opened Wrappers
  import opened Grids
  import opened Names
  import opened SpeciesTable
  import opened Batch

  /** What distinguishes the three effect scripts. */
  datatype Script = Script(coefficient: real, outputSuffix: string, containerSuffix: string)

  const GrowthEffect := Script(-0.5, "_effect", "_growth_effect.gdb")
  const SurvivalEffect := Script(-5.0, "_effect", "_survival_effect.gdb")
  const GrowthReductionLegacy := Script(-0.5, "_reduction", "_growth_reduction.gdb")

  /** The element loop `for element in ['s', 'n']`. */
  const Elements: seq<Element> := [S, N]

  // ------------------------------------------------------- the where-clause

  /** A where-clause `VALUE <bound` or `VALUE >bound`. */
  datatype Clause = Less(bound: real) | Greater(bound: real) {
    /** The clause text up to the bound. */
    function Prefix(): string {
      match this
      case Less(_) => "VALUE <"
      case Greater(_) => "VALUE >"
    }

    predicate Holds(v: real) {
      match this
      case Less(b) => v < b
      case Greater(b) => v > b
    }
  }

  /** Python's `a or b` on two strings: `a` unless it is empty. */
  function PyOr(a: Clause, b: Clause): Clause {
    if |a.Prefix()| > 0 then a else b
  }

  /** `("VALUE <min") or ("VALUE >max")`. */
  function WhereClause(p: Params): Clause {
    PyOr(Less(p.minDep), Greater(p.maxDep))
  }

  /** The clause keeps only its first operand: `max_dep` never masks anything. */
  lemma WhereClauseIsBelowMin(p: Params)
    ensures WhereClause(p) == Less(p.minDep)
    ensures forall v :: v > p.maxDep && v >= p.minDep ==> !WhereClause(p).Holds(v)
  {
  }

  // --------------------------------------------------------- the equation

  /**
   * `ExtractByMask(SetNull(tdep, tdep, clause), spp)`: deposition where the
   * species is present and the clause does not hold.
   */
  function MaskedDeposition(tdep: Grid, spp: Grid, p: Params): (r: Grid)
    ensures |r| == |tdep|
    ensures forall i :: 0 <= i < |tdep| ==>
      (r[i].Some? <==> tdep[i].Some? && tdep[i].value >= p.minDep && At(spp, i).Some?)
    ensures forall i :: 0 <= i < |tdep| && r[i].Some? ==> r[i] == tdep[i]
  {
    WhereClauseIsBelowMin(p);
    ExtractByMask(SetNull(tdep, WhereClause(p).Holds), spp)
  }

  /** `Exp(Times(Square(Divide(Ln(x), k2)), c))`, the chain numerator and denominator share. */
  function Response(m: Transcendentals, x: Grid, k2: real, c: real): Grid {
    Exp(m, TimesBy(Square(DivideBy(Ln(m, x), k2)), c))
  }

  /** `Con(masked > dep_max, dep_max / k1, min_dep / k1)`. */
  function Reference(masked: Grid, p: Params, k1: real): Grid {
    var dm := DepMaxOrMin(p);
    Con(masked, (v: real) => v > dm,
      Constant(|masked|, DivideCell(Some(dm), Some(k1))),
      Constant(|masked|, DivideCell(Some(p.minDep), Some(k1))))
  }

  /** `Divide(num, den) - 1` for a species with critical load `k1`. */
  function EffectGrid(m: Transcendentals, c: real, tdep: Grid, spp: Grid, p: Params, k1: real): Grid {
    var masked := MaskedDeposition(tdep, spp, p);
    var num := Response(m, DivideBy(masked, k1), p.k2, c);
    var den := Response(m, Reference(masked, p, k1), p.k2, c);
    Minus(Divide(num, den), 1.0)
  }

  // --------------------------------------------------- the same, per cell

  /** The response at a (relative) deposition `x`, or no-data where `ln` or the division is undefined. */
  function ResponseAt(m: Transcendentals, x: real, k2: real, c: real): Option<real> {
    if x > 0.0 && k2 != 0.0 then Some(m.exp(Scaled(SquareOf(m.ln(x) / k2), c))) else None
  }

  /** The reference deposition of a cell: `dep_max` above it, `min_dep` otherwise. */
  function ReferenceAt(p: Params, d: real): real {
    if d > DepMaxOrMin(p) then DepMaxOrMin(p) else p.minDep
  }

  /** The effect at a cell with deposition `d` inside the species range, written as one formula. */
  function EffectAt(m: Transcendentals, c: real, p: Params, k1: real, d: real): Option<real> {
    if d < p.minDep || k1 == 0.0 then None
    else
      var num := ResponseAt(m, d / k1, p.k2, c);
      var den := ResponseAt(m, ReferenceAt(p, d) / k1, p.k2, c);
      if num.Some? && den.Some? && den.value != 0.0 then Some(num.value / den.value - 1.0) else None
  }

  lemma ResponseCell(m: Transcendentals, x: Grid, k2: real, c: real, i: int)
    requires 0 <= i < |x|
    ensures |Response(m, x, k2, c)| == |x|
    ensures Response(m, x, k2, c)[i] == (if x[i].Some? then ResponseAt(m, x[i].value, k2, c) else None)
  {
    var q := DivideBy(Ln(m, x), k2);
    if !(x[i].Some? && x[i].value > 0.0 && k2 != 0.0) {
      assert q[i].None?;
    }
  }

  /** `Divide(num, den) - 1` at one cell. */
  lemma RatioCell(num: Grid, den: Grid, i: int)
    requires 0 <= i < |num|
    ensures |Minus(Divide(num, den), 1.0)| == |num|
    ensures Minus(Divide(num, den), 1.0)[i] ==
      if num[i].Some? && At(den, i).Some? && At(den, i).value != 0.0 then Some(num[i].value / At(den, i).value - 1.0) else None
  {
  }

  /** The masked deposition divided by `k1`, and the reference, at one cell. */
  lemma OperandsCell(tdep: Grid, spp: Grid, p: Params, k1: real, i: int)
    requires 0 <= i < |tdep|
    ensures var masked := MaskedDeposition(tdep, spp, p);
      var x := DivideBy(masked, k1);
      var ref := Reference(masked, p, k1);
      && |x| == |tdep| && |ref| == |tdep|
      && (if tdep[i].None? || At(spp, i).None? || tdep[i].value < p.minDep || k1 == 0.0
          then x[i].None?
          else x[i] == Some(tdep[i].value / k1) && ref[i] == Some(ReferenceAt(p, tdep[i].value) / k1))
  {
  }

  /**
   * The raster pipeline computes, cell by cell, the closed-form effect: no-data
   * outside the species range, where deposition is no-data or below `min_dep`,
   * and `num / den - 1` with the per-cell reference elsewhere.
   */
  lemma EffectCell(m: Transcendentals, c: real, tdep: Grid, spp: Grid, p: Params, k1: real, i: int)
    requires 0 <= i < |tdep|
    ensures |EffectGrid(m, c, tdep, spp, p, k1)| == |tdep|
    ensures EffectGrid(m, c, tdep, spp, p, k1)[i] ==
      (if tdep[i].None? || At(spp, i).None? then None else EffectAt(m, c, p, k1, tdep[i].value))
  {
    if tdep[i].None? || At(spp, i).None? || tdep[i].value < p.minDep || k1 == 0.0 {
      EffectOutside(m, c, tdep, spp, p, k1, i);
    } else {
      EffectInside(m, c, tdep, spp, p, k1, i);
    }
  }

  /** Outside the mask the numerator, and so the effect, is no-data. */
  lemma EffectOutside(m: Transcendentals, c: real, tdep: Grid, spp: Grid, p: Params, k1: real, i: int)
    requires 0 <= i < |tdep|
    requires tdep[i].None? || At(spp, i).None? || tdep[i].value < p.minDep || k1 == 0.0
    ensures |EffectGrid(m, c, tdep, spp, p, k1)| == |tdep|
    ensures EffectGrid(m, c, tdep, spp, p, k1)[i] == None
  {
    var masked := MaskedDeposition(tdep, spp, p);
    var num := Response(m, DivideBy(masked, k1), p.k2, c);
    var den := Response(m, Reference(masked, p, k1), p.k2, c);
    NumeratorCell(m, c, tdep, spp, p, k1, i);
    RatioCell(num, den, i);
  }

  /** Inside the mask the effect is the ratio of the responses at `d / k1` and at the reference over `k1`, less one. */
  lemma EffectInside(m: Transcendentals, c: real, tdep: Grid, spp: Grid, p: Params, k1: real, i: int)
    requires 0 <= i < |tdep| && tdep[i].Some? && At(spp, i).Some? && tdep[i].value >= p.minDep && k1 != 0.0
    ensures |EffectGrid(m, c, tdep, spp, p, k1)| == |tdep|
    ensures EffectGrid(m, c, tdep, spp, p, k1)[i] == EffectAt(m, c, p, k1, tdep[i].value)
  {
    var masked := MaskedDeposition(tdep, spp, p);
    var num := Response(m, DivideBy(masked, k1), p.k2, c);
    var den := Response(m, Reference(masked, p, k1), p.k2, c);
    NumeratorCell(m, c, tdep, spp, p, k1, i);
    DenominatorCell(m, c, tdep, spp, p, k1, i);
    RatioCell(num, den, i);
  }

  /** The numerator response at one cell: no-data outside the mask, the response at `d / k1` inside. */
  lemma NumeratorCell(m: Transcendentals, c: real, tdep: Grid, spp: Grid, p: Params, k1: real, i: int)
    requires 0 <= i < |tdep|
    ensures var num := Response(m, DivideBy(MaskedDeposition(tdep, spp, p), k1), p.k2, c);
      && |num| == |tdep|
      && num[i] == if tdep[i].None? || At(spp, i).None? || tdep[i].value < p.minDep || k1 == 0.0 then None
                   else ResponseAt(m, tdep[i].value / k1, p.k2, c)
  {
    OperandsCell(tdep, spp, p, k1, i);
    ResponseCell(m, DivideBy(MaskedDeposition(tdep, spp, p), k1), p.k2, c, i);
  }

  /** The denominator response at a cell inside the mask: the response at the reference deposition over `k1`. */
  lemma DenominatorCell(m: Transcendentals, c: real, tdep: Grid, spp: Grid, p: Params, k1: real, i: int)
    requires 0 <= i < |tdep| && tdep[i].Some? && At(spp, i).Some? && tdep[i].value >= p.minDep && k1 != 0.0
    ensures var den := Response(m, Reference(MaskedDeposition(tdep, spp, p), p, k1), p.k2, c);
      && |den| == |tdep|
      && den[i] == ResponseAt(m, ReferenceAt(p, tdep[i].value) / k1, p.k2, c)
  {
    OperandsCell(tdep, spp, p, k1, i);
    ResponseCell(m, Reference(MaskedDeposition(tdep, spp, p), p, k1), p.k2, c, i);
  }

  /**
   * Where the deposition sits at `min_dep` and `min_dep <= dep_max`, numerator
   * and denominator coincide and the effect is exactly zero.
   */
  lemma NoEffectAtMinimum(m: Transcendentals, c: real, p: Params, k1: real)
    requires ExpPositive(m)
    requires k1 != 0.0 && p.k2 != 0.0 && p.minDep / k1 > 0.0
    requires p.minDep <= DepMaxOrMin(p)
    ensures EffectAt(m, c, p, k1, p.minDep) == Some(0.0)
  {
    assert ReferenceAt(p, p.minDep) == p.minDep;
    var v := ResponseAt(m, p.minDep / k1, p.k2, c);
    assert v.Some?;
    assert v.value > 0.0;
    assert v.value / v.value == 1.0;
  }

  /**
   * Above `dep_max` the cell is kept (the clause never masks it) and compared
   * against `dep_max`, not against `min_dep`.
   */
  lemma AboveMaximumUsesDepMax(m: Transcendentals, c: real, tdep: Grid, spp: Grid, p: Params, k1: real, i: int)
    requires 0 <= i < |tdep| && tdep[i].Some? && At(spp, i).Some?
    requires tdep[i].value > DepMaxOrMin(p) && tdep[i].value >= p.minDep && k1 != 0.0
    ensures EffectGrid(m, c, tdep, spp, p, k1)[i] ==
      var num := ResponseAt(m, tdep[i].value / k1, p.k2, c);
      var den := ResponseAt(m, DepMaxOrMin(p) / k1, p.k2, c);
      if num.Some? && den.Some? && den.value != 0.0 then Some(num.value / den.value - 1.0) else None
  {
    EffectCell(m, c, tdep, spp, p, k1, i);
    assert ReferenceAt(p, tdep[i].value) == DepMaxOrMin(p);
  }

  // ------------------------------------------------------------ the batch

  /** One pass of the loops: an element and a proportion raster. */
  datatype Item = Item(e: Element, spp: Raster)

  function OutputContainer(script: Script, e: Element): string {
    ElementCapitalized(e) + script.containerSuffix
  }

  function Target(script: Script): Item -> Result<Path, Failure> {
    (it: Item) => Success(Path(OutputContainer(script, it.e), it.spp.name + script.outputSuffix))
  }

  /** The body of the loop once the output is known to be missing. */
  function Compute(m: Transcendentals, script: Script, table: Table, tdep: Deposition, it: Item): (o: Outcome)
    ensures o.failure.Some? <==> SpeciesCode(it.spp.name).None?
    ensures o.output.Some? <==>
      exists code, p :: SpeciesCode(it.spp.name) == Some(code) && ParamsFor(table, code, it.e) == Some(p) && p.k1.Some?
    ensures o.output.Some? ==>
      && SpeciesCode(it.spp.name).Some?
      && ParamsFor(table, SpeciesCode(it.spp.name).value, it.e).Some?
      && var p := ParamsFor(table, SpeciesCode(it.spp.name).value, it.e).value;
         p.k1.Some? && o.output.value == EffectGrid(m, script.coefficient, tdep.For(it.e), it.spp.grid, p, p.k1.value)
  {
    match SpeciesCode(it.spp.name)
    case None => Crashed(UnparsableName(it.spp.name))
    case Some(code) =>
      match ParamsFor(table, code, it.e)
      case None => Skipped
      case Some(p) =>
        if p.k1.None? then Skipped
        else Saved(EffectGrid(m, script.coefficient, tdep.For(it.e), it.spp.grid, p, p.k1.value))
  }

  function Work(m: Transcendentals, script: Script, table: Table, tdep: Deposition): Item -> Outcome {
    (it: Item) => Compute(m, script, table, tdep, it)
  }

  function ItemsFor(listing: seq<Raster>, e: Element): (items: seq<Item>)
    ensures |items| == |listing|
    ensures forall k :: 0 <= k < |listing| ==> items[k] == Item(e, listing[k])
  {
    seq(|listing|, k requires 0 <= k < |listing| => Item(e, listing[k]))
  }

  /** `for element in ['s', 'n']: for raster in ListRasters()`. */
  function Items(listing: seq<Raster>): (items: seq<Item>)
    ensures forall it: Item :: it in items <==> it.spp in listing
  {
    var items := ItemsFor(listing, S) + ItemsFor(listing, N);
    assert forall it: Item :: it.spp in listing ==> it in items by {
      forall it: Item | it.spp in listing
        ensures it in items
      {
        var k :| 0 <= k < |listing| && listing[k] == it.spp;
        if it.e == S {
          assert ItemsFor(listing, S)[k] == it;
        } else {
          assert ItemsFor(listing, N)[k] == it;
        }
      }
    }
    items
  }

  /** One effect script over the listing of `spp_proportion_ba.gdb`, with its response table. */
  function Stage(m: Transcendentals, script: Script, listing: seq<Raster>, store: Store, table: Table, tdep: Deposition): (r: Run)
    ensures forall p :: p in store ==> p in r.store && r.store[p] == store[p]
    ensures forall p :: p in r.store && p !in store ==> EffectOf(m, script, listing, table, tdep, p, r.store[p])
  {
    NewOutputsAreEffects(m, script, listing, store, table, tdep);
    Resume(Items(listing), store, Target(script), Work(m, script, table, tdep))
  }

  /** `g` is the effect grid of a listed raster whose row has a critical load, saved at `p`. */
  ghost predicate EffectOf(m: Transcendentals, script: Script, listing: seq<Raster>, table: Table, tdep: Deposition, p: Path, g: Grid) {
    exists it: Item, code: int, row: Params ::
      && it.spp in listing && Target(script)(it) == Success(p)
      && SpeciesCode(it.spp.name) == Some(code) && ParamsFor(table, code, it.e) == Some(row) && row.k1.Some?
      && g == EffectGrid(m, script.coefficient, tdep.For(it.e), it.spp.grid, row, row.k1.value)
  }

  lemma EffectWitness(m: Transcendentals, script: Script, listing: seq<Raster>, table: Table, tdep: Deposition, p: Path, g: Grid,
                      it: Item, code: int, row: Params)
    requires it.spp in listing && Target(script)(it) == Success(p)
    requires SpeciesCode(it.spp.name) == Some(code) && ParamsFor(table, code, it.e) == Some(row) && row.k1.Some?
    requires g == EffectGrid(m, script.coefficient, tdep.For(it.e), it.spp.grid, row, row.k1.value)
    ensures EffectOf(m, script, listing, table, tdep, p, g)
  {
  }

  /** Every raster the loop saves is the effect grid of a listed raster, at that raster's own output path. */
  lemma NewOutputsAreEffects(m: Transcendentals, script: Script, listing: seq<Raster>, store: Store, table: Table, tdep: Deposition)
    ensures var r := Resume(Items(listing), store, Target(script), Work(m, script, table, tdep));
      forall p :: p in r.store && p !in store ==> EffectOf(m, script, listing, table, tdep, p, r.store[p])
  {
    var items := Items(listing);
    var r := Resume(items, store, Target(script), Work(m, script, table, tdep));
    forall p | p in r.store && p !in store
      ensures EffectOf(m, script, listing, table, tdep, p, r.store[p])
    {
      var k :| 0 <= k < |items| && Target(script)(items[k]) == Success(p) && Work(m, script, table, tdep)(items[k]).output == Some(r.store[p]);
      var it := items[k];
      assert it in items;
      assert Compute(m, script, table, tdep, it).output == Some(r.store[p]);
      var code := SpeciesCode(it.spp.name).value;
      ComputeSaves(m, script, table, tdep, it, code);
      var row := ParamsFor(table, code, it.e).value;
      EffectWitness(m, script, listing, table, tdep, p, r.store[p], it, code, row);
    }
  }

  // ---------------------------------------------------------- the outputs

  lemma TargetInjective(script: Script, listing: seq<Raster>, a: Item, b: Item)
    requires DistinctNames(listing) && a.spp in listing && b.spp in listing
    requires Target(script)(a) == Target(script)(b)
    ensures a == b
  {
    assert a.e == b.e by {
      assert OutputContainer(script, a.e)[0] == ElementCapitalized(a.e)[0];
      assert OutputContainer(script, b.e)[0] == ElementCapitalized(b.e)[0];
    }
    SuffixCancel(a.spp.name, b.spp.name, script.outputSuffix);
    var i :| 0 <= i < |listing| && listing[i] == a.spp;
    var j :| 0 <= j < |listing| && listing[j] == b.spp;
  }

  lemma ItemsFunctional(m: Transcendentals, script: Script, listing: seq<Raster>, table: Table, tdep: Deposition)
    requires DistinctNames(listing)
    ensures Functional(Items(listing), Target(script), Work(m, script, table, tdep))
  {
    var items := Items(listing);
    forall i, j | 0 <= i < |items| && 0 <= j < |items| && Target(script)(items[i]) == Target(script)(items[j])
      ensures items[i] == items[j]
    {
      assert items[i] in items && items[j] in items;
      TargetInjective(script, listing, items[i], items[j]);
    }
  }

  /** When every listed name parses, the script runs to completion. */
  lemma StageCompletes(m: Transcendentals, script: Script, listing: seq<Raster>, store: Store, table: Table, tdep: Deposition)
    requires forall r :: r in listing ==> SpeciesCode(r.name).Some?
    ensures Stage(m, script, listing, store, table, tdep).failure.None?
  {
    var items := Items(listing);
    forall k | 0 <= k < |items|
      ensures Target(script)(items[k]).Success? && Work(m, script, table, tdep)(items[k]).failure.None?
    {
      assert items[k] in items;
    }
    ResumeCompletes(items, store, Target(script), Work(m, script, table, tdep));
  }

  /** A name that does not parse stops the script when its output is missing. */
  lemma UnparsableNameStops(m: Transcendentals, script: Script, listing: seq<Raster>, store: Store, table: Table, tdep: Deposition, it: Item)
    requires DistinctNames(listing) && it.spp in listing && SpeciesCode(it.spp.name).None?
    requires Target(script)(it).value !in store
    ensures Stage(m, script, listing, store, table, tdep).failure.Some?
  {
    ItemsFunctional(m, script, listing, table, tdep);
    assert it in Items(listing);
    ResumeStopsMember(Items(listing), store, Target(script), Work(m, script, table, tdep), it);
  }

  /**
   * After a completed run, a raster whose `<name>_effect` was missing has one
   * exactly when its row gives a critical load, and it is the effect grid of
   * that row; a row without `k1` (or no row) leaves no output.
   */
  lemma StageWritesEffect(m: Transcendentals, script: Script, listing: seq<Raster>, store: Store, table: Table, tdep: Deposition,
                          it: Item, code: int)
    requires DistinctNames(listing) && it.spp in listing && SpeciesCode(it.spp.name) == Some(code)
    requires Target(script)(it).value !in store
    requires Stage(m, script, listing, store, table, tdep).failure.None?
    ensures var out := Stage(m, script, listing, store, table, tdep).store;
      var path := Path(OutputContainer(script, it.e), it.spp.name + script.outputSuffix);
      && (path in out <==> ParamsFor(table, code, it.e).Some? && ParamsFor(table, code, it.e).value.k1.Some?)
      && (path in out ==>
            var p := ParamsFor(table, code, it.e).value;
            out[path] == EffectGrid(m, script.coefficient, tdep.For(it.e), it.spp.grid, p, p.k1.value))
  {
    ComputeWrites(m, script, listing, store, table, tdep, it);
    ComputeSaves(m, script, table, tdep, it, code);
  }

  /** After a completed run, a missing output holds whatever the loop body computed for it. */
  lemma ComputeWrites(m: Transcendentals, script: Script, listing: seq<Raster>, store: Store, table: Table, tdep: Deposition, it: Item)
    requires DistinctNames(listing) && it.spp in listing
    requires Target(script)(it).value !in store
    requires Stage(m, script, listing, store, table, tdep).failure.None?
    ensures var out := Stage(m, script, listing, store, table, tdep).store;
      var o := Compute(m, script, table, tdep, it);
      && (Target(script)(it).value in out <==> o.output.Some?)
      && (o.output.Some? ==> out[Target(script)(it).value] == o.output.value)
  {
    ItemsFunctional(m, script, listing, table, tdep);
    assert it in Items(listing);
    ResumeWritesMember(Items(listing), store, Target(script), Work(m, script, table, tdep), it);
  }

  /** The loop body saves the effect grid of the species' row exactly when the row has a critical load. */
  lemma ComputeSaves(m: Transcendentals, script: Script, table: Table, tdep: Deposition, it: Item, code: int)
    requires SpeciesCode(it.spp.name) == Some(code)
    ensures var o := Compute(m, script, table, tdep, it);
      && (o.output.Some? <==> ParamsFor(table, code, it.e).Some? && ParamsFor(table, code, it.e).value.k1.Some?)
      && (o.output.Some? ==>
            var p := ParamsFor(table, code, it.e).value;
            o.output.value == EffectGrid(m, script.coefficient, tdep.For(it.e), it.spp.grid, p, p.k1.value))
  {
  }

  /** An output that already exists is neither recomputed nor overwritten. */
  lemma ExistingOutputKept(m: Transcendentals, script: Script, listing: seq<Raster>, store: Store, table: Table, tdep: Deposition, it: Item)
    requires Target(script)(it).value in store
    ensures Stage(m, script, listing, store, table, tdep).store[Target(script)(it).value] == store[Target(script)(it).value]
  {
  }

  /** A second run over the same listing writes nothing. */
  lemma RerunWritesNothing(m: Transcendentals, script: Script, listing: seq<Raster>, store: Store, table: Table, tdep: Deposition)
    requires Stage(m, script, listing, store, table, tdep).failure.None?
    ensures var after := Stage(m, script, listing, store, table, tdep).store;
      Stage(m, script, listing, after, table, tdep) == Run(after, None)
  {
    Batch.RerunWritesNothing(Items(listing), store, Target(script), Work(m, script, table, tdep));
  }
}
