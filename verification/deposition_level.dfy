/**
 * Stage 9: the deposition level at which a species' growth (or survival) rate
 * falls by x% relative to its rate at `dep_max`,
 *   level = k1 * exp(sqrt(left + ln(dep_max / k1)^2)),
 * computed over the species' range, saved as `<raster>_<e>_growth_deposition_red`
 * (or `<raster>_<e>_survival_deposition`).
 *
 * Two readings are modelled. The scripts as written keep the masked `dep_max`
 * raster (`rasObj2`) in a variable that outlives each raster, and build the
 * left term without `k2`; the corrected reading skips a species whose
 * `dep_max` is 0 and puts `k2^2` into the left term.
 */
module DepositionLevel {
  import opened Wrappers
  import opened Grids
  import opened Names
  import opened SpeciesTable
  import opened Batch
  import Effects

  /** The two solver scripts. */
  datatype Script = GrowthLevel | SurvivalLevel {
    function Response(): ResponseVariable {
      match this
      case GrowthLevel => Growth
      case SurvivalLevel => Survival
    }

    /** `1 - x`: the share of the rate that is kept (x = 5% for growth, 1% for survival). */
    function Keep(): real {
      match this
      case GrowthLevel => 0.95
      case SurvivalLevel => 0.99
    }

    /** The period `t` the left term is divided by. */
    function Years(): real {
      match this
      case GrowthLevel => 1.0
      case SurvivalLevel => 10.0
    }

    function OutputSuffix(): string {
      match this
      case GrowthLevel => "_growth_deposition_red"
      case SurvivalLevel => "_survival_deposition"
    }

    function ContainerSuffix(): string {
      match this
      case GrowthLevel => "_" + ResponseName(Growth) + "_deposition_5_red.gdb"
      case SurvivalLevel => "_" + ResponseName(Survival) + "_deposition_1_red_check.gdb"
    }

    /** The exponent coefficient of the effect script for the same response variable. */
    function Coefficient(): real {
      match this
      case GrowthLevel => Effects.GrowthEffect.coefficient
      case SurvivalLevel => Effects.SurvivalEffect.coefficient
    }
  }

  /** How the left term under the square root is built. */
  datatype Formula =
    | AsWritten   // `Divide(multiply_element, t)`: `-2 ln(1-x) / t`, with `k2^2` computed and dropped
    | WithK2      // `Divide(multiply_element_2, t)`: `-2 ln(1-x) k2^2 / t`

  function LeftTerm(m: Transcendentals, script: Script, f: Formula, k2: real): real {
    var lnResponse := Scaled(m.ln(script.Keep()), -2.0);
    match f
    case AsWritten => lnResponse / script.Years()
    case WithK2 => Scaled(lnResponse, SquareOf(k2)) / script.Years()
  }

  // ------------------------------------------------------- the equation

  /**
   * `ExtractByMask(Con(spp_raster is not None, max_dep, spp_raster), spp_raster)`.
   * The condition is the Python value `True`, so the `Con` is `dep_max`
   * everywhere, and the mask leaves it on the species' range.
   */
  function DepMaxGrid(spp: Grid, d: real): (r: Grid)
    ensures |r| == |spp|
    ensures forall i :: 0 <= i < |spp| ==> (r[i].Some? <==> spp[i].Some?)
    ensures forall i :: 0 <= i < |spp| && r[i].Some? ==> r[i].value == d
  {
    var always := Con(Constant(|spp|, Some(1.0)), (_: real) => true, Constant(|spp|, Some(d)), spp);
    ExtractByMask(always, spp)
  }

  /** `Times(k1, Exp(Power(left + Square(Ln(Divide(masked, k1))), 0.5)))`. */
  function LevelGrid(m: Transcendentals, masked: Grid, k1: real, left: real): Grid {
    TimesBy(Exp(m, Sqrt(m, Plus(Square(Ln(m, DivideBy(masked, k1))), left))), k1)
  }

  /** The level for deposition `d`, as one formula: no-data where a logarithm or root is undefined. */
  function LevelAt(m: Transcendentals, k1: real, left: real, d: real): Option<real> {
    if k1 != 0.0 && d / k1 > 0.0 && SquareOf(m.ln(d / k1)) + left >= 0.0
    then Some(Scaled(m.exp(m.sqrt(SquareOf(m.ln(d / k1)) + left)), k1))
    else None
  }

  /** The raster chain computes the closed-form level cell by cell, no-data staying no-data. */
  lemma LevelCell(m: Transcendentals, masked: Grid, k1: real, left: real, i: int)
    requires 0 <= i < |masked|
    ensures |LevelGrid(m, masked, k1, left)| == |masked|
    ensures LevelGrid(m, masked, k1, left)[i] == (if masked[i].Some? then LevelAt(m, k1, left, masked[i].value) else None)
  {
    var q := DivideBy(masked, k1);
    var sq := Square(Ln(m, q));
    var z := Plus(sq, left);
    if masked[i].Some? && k1 != 0.0 && masked[i].value / k1 > 0.0 {
      assert z[i] == Some(SquareOf(m.ln(masked[i].value / k1)) + left);
    } else {
      assert sq[i].None?;
    }
  }

  /**
   * With the constant `dep_max` input, the level is one value over the whole
   * species range and no-data outside it.
   */
  lemma UniformLevel(m: Transcendentals, spp: Grid, d: real, k1: real, left: real, i: int)
    requires 0 <= i < |spp|
    ensures LevelGrid(m, DepMaxGrid(spp, d), k1, left)[i] == (if spp[i].Some? then LevelAt(m, k1, left, d) else None)
  {
    LevelCell(m, DepMaxGrid(spp, d), k1, left, i);
  }

  // ------------------------------------------- what the level is meant to be

  /** The laws of `ln`, `exp` and the square root the solver's derivation relies on. */
  ghost predicate InverseLaws(m: Transcendentals) {
    && (forall y :: m.ln(m.exp(y)) == y)
    && (forall z :: z >= 0.0 ==> SquareOf(m.sqrt(z)) == z)
  }

  /** The exponent of the effect scripts' response at relative deposition `x`. */
  function Exponent(m: Transcendentals, x: real, k2: real, c: real): real
    requires k2 != 0.0
  {
    Scaled(SquareOf(m.ln(x) / k2), c)
  }

  lemma SquarePositive(y: real)
    requires y != 0.0
    ensures SquareOf(y) > 0.0
  {
    var a := if y > 0.0 then y else -y;
    calc {
      SquareOf(y);
      a * a;
    >  { assert a * a > a * 0.0; }
      a * 0.0;
      0.0;
    }
  }

  lemma SquareOfQuotient(x: real, y: real)
    requires y != 0.0
    ensures SquareOf(y) > 0.0
    ensures SquareOf(x / y) == SquareOf(x) / SquareOf(y)
  {
    SquarePositive(y);
    var u := x / y;
    assert u * y == x;
    assert SquareOf(u) * SquareOf(y) == SquareOf(x);
  }

  /** Response at the level versus response at `d`: the exponent moves by `c * left / k2^2`. */
  lemma {:induction false} LevelExponent(m: Transcendentals, k1: real, k2: real, c: real, left: real, d: real)
    requires InverseLaws(m) && ExpPositive(m)
    requires k2 != 0.0 && LevelAt(m, k1, left, d).Some?
    ensures LevelAt(m, k1, left, d).value / k1 > 0.0
    ensures SquareOf(k2) > 0.0
    ensures Effects.ResponseAt(m, LevelAt(m, k1, left, d).value / k1, k2, c)
      == Some(m.exp(Exponent(m, d / k1, k2, c) + Scaled(left, c) / SquareOf(k2)))
  {
    var a := m.ln(d / k1);
    var z := SquareOf(a) + left;
    var s := m.sqrt(z);
    var l := Scaled(m.exp(s), k1);
    assert LevelAt(m, k1, left, d).value == l;
    assert l / k1 == m.exp(s);
    assert m.ln(l / k1) == s;
    assert SquareOf(s) == z;
    SquareOfQuotient(s, k2);
    SquareOfQuotient(a, k2);
    var k := SquareOf(k2);
    assert k != 0.0;
    calc {
      Exponent(m, l / k1, k2, c);
      Scaled(SquareOf(s) / k, c);
      Scaled((SquareOf(a) + left) / k, c);
      { assert (SquareOf(a) + left) / k == SquareOf(a) / k + left / k; }
      Scaled(SquareOf(a) / k, c) + Scaled(left / k, c);
      { assert Scaled(left / k, c) == Scaled(left, c) / k; }
      Exponent(m, d / k1, k2, c) + Scaled(left, c) / k;
    }
  }

  /** Each solver's period is `-2` times its effect script's coefficient (t = 1 with -0.5, t = 10 with -5). */
  lemma PeriodMatchesCoefficient(script: Script)
    ensures Scaled(script.Coefficient(), -2.0) == script.Years()
  {
  }

  /**
   * With `k2^2` in the left term, the species' response at the level is its
   * response at `dep_max` with `ln(1 - x)` added to the exponent, that is,
   * multiplied by `1 - x`: the level is where the rate has fallen by x%.
   */
  lemma CorrectedLevelReducesResponse(m: Transcendentals, script: Script, k1: real, k2: real, d: real)
    requires InverseLaws(m) && ExpPositive(m)
    requires k2 != 0.0 && LevelAt(m, k1, LeftTerm(m, script, WithK2, k2), d).Some?
    ensures var l := LevelAt(m, k1, LeftTerm(m, script, WithK2, k2), d).value;
      Effects.ResponseAt(m, l / k1, k2, script.Coefficient())
        == Some(m.exp(Exponent(m, d / k1, k2, script.Coefficient()) + m.ln(script.Keep())))
  {
    var c := script.Coefficient();
    var t := script.Years();
    var left := LeftTerm(m, script, WithK2, k2);
    LevelExponent(m, k1, k2, c, left, d);
    var g := m.ln(script.Keep());
    var k := SquareOf(k2);
    assert k != 0.0;
    PeriodMatchesCoefficient(script);
    assert left == (g * -2.0 * k) / t;
    calc {
      Scaled(left, c) / k;
      ((g * -2.0 * k) / t * c) / k;
      { assert (g * -2.0 * k) / t * c == (g * k) * ((c * -2.0) / t); }
      ((g * k) * ((c * -2.0) / t)) / k;
      { assert (c * -2.0) / t == 1.0; }
      (g * k) / k;
      g;
    }
  }

  /**
   * As written, the exponent moves by `ln(1 - x) / k2^2` instead: for k2 = 2
   * the level is where the rate has fallen by a quarter of x% in the exponent,
   * not by x%.
   */
  lemma AsWrittenLevelMissesReduction(m: Transcendentals, script: Script, k1: real, d: real)
    requires InverseLaws(m) && ExpPositive(m)
    requires m.ln(script.Keep()) < 0.0
    requires LevelAt(m, k1, LeftTerm(m, script, AsWritten, 2.0), d).Some?
    ensures var l := LevelAt(m, k1, LeftTerm(m, script, AsWritten, 2.0), d).value;
      Effects.ResponseAt(m, l / k1, 2.0, script.Coefficient())
        == Some(m.exp(Exponent(m, d / k1, 2.0, script.Coefficient()) + m.ln(script.Keep()) / 4.0))
    ensures m.ln(script.Keep()) / 4.0 != m.ln(script.Keep())
  {
    var c := script.Coefficient();
    var t := script.Years();
    var left := LeftTerm(m, script, AsWritten, 2.0);
    LevelExponent(m, k1, 2.0, c, left, d);
    var g := m.ln(script.Keep());
    PeriodMatchesCoefficient(script);
    assert SquareOf(2.0) == 4.0;
    assert left == (g * -2.0) / t;
    assert Scaled(left, c) == g * ((c * -2.0) / t);
    assert (c * -2.0) / t == 1.0;
  }

  // ------------------------------------------------------------ the batch

  /** One pass of the loops: an element and a proportion raster. */
  datatype Item = Item(e: Element, spp: Raster)

  function OutputContainer(script: Script, e: Element): string {
    ElementCapitalized(e) + script.ContainerSuffix()
  }

  function Suffix(script: Script, e: Element): string {
    "_" + ElementName(e) + script.OutputSuffix()
  }

  function OutputPath(script: Script, it: Item): Path {
    Path(OutputContainer(script, it.e), it.spp.name + Suffix(script, it.e))
  }

  function Target(script: Script): Item -> Result<Path, Failure> {
    (it: Item) => Success(OutputPath(script, it))
  }

  /**
   * The corrected body of the loop: a species is solved for when its row has
   * `k1` and a non-zero `dep_max`; a name that does not parse stops the script.
   */
  function Compute(m: Transcendentals, script: Script, f: Formula, table: Table, it: Item): (o: Outcome)
    ensures o.failure.Some? <==> SpeciesCode(it.spp.name).None?
    ensures o.output.Some? <==>
      exists code, p :: SpeciesCode(it.spp.name) == Some(code) && ParamsFor(table, code, it.e) == Some(p)
        && p.k1.Some? && p.depMax.Some? && p.depMax.value != 0.0
    ensures o.output.Some? ==>
      && SpeciesCode(it.spp.name).Some?
      && ParamsFor(table, SpeciesCode(it.spp.name).value, it.e).Some?
      && var p := ParamsFor(table, SpeciesCode(it.spp.name).value, it.e).value;
         p.k1.Some? && p.depMax.Some?
         && o.output.value == LevelGrid(m, DepMaxGrid(it.spp.grid, p.depMax.value), p.k1.value, LeftTerm(m, script, f, p.k2))
  {
    match SpeciesCode(it.spp.name)
    case None => Crashed(UnparsableName(it.spp.name))
    case Some(code) =>
      match ParamsFor(table, code, it.e)
      case None => Skipped
      case Some(p) =>
        if p.k1.None? || p.depMax.None? || p.depMax.value == 0.0 then Skipped
        else Saved(LevelGrid(m, DepMaxGrid(it.spp.grid, p.depMax.value), p.k1.value, LeftTerm(m, script, f, p.k2)))
  }

  function Work(m: Transcendentals, script: Script, f: Formula, table: Table): Item -> Outcome {
    (it: Item) => Compute(m, script, f, table, it)
  }

  function ItemsFor(listing: seq<Raster>, e: Element): (items: seq<Item>)
    ensures |items| == |listing|
    ensures forall k :: 0 <= k < |listing| ==> items[k] == Item(e, listing[k])
  {
    seq(|listing|, k requires 0 <= k < |listing| => Item(e, listing[k]))
  }

  /** `for element in ['s', 'n']: for raster in ListRasters()`. */
  function Items(listing: seq<Raster>): (items: seq<Item>)
    ensures forall it: Item :: it in items <==> it.spp in listing
  {
    var items := ItemsFor(listing, S) + ItemsFor(listing, N);
    assert forall it: Item :: it.spp in listing ==> it in items by {
      forall it: Item | it.spp in listing
        ensures it in items
      {
        var k :| 0 <= k < |listing| && listing[k] == it.spp;
        if it.e == S {
          assert ItemsFor(listing, S)[k] == it;
        } else {
          assert ItemsFor(listing, N)[k] == it;
        }
      }
    }
    items
  }

  /**
   * The script over the listing of `spp_proportion_ba.gdb`, reading its
   * response variable's table, with the second cursor skipping a zero
   * `dep_max` as the first one reports. `f` chooses the left term:
   * `AsWritten` keeps the script's formula, so the skip is the only change;
   * `WithK2` also applies the `k2²` factor.
   */
  function Stage(m: Transcendentals, script: Script, f: Formula, listing: seq<Raster>, store: Store, tables: Tables): (r: Run)
    ensures forall p :: p in store ==> p in r.store && r.store[p] == store[p]
    ensures forall p :: p in r.store && p !in store ==> LevelOf(m, script, f, listing, tables.For(script.Response()), p, r.store[p])
  {
    NewOutputsAreLevels(m, script, f, listing, store, tables.For(script.Response()));
    Resume(Items(listing), store, Target(script), Work(m, script, f, tables.For(script.Response())))
  }

  /** `g` is the level grid of a listed raster whose row has `k1` and a non-zero `dep_max`, saved at `p`. */
  ghost predicate LevelOf(m: Transcendentals, script: Script, f: Formula, listing: seq<Raster>, table: Table, p: Path, g: Grid) {
    exists it: Item, code: int, row: Params ::
      && it.spp in listing && OutputPath(script, it) == p
      && SpeciesCode(it.spp.name) == Some(code) && ParamsFor(table, code, it.e) == Some(row)
      && row.k1.Some? && row.depMax.Some? && row.depMax.value != 0.0
      && g == LevelGrid(m, DepMaxGrid(it.spp.grid, row.depMax.value), row.k1.value, LeftTerm(m, script, f, row.k2))
  }

  lemma LevelWitness(m: Transcendentals, script: Script, f: Formula, listing: seq<Raster>, table: Table, p: Path, g: Grid,
                     it: Item, code: int, row: Params)
    requires it.spp in listing && OutputPath(script, it) == p
    requires SpeciesCode(it.spp.name) == Some(code) && ParamsFor(table, code, it.e) == Some(row)
    requires row.k1.Some? && row.depMax.Some? && row.depMax.value != 0.0
    requires g == LevelGrid(m, DepMaxGrid(it.spp.grid, row.depMax.value), row.k1.value, LeftTerm(m, script, f, row.k2))
    ensures LevelOf(m, script, f, listing, table, p, g)
  {
  }

  /** Every raster the corrected loop saves is the level grid of a listed raster, at that raster's own output path. */
  lemma NewOutputsAreLevels(m: Transcendentals, script: Script, f: Formula, listing: seq<Raster>, store: Store, table: Table)
    ensures var r := Resume(Items(listing), store, Target(script), Work(m, script, f, table));
      forall p :: p in r.store && p !in store ==> LevelOf(m, script, f, listing, table, p, r.store[p])
  {
    var items := Items(listing);
    var work := Work(m, script, f, table);
    var r := Resume(items, store, Target(script), work);
    forall p | p in r.store && p !in store
      ensures LevelOf(m, script, f, listing, table, p, r.store[p])
    {
      var k :| 0 <= k < |items| && Target(script)(items[k]) == Success(p) && work(items[k]).output == Some(r.store[p]);
      var it := items[k];
      assert it in items;
      assert Compute(m, script, f, table, it).output == Some(r.store[p]);
      var code := SpeciesCode(it.spp.name).value;
      ComputeSaves(m, script, f, table, it, code);
      var row := ParamsFor(table, code, it.e).value;
      LevelWitness(m, script, f, listing, table, p, r.store[p], it, code, row);
    }
  }

  // ------------------------------------------------- the outputs (corrected)

  lemma TargetInjective(script: Script, listing: seq<Raster>, a: Item, b: Item)
    requires DistinctNames(listing) && a.spp in listing && b.spp in listing
    requires OutputPath(script, a) == OutputPath(script, b)
    ensures a == b
  {
    assert a.e == b.e by {
      assert OutputContainer(script, a.e)[0] == ElementCapitalized(a.e)[0];
      assert OutputContainer(script, b.e)[0] == ElementCapitalized(b.e)[0];
    }
    SuffixCancel(a.spp.name, b.spp.name, Suffix(script, a.e));
    var i :| 0 <= i < |listing| && listing[i] == a.spp;
    var j :| 0 <= j < |listing| && listing[j] == b.spp;
  }

  lemma ItemsFunctional(m: Transcendentals, script: Script, f: Formula, listing: seq<Raster>, table: Table)
    requires DistinctNames(listing)
    ensures Functional(Items(listing), Target(script), Work(m, script, f, table))
  {
    var items := Items(listing);
    forall i, j | 0 <= i < |items| && 0 <= j < |items| && Target(script)(items[i]) == Target(script)(items[j])
      ensures items[i] == items[j]
    {
      assert items[i] in items && items[j] in items;
      TargetInjective(script, listing, items[i], items[j]);
    }
  }

  /** When every listed name parses, the script runs to completion. */
  lemma StageCompletes(m: Transcendentals, script: Script, f: Formula, listing: seq<Raster>, store: Store, tables: Tables)
    requires forall r :: r in listing ==> SpeciesCode(r.name).Some?
    ensures Stage(m, script, f, listing, store, tables).failure.None?
  {
    var items := Items(listing);
    var work := Work(m, script, f, tables.For(script.Response()));
    forall k | 0 <= k < |items|
      ensures Target(script)(items[k]).Success? && work(items[k]).failure.None?
    {
      assert items[k] in items;
    }
    ResumeCompletes(items, store, Target(script), work);
  }

  /** A name that does not parse stops the script when its output is missing. */
  lemma UnparsableNameStops(m: Transcendentals, script: Script, f: Formula, listing: seq<Raster>, store: Store, tables: Tables, it: Item)
    requires DistinctNames(listing) && it.spp in listing && SpeciesCode(it.spp.name).None?
    requires OutputPath(script, it) !in store
    ensures Stage(m, script, f, listing, store, tables).failure.Some?
  {
    var table := tables.For(script.Response());
    ItemsFunctional(m, script, f, listing, table);
    assert it in Items(listing);
    ResumeStopsMember(Items(listing), store, Target(script), Work(m, script, f, table), it);
  }

  /**
   * After a completed run, a raster whose output was missing has one exactly
   * when its row (in the table of the script's response variable) has `k1` and
   * a non-zero `dep_max`; the output is the level grid over the species' range.
   */
  lemma StageWritesLevel(m: Transcendentals, script: Script, f: Formula, listing: seq<Raster>, store: Store, tables: Tables, it: Item, code: int)
    requires DistinctNames(listing) && it.spp in listing && SpeciesCode(it.spp.name) == Some(code)
    requires OutputPath(script, it) !in store
    requires Stage(m, script, f, listing, store, tables).failure.None?
    ensures var out := Stage(m, script, f, listing, store, tables).store;
      var row := ParamsFor(tables.For(script.Response()), code, it.e);
      && (OutputPath(script, it) in out <==>
            row.Some? && row.value.k1.Some? && row.value.depMax.Some? && row.value.depMax.value != 0.0)
      && (OutputPath(script, it) in out ==>
            out[OutputPath(script, it)] ==
              LevelGrid(m, DepMaxGrid(it.spp.grid, row.value.depMax.value), row.value.k1.value, LeftTerm(m, script, f, row.value.k2)))
  {
    var table := tables.For(script.Response());
    ComputeWrites(m, script, f, listing, store, tables, it);
    ComputeSaves(m, script, f, table, it, code);
  }

  lemma ComputeWrites(m: Transcendentals, script: Script, f: Formula, listing: seq<Raster>, store: Store, tables: Tables, it: Item)
    requires DistinctNames(listing) && it.spp in listing
    requires OutputPath(script, it) !in store
    requires Stage(m, script, f, listing, store, tables).failure.None?
    ensures var out := Stage(m, script, f, listing, store, tables).store;
      var o := Compute(m, script, f, tables.For(script.Response()), it);
      && (OutputPath(script, it) in out <==> o.output.Some?)
      && (o.output.Some? ==> out[OutputPath(script, it)] == o.output.value)
  {
    var table := tables.For(script.Response());
    ItemsFunctional(m, script, f, listing, table);
    assert it in Items(listing);
    ResumeWritesMember(Items(listing), store, Target(script), Work(m, script, f, table), it);
  }

  /** The corrected loop body saves the level grid exactly when the row has `k1` and a non-zero `dep_max`. */
  lemma ComputeSaves(m: Transcendentals, script: Script, f: Formula, table: Table, it: Item, code: int)
    requires SpeciesCode(it.spp.name) == Some(code)
    ensures var o := Compute(m, script, f, table, it);
      var row := ParamsFor(table, code, it.e);
      && (o.output.Some? <==> row.Some? && row.value.k1.Some? && row.value.depMax.Some? && row.value.depMax.value != 0.0)
      && (o.output.Some? ==>
            o.output.value == LevelGrid(m, DepMaxGrid(it.spp.grid, row.value.depMax.value), row.value.k1.value, LeftTerm(m, script, f, row.value.k2)))
  {
  }


  /** A second run over the same listing writes nothing. */
  lemma RerunWritesNothing(m: Transcendentals, script: Script, f: Formula, listing: seq<Raster>, store: Store, tables: Tables)
    requires Stage(m, script, f, listing, store, tables).failure.None?
    ensures var after := Stage(m, script, f, listing, store, tables).store;
      Stage(m, script, f, listing, after, tables) == Run(after, None)
  {
    Batch.RerunWritesNothing(Items(listing), store, Target(script), Work(m, script, f, tables.For(script.Response())));
  }

  // ------------------------------------------------ the scripts as written

  /** What one pass of the loop leaves: its outcome, and the masked `dep_max` raster `rasObj2` afterwards. */
  datatype Step = Step(outcome: Outcome, masked: Option<Grid>)

  /**
   * One pass as written. The first cursor reassigns `rasObj2` only for a
   * non-zero `dep_max` (a zero one is reported as skipped); the second cursor
   * computes for any present `k1` and `dep_max` with whatever `rasObj2` holds,
   * raising `NameError` when nothing was ever assigned to it. `k2` is read and
   * not used.
   */
  function StepAsWritten(m: Transcendentals, script: Script, row: Option<Params>, spp: Grid, masked: Option<Grid>): (st: Step)
    ensures row.Some? && row.value.depMax.Some? && row.value.depMax.value != 0.0 ==>
      st.masked == Some(DepMaxGrid(spp, row.value.depMax.value))
    ensures st.outcome.output.Some? || st.outcome.failure.Some? <==>
      row.Some? && row.value.k1.Some? && row.value.depMax.Some?
    ensures st.outcome.failure.Some? ==>
      st.outcome.failure == Some(UnboundMaskedGrid) && st.masked.None? && masked.None?
  {
    var masked' := if row.Some? && row.value.depMax.Some? && row.value.depMax.value != 0.0
                   then Some(DepMaxGrid(spp, row.value.depMax.value)) else masked;
    if row.None? || row.value.k1.None? || row.value.depMax.None? then Step(Skipped, masked')
    else if masked'.None? then Step(Crashed(UnboundMaskedGrid), masked')
    else Step(Saved(LevelGrid(m, masked'.value, row.value.k1.value, LeftTerm(m, script, AsWritten, row.value.k2))), masked')
  }

  /** The loop as written, threading `rasObj2` from one processed raster to the next. */
  function RunAsWritten(m: Transcendentals, script: Script, table: Table, items: seq<Item>, store: Store, masked: Option<Grid>): (r: Run)
    ensures forall p :: p in store ==> p in r.store && r.store[p] == store[p]
    decreases |items|
  {
    if items == [] then Run(store, None)
    else
      var path := OutputPath(script, items[0]);
      if path in store then RunAsWritten(m, script, table, items[1..], store, masked)
      else
        match SpeciesCode(items[0].spp.name)
        case None => Run(store, Some(UnparsableName(items[0].spp.name)))
        case Some(code) =>
          var st := StepAsWritten(m, script, ParamsFor(table, code, items[0].e), items[0].spp.grid, masked);
          var s := if st.outcome.output.Some? then store[path := st.outcome.output.value] else store;
          if st.outcome.failure.Some? then Run(s, st.outcome.failure)
          else RunAsWritten(m, script, table, items[1..], s, st.masked)
  }

  /**
   * The script as written. Every new output is a level grid with the row's
   * own `k1` and the left term as written, but over the masked `dep_max` of
   * whichever listed raster with a non-zero `dep_max` last rebound `rasObj2`,
   * not necessarily the raster's own.
   */
  function StageAsWritten(m: Transcendentals, script: Script, listing: seq<Raster>, store: Store, tables: Tables): (r: Run)
    ensures forall p :: p in store ==> p in r.store && r.store[p] == store[p]
    ensures forall p :: p in r.store && p !in store ==>
      AsWrittenLevelOf(m, script, tables.For(script.Response()), Items(listing), None, p, r.store[p])
  {
    AsWrittenNewOutputs(m, script, tables.For(script.Response()), Items(listing), store, None);
    RunAsWritten(m, script, tables.For(script.Response()), Items(listing), store, None)
  }

  /** `g` is the masked `dep_max` raster of an item whose row has a non-zero `dep_max`. */
  ghost predicate MaskOf(table: Table, items: seq<Item>, g: Grid) {
    exists src: Item, c: int, q: Params ::
      && src in items && SpeciesCode(src.spp.name) == Some(c) && ParamsFor(table, c, src.e) == Some(q)
      && q.depMax.Some? && q.depMax.value != 0.0 && g == DepMaxGrid(src.spp.grid, q.depMax.value)
  }

  /** What `rasObj2` may hold during the loop: what it held on entry, or a mask the loop assigned. */
  ghost predicate Bound(table: Table, items: seq<Item>, masked: Option<Grid>, g: Grid) {
    masked == Some(g) || MaskOf(table, items, g)
  }

  /**
   * `g`, saved at `p`, is the as-written level grid of an item whose row has
   * `k1` and `dep_max`, over a masked raster `rasObj2` may hold.
   */
  ghost predicate AsWrittenLevelOf(m: Transcendentals, script: Script, table: Table, items: seq<Item>, masked: Option<Grid>,
                                   p: Path, g: Grid) {
    exists it: Item, code: int, row: Params, mask: Grid ::
      && it in items && OutputPath(script, it) == p
      && SpeciesCode(it.spp.name) == Some(code) && ParamsFor(table, code, it.e) == Some(row)
      && row.k1.Some? && row.depMax.Some? && Bound(table, items, masked, mask)
      && g == LevelGrid(m, mask, row.k1.value, LeftTerm(m, script, AsWritten, row.k2))
  }

  /**
   * Every raster the loop as written saves is an as-written level grid over
   * what `rasObj2` held on entry or a mask the loop assigned.
   */
  lemma {:induction false} AsWrittenNewOutputs(m: Transcendentals, script: Script, table: Table, items: seq<Item>,
                                               store: Store, masked: Option<Grid>)
    ensures var r := RunAsWritten(m, script, table, items, store, masked);
      forall p :: p in r.store && p !in store ==> AsWrittenLevelOf(m, script, table, items, masked, p, r.store[p])
    decreases |items|
  {
    if items != [] {
      var r := RunAsWritten(m, script, table, items, store, masked);
      if OutputPath(script, items[0]) in store {
        assert r == RunAsWritten(m, script, table, items[1..], store, masked);
        AsWrittenNewOutputs(m, script, table, items[1..], store, masked);
        SkipCaseOutputs(m, script, table, items, store, masked, r.store);
      } else if SpeciesCode(items[0].spp.name).Some? {
        var st, s := UnfoldAsWritten(m, script, table, items, store, masked);
        if st.outcome.failure.None? {
          AsWrittenNewOutputs(m, script, table, items[1..], s, st.masked);
          StepCaseOutputs(m, script, table, items, store, masked, st, s, r.store);
        }
      }
    }
  }

  /** The loop as written, unfolded over a first raster whose output is missing and whose name parses. */
  lemma UnfoldAsWritten(m: Transcendentals, script: Script, table: Table, items: seq<Item>, store: Store, masked: Option<Grid>)
    returns (st: Step, s: Store)
    requires items != [] && SpeciesCode(items[0].spp.name).Some? && OutputPath(script, items[0]) !in store
    ensures st == StepAsWritten(m, script, ParamsFor(table, SpeciesCode(items[0].spp.name).value, items[0].e), items[0].spp.grid, masked)
    ensures s == if st.outcome.output.Some? then store[OutputPath(script, items[0]) := st.outcome.output.value] else store
    ensures RunAsWritten(m, script, table, items, store, masked)
              == if st.outcome.failure.Some? then Run(s, st.outcome.failure) else RunAsWritten(m, script, table, items[1..], s, st.masked)
  {
    st := StepAsWritten(m, script, ParamsFor(table, SpeciesCode(items[0].spp.name).value, items[0].e), items[0].spp.grid, masked);
    s := if st.outcome.output.Some? then store[OutputPath(script, items[0]) := st.outcome.output.value] else store;
  }

  /** Outputs of the rest of the loop, after a first raster whose output existed. */
  lemma SkipCaseOutputs(m: Transcendentals, script: Script, table: Table, items: seq<Item>, store: Store,
                        masked: Option<Grid>, out: Store)
    requires items != []
    requires forall p :: p in out && p !in store ==> AsWrittenLevelOf(m, script, table, items[1..], masked, p, out[p])
    ensures forall p :: p in out && p !in store ==> AsWrittenLevelOf(m, script, table, items, masked, p, out[p])
  {
    forall p | p in out && p !in store
      ensures AsWrittenLevelOf(m, script, table, items, masked, p, out[p])
    {
      WidenLevelOf(m, script, table, items, masked, masked, p, out[p]);
    }
  }

  /** The outputs of a first pass that saved or skipped, followed by the rest of the loop. */
  lemma StepCaseOutputs(m: Transcendentals, script: Script, table: Table, items: seq<Item>, store: Store,
                        masked: Option<Grid>, st: Step, s: Store, out: Store)
    requires items != [] && SpeciesCode(items[0].spp.name).Some? && OutputPath(script, items[0]) !in store
    requires st == StepAsWritten(m, script, ParamsFor(table, SpeciesCode(items[0].spp.name).value, items[0].e), items[0].spp.grid, masked)
    requires s == if st.outcome.output.Some? then store[OutputPath(script, items[0]) := st.outcome.output.value] else store
    requires forall p :: p in s ==> p in out && out[p] == s[p]
    requires forall p :: p in out && p !in s ==> AsWrittenLevelOf(m, script, table, items[1..], st.masked, p, out[p])
    ensures forall p :: p in out && p !in store ==> AsWrittenLevelOf(m, script, table, items, masked, p, out[p])
  {
    StepMaskBound(m, script, table, items, masked, st);
    forall p | p in out && p !in store
      ensures AsWrittenLevelOf(m, script, table, items, masked, p, out[p])
    {
      if p in s {
        StepOutputLevel(m, script, table, items, masked, st);
      } else {
        WidenLevelOf(m, script, table, items, masked, st.masked, p, out[p]);
      }
    }
  }

  /** After the first pass, `rasObj2` holds what it held before or the first raster's mask. */
  lemma StepMaskBound(m: Transcendentals, script: Script, table: Table, items: seq<Item>, masked: Option<Grid>, st: Step)
    requires items != [] && SpeciesCode(items[0].spp.name).Some?
    requires st == StepAsWritten(m, script, ParamsFor(table, SpeciesCode(items[0].spp.name).value, items[0].e), items[0].spp.grid, masked)
    ensures st.masked == masked || (st.masked.Some? && MaskOf(table, items, st.masked.value))
  {
    var it := items[0];
    var c := SpeciesCode(it.spp.name).value;
    var row := ParamsFor(table, c, it.e);
    if row.Some? && row.value.depMax.Some? && row.value.depMax.value != 0.0 {
      assert it in items;
      MaskWitness(table, items, st.masked.value, it, c, row.value);
    }
  }

  lemma MaskWitness(table: Table, items: seq<Item>, g: Grid, src: Item, c: int, q: Params)
    requires src in items && SpeciesCode(src.spp.name) == Some(c) && ParamsFor(table, c, src.e) == Some(q)
    requires q.depMax.Some? && q.depMax.value != 0.0 && g == DepMaxGrid(src.spp.grid, q.depMax.value)
    ensures MaskOf(table, items, g)
  {
  }

  lemma AsWrittenLevelWitness(m: Transcendentals, script: Script, table: Table, items: seq<Item>, masked: Option<Grid>,
                              p: Path, g: Grid, it: Item, code: int, row: Params, mask: Grid)
    requires it in items && OutputPath(script, it) == p
    requires SpeciesCode(it.spp.name) == Some(code) && ParamsFor(table, code, it.e) == Some(row)
    requires row.k1.Some? && row.depMax.Some? && Bound(table, items, masked, mask)
    requires g == LevelGrid(m, mask, row.k1.value, LeftTerm(m, script, AsWritten, row.k2))
    ensures AsWrittenLevelOf(m, script, table, items, masked, p, g)
  {
  }

  /** What the first pass saves is an as-written level grid over the mask it leaves bound. */
  lemma StepOutputLevel(m: Transcendentals, script: Script, table: Table, items: seq<Item>, masked: Option<Grid>, st: Step)
    requires items != [] && SpeciesCode(items[0].spp.name).Some?
    requires st == StepAsWritten(m, script, ParamsFor(table, SpeciesCode(items[0].spp.name).value, items[0].e), items[0].spp.grid, masked)
    requires st.outcome.output.Some?
    ensures AsWrittenLevelOf(m, script, table, items, masked, OutputPath(script, items[0]), st.outcome.output.value)
  {
    var it := items[0];
    var code := SpeciesCode(it.spp.name).value;
    var row := ParamsFor(table, code, it.e).value;
    StepMaskBound(m, script, table, items, masked, st);
    assert it in items;
    AsWrittenLevelWitness(m, script, table, items, masked, OutputPath(script, it), st.outcome.output.value,
                          it, code, row, st.masked.value);
  }

  /**
   * An output the rest of the loop saves, over a mask bound after the first
   * pass, is one the whole loop may save.
   */
  lemma WidenLevelOf(m: Transcendentals, script: Script, table: Table, items: seq<Item>, masked: Option<Grid>,
                     masked2: Option<Grid>, p: Path, g: Grid)
    requires items != []
    requires masked2 == masked || (masked2.Some? && MaskOf(table, items, masked2.value))
    requires AsWrittenLevelOf(m, script, table, items[1..], masked2, p, g)
    ensures AsWrittenLevelOf(m, script, table, items, masked, p, g)
  {
    var it, code, row, mask :| && it in items[1..] && OutputPath(script, it) == p
      && SpeciesCode(it.spp.name) == Some(code) && ParamsFor(table, code, it.e) == Some(row)
      && row.k1.Some? && row.depMax.Some? && Bound(table, items[1..], masked2, mask)
      && g == LevelGrid(m, mask, row.k1.value, LeftTerm(m, script, AsWritten, row.k2));
    assert it in items;
    WidenBound(table, items, masked, masked2, mask);
    AsWrittenLevelWitness(m, script, table, items, masked, p, g, it, code, row, mask);
  }

  lemma WidenBound(table: Table, items: seq<Item>, masked: Option<Grid>, masked2: Option<Grid>, mask: Grid)
    requires items != []
    requires masked2 == masked || (masked2.Some? && MaskOf(table, items, masked2.value))
    requires Bound(table, items[1..], masked2, mask)
    ensures Bound(table, items, masked, mask)
  {
    if masked2 != Some(mask) {
      var src, c, q :| && src in items[1..] && SpeciesCode(src.spp.name) == Some(c) && ParamsFor(table, c, src.e) == Some(q)
        && q.depMax.Some? && q.depMax.value != 0.0 && mask == DepMaxGrid(src.spp.grid, q.depMax.value);
      assert src in items;
      MaskWitness(table, items, mask, src, c, q);
    }
  }

  /** As written, the level does not depend on `k2` at all. */
  lemma AsWrittenIgnoresK2(m: Transcendentals, script: Script, p: Params, k2: real, spp: Grid, masked: Option<Grid>)
    ensures StepAsWritten(m, script, Some(p), spp, masked) == StepAsWritten(m, script, Some(p.(k2 := k2)), spp, masked)
  {
  }

  /** No row of a listed species has a `dep_max` of exactly 0. */
  predicate NoZeroDepMax(table: Table, it: Item) {
    match SpeciesCode(it.spp.name)
    case None => true
    case Some(code) => ParamsFor(table, code, it.e).None? || ParamsFor(table, code, it.e).value.depMax != Some(0.0)
  }

  /**
   * Without a zero `dep_max` the stale `rasObj2` is never read: the loop as
   * written saves exactly what the corrected loop saves (with the left term as
   * written), whatever `rasObj2` held before.
   */
  lemma {:induction false} AsWrittenAgreesWithoutZeroDepMax(m: Transcendentals, script: Script, table: Table, items: seq<Item>,
                                                           store: Store, masked: Option<Grid>)
    requires forall k :: 0 <= k < |items| ==> NoZeroDepMax(table, items[k])
    ensures RunAsWritten(m, script, table, items, store, masked) == Resume(items, store, Target(script), Work(m, script, AsWritten, table))
    decreases |items|
  {
    if items != [] {
      var it := items[0];
      var path := OutputPath(script, it);
      NoZeroDepMaxTail(table, items);
      if path in store {
        AsWrittenAgreesWithoutZeroDepMax(m, script, table, items[1..], store, masked);
      } else if SpeciesCode(it.spp.name).Some? {
        var st, s := AsWrittenStep(m, script, table, items, store, masked);
        AsWrittenAgreesWithoutZeroDepMax(m, script, table, items[1..], s, st.masked);
      }
    }
  }

  /** One pass over a raster without a zero `dep_max`, as written and corrected alike: both loops go on with the same store. */
  lemma AsWrittenStep(m: Transcendentals, script: Script, table: Table, items: seq<Item>, store: Store, masked: Option<Grid>)
    returns (st: Step, s: Store)
    requires items != [] && OutputPath(script, items[0]) !in store
    requires SpeciesCode(items[0].spp.name).Some? && NoZeroDepMax(table, items[0])
    ensures st == StepAsWritten(m, script, ParamsFor(table, SpeciesCode(items[0].spp.name).value, items[0].e), items[0].spp.grid, masked)
    ensures RunAsWritten(m, script, table, items, store, masked) == RunAsWritten(m, script, table, items[1..], s, st.masked)
    ensures Resume(items, store, Target(script), Work(m, script, AsWritten, table))
              == Resume(items[1..], s, Target(script), Work(m, script, AsWritten, table))
  {
    var it := items[0];
    st := StepAsWritten(m, script, ParamsFor(table, SpeciesCode(it.spp.name).value, it.e), it.spp.grid, masked);
    StepAgreesWithoutZeroDepMax(m, script, table, it, masked);
    s := if st.outcome.output.Some? then store[OutputPath(script, it) := st.outcome.output.value] else store;
  }

  /**
   * When no listed species has a zero `dep_max`, the script as written is the
   * corrected script with the left term as written: the skip is the only
   * difference between the two.
   */
  lemma AsWrittenStageAgrees(m: Transcendentals, script: Script, listing: seq<Raster>, store: Store, tables: Tables)
    requires forall it: Item :: it.spp in listing ==> NoZeroDepMax(tables.For(script.Response()), it)
    ensures StageAsWritten(m, script, listing, store, tables) == Stage(m, script, AsWritten, listing, store, tables)
  {
    var table := tables.For(script.Response());
    var items := Items(listing);
    forall k | 0 <= k < |items|
      ensures NoZeroDepMax(table, items[k])
    {
      assert items[k] in items;
    }
    AsWrittenAgreesWithoutZeroDepMax(m, script, table, items, store, None);
  }

  lemma NoZeroDepMaxTail(table: Table, items: seq<Item>)
    requires items != [] && forall k :: 0 <= k < |items| ==> NoZeroDepMax(table, items[k])
    ensures forall k :: 0 <= k < |items[1..]| ==> NoZeroDepMax(table, items[1..][k])
  {
    forall k | 0 <= k < |items[1..]|
      ensures NoZeroDepMax(table, items[1..][k])
    {
      assert items[1..][k] == items[k + 1];
    }
  }

  /** Without a zero `dep_max`, one pass as written has the corrected outcome (with the left term as written). */
  lemma StepAgreesWithoutZeroDepMax(m: Transcendentals, script: Script, table: Table, it: Item, masked: Option<Grid>)
    requires NoZeroDepMax(table, it) && SpeciesCode(it.spp.name).Some?
    ensures StepAsWritten(m, script, ParamsFor(table, SpeciesCode(it.spp.name).value, it.e), it.spp.grid, masked).outcome
              == Compute(m, script, AsWritten, table, it)
  {
  }

  /**
   * A species whose row has `k1` but a `dep_max` of 0 is not skipped as the
   * first cursor reports: the second cursor solves for it with the masked
   * `dep_max` raster left over from the raster processed before it.
   */
  lemma StaleMaskedGridReused(m: Transcendentals, script: Script, table: Table, a: Item, b: Item, store: Store,
                              ca: int, pa: Params, cb: int, pb: Params)
    requires OutputPath(script, a) != OutputPath(script, b)
    requires OutputPath(script, a) !in store && OutputPath(script, b) !in store
    requires SpeciesCode(a.spp.name) == Some(ca) && ParamsFor(table, ca, a.e) == Some(pa)
    requires pa.depMax.Some? && pa.depMax.value != 0.0
    requires SpeciesCode(b.spp.name) == Some(cb) && ParamsFor(table, cb, b.e) == Some(pb)
    requires pb.k1.Some? && pb.depMax == Some(0.0)
    ensures var r := RunAsWritten(m, script, table, [a, b], store, None);
      && r.failure.None? && OutputPath(script, b) in r.store
      && r.store[OutputPath(script, b)]
           == LevelGrid(m, DepMaxGrid(a.spp.grid, pa.depMax.value), pb.k1.value, LeftTerm(m, script, AsWritten, pb.k2))
    ensures forall f: Formula :: Compute(m, script, f, table, b).output.None?
  {
    var first := StepAsWritten(m, script, Some(pa), a.spp.grid, None);
    assert first.outcome.failure.None?;
    var s := if first.outcome.output.Some? then store[OutputPath(script, a) := first.outcome.output.value] else store;
    assert OutputPath(script, b) !in s;
    assert [a, b][0] == a && [a, b][1..] == [b];
    assert RunAsWritten(m, script, table, [a, b], store, None) == RunAsWritten(m, script, table, [b], s, first.masked);
    StaleStep(m, script, table, b, s, cb, pb, DepMaxGrid(a.spp.grid, pa.depMax.value));
  }

  /** The pass over a species with `k1` and a zero `dep_max` saves the level over whatever masked raster it is handed. */
  lemma StaleStep(m: Transcendentals, script: Script, table: Table, b: Item, s: Store, cb: int, pb: Params, g: Grid)
    requires OutputPath(script, b) !in s
    requires SpeciesCode(b.spp.name) == Some(cb) && ParamsFor(table, cb, b.e) == Some(pb)
    requires pb.k1.Some? && pb.depMax == Some(0.0)
    ensures RunAsWritten(m, script, table, [b], s, Some(g))
              == Run(s[OutputPath(script, b) := LevelGrid(m, g, pb.k1.value, LeftTerm(m, script, AsWritten, pb.k2))], None)
  {
    assert [b][1..] == [];
  }

  /**
   * When the first raster the script processes is such a species, nothing has
   * been assigned to `rasObj2` yet and the script stops with `NameError`; the
   * corrected script skips it and carries on.
   */
  lemma UnboundMaskedGridStops(m: Transcendentals, script: Script, r: Raster, store: Store, tables: Tables, code: int, p: Params)
    requires SpeciesCode(r.name) == Some(code) && ParamsFor(tables.For(script.Response()), code, S) == Some(p)
    requires p.k1.Some? && p.depMax == Some(0.0)
    requires OutputPath(script, Item(S, r)) !in store
    ensures StageAsWritten(m, script, [r], store, tables).failure == Some(UnboundMaskedGrid)
    ensures forall f: Formula :: Compute(m, script, f, tables.For(script.Response()), Item(S, r)) == Skipped
  {
    var items := Items([r]);
    assert items == [Item(S, r), Item(N, r)];
    UnboundFirstStep(m, script, tables.For(script.Response()), items, store, code, p);
  }

  /** The first pass of the run as written, over a species with `k1` and a zero `dep_max`, raises `NameError`. */
  lemma UnboundFirstStep(m: Transcendentals, script: Script, table: Table, items: seq<Item>, store: Store, code: int, p: Params)
    requires items != [] && OutputPath(script, items[0]) !in store
    requires SpeciesCode(items[0].spp.name) == Some(code) && ParamsFor(table, code, items[0].e) == Some(p)
    requires p.k1.Some? && p.depMax == Some(0.0)
    ensures RunAsWritten(m, script, table, items, store, None).failure == Some(UnboundMaskedGrid)
  {
    var st := StepAsWritten(m, script, Some(p), items[0].spp.grid, None);
    assert st.outcome == Crashed(UnboundMaskedGrid);
  }
}
