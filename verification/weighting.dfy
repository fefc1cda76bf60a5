/**
 * Stage 8: the basal-area weighted growth effect. Each growth effect raster
 * is multiplied by the raster whose species code matches its own, and saved
 * as `<effect raster>_basalarea`. The current script reads
 * `<E>_growth_effect.gdb`; the legacy one reads `<E>_growth_reduction.gdb`.
 *
 * The matching raster is meant to be the species' basal-area proportion. As
 * written, the inner `for ws in workspaces` loop never sets the workspace, so
 * both of its passes list the effect container again and the match is found
 * there. Both readings are modelled.
 */
module Weighting {
  import opened Wrappers
  import opened Grids
  import opened Names
  import opened SpeciesTable
  import opened Batch

  /** The current script and the legacy one differ only in their container names. */
  datatype Script = Current | Legacy {
    /** The container the effect rasters are listed from (the workspace of the outer loop). */
    function InputContainer(e: Element): string {
      match this
      case Current => ElementCapitalized(e) + "_growth_effect.gdb"
      case Legacy => ElementCapitalized(e) + "_growth_reduction.gdb"
    }

    function OutputContainer(e: Element): string {
      match this
      case Current => ElementCapitalized(e) + "_basal_area_prop_growth_effect.gdb"
      case Legacy => ElementCapitalized(e) + "_basal_area_prop_growth_reduction.gdb"
    }
  }

  const OutputSuffix := "_basalarea"

  /** What `ListRasters()` returns in the containers the script reads. */
  datatype Listings = Listings(proportion: seq<Raster>, effectS: seq<Raster>, effectN: seq<Raster>) {
    /** The listing of the element's effect container. */
    function Effect(e: Element): seq<Raster> {
      match e
      case S => effectS
      case N => effectN
    }
  }

  /** Where the inner loop finds the raster to multiply by. */
  datatype Source =
    | AsWritten   // both passes of `for ws in workspaces` list the effect container again
    | Corrected   // the proportion container `spp_proportion_ba.gdb`

  function Candidates(listings: Listings, e: Element, source: Source): seq<Raster> {
    match source
    case AsWritten => listings.Effect(e) + listings.Effect(e)
    case Corrected => listings.proportion
  }

  // ------------------------------------------------------- the inner loop

  predicate Matches(r: Raster, code: int) {
    SpeciesCode(r.name) == Some(code)
  }

  /** Every listed name parses to a species code. */
  predicate AllParse(rs: seq<Raster>) {
    forall k :: 0 <= k < |rs| ==> SpeciesCode(rs[k].name).Some?
  }

  /** Species codes identify the listed rasters: one raster per species. */
  predicate DistinctCodes(rs: seq<Raster>) {
    forall i, j :: 0 <= i < |rs| && 0 <= j < |rs| && SpeciesCode(rs[i].name).Some? && SpeciesCode(rs[i].name) == SpeciesCode(rs[j].name) ==> i == j
  }

  /** The last candidate whose code is `code`. */
  function LastMatch(cands: seq<Raster>, code: int): Option<Raster>
    decreases |cands|
  {
    if cands == [] then None
    else
      var rest := LastMatch(cands[1..], code);
      if rest.Some? then rest
      else if Matches(cands[0], code) then Some(cands[0])
      else None
  }

  /**
   * The last match is absent exactly when no candidate has the code, and
   * otherwise is a candidate with the code after which no candidate has it.
   */
  lemma {:induction false} LastMatchSpec(cands: seq<Raster>, code: int)
    ensures LastMatch(cands, code).None? <==> forall k :: 0 <= k < |cands| ==> !Matches(cands[k], code)
    ensures LastMatch(cands, code).Some? ==>
      exists k :: (0 <= k < |cands| && cands[k] == LastMatch(cands, code).value
        && Matches(cands[k], code) && forall j :: k < j < |cands| ==> !Matches(cands[j], code))
    decreases |cands|
  {
    if cands != [] {
      var rest := LastMatch(cands[1..], code);
      LastMatchSpec(cands[1..], code);
      assert forall k :: 1 <= k < |cands| ==> cands[1..][k - 1] == cands[k];
      if rest.Some? {
        var k :| 0 <= k < |cands| - 1 && cands[1..][k] == rest.value && Matches(cands[1..][k], code)
          && forall j :: k < j < |cands| - 1 ==> !Matches(cands[1..][j], code);
        assert forall j :: k + 1 < j < |cands| ==> !Matches(cands[j], code) by {
          forall j | k + 1 < j < |cands|
            ensures !Matches(cands[j], code)
          {
            assert cands[1..][j - 1] == cands[j];
          }
        }
      }
    }
  }

  /**
   * `for spp_raster in ListRasters(): if code == int(...): save(Times(spp_raster, effect))`:
   * every match overwrites the output, and a name that does not parse stops the
   * loop with whatever was saved last.
   */
  function Scan(cands: seq<Raster>, code: int, effect: Grid, saved: Option<Grid>): (o: Outcome)
    ensures o.failure.None? <==> AllParse(cands)
    ensures AllParse(cands) ==>
      o.output == (if LastMatch(cands, code).Some? then Some(Times(LastMatch(cands, code).value.grid, effect)) else saved)
    decreases |cands|
  {
    if cands == [] then Outcome(saved, None)
    else
      AllParseFirst(cands);
      match SpeciesCode(cands[0].name)
      case None => Outcome(saved, Some(UnparsableName(cands[0].name)))
      case Some(c) =>
        Scan(cands[1..], code, effect, if c == code then Some(Times(cands[0].grid, effect)) else saved)
  }

  lemma AllParseFirst(cands: seq<Raster>)
    requires cands != []
    ensures AllParse(cands) <==> SpeciesCode(cands[0].name).Some? && AllParse(cands[1..])
  {
    assert forall k :: 1 <= k < |cands| ==> cands[1..][k - 1] == cands[k];
  }

  /**
   * Whatever the scan leaves saved is what was saved before it, or the
   * product of the effect with some candidate carrying the code.
   */
  lemma {:induction false} ScanOutputMatches(cands: seq<Raster>, code: int, effect: Grid, saved: Option<Grid>)
    ensures var o := Scan(cands, code, effect, saved);
      o.output.Some? ==> o.output == saved || exists r :: r in cands && Matches(r, code) && o.output.value == Times(r.grid, effect)
    decreases |cands|
  {
    if cands != [] {
      match SpeciesCode(cands[0].name)
      case None =>
      case Some(c) =>
        var next := if c == code then Some(Times(cands[0].grid, effect)) else saved;
        ScanOutputMatches(cands[1..], code, effect, next);
        var o := Scan(cands, code, effect, saved);
        assert o == Scan(cands[1..], code, effect, next);
        if o.output.Some? && o.output != saved && o.output != next {
          var r :| r in cands[1..] && Matches(r, code) && o.output.value == Times(r.grid, effect);
          assert r in cands;
        }
    }
  }

  /** Listing a container twice finds the same last match as listing it once. */
  lemma {:induction false} LastMatchTwice(rs: seq<Raster>, code: int)
    ensures LastMatch(rs + rs, code) == LastMatch(rs, code)
  {
    LastMatchSpec(rs, code);
    if LastMatch(rs, code).Some? {
      var i :| 0 <= i < |rs| && rs[i] == LastMatch(rs, code).value && Matches(rs[i], code)
        && forall j :: i < j < |rs| ==> !Matches(rs[j], code);
      LastMatchTwiceAt(rs, code, i);
    } else {
      NoMatchTwice(rs, code);
    }
  }

  /** The last match of a listing, at `i`, is also the last match of the listing repeated. */
  lemma LastMatchTwiceAt(rs: seq<Raster>, code: int, i: int)
    requires 0 <= i < |rs| && Matches(rs[i], code)
    requires forall j :: i < j < |rs| ==> !Matches(rs[j], code)
    ensures LastMatch(rs + rs, code) == Some(rs[i])
  {
    var rr := rs + rs;
    forall j | |rs| + i < j < |rr|
      ensures !Matches(rr[j], code)
    {
      assert rr[j] == rs[j - |rs|];
    }
    assert rr[|rs| + i] == rs[i];
    LastMatchUnique(rr, code, |rs| + i, rs[i]);
  }

  /** A listing without a match has none when repeated. */
  lemma NoMatchTwice(rs: seq<Raster>, code: int)
    requires forall k :: 0 <= k < |rs| ==> !Matches(rs[k], code)
    ensures LastMatch(rs + rs, code).None?
  {
    var rr := rs + rs;
    forall j | 0 <= j < |rr|
      ensures !Matches(rr[j], code)
    {
      assert rr[j] == if j < |rs| then rs[j] else rs[j - |rs|];
    }
    LastMatchSpec(rr, code);
  }

  /** The candidate after which nothing matches is the last match. */
  lemma LastMatchUnique(rs: seq<Raster>, code: int, k: int, r: Raster)
    requires 0 <= k < |rs| && rs[k] == r && Matches(r, code)
    requires forall j :: k < j < |rs| ==> !Matches(rs[j], code)
    ensures LastMatch(rs, code) == Some(r)
  {
    var m := LastMatch(rs, code);
    LastMatchSpec(rs, code);
    var i :| 0 <= i < |rs| && rs[i] == m.value && Matches(rs[i], code) && forall j :: i < j < |rs| ==> !Matches(rs[j], code);
    assert i == k;
  }

  /** With one raster per species, the last match is the raster of that species. */
  lemma LastMatchDistinct(rs: seq<Raster>, code: int, k: int)
    requires DistinctCodes(rs) && 0 <= k < |rs| && Matches(rs[k], code)
    ensures LastMatch(rs, code) == Some(rs[k])
  {
    forall j | k < j < |rs|
      ensures !Matches(rs[j], code)
    {
    }
    LastMatchUnique(rs, code, k, rs[k]);
  }

  // ------------------------------------------------------------ the batch

  /** One pass of the outer loops: an element and a raster of its effect container. */
  datatype Item = Item(e: Element, effect: Raster)

  function OutputPath(script: Script, it: Item): Path {
    Path(script.OutputContainer(it.e), it.effect.name + OutputSuffix)
  }

  /** The effect raster's code is parsed before the existence check: a bad name stops the script there. */
  function Target(script: Script): Item -> Result<Path, Failure> {
    (it: Item) =>
      if SpeciesCode(it.effect.name).None? then Failure(UnparsableName(it.effect.name))
      else Success(OutputPath(script, it))
  }

  /**
   * The body of the loop once the output is known to be missing: it fails
   * exactly when the effect raster's name or some candidate's name is not a
   * species code; otherwise it saves the product with the last candidate of
   * the species, and nothing when no candidate has it. Whatever it saves,
   * even before a failure, is the product with some candidate of the species.
   */
  function Compute(listings: Listings, source: Source, it: Item): (o: Outcome)
    ensures o.failure.Some? <==> SpeciesCode(it.effect.name).None? || !AllParse(Candidates(listings, it.e, source))
    ensures SpeciesCode(it.effect.name).Some? && AllParse(Candidates(listings, it.e, source)) ==>
      var m := LastMatch(Candidates(listings, it.e, source), SpeciesCode(it.effect.name).value);
      o.output == (if m.Some? then Some(Times(m.value.grid, it.effect.grid)) else None)
    ensures o.output.Some? ==>
      && SpeciesCode(it.effect.name).Some?
      && exists r :: r in Candidates(listings, it.e, source) && Matches(r, SpeciesCode(it.effect.name).value)
           && o.output.value == Times(r.grid, it.effect.grid)
  {
    match SpeciesCode(it.effect.name)
    case None => Crashed(UnparsableName(it.effect.name))
    case Some(code) =>
      ScanOutputMatches(Candidates(listings, it.e, source), code, it.effect.grid, None);
      Scan(Candidates(listings, it.e, source), code, it.effect.grid, None)
  }

  function Work(listings: Listings, source: Source): Item -> Outcome {
    (it: Item) => Compute(listings, source, it)
  }

  function ItemsFor(listing: seq<Raster>, e: Element): (items: seq<Item>)
    ensures |items| == |listing|
    ensures forall k :: 0 <= k < |listing| ==> items[k] == Item(e, listing[k])
  {
    seq(|listing|, k requires 0 <= k < |listing| => Item(e, listing[k]))
  }

  /** `for element in ['s', 'n']: for rdxn_raster in ListRasters()` (growth only). */
  function Items(listings: Listings): (items: seq<Item>)
    ensures forall it: Item :: it in items <==> it.effect in listings.Effect(it.e)
  {
    var items := ItemsFor(listings.effectS, S) + ItemsFor(listings.effectN, N);
    assert forall it: Item :: it.effect in listings.Effect(it.e) ==> it in items by {
      forall it: Item | it.effect in listings.Effect(it.e)
        ensures it in items
      {
        var k :| 0 <= k < |listings.Effect(it.e)| && listings.Effect(it.e)[k] == it.effect;
        if it.e == S {
          assert ItemsFor(listings.effectS, S)[k] == it;
        } else {
          assert ItemsFor(listings.effectN, N)[k] == it;
        }
      }
    }
    items
  }

  function Stage(script: Script, listings: Listings, store: Store, source: Source): (r: Run)
    ensures forall p :: p in store ==> p in r.store && r.store[p] == store[p]
    ensures forall p :: p in r.store && p !in store ==> WeightedOf(script, listings, source, p, r.store[p])
  {
    NewOutputsAreWeighted(script, listings, store, source);
    Resume(Items(listings), store, Target(script), Work(listings, source))
  }

  /**
   * `g` is the product of a listed effect raster, saved at its own output
   * path, with a candidate raster of the same species.
   */
  ghost predicate WeightedOf(script: Script, listings: Listings, source: Source, p: Path, g: Grid) {
    exists it: Item, code: int, r: Raster ::
      && it.effect in listings.Effect(it.e) && OutputPath(script, it) == p && SpeciesCode(it.effect.name) == Some(code)
      && r in Candidates(listings, it.e, source) && Matches(r, code) && g == Times(r.grid, it.effect.grid)
  }

  lemma WeightedWitness(script: Script, listings: Listings, source: Source, p: Path, g: Grid, it: Item, code: int, r: Raster)
    requires it.effect in listings.Effect(it.e) && OutputPath(script, it) == p && SpeciesCode(it.effect.name) == Some(code)
    requires r in Candidates(listings, it.e, source) && Matches(r, code) && g == Times(r.grid, it.effect.grid)
    ensures WeightedOf(script, listings, source, p, g)
  {
  }

  /** Every raster the loop saves is a product of a listed effect raster and a candidate of its species. */
  lemma NewOutputsAreWeighted(script: Script, listings: Listings, store: Store, source: Source)
    ensures var r := Resume(Items(listings), store, Target(script), Work(listings, source));
      forall p :: p in r.store && p !in store ==> WeightedOf(script, listings, source, p, r.store[p])
  {
    var items := Items(listings);
    var run := Resume(items, store, Target(script), Work(listings, source));
    forall p | p in run.store && p !in store
      ensures WeightedOf(script, listings, source, p, run.store[p])
    {
      var k :| 0 <= k < |items| && Target(script)(items[k]) == Success(p) && Work(listings, source)(items[k]).output == Some(run.store[p]);
      var it := items[k];
      assert it in items;
      var code := SpeciesCode(it.effect.name).value;
      var cands := Candidates(listings, it.e, source);
      assert Compute(listings, source, it).output == Some(run.store[p]);
      var r :| r in cands && Matches(r, code) && run.store[p] == Times(r.grid, it.effect.grid);
      WeightedWitness(script, listings, source, p, run.store[p], it, code, r);
    }
  }

  // ---------------------------------------------------------- the outputs

  lemma TargetInjective(script: Script, listings: Listings, a: Item, b: Item)
    requires DistinctNames(listings.effectS) && DistinctNames(listings.effectN)
    requires a.effect in listings.Effect(a.e) && b.effect in listings.Effect(b.e)
    requires Target(script)(a).Success? && Target(script)(a) == Target(script)(b)
    ensures a == b
  {
    assert a.e == b.e by {
      assert script.OutputContainer(a.e)[0] == ElementCapitalized(a.e)[0];
      assert script.OutputContainer(b.e)[0] == ElementCapitalized(b.e)[0];
    }
    SuffixCancel(a.effect.name, b.effect.name, OutputSuffix);
    var listing := listings.Effect(a.e);
    var i :| 0 <= i < |listing| && listing[i] == a.effect;
    var j :| 0 <= j < |listing| && listing[j] == b.effect;
  }

  lemma ItemsFunctional(script: Script, listings: Listings, source: Source)
    requires DistinctNames(listings.effectS) && DistinctNames(listings.effectN)
    ensures Functional(Items(listings), Target(script), Work(listings, source))
  {
    var items := Items(listings);
    forall i, j | 0 <= i < |items| && 0 <= j < |items| && Target(script)(items[i]).Success? && Target(script)(items[i]) == Target(script)(items[j])
      ensures items[i] == items[j]
    {
      assert items[i] in items && items[j] in items;
      TargetInjective(script, listings, items[i], items[j]);
    }
  }

  /** The outcome of one effect raster, as its scan over the candidates decides it. */
  lemma ComputeAt(script: Script, listings: Listings, store: Store, source: Source, it: Item)
    requires DistinctNames(listings.effectS) && DistinctNames(listings.effectN)
    requires it.effect in listings.Effect(it.e) && SpeciesCode(it.effect.name).Some?
    requires OutputPath(script, it) !in store
    requires Stage(script, listings, store, source).failure.None?
    ensures var out := Stage(script, listings, store, source).store;
      var o := Compute(listings, source, it);
      && (OutputPath(script, it) in out <==> o.output.Some?)
      && (o.output.Some? ==> out[OutputPath(script, it)] == o.output.value)
  {
    ItemsFunctional(script, listings, source);
    assert it in Items(listings);
    ResumeWritesMember(Items(listings), store, Target(script), Work(listings, source), it);
  }


  /**
   * Corrected: after a completed run, an effect raster whose output was missing
   * has one exactly when some proportion raster has its species code, and it
   * is the cell-wise product of the last such proportion raster and the effect.
   */
  lemma CorrectedWritesProduct(script: Script, listings: Listings, store: Store, it: Item, code: int)
    requires DistinctNames(listings.effectS) && DistinctNames(listings.effectN)
    requires it.effect in listings.Effect(it.e) && SpeciesCode(it.effect.name) == Some(code)
    requires OutputPath(script, it) !in store && AllParse(listings.proportion)
    requires Stage(script, listings, store, Corrected).failure.None?
    ensures var out := Stage(script, listings, store, Corrected).store;
      var p := LastMatch(listings.proportion, code);
      && (OutputPath(script, it) in out <==> p.Some?)
      && (p.Some? ==> out[OutputPath(script, it)] == Times(p.value.grid, it.effect.grid))
  {
    ComputeAt(script, listings, store, Corrected, it);
  }

  /**
   * Corrected, with one proportion raster per species: the output is the
   * species' own proportion raster times its effect.
   */
  lemma CorrectedWeightsBySpecies(script: Script, listings: Listings, store: Store, it: Item, k: int)
    requires DistinctNames(listings.effectS) && DistinctNames(listings.effectN)
    requires it.effect in listings.Effect(it.e) && SpeciesCode(it.effect.name).Some?
    requires OutputPath(script, it) !in store && AllParse(listings.proportion) && DistinctCodes(listings.proportion)
    requires Stage(script, listings, store, Corrected).failure.None?
    requires 0 <= k < |listings.proportion| && SpeciesCode(listings.proportion[k].name) == SpeciesCode(it.effect.name)
    ensures var out := Stage(script, listings, store, Corrected).store;
      OutputPath(script, it) in out && out[OutputPath(script, it)] == Times(listings.proportion[k].grid, it.effect.grid)
  {
    var code := SpeciesCode(it.effect.name).value;
    LastMatchDistinct(listings.proportion, code, k);
    CorrectedWritesProduct(script, listings, store, it, code);
  }

  /**
   * As written, the search runs over the effect container twice, where the
   * effect raster itself has the code: with one effect raster per species the
   * output is the effect squared, whatever the proportion rasters are.
   */
  lemma AsWrittenSquaresEffect(script: Script, listings: Listings, store: Store, it: Item)
    requires DistinctNames(listings.effectS) && DistinctNames(listings.effectN)
    requires it.effect in listings.Effect(it.e) && SpeciesCode(it.effect.name).Some?
    requires OutputPath(script, it) !in store && AllParse(listings.Effect(it.e)) && DistinctCodes(listings.Effect(it.e))
    requires Stage(script, listings, store, AsWritten).failure.None?
    ensures var out := Stage(script, listings, store, AsWritten).store;
      OutputPath(script, it) in out && out[OutputPath(script, it)] == Times(it.effect.grid, it.effect.grid)
  {
    var rs := listings.Effect(it.e);
    var code := SpeciesCode(it.effect.name).value;
    var k :| 0 <= k < |rs| && rs[k] == it.effect;
    LastMatchDistinct(rs, code, k);
    LastMatchTwice(rs, code);
    AllParseTwice(rs);
    ComputeAt(script, listings, store, AsWritten, it);
  }

  lemma AllParseTwice(rs: seq<Raster>)
    requires AllParse(rs)
    ensures AllParse(rs + rs)
  {
    assert forall i :: 0 <= i < |rs + rs| ==> (rs + rs)[i] == rs[if i < |rs| then i else i - |rs|];
  }

  /**
   * A one-species example: effect 0.5 and proportion 0.2 should weigh to 0.1;
   * as written the saved value is 0.25.
   */
  lemma AsWrittenCounterexample(script: Script)
    ensures var effect := Raster(SpeciesName(1) + "_proportion_effect", [Some(0.5)]);
      var listings := Listings([Raster(SpeciesName(1) + "_proportion", [Some(0.2)])], [effect], []);
      var path := OutputPath(script, Item(S, effect));
      && path in Stage(script, listings, map[], AsWritten).store
      && Stage(script, listings, map[], AsWritten).store[path] == [Some(0.25)]
      && path in Stage(script, listings, map[], Corrected).store
      && Stage(script, listings, map[], Corrected).store[path] == [Some(0.1)]
  {
    ExampleAsWritten(script);
    ExampleCorrected(script);
  }

  lemma ExampleAsWritten(script: Script)
    ensures var effect := Raster(SpeciesName(1) + "_proportion_effect", [Some(0.5)]);
      var listings := Listings([Raster(SpeciesName(1) + "_proportion", [Some(0.2)])], [effect], []);
      var path := OutputPath(script, Item(S, effect));
      path in Stage(script, listings, map[], AsWritten).store && Stage(script, listings, map[], AsWritten).store[path] == [Some(0.25)]
  {
    ExampleParses();
    OneSpecies(script, Raster(SpeciesName(1) + "_proportion_effect", [Some(0.5)]), Raster(SpeciesName(1) + "_proportion", [Some(0.2)]), 1);
    TimesExample();
  }

  lemma ExampleCorrected(script: Script)
    ensures var effect := Raster(SpeciesName(1) + "_proportion_effect", [Some(0.5)]);
      var listings := Listings([Raster(SpeciesName(1) + "_proportion", [Some(0.2)])], [effect], []);
      var path := OutputPath(script, Item(S, effect));
      path in Stage(script, listings, map[], Corrected).store && Stage(script, listings, map[], Corrected).store[path] == [Some(0.1)]
  {
    ExampleParses();
    OneSpecies(script, Raster(SpeciesName(1) + "_proportion_effect", [Some(0.5)]), Raster(SpeciesName(1) + "_proportion", [Some(0.2)]), 1);
    TimesExample();
  }

  /**
   * One species with one effect raster and one proportion raster: as written
   * the effect is squared, corrected it is weighted by the proportion.
   */
  lemma OneSpecies(script: Script, effect: Raster, prop: Raster, code: int)
    requires SpeciesCode(effect.name) == Some(code) && SpeciesCode(prop.name) == Some(code)
    ensures var listings := Listings([prop], [effect], []);
      var path := OutputPath(script, Item(S, effect));
      && path in Stage(script, listings, map[], AsWritten).store
      && Stage(script, listings, map[], AsWritten).store[path] == Times(effect.grid, effect.grid)
      && path in Stage(script, listings, map[], Corrected).store
      && Stage(script, listings, map[], Corrected).store[path] == Times(prop.grid, effect.grid)
  {
    var listings := Listings([prop], [effect], []);
    var it := Item(S, effect);
    assert AllParse(listings.effectS) && AllParse(listings.effectN) && AllParse(listings.proportion);
    assert DistinctNames(listings.effectS) && DistinctNames(listings.effectN) && DistinctCodes(listings.effectS);
    assert DistinctCodes(listings.proportion);
    assert it.effect in listings.Effect(it.e);
    StageCompletes(script, listings, map[], AsWritten);
    StageCompletes(script, listings, map[], Corrected);
    AsWrittenSquaresEffect(script, listings, map[], it);
    CorrectedWeightsBySpecies(script, listings, map[], it, 0);
  }

  lemma ExampleParses()
    ensures SpeciesCode(SpeciesName(1) + "_proportion_effect") == Some(1)
    ensures SpeciesCode(SpeciesName(1) + "_proportion") == Some(1)
    ensures AllParse([Raster(SpeciesName(1) + "_proportion_effect", [Some(0.5)])])
    ensures AllParse([Raster(SpeciesName(1) + "_proportion", [Some(0.2)])])
  {
    SpeciesCodeOfName(1, "_proportion_effect");
    SpeciesCodeOfName(1, "_proportion");
  }

  lemma TimesExample()
    ensures Times([Some(0.5)], [Some(0.5)]) == [Some(0.25)]
    ensures Times([Some(0.2)], [Some(0.5)]) == [Some(0.1)]
  {
  }

  /** When every listed name parses, the script runs to completion. */
  lemma StageCompletes(script: Script, listings: Listings, store: Store, source: Source)
    requires AllParse(listings.effectS) && AllParse(listings.effectN) && AllParse(listings.proportion)
    ensures Stage(script, listings, store, source).failure.None?
  {
    var items := Items(listings);
    forall k | 0 <= k < |items|
      ensures Target(script)(items[k]).Success? && Work(listings, source)(items[k]).failure.None?
    {
      assert items[k] in items;
      var rs := listings.Effect(items[k].e);
      var j :| 0 <= j < |rs| && rs[j] == items[k].effect;
      if source == AsWritten {
        AllParseTwice(rs);
      }
    }
    ResumeCompletes(items, store, Target(script), Work(listings, source));
  }

  /** A second run over the same listings writes nothing. */
  lemma RerunWritesNothing(script: Script, listings: Listings, store: Store, source: Source)
    requires Stage(script, listings, store, source).failure.None?
    ensures var after := Stage(script, listings, store, source).store;
      Stage(script, listings, after, source) == Run(after, None)
  {
    Batch.RerunWritesNothing(Items(listings), store, Target(script), Work(listings, source));
  }
}
