/**
 * Stage 4: for each Horn et al. (2018) species raster in `ba_null.gdb`,
 * the proportion of national basal area, `spp / natl`, saved as
 * `<name>_proportion` in `spp_proportion_ba.gdb`, with a counter checked
 * against the 94 species of the list.
 */
module HornProportion {
  import opened Wrappers
  import opened Grids
  import opened Names
  import opened Batch
  import NationalSum

  /** The Horn et al. (2018) species codes, in the rows the list is written in. */
  const HornRow1: seq<nat> := [11, 12, 15, 17, 19, 64, 65, 68, 69, 71, 73, 81, 93, 94, 95, 97, 105, 106, 108]
  const HornRow2: seq<nat> := [110, 111, 121, 122, 125, 126, 129, 131, 132, 133, 202, 221, 222, 241, 242]
  const HornRow3: seq<nat> := [261, 263, 264, 313, 316, 317, 318, 371, 372, 375, 391, 402, 403, 407, 408]
  const HornRow4: seq<nat> := [409, 461, 462, 531, 541, 543, 544, 552, 602, 611, 621, 631, 641, 653, 691]
  const HornRow5: seq<nat> := [693, 694, 701, 711, 731, 741, 743, 746, 762, 802, 805, 806, 809, 812, 820]
  const HornRow6: seq<nat> := [823, 826, 827, 831, 832, 833, 835, 837, 901, 922, 931, 951, 971, 972, 975]
  const HornCodes: seq<nat> := HornRow1 + HornRow2 + HornRow3 + HornRow4 + HornRow5 + HornRow6

  const ExpectedSpeciesCount := 94
  const ProportionContainer := "spp_proportion_ba.gdb"

  /** `['s' + str(code) for code in HornCodes]`. */
  function HornNames(): (names: seq<string>)
    ensures |names| == |HornCodes|
    ensures forall i :: 0 <= i < |HornCodes| ==> names[i] == SpeciesName(HornCodes[i])
  {
    seq(|HornCodes|, i requires 0 <= i < |HornCodes| => SpeciesName(HornCodes[i]))
  }

  function ProportionName(name: string): string {
    name + "_proportion"
  }

  function OutputPath(r: Raster): Path {
    Path(ProportionContainer, ProportionName(r.name))
  }

  // ---------------------------------------------------------------- the list

  predicate Increasing(s: seq<nat>) {
    forall i, j :: 0 <= i < j < |s| ==> s[i] < s[j]
  }

  lemma IncreasingJoin(a: seq<nat>, b: seq<nat>)
    requires Increasing(a) && Increasing(b) && a != [] && b != [] && a[|a| - 1] < b[0]
    ensures Increasing(a + b)
  {
  }

  lemma RowsIncreasing()
    ensures Increasing(HornRow1) && Increasing(HornRow2) && Increasing(HornRow3)
    ensures Increasing(HornRow4) && Increasing(HornRow5) && Increasing(HornRow6)
  {
    StepsIncreasing(HornRow1);
    StepsIncreasing(HornRow2);
    StepsIncreasing(HornRow3);
    StepsIncreasing(HornRow4);
    StepsIncreasing(HornRow5);
    StepsIncreasing(HornRow6);
  }

  /** A sequence that goes up at every step is increasing. */
  lemma {:induction false} StepsIncreasing(s: seq<nat>)
    requires forall i :: 0 <= i < |s| - 1 ==> s[i] < s[i + 1]
    ensures Increasing(s)
    decreases |s|
  {
    if |s| > 1 {
      StepsIncreasing(s[1..]);
      forall i, j | 0 <= i < j < |s|
        ensures s[i] < s[j]
      {
        if i > 0 {
          assert s[1..][i - 1] < s[1..][j - 1];
        } else if j > 1 {
          assert s[1..][0] < s[1..][j - 1];
        }
      }
    }
  }

  /** The codes are listed in increasing order, so no code is listed twice. */
  lemma HornCodesIncreasing()
    ensures |HornCodes| == ExpectedSpeciesCount
    ensures Increasing(HornCodes)
  {
    RowsIncreasing();
    IncreasingJoin(HornRow1, HornRow2);
    IncreasingJoin(HornRow1 + HornRow2, HornRow3);
    IncreasingJoin(HornRow1 + HornRow2 + HornRow3, HornRow4);
    IncreasingJoin(HornRow1 + HornRow2 + HornRow3 + HornRow4, HornRow5);
    IncreasingJoin(HornRow1 + HornRow2 + HornRow3 + HornRow4 + HornRow5, HornRow6);
  }

  /** The list names exactly 94 different species rasters. */
  lemma HornListDistinct()
    ensures |HornNames()| == ExpectedSpeciesCount
    ensures forall i, j :: 0 <= i < j < |HornNames()| ==> HornNames()[i] != HornNames()[j]
  {
    HornCodesIncreasing();
    forall i, j | 0 <= i < j < |HornNames()|
      ensures HornNames()[i] != HornNames()[j]
    {
      if HornNames()[i] == HornNames()[j] {
        SpeciesNameInjective(HornCodes[i], HornCodes[j]);
      }
    }
  }

  // ------------------------------------------------------------- the listing

  /** `ListRasters('ba_null_natl_forest')[0]`: the first raster with that name. */
  function NationalRaster(listing: seq<Raster>): (r: Option<Raster>)
    ensures r.Some? ==> r.value in listing && r.value.name == NationalSum.NationalName
    ensures r.None? ==> forall k :: 0 <= k < |listing| ==> listing[k].name != NationalSum.NationalName
    decreases |listing|
  {
    if listing == [] then None
    else if listing[0].name == NationalSum.NationalName then Some(listing[0])
    else NationalRaster(listing[1..])
  }

  /** `ListRasters('s*')`: the rasters whose name starts with `s`, in listing order. */
  function SpeciesListing(listing: seq<Raster>): (rs: seq<Raster>)
    ensures forall r :: r in rs <==> r in listing && |r.name| > 0 && r.name[0] == 's'
    decreases |listing|
  {
    if listing == [] then []
    else
      (if |listing[0].name| > 0 && listing[0].name[0] == 's' then [listing[0]] else [])
      + SpeciesListing(listing[1..])
  }

  // ---------------------------------------------------------------- the loop

  /** The number of rasters in a listing whose name is on the `horn` list. */
  function HornCount(rs: seq<Raster>, horn: seq<string>): nat
    decreases |rs|
  {
    if rs == [] then 0 else HornCount(rs[..|rs| - 1], horn) + (if rs[|rs| - 1].name in horn then 1 else 0)
  }

  datatype ProportionRun = ProportionRun(store: Store, counter: nat)

  /**
   * The division loop: only rasters named on the `horn` list are divided and
   * counted, and each is saved without an existence check.
   */
  function DivideLoop(rs: seq<Raster>, horn: seq<string>, natl: Grid, store: Store, counter: nat): (r: ProportionRun)
    ensures r.counter == counter + HornCount(rs, horn)
    ensures forall p :: p in r.store && p !in store ==>
      exists k :: 0 <= k < |rs| && rs[k].name in horn && p == OutputPath(rs[k])
    ensures forall p :: p in store && (forall k :: 0 <= k < |rs| && rs[k].name in horn ==> p != OutputPath(rs[k])) ==>
      p in r.store && r.store[p] == store[p]
    ensures forall k :: 0 <= k < |rs| && rs[k].name in horn ==> OutputPath(rs[k]) in r.store
    decreases |rs|
  {
    if rs == [] then ProportionRun(store, counter)
    else
      var front := rs[..|rs| - 1];
      var last := rs[|rs| - 1];
      var mid := DivideLoop(front, horn, natl, store, counter);
      assert forall k :: 0 <= k < |front| ==> front[k] == rs[k];
      if last.name in horn then ProportionRun(mid.store[OutputPath(last) := Divide(last.grid, natl)], mid.counter + 1)
      else mid
  }

  /** When a listed raster's name is on the list and listed once, its saved proportion is its grid over the national grid. */
  lemma {:induction false} DivideLoopValue(rs: seq<Raster>, horn: seq<string>, natl: Grid, store: Store, counter: nat, k: int)
    requires 0 <= k < |rs| && rs[k].name in horn
    requires forall j :: 0 <= j < |rs| && rs[j].name == rs[k].name ==> rs[j] == rs[k]
    ensures DivideLoop(rs, horn, natl, store, counter).store[OutputPath(rs[k])] == Divide(rs[k].grid, natl)
    decreases |rs|
  {
    var front := rs[..|rs| - 1];
    var last := rs[|rs| - 1];
    DivideLoopLast(rs, horn, natl, store, counter);
    if k < |rs| - 1 {
      assert front[k] == rs[k];
      if last.name == rs[k].name {
        assert last == rs[k];
      } else {
        forall j | 0 <= j < |front| && front[j].name == front[k].name
          ensures front[j] == front[k]
        {
          assert front[j] == rs[j];
        }
        DivideLoopValue(front, horn, natl, store, counter, k);
        ProportionNameInjective(last.name, rs[k].name);
      }
    }
  }

  /** One step of the loop: the last raster's division, if it is on the list, is saved over the earlier passes' store. */
  lemma DivideLoopLast(rs: seq<Raster>, horn: seq<string>, natl: Grid, store: Store, counter: nat)
    requires rs != []
    ensures var mid := DivideLoop(rs[..|rs| - 1], horn, natl, store, counter).store;
      var last := rs[|rs| - 1];
      DivideLoop(rs, horn, natl, store, counter).store
        == if last.name in horn then mid[OutputPath(last) := Divide(last.grid, natl)] else mid
  {
  }

  lemma ProportionNameInjective(a: string, b: string)
    requires a != b
    ensures ProportionName(a) != ProportionName(b)
  {
    if |a| == |b| {
      var i :| 0 <= i < |a| && a[i] != b[i];
      assert ProportionName(a)[i] == a[i];
      assert ProportionName(b)[i] == b[i];
    } else {
      assert |ProportionName(a)| != |ProportionName(b)|;
    }
  }

  datatype Report = Report(store: Store, counter: nat, warned: bool)

  /** The script over the listing of `ba_null.gdb`; no national raster means `[0]` raises. */
  function Stage(listing: seq<Raster>, store: Store): (r: Result<Report, Failure>)
    ensures r.Failure? <==> forall k :: 0 <= k < |listing| ==> listing[k].name != NationalSum.NationalName
    ensures r.Success? ==> r.value.counter == HornCount(SpeciesListing(listing), HornNames())
    ensures r.Success? ==> (r.value.warned <==> r.value.counter != ExpectedSpeciesCount)
  {
    match NationalRaster(listing)
    case None => Failure(MissingNationalRaster)
    case Some(natl) =>
      var run := DivideLoop(SpeciesListing(listing), HornNames(), natl.grid, store, 0);
      Success(Report(run.store, run.counter, run.counter != |HornNames()|))
  }

  /**
   * Every Horn raster of the `s*` listing gets `<name>_proportion = spp / natl`;
   * nothing is written for any other raster.
   */
  lemma StageOutputs(listing: seq<Raster>, store: Store, natl: Raster)
    requires NationalRaster(listing) == Some(natl)
    requires forall a, b :: a in listing && b in listing && a.name == b.name ==> a == b
    ensures var rep := Stage(listing, store).value;
      && (forall r :: r in listing && |r.name| > 0 && r.name[0] == 's' && r.name in HornNames() ==>
            rep.store[OutputPath(r)] == Divide(r.grid, natl.grid))
      && (forall p :: p in rep.store && p !in store ==>
            exists r :: r in listing && r.name in HornNames() && p == OutputPath(r))
  {
    var rs := SpeciesListing(listing);
    var horn := HornNames();
    forall r | r in listing && |r.name| > 0 && r.name[0] == 's' && r.name in horn
      ensures Stage(listing, store).value.store[OutputPath(r)] == Divide(r.grid, natl.grid)
    {
      var k :| 0 <= k < |rs| && rs[k] == r;
      DivideLoopValue(rs, horn, natl.grid, store, 0, k);
    }
  }

  // ------------------------------------------------------ the completeness check

  lemma {:induction false} DistinctCardinality(names: seq<string>)
    requires forall i, j :: 0 <= i < j < |names| ==> names[i] != names[j]
    ensures |set n | n in names| == |names|
    decreases |names|
  {
    if names != [] {
      var front := names[..|names| - 1];
      DistinctCardinality(front);
      assert (set n | n in names) == (set n | n in front) + {names[|names| - 1]};
    }
  }

  /** The names on the `horn` list that a listing carries. */
  function CountedNames(rs: seq<Raster>, horn: seq<string>): set<string> {
    set k | 0 <= k < |rs| && rs[k].name in horn :: rs[k].name
  }

  /** With no name listed twice, the counter counts different names. */
  lemma {:induction false} HornCountDistinct(rs: seq<Raster>, horn: seq<string>)
    requires forall i, j :: 0 <= i < j < |rs| ==> rs[i].name != rs[j].name
    ensures HornCount(rs, horn) == |CountedNames(rs, horn)|
    decreases |rs|
  {
    if rs != [] {
      HornCountDistinct(rs[..|rs| - 1], horn);
      CountedNamesLast(rs, horn);
    }
  }

  lemma CountedNamesLast(rs: seq<Raster>, horn: seq<string>)
    requires rs != [] && forall i, j :: 0 <= i < j < |rs| ==> rs[i].name != rs[j].name
    ensures var front := rs[..|rs| - 1]; var last := rs[|rs| - 1];
      && last.name !in CountedNames(front, horn)
      && CountedNames(rs, horn) == CountedNames(front, horn) + (if last.name in horn then {last.name} else {})
  {
    var front := rs[..|rs| - 1];
    var last := rs[|rs| - 1];
    assert forall k :: 0 <= k < |front| ==> front[k] == rs[k];
    if last.name in horn {
      assert CountedNames(rs, horn) == CountedNames(front, horn) + {last.name};
    } else {
      assert CountedNames(rs, horn) == CountedNames(front, horn);
    }
  }

  /**
   * When the `s*` listing holds each Horn raster once (and no name twice), the
   * counter reaches 94 and no warning is issued.
   */
  lemma CompleteListingNoWarning(listing: seq<Raster>, store: Store)
    requires NationalRaster(listing).Some?
    requires forall i, j :: 0 <= i < j < |SpeciesListing(listing)| ==> SpeciesListing(listing)[i].name != SpeciesListing(listing)[j].name
    requires forall h :: h in HornNames() ==> exists r :: r in listing && r.name == h
    ensures Stage(listing, store).Success?
    ensures Stage(listing, store).value.counter == ExpectedSpeciesCount && !Stage(listing, store).value.warned
  {
    var rs := SpeciesListing(listing);
    var names := HornNames();
    HornCountDistinct(rs, names);
    HornListDistinct();
    DistinctCardinality(names);
    HornNamesCounted(listing);
  }

  /** Every Horn name is counted, so the names counted are the Horn names. */
  lemma HornNamesCounted(listing: seq<Raster>)
    requires forall h :: h in HornNames() ==> exists r :: r in listing && r.name == h
    ensures CountedNames(SpeciesListing(listing), HornNames()) == set n | n in HornNames()
  {
    forall h | h in HornNames()
      ensures h in CountedNames(SpeciesListing(listing), HornNames())
    {
      var k := HornNameListed(listing, h);
    }
  }

  /** A Horn name that some raster of the listing carries is carried by a raster of the `s*` listing. */
  lemma HornNameListed(listing: seq<Raster>, h: string) returns (k: int)
    requires h in HornNames() && exists r :: r in listing && r.name == h
    ensures 0 <= k < |SpeciesListing(listing)| && SpeciesListing(listing)[k].name == h
  {
    var rs := SpeciesListing(listing);
    var r :| r in listing && r.name == h;
    var i :| 0 <= i < |HornCodes| && HornNames()[i] == h;
    assert h[0] == 's';
    assert r in rs;
    k :| 0 <= k < |rs| && rs[k] == r;
  }
}
