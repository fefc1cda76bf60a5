/**
 * Stage 7: the fifth percentile across species. For each response variable
 * (survival, then growth) and element (S, then N), every raster of the
 * element's container is stacked; at each cell the values that are not
 * no-data enter numpy's `nanpercentile` with linear interpolation, and the
 * result is saved to `aggregate.gdb`. No-data is first written as 100000 and
 * then every value close to 100000 is masked, so such values never count.
 *
 * The current script reads `<E>_<rv>_deposition_5_red.gdb` and writes
 * `dep_percentile_5_<rv>_<e>`; the legacy one reads `<E>_<rv>_reduction.gdb`
 * and writes `percentile_5_<rv>_<e>`.
 */
module Percentile {
  import opened Wrappers
  import opened Grids
  import opened Sorting
  import opened SpeciesTable
  import opened Batch

  // ------------------------------------------------- the percentile itself

  /** Linear interpolation between `a` and `b` at fraction `t`. */
  function Lerp(a: real, b: real, t: real): real {
    a + t * (b - a)
  }

  lemma ProductNonnegative(x: real, y: real)
    requires x >= 0.0 && y >= 0.0
    ensures x * y >= 0.0
  {
    if x > 0.0 {
      assert x * y >= x * 0.0;
    }
  }

  lemma LerpBetween(a: real, b: real, t: real)
    requires a <= b && 0.0 <= t <= 1.0
    ensures a <= Lerp(a, b, t) <= b
  {
    ProductNonnegative(t, b - a);
    ProductNonnegative(1.0 - t, b - a);
    assert (1.0 - t) * (b - a) == (b - a) - t * (b - a);
  }

  /** The virtual index `(n - 1) * p / 100` of numpy's linear method lies within the sorted values. */
  lemma RankWithin(n: nat, p: real)
    requires n > 0 && 0.0 <= p <= 100.0
    ensures 0.0 <= (n - 1) as real * p / 100.0 <= (n - 1) as real
  {
    var m := (n - 1) as real;
    ProductNonnegative(m, p);
    ProductNonnegative(m, 100.0 - p);
    assert m * (100.0 - p) == m * 100.0 - m * p;
  }

  /**
   * numpy's "linear" percentile of ascending values: the values at the floor
   * and the ceiling of the virtual index, interpolated by its fraction.
   */
  function Interpolated(s: seq<real>, p: real): (r: real)
    requires |s| > 0 && Ascending(s) && 0.0 <= p <= 100.0
    ensures s[0] <= r <= s[|s| - 1]
  {
    var h := (|s| - 1) as real * p / 100.0;
    FloorWithin(|s|, p);
    var lo := h.Floor;
    if lo + 1 < |s| then
      LerpBetween(s[lo], s[lo + 1], h - lo as real);
      Lerp(s[lo], s[lo + 1], h - lo as real)
    else s[lo]
  }

  /** The floor of a virtual index within the values is itself an index, and the fraction left over lies in [0, 1). */
  lemma FloorWithin(n: nat, p: real)
    requires n > 0 && 0.0 <= p <= 100.0
    ensures var h := (n - 1) as real * p / 100.0; 0 <= h.Floor < n && h.Floor as real <= h < h.Floor as real + 1.0
  {
    RankWithin(n, p);
  }

  /** `np.nanpercentile` of the values that are present: no value gives NaN, modelled as None. */
  function NanPercentile(vs: seq<real>, p: real): (r: Option<real>)
    requires 0.0 <= p <= 100.0
    ensures r.None? <==> vs == []
  {
    if vs == [] then None else Some(Interpolated(Sort(vs), p))
  }

  /** `vs[k]` is a least value of `vs`. */
  predicate Least(vs: seq<real>, k: int)
    requires 0 <= k < |vs|
  {
    forall j :: 0 <= j < |vs| ==> vs[k] <= vs[j]
  }

  /** `vs[k]` is a greatest value of `vs`. */
  predicate Greatest(vs: seq<real>, k: int)
    requires 0 <= k < |vs|
  {
    forall j :: 0 <= j < |vs| ==> vs[j] <= vs[k]
  }

  /** The percentile lies between the least and the greatest of the values. */
  lemma NanPercentileBounds(vs: seq<real>, p: real)
    requires 0.0 <= p <= 100.0 && vs != []
    ensures exists k :: 0 <= k < |vs| && Least(vs, k) && vs[k] <= NanPercentile(vs, p).value
    ensures exists k :: 0 <= k < |vs| && Greatest(vs, k) && NanPercentile(vs, p).value <= vs[k]
  {
    var lo := LeastIndex(vs);
    var hi := GreatestIndex(vs);
    var s := Sort(vs);
    assert s[0] <= Interpolated(s, p) <= s[|s| - 1];
  }

  /** A position holding the first sorted value, which is a least value. */
  lemma LeastIndex(vs: seq<real>) returns (k: int)
    requires vs != []
    ensures 0 <= k < |vs| && Least(vs, k) && |Sort(vs)| == |vs| && vs[k] == Sort(vs)[0]
  {
    SortEnds(vs);
    k :| 0 <= k < |vs| && vs[k] == Sort(vs)[0];
  }

  /** A position holding the last sorted value, which is a greatest value. */
  lemma GreatestIndex(vs: seq<real>) returns (k: int)
    requires vs != []
    ensures 0 <= k < |vs| && Greatest(vs, k) && |Sort(vs)| == |vs| && vs[k] == Sort(vs)[|vs| - 1]
  {
    SortEnds(vs);
    k :| 0 <= k < |vs| && vs[k] == Sort(vs)[|vs| - 1];
  }

  /** The percentile depends on the values only, not on their order. */
  lemma NanPercentileForgetsOrder(a: seq<real>, b: seq<real>, p: real)
    requires 0.0 <= p <= 100.0 && multiset(a) == multiset(b)
    ensures NanPercentile(a, p) == NanPercentile(b, p)
  {
    SortForgetsOrder(a, b);
    if a == [] {
      assert |b| == |multiset(b)| == 0;
    }
  }

  /** When every value is the same, the percentile is that value. */
  lemma NanPercentileOfEqual(vs: seq<real>, p: real, c: real)
    requires 0.0 <= p <= 100.0 && vs != [] && forall k :: 0 <= k < |vs| ==> vs[k] == c
    ensures NanPercentile(vs, p) == Some(c)
  {
    SortEnds(vs);
    var s := Sort(vs);
    var lo :| 0 <= lo < |vs| && vs[lo] == s[0];
    var hi :| 0 <= hi < |vs| && vs[hi] == s[|vs| - 1];
    assert s[0] <= Interpolated(s, p) <= s[|s| - 1];
  }

  // --------------------------------------------------- stacking the rasters

  /** `RasterToNumPyArray(..., nodata_to_value=100000)`. */
  const FillValue := 100000.0

  /** The tolerances `np.ma.masked_values` passes to `isclose`. */
  const RelativeTolerance := 0.00001
  const AbsoluteTolerance := 0.00000001

  /** The percentile taken, in percent. */
  const Rank := 5.0

  function Filled(c: Cell): real {
    if c.None? then FillValue else c.value
  }

  /** `np.ma.masked_values(a, 100000.0)`: masked when `|x - 100000| <= atol + rtol * 100000`. */
  predicate Masked(x: real) {
    var d := x - FillValue;
    (if d < 0.0 then -d else d) <= AbsoluteTolerance + RelativeTolerance * FillValue
  }

  /** A cell that holds data and is not masked. */
  predicate Unmasked(c: Cell) {
    c.Some? && !Masked(c.value)
  }

  /** A cell's contribution to the stack after masking: nothing, or its value. */
  function Valid(c: Cell): (vs: seq<real>)
    ensures vs == [] <==> c.None? || Masked(c.value)
  {
    var x := Filled(c);
    if Masked(x) then [] else [x]
  }

  /** The values at cell `i` of the stacked rasters that survive masking, in listing order. */
  function StackValues(rs: seq<Raster>, i: int): (vs: seq<real>)
    ensures |vs| <= |rs|
    decreases |rs|
  {
    if rs == [] then [] else Valid(At(rs[0].grid, i)) + StackValues(rs[1..], i)
  }

  /** A value is in a column exactly when some raster holds it at that cell and it is not masked. */
  lemma {:induction false} StackValuesMembers(rs: seq<Raster>, i: int, v: real)
    ensures v in StackValues(rs, i) <==> exists k :: 0 <= k < |rs| && At(rs[k].grid, i) == Some(v) && !Masked(v)
    decreases |rs|
  {
    if rs != [] {
      StackValuesMembers(rs[1..], i, v);
      if v in StackValues(rs[1..], i) {
        var k :| 0 <= k < |rs[1..]| && At(rs[1..][k].grid, i) == Some(v) && !Masked(v);
        assert rs[k + 1] == rs[1..][k];
      }
      if exists k :: 0 <= k < |rs| && At(rs[k].grid, i) == Some(v) && !Masked(v) {
        var k :| 0 <= k < |rs| && At(rs[k].grid, i) == Some(v) && !Masked(v);
        if k > 0 {
          assert rs[1..][k - 1] == rs[k];
        }
      }
    }
  }

  lemma {:induction false} StackValuesAppend(a: seq<Raster>, b: seq<Raster>, i: int)
    ensures StackValues(a + b, i) == StackValues(a, i) + StackValues(b, i)
    decreases |a|
  {
    if a != [] {
      assert (a + b)[0] == a[0] && (a + b)[1..] == a[1..] + b;
      StackValuesAppend(a[1..], b, i);
      assert StackValues(a + b, i) == Valid(At(a[0].grid, i)) + StackValues(a[1..] + b, i);
    } else {
      assert a + b == b;
    }
  }

  lemma RemoveAt<T>(s: seq<T>, j: int)
    requires 0 <= j < |s|
    ensures multiset(s[..j] + s[j + 1..]) == multiset(s) - multiset{s[j]}
  {
    assert s == s[..j] + [s[j]] + s[j + 1..];
  }

  /** Listing the same rasters in another order permutes each column. */
  lemma {:induction false} StackValuesForgetOrder(a: seq<Raster>, b: seq<Raster>, i: int)
    requires multiset(a) == multiset(b)
    ensures multiset(StackValues(a, i)) == multiset(StackValues(b, i))
    decreases |a|
  {
    if a == [] {
      assert |b| == |multiset(b)| == 0;
    } else {
      assert a[0] in multiset(b);
      var j :| 0 <= j < |b| && b[j] == a[0];
      var rest := b[..j] + b[j + 1..];
      RemoveMatching(a, b, j);
      StackValuesForgetOrder(a[1..], rest, i);
      StackValuesRemoveAt(b, j, i);
    }
  }

  /** Taking the same element out of two permutations leaves permutations. */
  lemma RemoveMatching<T>(a: seq<T>, b: seq<T>, j: int)
    requires multiset(a) == multiset(b) && a != [] && 0 <= j < |b| && b[j] == a[0]
    ensures multiset(a[1..]) == multiset(b[..j] + b[j + 1..])
  {
    assert a == [a[0]] + a[1..];
    RemoveAt(b, j);
  }

  /** The column of a stack is the column of one raster together with the column of the others. */
  lemma StackValuesRemoveAt(b: seq<Raster>, j: int, i: int)
    requires 0 <= j < |b|
    ensures multiset(StackValues(b, i)) == multiset(Valid(At(b[j].grid, i))) + multiset(StackValues(b[..j] + b[j + 1..], i))
  {
    assert b == b[..j] + [b[j]] + b[j + 1..];
    StackValuesAppend(b[..j] + [b[j]], b[j + 1..], i);
    StackValuesAppend(b[..j], [b[j]], i);
    StackValuesAppend(b[..j], b[j + 1..], i);
    assert StackValues([b[j]], i) == Valid(At(b[j].grid, i)) by {
      assert [b[j]][1..] == [];
    }
  }

  /** The stacked, masked rasters reduced to their fifth percentile, cell by cell, over the first raster's extent. */
  function PercentileGrid(rs: seq<Raster>): (g: Grid)
    requires rs != []
    ensures |g| == |rs[0].grid|
  {
    seq(|rs[0].grid|, i requires 0 <= i < |rs[0].grid| => NanPercentile(StackValues(rs, i), Rank))
  }

  /**
   * A cell of the output is no-data exactly when no raster has an unmasked
   * value there; otherwise it lies between two such values.
   */
  lemma PercentileCell(rs: seq<Raster>, i: int)
    requires rs != [] && 0 <= i < |rs[0].grid|
    ensures PercentileGrid(rs)[i].None? <==>
      forall k :: 0 <= k < |rs| ==> !Unmasked(At(rs[k].grid, i))
    ensures PercentileGrid(rs)[i].Some? ==>
      exists k :: 0 <= k < |rs| && Unmasked(At(rs[k].grid, i)) && At(rs[k].grid, i).value <= PercentileGrid(rs)[i].value
    ensures PercentileGrid(rs)[i].Some? ==>
      exists k :: 0 <= k < |rs| && Unmasked(At(rs[k].grid, i)) && PercentileGrid(rs)[i].value <= At(rs[k].grid, i).value
  {
    var vs := StackValues(rs, i);
    assert PercentileGrid(rs)[i] == NanPercentile(vs, Rank);
    if vs == [] {
      forall k | 0 <= k < |rs|
        ensures !Unmasked(At(rs[k].grid, i))
      {
        if At(rs[k].grid, i).Some? {
          StackValuesMembers(rs, i, At(rs[k].grid, i).value);
        }
      }
    } else {
      NanPercentileBounds(vs, Rank);
      var r := NanPercentile(vs, Rank).value;
      var a :| 0 <= a < |vs| && vs[a] <= r;
      var b :| 0 <= b < |vs| && r <= vs[b];
      var ka := ColumnSource(rs, i, vs[a]);
      var kb := ColumnSource(rs, i, vs[b]);
    }
  }

  /** A value of a column comes from an unmasked cell of some raster. */
  lemma ColumnSource(rs: seq<Raster>, i: int, v: real) returns (k: int)
    requires v in StackValues(rs, i)
    ensures 0 <= k < |rs| && Unmasked(At(rs[k].grid, i)) && At(rs[k].grid, i).value == v
  {
    StackValuesMembers(rs, i, v);
    k :| 0 <= k < |rs| && At(rs[k].grid, i) == Some(v) && !Masked(v);
  }

  /** A stored value of 100000, or anything within about one of it, is dropped like no-data. */
  lemma FillValueDropped(x: real)
    requires FillValue - 1.0 <= x <= FillValue + 1.0
    ensures Valid(Some(x)) == [] && Valid(None) == []
  {
  }

  /** The order in which the rasters are listed does not change the output, only which one gives the extent. */
  lemma PercentileForgetsOrder(a: seq<Raster>, b: seq<Raster>)
    requires a != [] && b != [] && multiset(a) == multiset(b) && |a[0].grid| == |b[0].grid|
    ensures PercentileGrid(a) == PercentileGrid(b)
  {
    forall i | 0 <= i < |a[0].grid|
      ensures PercentileGrid(a)[i] == PercentileGrid(b)[i]
    {
      StackValuesForgetOrder(a, b, i);
      NanPercentileForgetsOrder(StackValues(a, i), StackValues(b, i), Rank);
    }
  }

  // -------------------------------------------------------------- the batch

  datatype Script = Current | Legacy {
    function InputContainer(rv: ResponseVariable, e: Element): string {
      match this
      case Current => ElementCapitalized(e) + "_" + ResponseName(rv) + "_deposition_5_red.gdb"
      case Legacy => ElementCapitalized(e) + "_" + ResponseName(rv) + "_reduction.gdb"
    }

    function OutputName(rv: ResponseVariable, e: Element): string {
      match this
      case Current => "dep_percentile_5_" + ResponseName(rv) + "_" + ElementName(e)
      case Legacy => "percentile_5_" + ResponseName(rv) + "_" + ElementName(e)
    }
  }

  const AggregateContainer := "aggregate.gdb"

  /** One pass of the two loops: a response variable and an element. */
  datatype Aggregate = Aggregate(rv: ResponseVariable, e: Element)

  /** `for response_variable in ['survival', 'growth']: for element in ['s', 'n']`. */
  const Aggregates := [Aggregate(Survival, S), Aggregate(Survival, N), Aggregate(Growth, S), Aggregate(Growth, N)]

  /** What `ListRasters()` returns in each container; a container not listed here holds nothing. */
  type Workspaces = map<string, seq<Raster>>

  function ListRasters(ws: Workspaces, container: string): seq<Raster> {
    if container in ws then ws[container] else []
  }

  function OutputPath(script: Script, a: Aggregate): Path {
    Path(AggregateContainer, script.OutputName(a.rv, a.e))
  }

  function Target(script: Script): Aggregate -> Result<Path, Failure> {
    (a: Aggregate) => Success(OutputPath(script, a))
  }

  /** With nothing listed, `CellStatistics` of an empty list raises. */
  function Compute(script: Script, ws: Workspaces, a: Aggregate): (o: Outcome)
    ensures o.failure.Some? <==> ListRasters(ws, script.InputContainer(a.rv, a.e)) == []
    ensures o.output.Some? <==> o.failure.None?
    ensures o.output.Some? ==> o.output.value == PercentileGrid(ListRasters(ws, script.InputContainer(a.rv, a.e)))
  {
    var rs := ListRasters(ws, script.InputContainer(a.rv, a.e));
    if rs == [] then Crashed(EmptyStack) else Saved(PercentileGrid(rs))
  }

  function Work(script: Script, ws: Workspaces): Aggregate -> Outcome {
    (a: Aggregate) => Compute(script, ws, a)
  }

  function Stage(script: Script, ws: Workspaces, store: Store): (r: Run)
    ensures forall p :: p in store ==> p in r.store && r.store[p] == store[p]
    ensures forall p :: p in r.store && p !in store ==> PercentileOf(script, ws, p, r.store[p])
  {
    NewOutputsArePercentiles(script, ws, store);
    Resume(Aggregates, store, Target(script), Work(script, ws))
  }

  /** `g`, saved at `p`, is the percentile grid of an aggregate's non-empty input listing. */
  ghost predicate PercentileOf(script: Script, ws: Workspaces, p: Path, g: Grid) {
    exists a :: a in Aggregates && p == OutputPath(script, a)
      && ListRasters(ws, script.InputContainer(a.rv, a.e)) != []
      && g == PercentileGrid(ListRasters(ws, script.InputContainer(a.rv, a.e)))
  }

  /** Every raster the loop saves is the percentile grid of its own aggregate's listing. */
  lemma NewOutputsArePercentiles(script: Script, ws: Workspaces, store: Store)
    ensures var r := Resume(Aggregates, store, Target(script), Work(script, ws));
      forall p :: p in r.store && p !in store ==> PercentileOf(script, ws, p, r.store[p])
  {
    var r := Resume(Aggregates, store, Target(script), Work(script, ws));
    forall p | p in r.store && p !in store
      ensures PercentileOf(script, ws, p, r.store[p])
    {
      var k :| 0 <= k < |Aggregates| && Target(script)(Aggregates[k]) == Success(p)
        && Work(script, ws)(Aggregates[k]).output == Some(r.store[p]);
      var a := Aggregates[k];
      assert Compute(script, ws, a).output == Some(r.store[p]);
      assert a in Aggregates;
    }
  }

  // ------------------------------------------------------------ the outputs

  /** The four outputs have four different names. */
  lemma OutputNamesDistinct(script: Script, a: Aggregate, b: Aggregate)
    requires script.OutputName(a.rv, a.e) == script.OutputName(b.rv, b.e)
    ensures a == b
  {
    var x := script.OutputName(a.rv, a.e);
    var y := script.OutputName(b.rv, b.e);
    assert x[|x| - 1] == y[|y| - 1];
    assert |x| == |y|;
  }

  lemma AggregatesFunctional(script: Script, ws: Workspaces)
    ensures Functional(Aggregates, Target(script), Work(script, ws))
  {
    forall i, j | 0 <= i < |Aggregates| && 0 <= j < |Aggregates| && Target(script)(Aggregates[i]) == Target(script)(Aggregates[j])
      ensures Aggregates[i] == Aggregates[j]
    {
      OutputNamesDistinct(script, Aggregates[i], Aggregates[j]);
    }
  }

  /**
   * After a completed run, every aggregate whose output was missing holds the
   * percentile of its container's listing.
   */
  lemma StageWritesPercentile(script: Script, ws: Workspaces, store: Store, k: int)
    requires 0 <= k < |Aggregates| && OutputPath(script, Aggregates[k]) !in store
    requires Stage(script, ws, store).failure.None?
    ensures var a := Aggregates[k];
      var rs := ListRasters(ws, script.InputContainer(a.rv, a.e));
      var out := Stage(script, ws, store).store;
      && rs != [] && OutputPath(script, a) in out && out[OutputPath(script, a)] == PercentileGrid(rs)
  {
    AggregatesFunctional(script, ws);
    ResumeWrites(Aggregates, store, Target(script), Work(script, ws), k);
    var a := Aggregates[k];
    if ListRasters(ws, script.InputContainer(a.rv, a.e)) == [] {
      ResumeStops(Aggregates, store, Target(script), Work(script, ws), k);
    }
  }

  /** An empty container whose output is missing stops the script. */
  lemma EmptyListingStops(script: Script, ws: Workspaces, store: Store, k: int)
    requires 0 <= k < |Aggregates| && OutputPath(script, Aggregates[k]) !in store
    requires ListRasters(ws, script.InputContainer(Aggregates[k].rv, Aggregates[k].e)) == []
    ensures Stage(script, ws, store).failure == Some(EmptyStack)
  {
    AggregatesFunctional(script, ws);
    ResumeStops(Aggregates, store, Target(script), Work(script, ws), k);
    OnlyEmptyStack(Aggregates, store, script, ws);
  }

  /** The only way this script stops is an empty stack. */
  lemma {:induction false} OnlyEmptyStack(items: seq<Aggregate>, store: Store, script: Script, ws: Workspaces)
    ensures var f := Resume(items, store, Target(script), Work(script, ws)).failure;
      f.None? || f == Some(EmptyStack)
    decreases |items|
  {
    if items != [] {
      var r := Resume(items, store, Target(script), Work(script, ws));
      var o := Work(script, ws)(items[0]);
      var next := if o.output.Some? then store[OutputPath(script, items[0]) := o.output.value] else store;
      OnlyEmptyStack(items[1..], store, script, ws);
      OnlyEmptyStack(items[1..], next, script, ws);
    }
  }

  /** With every container holding rasters, the script runs to completion. */
  lemma StageCompletes(script: Script, ws: Workspaces, store: Store)
    requires forall k :: 0 <= k < |Aggregates| ==> ListRasters(ws, script.InputContainer(Aggregates[k].rv, Aggregates[k].e)) != []
    ensures Stage(script, ws, store).failure.None?
  {
    ResumeCompletes(Aggregates, store, Target(script), Work(script, ws));
  }

  /** A second run writes nothing. */
  lemma RerunWritesNothing(script: Script, ws: Workspaces, store: Store)
    requires Stage(script, ws, store).failure.None?
    ensures var after := Stage(script, ws, store).store;
      Stage(script, ws, after) == Run(after, None)
  {
    Batch.RerunWritesNothing(Aggregates, store, Target(script), Work(script, ws));
  }
}
