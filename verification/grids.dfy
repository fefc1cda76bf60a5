/**
 * Same-extent rasters as sequences of cells, and the per-cell map-algebra
 * primitives the pipeline applies to them (SetNull, Con, ExtractByMask,
 * Divide, Times, the unary math tools and cell statistics SUM "DATA").
 *
 * A cell is `None` when it is no-data. Every grid taking part in one operation
 * is snapped to the same cell size and extent, so cell `i` of one grid lies on
 * cell `i` of the other; a cell read beyond a grid's extent is no-data.
 */
module Grids {
  import opened Wrappers

  type Cell = Option<real>
  type Grid = seq<Cell>

  /** A named raster dataset as listed from a workspace. */
  datatype Raster = Raster(name: string, grid: Grid)

  /** No two listed rasters share a name, as within one workspace. */
  predicate DistinctNames(rs: seq<Raster>) {
    forall i, j :: 0 <= i < |rs| && 0 <= j < |rs| && rs[i].name == rs[j].name ==> i == j
  }

  /**
   * The natural logarithm, exponential and square root used by the map-algebra
   * tools. They are left uninterpreted: every property below holds for every
   * choice of the three functions.
   */
  datatype Transcendentals = Transcendentals(ln: real -> real, exp: real -> real, sqrt: real -> real)

  /** The one fact about `exp` some properties rely on: it never returns zero or less. */
  ghost predicate ExpPositive(m: Transcendentals) {
    forall x :: m.exp(x) > 0.0
  }

  predicate SameExtent(a: Grid, b: Grid) {
    |a| == |b|
  }

  /** Cell `i` of `g`, or no-data outside its extent. */
  function At(g: Grid, i: int): Cell {
    if 0 <= i < |g| then g[i] else None
  }

  /** Applies a cell function to every cell. */
  function Map(g: Grid, f: Cell -> Cell): (r: Grid)
    ensures |r| == |g|
    ensures forall i :: 0 <= i < |g| ==> r[i] == f(g[i])
  {
    seq(|g|, i requires 0 <= i < |g| => f(g[i]))
  }

  /** Combines two grids cell by cell over the extent of the first. */
  function Zip(a: Grid, b: Grid, f: (Cell, Cell) -> Cell): (r: Grid)
    ensures |r| == |a|
    ensures forall i :: 0 <= i < |a| ==> r[i] == f(a[i], At(b, i))
  {
    seq(|a|, i requires 0 <= i < |a| => f(a[i], At(b, i)))
  }

  /** Combines three grids cell by cell over the extent of the first. */
  function Zip3(a: Grid, b: Grid, c: Grid, f: (Cell, Cell, Cell) -> Cell): (r: Grid)
    ensures |r| == |a|
    ensures forall i :: 0 <= i < |a| ==> r[i] == f(a[i], At(b, i), At(c, i))
  {
    seq(|a|, i requires 0 <= i < |a| => f(a[i], At(b, i), At(c, i)))
  }

  /** A grid of `n` cells all equal to `c`. */
  function Constant(n: nat, c: Cell): (r: Grid)
    ensures |r| == n
    ensures forall i :: 0 <= i < n ==> r[i] == c
  {
    seq(n, _ => c)
  }

  // ---------------------------------------------------------------- cell ops

  function Lift(c: Cell, f: real -> real): Cell {
    match c
    case None => None
    case Some(v) => Some(f(v))
  }

  /** Division of two cells: no-data when either is no-data or the divisor is zero. */
  function DivideCell(a: Cell, b: Cell): Cell {
    if a.Some? && b.Some? && b.value != 0.0 then Some(a.value / b.value) else None
  }

  function TimesCell(a: Cell, b: Cell): Cell {
    if a.Some? && b.Some? then Some(a.value * b.value) else None
  }

  /** Addition that ignores no-data, as cell statistics with the "DATA" option does. */
  function DataAdd(a: Cell, b: Cell): Cell {
    match (a, b)
    case (None, _) => b
    case (Some(x), None) => a
    case (Some(x), Some(y)) => Some(x + y)
  }

  // ------------------------------------------------------------- primitives

  /** SetNull(g, g, clause): cells where the clause holds become no-data, all others are kept. */
  function SetNull(g: Grid, clause: real -> bool): (r: Grid)
    ensures |r| == |g|
    ensures forall i :: 0 <= i < |g| ==> (r[i].None? <==> g[i].None? || clause(g[i].value))
    ensures forall i :: 0 <= i < |g| && r[i].Some? ==> r[i] == g[i]
  {
    Map(g, (c: Cell) => if c.Some? && clause(c.value) then None else c)
  }

  /**
   * Con(cond, t, f): where the condition raster is no-data the result is no-data;
   * elsewhere the cell of `t` when the test holds of the condition value, else the cell of `f`.
   */
  function Con(cond: Grid, test: real -> bool, t: Grid, f: Grid): (r: Grid)
    ensures |r| == |cond|
    ensures forall i :: 0 <= i < |cond| && cond[i].None? ==> r[i].None?
    ensures forall i :: 0 <= i < |cond| && cond[i].Some? && test(cond[i].value) ==> r[i] == At(t, i)
    ensures forall i :: 0 <= i < |cond| && cond[i].Some? && !test(cond[i].value) ==> r[i] == At(f, i)
  {
    Zip3(cond, t, f, (c: Cell, x: Cell, y: Cell) => if c.None? then None else if test(c.value) then x else y)
  }

  /** ExtractByMask(g, mask): no-data wherever the mask is no-data, the cell of `g` elsewhere. */
  function ExtractByMask(g: Grid, mask: Grid): (r: Grid)
    ensures |r| == |g|
    ensures forall i :: 0 <= i < |g| ==> (r[i].None? <==> g[i].None? || At(mask, i).None?)
    ensures forall i :: 0 <= i < |g| && r[i].Some? ==> r[i] == g[i]
  {
    Zip(g, mask, (c: Cell, m: Cell) => if m.None? then None else c)
  }

  /** Divide(a, b) between two rasters. */
  function Divide(a: Grid, b: Grid): (r: Grid)
    ensures |r| == |a|
    ensures forall i :: 0 <= i < |a| ==>
      (r[i].Some? <==> a[i].Some? && At(b, i).Some? && At(b, i).value != 0.0)
    ensures forall i :: 0 <= i < |a| && r[i].Some? ==> r[i].value == a[i].value / At(b, i).value
  {
    Zip(a, b, DivideCell)
  }

  /** Times(a, b) between two rasters. */
  function Times(a: Grid, b: Grid): (r: Grid)
    ensures |r| == |a|
    ensures forall i :: 0 <= i < |a| ==> (r[i].Some? <==> a[i].Some? && At(b, i).Some?)
    ensures forall i :: 0 <= i < |a| && r[i].Some? ==> r[i].value == a[i].value * At(b, i).value
  {
    Zip(a, b, TimesCell)
  }

  /** A unary tool applied to every data cell; no-data stays no-data. */
  function Apply(g: Grid, f: real -> real): (r: Grid)
    ensures |r| == |g|
    ensures forall i :: 0 <= i < |g| ==> (r[i].Some? <==> g[i].Some?)
    ensures forall i :: 0 <= i < |g| && r[i].Some? ==> r[i].value == f(g[i].value)
  {
    Map(g, (c: Cell) => Lift(c, f))
  }

  /** Divide(g, c) by a constant: a zero divisor makes every cell no-data. */
  function DivideBy(g: Grid, c: real): (r: Grid)
    ensures |r| == |g|
    ensures forall i :: 0 <= i < |g| ==> (r[i].Some? <==> g[i].Some? && c != 0.0)
    ensures forall i :: 0 <= i < |g| && r[i].Some? ==> r[i].value == g[i].value / c
  {
    if c == 0.0 then Constant(|g|, None) else Apply(g, x => x / c)
  }

  /** Ln: no-data where the input is zero or negative. */
  function Ln(m: Transcendentals, g: Grid): (r: Grid)
    ensures |r| == |g|
    ensures forall i :: 0 <= i < |g| ==> (r[i].Some? <==> g[i].Some? && g[i].value > 0.0)
    ensures forall i :: 0 <= i < |g| && r[i].Some? ==> r[i].value == m.ln(g[i].value)
  {
    Map(g, (c: Cell) => if c.Some? && c.value > 0.0 then Some(m.ln(c.value)) else None)
  }

  /** Exp, defined everywhere. */
  function Exp(m: Transcendentals, g: Grid): (r: Grid)
    ensures |r| == |g|
    ensures forall i :: 0 <= i < |g| ==> (r[i].Some? <==> g[i].Some?)
    ensures forall i :: 0 <= i < |g| && r[i].Some? ==> r[i].value == m.exp(g[i].value)
  {
    Apply(g, m.exp)
  }

  /** SquareRoot: no-data where the input is negative. */
  function Sqrt(m: Transcendentals, g: Grid): (r: Grid)
    ensures |r| == |g|
    ensures forall i :: 0 <= i < |g| ==> (r[i].Some? <==> g[i].Some? && g[i].value >= 0.0)
    ensures forall i :: 0 <= i < |g| && r[i].Some? ==> r[i].value == m.sqrt(g[i].value)
  {
    Map(g, (c: Cell) => if c.Some? && c.value >= 0.0 then Some(m.sqrt(c.value)) else None)
  }

  /** `x` squared, named so that cell-wise and closed-form uses share one term. */
  function SquareOf(x: real): real {
    x * x
  }

  /** `x` times `c`, named for the same reason. */
  function Scaled(x: real, c: real): real {
    x * c
  }

  /** Square. */
  function Square(g: Grid): (r: Grid)
    ensures |r| == |g|
    ensures forall i :: 0 <= i < |g| ==> (r[i].Some? <==> g[i].Some?)
    ensures forall i :: 0 <= i < |g| && r[i].Some? ==> r[i].value == SquareOf(g[i].value)
  {
    Apply(g, SquareOf)
  }

  /** Times by a constant. */
  function TimesBy(g: Grid, c: real): (r: Grid)
    ensures |r| == |g|
    ensures forall i :: 0 <= i < |g| ==> (r[i].Some? <==> g[i].Some?)
    ensures forall i :: 0 <= i < |g| && r[i].Some? ==> r[i].value == Scaled(g[i].value, c)
  {
    Apply(g, (x: real) => Scaled(x, c))
  }

  /** Plus a constant. */
  function Plus(g: Grid, c: real): (r: Grid)
    ensures |r| == |g|
    ensures forall i :: 0 <= i < |g| ==> (r[i].Some? <==> g[i].Some?)
    ensures forall i :: 0 <= i < |g| && r[i].Some? ==> r[i].value == g[i].value + c
  {
    Apply(g, (x: real) => x + c)
  }

  /** Minus a constant (`raster - 1`). */
  function Minus(g: Grid, c: real): (r: Grid)
    ensures |r| == |g|
    ensures forall i :: 0 <= i < |g| ==> (r[i].Some? <==> g[i].Some?)
    ensures forall i :: 0 <= i < |g| && r[i].Some? ==> r[i].value == g[i].value - c
  {
    Apply(g, (x: real) => x - c)
  }

  // ------------------------------------------------- cell statistics SUM DATA

  /** The grids of a listing, in listing order. */
  function GridsOf(rs: seq<Raster>): (gs: seq<Grid>)
    ensures |gs| == |rs|
    ensures forall k :: 0 <= k < |rs| ==> gs[k] == rs[k].grid
  {
    seq(|rs|, k requires 0 <= k < |rs| => rs[k].grid)
  }

  /** The cells of a stack of grids at position `i`, one per layer. */
  function Column(gs: seq<Grid>, i: int): (col: seq<Cell>)
    ensures |col| == |gs|
    ensures forall k :: 0 <= k < |gs| ==> col[k] == At(gs[k], i)
  {
    seq(|gs|, k requires 0 <= k < |gs| => At(gs[k], i))
  }

  /** The data values of a column, in layer order. */
  function Present(col: seq<Cell>): seq<real>
    decreases |col|
  {
    if col == [] then []
    else Present(col[..|col| - 1]) + (if col[|col| - 1].Some? then [col[|col| - 1].value] else [])
  }

  function Sum(s: seq<real>): real
    decreases |s|
  {
    if s == [] then 0.0 else Sum(s[..|s| - 1]) + s[|s| - 1]
  }

  /** Reference meaning of SUM "DATA" at one cell: the sum of the data values, no-data when there are none. */
  function SumOfPresent(col: seq<Cell>): Cell {
    var vs := Present(col);
    if vs == [] then None else Some(Sum(vs))
  }

  lemma {:induction false} PresentEmpty(col: seq<Cell>)
    ensures Present(col) == [] <==> forall k :: 0 <= k < |col| ==> col[k].None?
    decreases |col|
  {
    if col != [] {
      PresentEmpty(col[..|col| - 1]);
      assert forall k :: 0 <= k < |col| - 1 ==> col[..|col| - 1][k] == col[k];
    }
  }

  /** Adding one more layer to a column extends its SUM "DATA" by that layer's cell. */
  lemma SumOfPresentSnoc(col: seq<Cell>)
    requires col != []
    ensures SumOfPresent(col) == DataAdd(SumOfPresent(col[..|col| - 1]), col[|col| - 1])
  {
    var front := Present(col[..|col| - 1]);
    if col[|col| - 1].Some? {
      var v := col[|col| - 1].value;
      assert Present(col) == front + [v];
      assert (front + [v])[..|front|] == front;
      assert Sum(front + [v]) == Sum(front) + v;
      if front == [] {
        assert Sum(front) == 0.0;
      }
    } else {
      assert Present(col) == front;
    }
  }

  lemma ColumnFront(gs: seq<Grid>, i: int)
    requires gs != []
    ensures Column(gs, i)[..|gs| - 1] == Column(gs[..|gs| - 1], i)
    ensures Column(gs, i)[|gs| - 1] == At(gs[|gs| - 1], i)
  {
  }

  /** CellStatistics(gs, "SUM", "DATA") over an extent of `n` cells, folded layer by layer. */
  function CellSum(gs: seq<Grid>, n: nat): (r: Grid)
    ensures |r| == n
    ensures forall i :: 0 <= i < n ==> r[i] == SumOfPresent(Column(gs, i))
    decreases |gs|
  {
    if gs == [] then Constant(n, None)
    else
      var acc := CellSum(gs[..|gs| - 1], n);
      var r := Zip(acc, gs[|gs| - 1], DataAdd);
      forall i | 0 <= i < n
        ensures r[i] == SumOfPresent(Column(gs, i))
      {
        ColumnFront(gs, i);
        SumOfPresentSnoc(Column(gs, i));
      }
      r
  }

  /** A summed cell is no-data exactly when every layer is no-data there. */
  lemma CellSumNoData(gs: seq<Grid>, n: nat, i: int)
    requires 0 <= i < n
    ensures CellSum(gs, n)[i].None? <==> forall k :: 0 <= k < |gs| ==> At(gs[k], i).None?
  {
    PresentEmpty(Column(gs, i));
  }
}
