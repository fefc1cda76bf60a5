/**
 * The species response table: per species code, the critical-load columns of
 * one response variable (growth or survival) for each element (N or S).
 */
module SpeciesTable {
  import opened Wrappers
  import opened Grids

  datatype Element = N | S
  datatype ResponseVariable = Growth | Survival

  /** The element as it appears in raster and column names (`n`, `s`). */
  function ElementName(e: Element): string {
    match e
    case N => "n"
    case S => "s"
  }

  /** `element.capitalize()`, used to build container names (`N_...`, `S_...`). */
  function ElementCapitalized(e: Element): string {
    match e
    case N => "N"
    case S => "S"
  }

  function ResponseName(rv: ResponseVariable): string {
    match rv
    case Growth => "growth"
    case Survival => "survival"
  }

  /**
   * The columns `{e}1`, `{e}2`, `min_{e}`, `max_{e}` and `{e}dep_max` of one row.
   * `k1` (the critical load) and `dep_max` may be empty; the others are only
   * read for species whose `k1` is present, and those carry them.
   */
  datatype Params = Params(k1: Option<real>, k2: real, minDep: real, maxDep: real, depMax: Option<real>)

  datatype Row = Row(n: Params, s: Params)

  /** One table per response variable, keyed by `spp_code`. */
  type Table = map<int, Row>

  /** The growth and the survival table. */
  datatype Tables = Tables(growth: Table, survival: Table) {
    function For(rv: ResponseVariable): Table {
      match rv
      case Growth => growth
      case Survival => survival
    }
  }

  /** The row matching a species code, restricted to one element's columns. */
  function ParamsFor(t: Table, code: int, e: Element): Option<Params> {
    if code !in t then None
    else
      match e
      case N => Some(t[code].n)
      case S => Some(t[code].s)
  }

  /** The critical load `{e}1` of a species for one response variable and element, if the table gives one. */
  function CriticalLoad(tables: Tables, rv: ResponseVariable, code: int, e: Element): Option<real> {
    match ParamsFor(tables.For(rv), code, e)
    case None => None
    case Some(p) => p.k1
  }

  /** `dep_max`, or `min_dep` when `dep_max` is empty. */
  function DepMaxOrMin(p: Params): real {
    p.depMax.GetOr(p.minDep)
  }

  /** The total deposition rasters `n_tw_1719` and `s_tw_1719` of `tdep.gdb`. */
  datatype Deposition = Deposition(n: Grid, s: Grid) {
    function For(e: Element): Grid {
      match e
      case N => n
      case S => s
    }
  }
}
