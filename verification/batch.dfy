/**
 * The storage namespace and the resumable batch driver every stage shares:
 * for each listed item, build the output path; if a raster already exists
 * there, skip it; otherwise compute and save. There is no partial state: an
 * output either exists under its deterministic path or does not.
 */
module Batch {
  import opened Wrappers
  import opened Grids

  /** A raster dataset path: a container (file geodatabase) and a raster name inside it. */
  datatype Path = Path(container: string, name: string)

  /** Every raster that exists, by path. */
  type Store = map<Path, Grid>

  /** What stops a script part-way. */
  datatype Failure =
    | UnparsableName(name: string)   // `int(...)` raised on a raster name
    | MissingNationalRaster          // `ListRasters('ba_null_natl_forest')[0]` on an empty listing
    | EmptyStack                     // no raster to stack for a percentile
    | UnboundMaskedGrid              // a name used before any assignment (`NameError`)

  /** What computing one item did: the raster it saved, if any, then the failure that stopped it, if any. */
  datatype Outcome = Outcome(output: Option<Grid>, failure: Option<Failure>)

  /** The state after a run: the store, and the failure that stopped the run, if any. */
  datatype Run = Run(store: Store, failure: Option<Failure>)

  const Skipped := Outcome(None, None)

  function Saved(g: Grid): Outcome {
    Outcome(Some(g), None)
  }

  function Crashed(f: Failure): Outcome {
    Outcome(None, Some(f))
  }

  /**
   * The resumable loop. `target` builds the output path of an item (and may fail
   * before the existence check); `work` computes it.
   */
  function Resume<T>(items: seq<T>, store: Store, target: T -> Result<Path, Failure>, work: T -> Outcome): (r: Run)
    ensures forall p :: p in store ==> p in r.store && r.store[p] == store[p]
    ensures forall p :: p in r.store && p !in store ==>
      exists k :: 0 <= k < |items| && target(items[k]) == Success(p) && work(items[k]).output == Some(r.store[p])
    decreases |items|
  {
    if items == [] then Run(store, None)
    else
      match target(items[0])
      case Failure(e) => Run(store, Some(e))
      case Success(p) =>
        if p in store then
          var r := Resume(items[1..], store, target, work);
          assert forall q :: q in r.store && q !in store ==>
            exists k :: 1 <= k < |items| && target(items[k]) == Success(q) && work(items[k]).output == Some(r.store[q]) by {
            forall q | q in r.store && q !in store
              ensures exists k :: 1 <= k < |items| && target(items[k]) == Success(q) && work(items[k]).output == Some(r.store[q])
            {
              var j :| 0 <= j < |items| - 1 && target(items[1..][j]) == Success(q) && work(items[1..][j]).output == Some(r.store[q]);
              assert items[1..][j] == items[j + 1];
            }
          }
          r
        else
          var o := work(items[0]);
          var s := if o.output.Some? then store[p := o.output.value] else store;
          if o.failure.Some? then Run(s, o.failure)
          else
            var r := Resume(items[1..], s, target, work);
            assert forall q :: q in r.store && q !in s ==>
              exists k :: 1 <= k < |items| && target(items[k]) == Success(q) && work(items[k]).output == Some(r.store[q]) by {
              forall q | q in r.store && q !in s
                ensures exists k :: 1 <= k < |items| && target(items[k]) == Success(q) && work(items[k]).output == Some(r.store[q])
              {
                var j :| 0 <= j < |items| - 1 && target(items[1..][j]) == Success(q) && work(items[1..][j]).output == Some(r.store[q]);
                assert items[1..][j] == items[j + 1];
              }
            }
            r
  }

  /**
   * Nothing is left to do: every item's path can be built, and its output either
   * exists already or computing it would save nothing and raise nothing.
   */
  ghost predicate Settled<T>(items: seq<T>, store: Store, target: T -> Result<Path, Failure>, work: T -> Outcome) {
    forall k :: 0 <= k < |items| ==>
      target(items[k]).Success? && (target(items[k]).value in store || work(items[k]) == Skipped)
  }

  /** A settled run writes nothing and completes. */
  lemma {:induction false} SettledRunWritesNothing<T>(items: seq<T>, store: Store, target: T -> Result<Path, Failure>, work: T -> Outcome)
    requires Settled(items, store, target, work)
    ensures Resume(items, store, target, work) == Run(store, None)
    decreases |items|
  {
    if items != [] {
      assert Settled(items[1..], store, target, work) by {
        forall k | 0 <= k < |items| - 1
          ensures target(items[1..][k]).Success? && (target(items[1..][k]).value in store || work(items[1..][k]) == Skipped)
        {
          assert items[1..][k] == items[k + 1];
        }
      }
      SettledRunWritesNothing(items[1..], store, target, work);
    }
  }

  /** Adding outputs to the store keeps a settled batch settled. */
  lemma SettledGrows<T>(items: seq<T>, store: Store, bigger: Store, target: T -> Result<Path, Failure>, work: T -> Outcome)
    requires Settled(items, store, target, work)
    requires store.Keys <= bigger.Keys
    ensures Settled(items, bigger, target, work)
  {
  }

  /** A run that completes without failure leaves its batch settled. */
  lemma {:induction false} CompletedRunSettles<T>(items: seq<T>, store: Store, target: T -> Result<Path, Failure>, work: T -> Outcome)
    requires Resume(items, store, target, work).failure.None?
    ensures Settled(items, Resume(items, store, target, work).store, target, work)
    decreases |items|
  {
    var r := Resume(items, store, target, work);
    if items != [] {
      var p := target(items[0]).value;
      var s := if p in store then store
               else if work(items[0]).output.Some? then store[p := work(items[0]).output.value]
               else store;
      assert r == Resume(items[1..], s, target, work);
      CompletedRunSettles(items[1..], s, target, work);
      forall k | 0 <= k < |items|
        ensures target(items[k]).Success? && (target(items[k]).value in r.store || work(items[k]) == Skipped)
      {
        if k > 0 {
          assert items[1..][k - 1] == items[k];
        }
      }
    }
  }

  /** A loop whose paths can always be built and whose work never raises runs to completion. */
  lemma {:induction false} ResumeCompletes<T>(items: seq<T>, store: Store, target: T -> Result<Path, Failure>, work: T -> Outcome)
    requires forall k :: 0 <= k < |items| ==> target(items[k]).Success? && work(items[k]).failure.None?
    ensures Resume(items, store, target, work).failure.None?
    decreases |items|
  {
    if items != [] {
      var p := target(items[0]).value;
      var s := if p in store then store
               else if work(items[0]).output.Some? then store[p := work(items[0]).output.value]
               else store;
      forall k | 0 <= k < |items| - 1
        ensures target(items[1..][k]).Success? && work(items[1..][k]).failure.None?
      {
        assert items[1..][k] == items[k + 1];
      }
      ResumeCompletes(items[1..], s, target, work);
    }
  }

  /** Re-running a batch that completed writes nothing (idempotent re-run). */
  lemma RerunWritesNothing<T>(items: seq<T>, store: Store, target: T -> Result<Path, Failure>, work: T -> Outcome)
    requires Resume(items, store, target, work).failure.None?
    ensures var after := Resume(items, store, target, work).store;
      Resume(items, after, target, work) == Run(after, None)
  {
    CompletedRunSettles(items, store, target, work);
    SettledRunWritesNothing(items, Resume(items, store, target, work).store, target, work);
  }

  /** Items that share an output path compute the same thing (the path names the computation). */
  ghost predicate Functional<T>(items: seq<T>, target: T -> Result<Path, Failure>, work: T -> Outcome) {
    forall i, j :: 0 <= i < |items| && 0 <= j < |items| && target(items[i]).Success? && target(items[i]) == target(items[j]) ==>
      work(items[i]) == work(items[j])
  }

  /**
   * After a completed run, an item whose output did not exist before has its
   * output exactly when its computation saves one, and the saved raster is it.
   */
  lemma ResumeWrites<T>(items: seq<T>, store: Store, target: T -> Result<Path, Failure>, work: T -> Outcome, k: int)
    requires Resume(items, store, target, work).failure.None?
    requires Functional(items, target, work)
    requires 0 <= k < |items| && target(items[k]).Success? && target(items[k]).value !in store
    ensures var r := Resume(items, store, target, work);
      && (target(items[k]).value in r.store <==> work(items[k]).output.Some?)
      && (work(items[k]).output.Some? ==> r.store[target(items[k]).value] == work(items[k]).output.value)
  {
    CompletedRunSettles(items, store, target, work);
  }

  /** `ResumeWrites` for an item named by value rather than by position. */
  lemma ResumeWritesMember<T>(items: seq<T>, store: Store, target: T -> Result<Path, Failure>, work: T -> Outcome, it: T)
    requires Resume(items, store, target, work).failure.None?
    requires Functional(items, target, work)
    requires it in items && target(it).Success? && target(it).value !in store
    ensures var r := Resume(items, store, target, work);
      && (target(it).value in r.store <==> work(it).output.Some?)
      && (work(it).output.Some? ==> r.store[target(it).value] == work(it).output.value)
  {
    var k :| 0 <= k < |items| && items[k] == it;
    ResumeWrites(items, store, target, work, k);
  }

  /**
   * An item whose output does not exist yet and whose computation raises without
   * saving stops the run.
   */
  lemma ResumeStops<T>(items: seq<T>, store: Store, target: T -> Result<Path, Failure>, work: T -> Outcome, k: int)
    requires Functional(items, target, work)
    requires 0 <= k < |items| && target(items[k]).Success? && target(items[k]).value !in store
    requires work(items[k]).output.None? && work(items[k]).failure.Some?
    ensures Resume(items, store, target, work).failure.Some?
  {
    if Resume(items, store, target, work).failure.None? {
      CompletedRunSettles(items, store, target, work);
    }
  }

  /** `ResumeStops` for an item named by value rather than by position. */
  lemma ResumeStopsMember<T>(items: seq<T>, store: Store, target: T -> Result<Path, Failure>, work: T -> Outcome, it: T)
    requires Functional(items, target, work)
    requires it in items && target(it).Success? && target(it).value !in store
    requires work(it).output.None? && work(it).failure.Some?
    ensures Resume(items, store, target, work).failure.Some?
  {
    var k :| 0 <= k < |items| && items[k] == it;
    ResumeStops(items, store, target, work, k);
  }
}
