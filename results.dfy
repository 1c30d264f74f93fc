/**
 * Result values, and the two collectors the pipeline applies to a sequence
 * of them: keeping the values of the successes and keeping the errors.
 */
module Results {

  /** The outcome of a fallible step: a value, or the error it failed with. */
  datatype Result<+T, +E> = Ok(value: T) | Err(error: E)

  /** The values of the `Ok` entries, in order (a `filter(is_ok)` then `map(unwrap)`). */
  function Oks<T, E>(rs: seq<Result<T, E>>): (vs: seq<T>)
    ensures |vs| <= |rs|
  {
    if rs == [] then []
    else
      var last := rs[|rs| - 1];
      Oks(rs[..|rs| - 1]) + (if last.Ok? then [last.value] else [])
  }

  /** The errors of the `Err` entries, in order (a `filter(!is_ok)` then `map(unwrap_err)`). */
  function Errs<T, E>(rs: seq<Result<T, E>>): (es: seq<E>)
    ensures |es| <= |rs|
  {
    if rs == [] then []
    else
      var last := rs[|rs| - 1];
      Errs(rs[..|rs| - 1]) + (if last.Err? then [last.error] else [])
  }

  /** Positions of the `Ok` entries of `rs`, in increasing order. */
  function OkIndices<T, E>(rs: seq<Result<T, E>>): seq<nat>
  {
    if rs == [] then []
    else OkIndices(rs[..|rs| - 1]) + (if rs[|rs| - 1].Ok? then [|rs| - 1] else [])
  }

  /** Positions of the `Err` entries of `rs`, in increasing order. */
  function ErrIndices<T, E>(rs: seq<Result<T, E>>): seq<nat>
  {
    if rs == [] then []
    else ErrIndices(rs[..|rs| - 1]) + (if rs[|rs| - 1].Err? then [|rs| - 1] else [])
  }

  ghost predicate StrictlyIncreasing(idx: seq<nat>)
  {
    forall j, k :: 0 <= j < k < |idx| ==> idx[j] < idx[k]
  }

  /**
   * `Oks` keeps exactly the successes, in their original order: the k-th kept
   * value is the value of the `Ok` at position `OkIndices(rs)[k]`, and a
   * position is listed exactly when its entry is an `Ok`.
   */
  lemma {:induction false} OksSelects<T, E>(rs: seq<Result<T, E>>)
    ensures var idx, vs := OkIndices(rs), Oks(rs);
      && |idx| == |vs|
      && StrictlyIncreasing(idx)
      && (forall k :: 0 <= k < |idx| ==> idx[k] < |rs| && rs[idx[k]] == Ok(vs[k]))
      && (forall i :: 0 <= i < |rs| ==> (rs[i].Ok? <==> i in idx))
  {
    if rs != [] {
      var n := |rs| - 1;
      var pre := rs[..n];
      OksSelects(pre);
      assert forall i :: 0 <= i < n ==> pre[i] == rs[i];
    }
  }

  /**
   * `Errs` keeps exactly the failures, in their original order: the k-th kept
   * error is the error of the `Err` at position `ErrIndices(rs)[k]`, and a
   * position is listed exactly when its entry is an `Err`.
   */
  lemma {:induction false} ErrsSelects<T, E>(rs: seq<Result<T, E>>)
    ensures var idx, es := ErrIndices(rs), Errs(rs);
      && |idx| == |es|
      && StrictlyIncreasing(idx)
      && (forall k :: 0 <= k < |idx| ==> idx[k] < |rs| && rs[idx[k]] == Err(es[k]))
      && (forall i :: 0 <= i < |rs| ==> (rs[i].Err? <==> i in idx))
  {
    if rs != [] {
      var n := |rs| - 1;
      var pre := rs[..n];
      ErrsSelects(pre);
      assert forall i :: 0 <= i < n ==> pre[i] == rs[i];
    }
  }
}
