/** Option and Result, and mapping a fallible function over a sequence
    the way a Python loop or comprehension does: left to right, stopping
    at the first exception. */
module Wrappers {

  datatype Option<+T> = None | Some(value: T)

  datatype Result<+T, +E> = Ok(value: T) | Err(error: E) {
    predicate IsFailure() {
      Err?
    }

    function PropagateFailure<U>(): Result<U, E>
      requires Err?
    {
      Err(error)
    }

    function Extract(): T
      requires Ok?
    {
      value
    }
  }

  /** Applies `f` to every element in order; the first failing element
      decides the error. Defined on the last element so that a loop that
      appends one result per step keeps `MapResult(xs[..i], f) == Ok(out)`. */
  function MapResult<A, B, E>(xs: seq<A>, f: A -> Result<B, E>): (r: Result<seq<B>, E>)
    ensures r.Ok? ==> |r.value| == |xs|
    decreases |xs|
  {
    if |xs| == 0 then Ok([])
    else
      var init :- MapResult(xs[..|xs| - 1], f);
      var last :- f(xs[|xs| - 1]);
      Ok(init + [last])
  }

  /** Success means every element succeeded, and the results line up with the inputs. */
  lemma {:induction false} MapResultOk<A, B, E>(xs: seq<A>, f: A -> Result<B, E>)
    ensures MapResult(xs, f).Ok? <==> (forall i :: 0 <= i < |xs| ==> f(xs[i]).Ok?)
    ensures MapResult(xs, f).Ok? ==>
      |MapResult(xs, f).value| == |xs| &&
      forall i :: 0 <= i < |xs| ==> MapResult(xs, f).value[i] == f(xs[i]).value
    decreases |xs|
  {
    if |xs| > 0 {
      var init := xs[..|xs| - 1];
      MapResultOk(init, f);
      assert forall i :: 0 <= i < |init| ==> init[i] == xs[i];
    }
  }

  /** A failure in a prefix is the failure of the whole sequence. */
  lemma {:induction false} MapResultPrefixErr<A, B, E>(xs: seq<A>, k: nat, f: A -> Result<B, E>)
    requires k <= |xs|
    requires MapResult(xs[..k], f).Err?
    ensures MapResult(xs, f) == MapResult(xs[..k], f)
    decreases |xs|
  {
    if k < |xs| {
      var init := xs[..|xs| - 1];
      assert init[..k] == xs[..k];
      MapResultPrefixErr(init, k, f);
    } else {
      assert xs[..k] == xs;
    }
  }

  /** One more loop step: extending the prefix by one element. */
  lemma MapResultStep<A, B, E>(xs: seq<A>, k: nat, f: A -> Result<B, E>)
    requires k < |xs|
    ensures MapResult(xs[..k + 1], f) ==
      match MapResult(xs[..k], f)
      case Err(e) => Err(e)
      case Ok(init) => match f(xs[k]) case Err(e) => Err(e) case Ok(b) => Ok(init + [b])
  {
    assert xs[..k + 1][..k] == xs[..k];
  }

  /** Mapping succeeds with `ys` when every element maps to its counterpart. */
  lemma MapResultAll<A, B, E>(xs: seq<A>, f: A -> Result<B, E>, ys: seq<B>)
    requires |xs| == |ys| && forall i :: 0 <= i < |xs| ==> f(xs[i]) == Ok(ys[i])
    ensures MapResult(xs, f) == Ok(ys)
  {
    MapResultOk(xs, f);
    var got := MapResult(xs, f).value;
    assert forall i :: 0 <= i < |xs| ==> got[i] == ys[i];
    assert got == ys;
  }
}
