/** Option and Result values: the model's stand-in for Python's None and raised exceptions. */
module Results {

  datatype Option<+T> = None | Some(value: T)

  /** Either a value or the error the Python code would raise instead of returning. */
  datatype Result<+T, +E> = Ok(value: T) | Err(error: E)

  /** A loop applying f to each element in order, stopped by the first error it raises. */
  function MapAll<T, U, E>(f: T -> Result<U, E>, xs: seq<T>): Result<seq<U>, E>
    decreases |xs|
  {
    if xs == [] then Ok([])
    else
      match MapAll(f, xs[..|xs| - 1])
      case Err(e) => Err(e)
      case Ok(us) =>
        match f(xs[|xs| - 1])
        case Err(e) => Err(e)
        case Ok(u) => Ok(us + [u])
  }

  /** One more step of the loop. */
  lemma MapAllSnoc<T, U, E>(f: T -> Result<U, E>, xs: seq<T>, n: nat, us: seq<U>)
    requires n < |xs| && MapAll(f, xs[..n]) == Ok(us)
    ensures f(xs[n]).Err? ==> MapAll(f, xs) == Err(f(xs[n]).error)
    ensures f(xs[n]).Ok? ==> MapAll(f, xs[..n + 1]) == Ok(us + [f(xs[n]).value])
  {
    assert xs[..n + 1][..n] == xs[..n];
    if f(xs[n]).Err? {
      MapAllPrefixErr(f, xs, n + 1);
    }
  }

  /** Once a prefix fails, the whole loop fails with the same error. */
  lemma {:induction false} MapAllPrefixErr<T, U, E>(f: T -> Result<U, E>, xs: seq<T>, n: nat)
    requires n <= |xs| && MapAll(f, xs[..n]).Err?
    ensures MapAll(f, xs) == MapAll(f, xs[..n])
    decreases |xs| - n
  {
    if n < |xs| {
      assert xs[..n + 1][..n] == xs[..n];
      MapAllPrefixErr(f, xs, n + 1);
    } else {
      assert xs[..n] == xs;
    }
  }

  /**
   * The loop succeeds exactly when f succeeds on every element, and then yields f's
   * values in order; otherwise it fails with the error of the first failing element.
   */
  lemma {:induction false} MapAllFacts<T, U, E>(f: T -> Result<U, E>, xs: seq<T>)
    ensures MapAll(f, xs).Ok? <==> forall i :: 0 <= i < |xs| ==> f(xs[i]).Ok?
    ensures MapAll(f, xs).Ok? ==>
      |MapAll(f, xs).value| == |xs| && forall i :: 0 <= i < |xs| ==> MapAll(f, xs).value[i] == f(xs[i]).value
    ensures MapAll(f, xs).Err? ==> exists i | 0 <= i < |xs| ::
      f(xs[i]).Err? && MapAll(f, xs).error == f(xs[i]).error && forall k :: 0 <= k < i ==> f(xs[k]).Ok?
    decreases |xs|
  {
    if xs != [] {
      var n := |xs| - 1;
      var init := xs[..n];
      MapAllFacts(f, init);
      assert forall i :: 0 <= i < n ==> init[i] == xs[i];
      if MapAll(f, init).Err? {
        var i :| 0 <= i < |init| && f(init[i]).Err? && MapAll(f, init).error == f(init[i]).error
          && forall k :: 0 <= k < i ==> f(init[k]).Ok?;
        assert f(xs[i]).Err?;
      } else if f(xs[n]).Err? {
        assert f(xs[n]).Err? && forall k :: 0 <= k < n ==> f(xs[k]).Ok?;
      }
    }
  }
}
