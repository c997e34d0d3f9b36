/** The model's stand-ins for Rust's `Option` and `Result`. */
module Wrappers {

  datatype Option<+T> = None | Some(value: T)

  datatype Result<+T, +E> = Ok(value: T) | Err(error: E)
}

/**
 * A loop that maps every element and aborts at the first failure, as the
 * tool's `.unwrap()`-ing loops do: all the results, or the first error.
 */
module Collect {
  import opened Wrappers

  function MapAll<A, B, E>(xs: seq<A>, f: A -> Result<B, E>): (r: Result<seq<B>, E>)
  {
    if xs == [] then Ok([])
    else
      match f(xs[0])
      case Err(e) => Err(e)
      case Ok(y) =>
        match MapAll(xs[1..], f)
        case Err(e) => Err(e)
        case Ok(ys) => Ok([y] + ys)
  }

  /**
   * The mapping succeeds iff every element maps, and then yields one result
   * per element, in order; a failure is the first element's that fails.
   */
  lemma {:induction false} MapAllEach<A, B, E>(xs: seq<A>, f: A -> Result<B, E>)
    ensures MapAll(xs, f).Ok? <==> forall k :: 0 <= k < |xs| ==> f(xs[k]).Ok?
    ensures MapAll(xs, f).Ok? ==> |MapAll(xs, f).value| == |xs|
    ensures MapAll(xs, f).Ok? ==> forall k :: 0 <= k < |xs| ==> f(xs[k]) == Ok(MapAll(xs, f).value[k])
    ensures MapAll(xs, f).Err? ==>
      exists k :: (0 <= k < |xs| && f(xs[k]) == Err(MapAll(xs, f).error)
        && forall j :: 0 <= j < k ==> f(xs[j]).Ok?)
  {
    if xs != [] {
      var rest := xs[1..];
      MapAllEach(rest, f);
      assert forall k :: 0 <= k < |rest| ==> rest[k] == xs[k + 1];
      if f(xs[0]).Ok? && MapAll(rest, f).Err? {
        var k :| 0 <= k < |rest| && f(rest[k]) == Err(MapAll(rest, f).error)
          && forall j :: 0 <= j < k ==> f(rest[j]).Ok?;
        assert f(xs[k + 1]) == Err(MapAll(xs, f).error);
        assert forall j :: 0 <= j < k + 1 ==> f(xs[j]).Ok? by {
          forall j | 0 <= j < k + 1 ensures f(xs[j]).Ok? {
            if j > 0 { assert xs[j] == rest[j - 1]; }
          }
        }
      }
    }
  }
}
