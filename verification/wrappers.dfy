/** Rust's `Option` and `Result`, with the two `Option` combinators the
    crate uses (`zip` and `map`). */
module Wrappers {

  datatype Option<+T> = None | Some(value: T)

  datatype Result<+T, +E> = Ok(value: T) | Err(error: E)

  /** `Option::zip`: a pair when both sides are present, otherwise `None`. */
  function Zip<A, B>(x: Option<A>, y: Option<B>): (r: Option<(A, B)>)
    ensures r.Some? <==> x.Some? && y.Some?
    ensures r.Some? ==> r.value.0 == x.value && r.value.1 == y.value
  {
    match (x, y)
    case (Some(a), Some(b)) => Some((a, b))
    case _ => None
  }

  /** `Option::map`: applies `f` under `Some`, leaves `None` alone. */
  function MapOption<A, B>(x: Option<A>, f: A -> B): (r: Option<B>)
    ensures r.Some? <==> x.Some?
    ensures r.Some? ==> r.value == f(x.value)
  {
    match x
    case Some(a) => Some(f(a))
    case None => None
  }
}
