/** `Someable::bool_some` (src/some.rs): a boolean flowing into an `Option`. */
module Someable {
  import opened Wrappers

  function BoolSome<T>(b: bool, t: T): (r: Option<T>)
    ensures r.Some? <==> b
    ensures r.Some? ==> r.value == t
  {
    if b then Some(t) else None
  }
}
