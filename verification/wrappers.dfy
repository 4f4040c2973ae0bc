/** The optional value used wherever the source has `undefined`, `null` or a
    failed match. */
module Wrappers {

  datatype Option<+T> = None | Some(value: T)

  /** JavaScript's `x || []` and `x || ''`: a missing list or string reads as
      empty. An empty string is falsy and an empty array truthy; either way
      the result is empty. */
  function OrEmpty<T>(o: Option<seq<T>>): (r: seq<T>)
    ensures o.Some? ==> r == o.value
    ensures r == [] <==> o.None? || o.value == []
  {
    match o
    case Some(s) => s
    case None => []
  }
}
