/** Definitions the catalog and the calendar share: `Math.max` on integers and the
    first-match search behind `Array.prototype.find` and `findIndex`. */
module Basics {
  import opened Wrappers

  function Max(a: int, b: int): (m: int)
    ensures m >= a && m >= b && (m == a || m == b)
  {
    if a >= b then a else b
  }

  /** The index of the first element satisfying `f`; None where `findIndex` gives -1. */
  function FindFirst<T>(xs: seq<T>, f: T -> bool): (r: Option<nat>)
    ensures r.Some? ==> r.value < |xs| && f(xs[r.value])
    ensures r.Some? ==> forall j :: 0 <= j < r.value ==> !f(xs[j])
    ensures r.None? ==> forall j :: 0 <= j < |xs| ==> !f(xs[j])
  {
    if xs == [] then None
    else if f(xs[0]) then Some(0)
    else match FindFirst(xs[1..], f)
      case Some(j) => Some(j + 1)
      case None => None
  }
}
