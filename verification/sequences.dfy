/**
 * The first-match search both lookups of the addon perform: the entry of a listing that
 * readdir opens by name, and Array.prototype.find over the movies.
 */
module Sequences {
  import opened Wrappers

  /**
   * The index of the first element satisfying p: None exactly when no element does, and
   * otherwise an element that does, with none before it.
   */
  function FindFirst<T>(xs: seq<T>, p: T -> bool): (r: Option<nat>)
    ensures r.None? <==> forall i :: 0 <= i < |xs| ==> !p(xs[i])
    ensures r.Some? ==> r.value < |xs| && p(xs[r.value])
    ensures r.Some? ==> forall j :: 0 <= j < r.value ==> !p(xs[j])
  {
    if xs == [] then None
    else if p(xs[0]) then Some(0)
    else
      assert forall j :: 1 <= j < |xs| ==> xs[j] == xs[1..][j - 1];
      match FindFirst(xs[1..], p)
      case None => None
      case Some(i) => Some(i + 1)
  }
}
