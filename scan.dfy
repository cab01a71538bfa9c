/** First-match search, the shape of every `for … of` loop with an early `return` and of
    `Array.prototype.find` in the content scripts. */
module Scan {
  import opened Wrappers

  /** The position of the first element at or after `i` that satisfies `p`. */
  function FirstFrom<T>(xs: seq<T>, p: T -> bool, i: nat): (r: Option<nat>)
    requires i <= |xs|
    ensures r.None? <==> forall k :: i <= k < |xs| ==> !p(xs[k])
    ensures r.Some? ==> i <= r.value < |xs| && p(xs[r.value]) &&
                        forall k :: i <= k < r.value ==> !p(xs[k])
    decreases |xs| - i
  {
    if i == |xs| then None
    else if p(xs[i]) then Some(i)
    else FirstFrom(xs, p, i + 1)
  }

  /** The position of the first element that satisfies `p`, or `None`. */
  function First<T>(xs: seq<T>, p: T -> bool): (r: Option<nat>)
    ensures r.None? <==> forall k :: 0 <= k < |xs| ==> !p(xs[k])
    ensures r.Some? ==> r.value < |xs| && p(xs[r.value]) &&
                        forall k :: 0 <= k < r.value ==> !p(xs[k])
  {
    FirstFrom(xs, p, 0)
  }

  /** The first match is determined by its defining property. */
  lemma FirstIs<T>(xs: seq<T>, p: T -> bool, k: nat)
    requires k < |xs| && p(xs[k])
    requires forall j :: 0 <= j < k ==> !p(xs[j])
    ensures First(xs, p) == Some(k)
  {
  }

  /** A `for … of` loop that returns at the first element satisfying `p`. */
  method FindFirst<T>(xs: seq<T>, p: T -> bool) returns (r: Option<nat>)
    ensures r == First(xs, p)
  {
    var i := 0;
    while i < |xs|
      invariant 0 <= i <= |xs|
      invariant forall k :: 0 <= k < i ==> !p(xs[k])
      decreases |xs| - i
    {
      if p(xs[i]) {
        FirstIs(xs, p, i);
        return Some(i);
      }
      i := i + 1;
    }
    return None;
  }
}
