/**
 * The scan that `String.prototype.match` performs for a pattern without the
 * `g` flag: the pattern is tried at each position from the left, and the
 * first position where it matches gives the match.
 */
module Matching {
  import opened Wrappers

  /** The first position at or after `i`, and at most `n`, where `matchAt`
      reports a match. */
  function Search<T>(matchAt: nat -> Option<T>, n: nat, i: nat): (r: Option<nat>)
    requires i <= n
    ensures r.Some? ==> i <= r.value <= n && matchAt(r.value).Some?
    ensures r.Some? ==> forall j :: i <= j < r.value ==> matchAt(j).None?
    ensures r.None? ==> forall j :: i <= j <= n ==> matchAt(j).None?
    decreases n - i
  {
    if matchAt(i).Some? then Some(i)
    else if i == n then None
    else Search(matchAt, n, i + 1)
  }
}
