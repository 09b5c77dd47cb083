/**
 * `pandas.cut` on finite scores: the bins are right-closed intervals between
 * consecutive edges, the last one open to +infinity (the `np.inf` edge), and
 * with `include_lowest=True` the first bin also holds its left edge.
 */
module Binning {
  import opened Wrappers

  /** Finite bin edges in strictly increasing order. */
  predicate Increasing(edges: seq<real>)
  {
    forall i, j :: 0 <= i < j < |edges| ==> edges[i] < edges[j]
  }

  /** Bin `i` is (edges[i], edges[i + 1]], or (edges[i], +inf) for the last edge. */
  predicate InBin(edges: seq<real>, i: nat, x: real, includeLowest: bool)
    requires i < |edges|
  {
    (edges[i] < x || (includeLowest && i == 0 && x == edges[0]))
    && (i + 1 < |edges| ==> x <= edges[i + 1])
  }

  /** How many edges lie strictly below `x`: with increasing edges, a prefix of them. */
  function CountBelow(edges: seq<real>, x: real): (n: nat)
    requires Increasing(edges)
    ensures n <= |edges|
    ensures forall i :: 0 <= i < n ==> edges[i] < x
    ensures forall i :: n <= i < |edges| ==> x <= edges[i]
  {
    if edges == [] || x <= edges[0] then 0
    else
      var m := CountBelow(edges[1..], x);
      assert forall i :: 1 <= i < |edges| ==> edges[i] == edges[1..][i - 1];
      1 + m
  }

  /** The index of the bin holding `x`; missing when `x` is missing or lies in no bin. */
  function Cut(edges: seq<real>, x: Option<real>, includeLowest: bool): (r: Option<nat>)
    requires Increasing(edges)
    ensures r.Some? ==> x.Some? && r.value < |edges| && InBin(edges, r.value, x.value, includeLowest)
    ensures x.Some? && r.None? ==> forall i :: 0 <= i < |edges| ==> !InBin(edges, i, x.value, includeLowest)
  {
    match x
    case None => None
    case Some(v) =>
      var n := CountBelow(edges, v);
      if n > 0 then Some(n - 1)
      else if includeLowest && |edges| > 0 && v == edges[0] then Some(0)
      else None
  }

  /** The bins do not overlap, so a score is in at most one of them. */
  lemma BinsDisjoint(edges: seq<real>, x: real, includeLowest: bool, i: nat, j: nat)
    requires Increasing(edges) && i < |edges| && j < |edges|
    requires InBin(edges, i, x, includeLowest) && InBin(edges, j, x, includeLowest)
    ensures i == j
  {
  }
}
