/** Space-time diagrams: two-dimensional arrays with space on axis 0 and time on axis 1. */
module Diagrams {

  /** The lattice configuration at time t (the slice d[:, t]). */
  function Column(d: array2<int>, t: nat): (c: seq<int>)
    requires t < d.Length1
    reads d
    ensures |c| == d.Length0
    ensures forall i :: 0 <= i < |c| ==> c[i] == d[i, t]
  {
    seq(d.Length0, i requires 0 <= i < d.Length0 reads d => d[i, t])
  }

  /** All time columns of d, in time order. */
  function Columns(d: array2<int>): (cols: seq<seq<int>>)
    reads d
    ensures |cols| == d.Length1
    ensures forall t :: 0 <= t < |cols| ==> cols[t] == Column(d, t)
  {
    seq(d.Length1, t requires 0 <= t < d.Length1 reads d => Column(d, t))
  }

  /** Every cell is 0 or 1. */
  predicate IsBinary(x: seq<int>)
  {
    forall i :: 0 <= i < |x| ==> x[i] == 0 || x[i] == 1
  }
}
