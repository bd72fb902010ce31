/** Sets of consecutive natural numbers. */
module Intervals {

  /** The natural numbers from `lo` up to but not including `hi`. */
  function Interval(lo: nat, hi: nat): (r: set<nat>)
    ensures forall p: nat :: p in r <==> lo <= p < hi
    ensures |r| == if lo <= hi then hi - lo else 0
    decreases hi - lo
  {
    if lo >= hi then {} else Interval(lo, hi - 1) + {hi - 1}
  }
}
