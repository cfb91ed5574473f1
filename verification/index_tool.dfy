/**
  The nearest-accepted-index search that the VocabHunter GUI uses to choose
  which word to display once the set of acceptable words has changed
  (IndexTool.findClosest).

  Given an anchor `requested`, a list size and an acceptance predicate, the
  search returns the accepted index in [0, size) nearest to the anchor; of two
  equally near indices the lower one wins. When no index in [0, size) is
  accepted the source throws; here that outcome is `None`.
 */
module IndexTool {

  datatype Option<T> = None | Some(value: T)

  /** Distance between two indices on the number line. */
  function Dist(a: int, b: int): nat
  {
    if a < b then b - a else a - b
  }

  predicate InRange(i: int, size: int)
  {
    0 <= i < size
  }

  /** An index the search may return: inside the list and accepted. */
  predicate Candidate(i: int, size: int, accept: int -> bool)
  {
    InRange(i, size) && accept(i)
  }

  ghost predicate AnyAccepted(size: int, accept: int -> bool)
  {
    exists i :: Candidate(i, size, accept)
  }

  /**
    The preference order of the search around `requested`: `i` is at least as
    good as `j` when it is nearer, or equally near and not higher.
   */
  predicate Precedes(i: int, j: int, requested: int)
  {
    Dist(i, requested) < Dist(j, requested)
    || (Dist(i, requested) == Dist(j, requested) && i <= j)
  }

  /** The declarative answer: a candidate that precedes every other candidate. */
  ghost predicate IsClosest(i: int, requested: int, size: int, accept: int -> bool)
  {
    && Candidate(i, size, accept)
    && forall j :: Candidate(j, size, accept) ==> Precedes(i, j, requested)
  }

  /** Every candidate lies at distance `d` or more from `requested`. */
  ghost predicate NoneWithin(requested: int, size: int, accept: int -> bool, d: int)
  {
    forall i :: Candidate(i, size, accept) ==> Dist(i, requested) >= d
  }

  /** Radius `d` still reaches into [0, size) on at least one side of `requested`. */
  predicate Open(requested: int, size: int, d: int)
  {
    requested - d >= 0 || requested + d < size
  }

  /** A bound on the radii for which `Open` holds. */
  function Reach(requested: int, size: int): (r: int)
    ensures forall d :: Open(requested, size, d) ==> d < r
  {
    if requested + 1 < size - requested then size - requested else requested + 1
  }

  /** The preference order is a total order, so the closest candidate is unique. */
  lemma ClosestUnique(i: int, j: int, requested: int, size: int, accept: int -> bool)
    requires IsClosest(i, requested, size, accept)
    requires IsClosest(j, requested, size, accept)
    ensures i == j
  {
    assert Precedes(i, j, requested);
    assert Precedes(j, i, requested);
  }

  /**
    The outward scan as a recursive function: probe `requested - d`, then
    `requested + d`, each only when it lies in [0, size), then widen the
    radius. `NoneWithin(.., d)` records that smaller radii found nothing.
   */
  function ScanFrom(requested: int, size: int, accept: int -> bool, d: nat): (r: Option<int>)
    requires NoneWithin(requested, size, accept, d)
    ensures r.Some? ==> IsClosest(r.value, requested, size, accept)
    ensures r.None? ==> !AnyAccepted(size, accept)
    decreases Reach(requested, size) - d
  {
    if !Open(requested, size, d) then None
    else if Candidate(requested - d, size, accept) then Some(requested - d)
    else if Candidate(requested + d, size, accept) then Some(requested + d)
    else ScanFrom(requested, size, accept, d + 1)
  }

  /** IndexTool.findClosest, as a function: `None` stands for the exception. */
  function Closest(requested: int, size: int, accept: int -> bool): (r: Option<int>)
    ensures r.Some? <==> AnyAccepted(size, accept)
    ensures r.Some? ==> IsClosest(r.value, requested, size, accept)
  {
    ScanFrom(requested, size, accept, 0)
  }

  /** IndexTool.findClosest as a loop over the radius. */
  method FindClosest(requested: int, size: int, accept: int -> bool) returns (r: Option<int>)
    ensures r.Some? <==> AnyAccepted(size, accept)
    ensures r.Some? ==> IsClosest(r.value, requested, size, accept)
    ensures r == Closest(requested, size, accept)
  {
    var d := 0;
    while Open(requested, size, d)
      invariant d >= 0
      invariant NoneWithin(requested, size, accept, d)
      decreases Reach(requested, size) - d
    {
      var lower := requested - d;
      if InRange(lower, size) && accept(lower) {
        r := Some(lower);
        assert Candidate(lower, size, accept);
        ClosestUnique(lower, Closest(requested, size, accept).value, requested, size, accept);
        return;
      }
      var upper := requested + d;
      if InRange(upper, size) && accept(upper) {
        r := Some(upper);
        assert Candidate(upper, size, accept);
        ClosestUnique(upper, Closest(requested, size, accept).value, requested, size, accept);
        return;
      }
      d := d + 1;
    }
    r := None;
  }
}
