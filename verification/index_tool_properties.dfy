/**
  Properties of the nearest-accepted-index search that relate the recursive
  scan `Closest` to the declarative `IsClosest`, and the consequences the GUI
  relies on: the anchor wins when it is accepted, ties go to the lower index,
  a nearer index beats a farther one, and only indices inside [0, size) matter.
  `ClosestIff` and `RequestedAcceptedWins` follow from the contract of
  `Closest` alone; their bodies spell out the argument for the reader.
 */
module IndexToolProperties {
  import opened IndexTool

  /** The scan returns `i` exactly when `i` is the declarative closest candidate. */
  lemma ClosestIff(requested: int, size: int, accept: int -> bool, i: int)
    ensures Closest(requested, size, accept) == Some(i) <==> IsClosest(i, requested, size, accept)
  {
    if IsClosest(i, requested, size, accept) {
      assert Candidate(i, size, accept);
      ClosestUnique(i, Closest(requested, size, accept).value, requested, size, accept);
    }
  }

  /** The search fails exactly when no index in [0, size) is accepted. */
  lemma FailsIffNoCandidate(requested: int, size: int, accept: int -> bool)
    ensures Closest(requested, size, accept).None?
            <==> forall i :: 0 <= i < size ==> !accept(i)
  {
    if i :| 0 <= i < size && accept(i) {
      assert Candidate(i, size, accept);
    }
  }

  /** An accepted anchor inside the list is returned unchanged. */
  lemma RequestedAcceptedWins(requested: int, size: int, accept: int -> bool)
    requires 0 <= requested < size && accept(requested)
    ensures Closest(requested, size, accept) == Some(requested)
  {
    ClosestIff(requested, size, accept, requested);
  }

  /** A lone accepted index is found however far it lies from the anchor. */
  lemma SoleCandidateFound(requested: int, size: int, accept: int -> bool, k: int)
    requires 0 <= k < size && accept(k)
    requires forall j :: 0 <= j < size && accept(j) ==> j == k
    ensures Closest(requested, size, accept) == Some(k)
  {
    ClosestIff(requested, size, accept, k);
  }

  /** Of two candidates at different distances, the farther one is never returned. */
  lemma NearerWins(requested: int, size: int, accept: int -> bool, near: int, far: int)
    requires 0 <= near < size && accept(near)
    requires 0 <= far < size && accept(far)
    requires Dist(near, requested) < Dist(far, requested)
    ensures Closest(requested, size, accept) != Some(far)
  {
    var r := Closest(requested, size, accept);
    if r == Some(far) {
      assert Candidate(near, size, accept);
    }
  }

  /**
    When the nearest candidates sit at the same distance `d` on both sides of
    the anchor, the lower one is returned.
   */
  lemma TieGoesLow(requested: int, size: int, accept: int -> bool, d: nat)
    requires 0 <= requested - d && accept(requested - d)
    requires requested + d < size && accept(requested + d)
    requires forall i :: 0 <= i < size && accept(i) ==> Dist(i, requested) >= d
    ensures Closest(requested, size, accept) == Some(requested - d)
  {
    ClosestIff(requested, size, accept, requested - d);
  }

  /**
    What `accept` says outside [0, size) never affects the outcome: accepted
    values such as -1 or `size` are neither returned nor rescue a failing search.
   */
  lemma OnlyInRangeMatters(requested: int, size: int, accept: int -> bool, accept': int -> bool)
    requires forall i :: 0 <= i < size ==> accept(i) == accept'(i)
    ensures Closest(requested, size, accept) == Closest(requested, size, accept')
  {
    var r := Closest(requested, size, accept);
    if r.Some? {
      ClosestIff(requested, size, accept', r.value);
    } else {
      FailsIffNoCandidate(requested, size, accept);
      FailsIffNoCandidate(requested, size, accept');
    }
  }
}
