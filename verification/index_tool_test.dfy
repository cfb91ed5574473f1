/**
  The scenarios of the IndexTool unit test: a list of ten indices, the anchor
  at 5, and an acceptance predicate that is membership in a small set of
  integers. Each lemma fixes the outcome of one scenario. Dafny settles each
  scenario on its own; the body only names the general property behind it.
 */
module IndexToolTest {
  import opened IndexTool
  import opened IndexToolProperties

  const Size := 10
  const Requested := 5

  /** The acceptance predicate "is a member of `accepted`". */
  function ListOf(accepted: set<int>): int -> bool
  {
    i => i in accepted
  }

  /** The test's own `findClosest(accepted...)`: anchor 5 in a list of ten. */
  function FindIn(accepted: set<int>): (r: Option<int>)
    ensures r.Some? ==> r.value in accepted && 0 <= r.value < Size
    ensures r.None? <==> forall i :: i in accepted ==> !(0 <= i < Size)
  {
    Closest(Requested, Size, ListOf(accepted))
  }

  lemma NoMatch()
    ensures FindIn({}) == None
  {
    FailsIffNoCandidate(Requested, Size, ListOf({}));
  }

  lemma SimpleMatch()
    ensures FindIn({Requested}) == Some(Requested)
  {
    RequestedAcceptedWins(Requested, Size, ListOf({Requested}));
  }

  lemma OneBelow()
    ensures FindIn({4, 6}) == Some(4)
  {
    TieGoesLow(Requested, Size, ListOf({4, 6}), 1);
  }

  lemma OneAbove()
    ensures FindIn({3, 6}) == Some(6)
  {
    ClosestIff(Requested, Size, ListOf({3, 6}), 6);
  }

  lemma TwoBelow()
    ensures FindIn({3, 7}) == Some(3)
  {
    TieGoesLow(Requested, Size, ListOf({3, 7}), 2);
  }

  lemma TwoAbove()
    ensures FindIn({2, 7}) == Some(7)
  {
    ClosestIff(Requested, Size, ListOf({2, 7}), 7);
  }

  lemma First()
    ensures FindIn({0}) == Some(0)
  {
    SoleCandidateFound(Requested, Size, ListOf({0}), 0);
  }

  lemma Last()
    ensures FindIn({Size - 1}) == Some(Size - 1)
  {
    SoleCandidateFound(Requested, Size, ListOf({Size - 1}), Size - 1);
  }

  lemma BeforeFirst()
    ensures FindIn({-1}) == None
  {
    OnlyInRangeMatters(Requested, Size, ListOf({-1}), ListOf({}));
    NoMatch();
  }

  lemma AfterLast()
    ensures FindIn({Size}) == None
  {
    OnlyInRangeMatters(Requested, Size, ListOf({Size}), ListOf({}));
    NoMatch();
  }
}
