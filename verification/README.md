# VocabHunter nearest-accepted-index search in Dafny

VocabHunter is a vocabulary trainer. It shows the words of a text one at a time, and the user marks each word as known or unknown. When the set of acceptable words changes, the GUI has to choose which word to show next. It does this with `IndexTool.findClosest(requested, size, accept)`. Given an anchor index `requested` in `[0, size)`, a list size and an acceptance predicate, it returns the accepted index in `[0, size)` nearest to the anchor. When two indices are equally near, the lower one wins. When no index in `[0, size)` is accepted, it throws a `VocabHunterException`.

The implementation of `IndexTool` is not part of this model. For anchors in `[0, size)`, its behaviour is pinned by its unit test, `IndexToolTest`, and this model follows that test. The test does not cover anchors outside `[0, size)`; for those, the model's behaviour is a chosen reading, described below. The model has three modules:

- `IndexTool` (`index_tool.dfy`) holds the declarative specification, `IsClosest`. A candidate is the closest one when it precedes every other candidate in the `Precedes` order: it is nearer, or equally near and not higher. The module also holds two implementations of the outward scan. `ScanFrom`/`Closest` is recursive. `FindClosest` is a loop, and it is proved equal to `Closest`. At each radius `d = 0, 1, 2, …`, the scan probes `requested - d` and then `requested + d`. It probes a candidate only when that candidate lies in `[0, size)`. Probing the lower side first is what sends ties to the lower index. The exception is modelled as `None`.
- `IndexToolProperties` (`index_tool_properties.dfy`) holds the properties that hold for all inputs and that the test checks by example.
- `IndexToolTest` (`index_tool_test.dfy`) holds each test scenario as a lemma: size 10, anchor 5, and acceptance defined as membership in a small set.

The acceptance predicate is a total Dafny function `int -> bool`. The test's `listOf(accepted)::contains` becomes `ListOf(accepted)`, which tests membership in a `set<int>`.

Each probe is checked against both bounds, 0 and `size`. The scan stops once neither `requested - d` nor `requested + d` can lie in `[0, size)`. With these choices, an anchor outside the list still finds any accepted index inside it. A bound of `d <= size` would give the same results for every anchor in `[0, size)`, including every case in the test.

## Model

| member | source | states |
|---|---|---|
| IndexTool.FindClosest | gui/src/test/java/io/github/vocabhunter/gui/common/IndexToolTest.java:86-94 | The loop form of findClosest. It succeeds exactly when some index in [0, size) is accepted. Any result is accepted, lies in [0, size), is nearest to the anchor, and is the lower index on a tie. The result equals the recursive Closest. |
| IndexTool.Closest | gui/src/test/java/io/github/vocabhunter/gui/common/IndexToolTest.java:36-94 | findClosest as a function. It returns Some exactly when some index in [0, size) is accepted, and then the value is the unique closest candidate. None models the exception. |
| IndexTool.ScanFrom | gui/src/test/java/io/github/vocabhunter/gui/common/IndexToolTest.java:46-64 | Suppose no candidate lies within radius d of the anchor. Then the scan from radius d returns the closest candidate, or None only when no index in [0, size) is accepted. |
| IndexToolTest.FindIn | gui/src/test/java/io/github/vocabhunter/gui/common/IndexToolTest.java:92-94 | The test's private helper findClosest(accepted...), with anchor 5 and size 10. Acceptance is membership in the set (ListOf, for listOf(accepted)::contains). A result is a member of the set inside [0, 10). The helper fails exactly when no member of the set lies in [0, 10). |
| IndexTool.ClosestUnique | gui/src/test/java/io/github/vocabhunter/gui/common/IndexToolTest.java:46-49 | At most one index is closest, because the nearest-then-lower preference is total. So the choice between equally near indices is deterministic. |
| IndexToolProperties.ClosestIff | gui/src/test/java/io/github/vocabhunter/gui/common/IndexToolTest.java:86-94 | The search returns i if and only if i is the declarative closest candidate. |
| IndexToolProperties.FailsIffNoCandidate | gui/src/test/java/io/github/vocabhunter/gui/common/IndexToolTest.java:36-39 | The search fails if and only if no index in [0, size) is accepted. |
| IndexToolProperties.RequestedAcceptedWins | gui/src/test/java/io/github/vocabhunter/gui/common/IndexToolTest.java:41-44 | When the anchor is in range and accepted, the search returns the anchor itself. |
| IndexToolProperties.SoleCandidateFound | gui/src/test/java/io/github/vocabhunter/gui/common/IndexToolTest.java:66-74 | A single accepted index in range is found, however far it is from the anchor. This covers the first and last index. |
| IndexToolProperties.NearerWins | gui/src/test/java/io/github/vocabhunter/gui/common/IndexToolTest.java:51-64 | When two accepted in-range indices lie at different distances, the farther one is never returned, whichever side it is on. |
| IndexToolProperties.TieGoesLow | gui/src/test/java/io/github/vocabhunter/gui/common/IndexToolTest.java:46-59 | When the nearest accepted indices lie at distance d on both sides of the anchor, the lower one, requested - d, is returned. |
| IndexToolProperties.OnlyInRangeMatters | gui/src/test/java/io/github/vocabhunter/gui/common/IndexToolTest.java:76-84 | Two predicates that agree on [0, size) give the same outcome. An accepted -1 or size is never returned, and cannot stop the search from failing. |
| IndexToolTest.NoMatch | gui/src/test/java/io/github/vocabhunter/gui/common/IndexToolTest.java:36-39 | With nothing accepted, the search fails. |
| IndexToolTest.SimpleMatch | gui/src/test/java/io/github/vocabhunter/gui/common/IndexToolTest.java:41-44 | With {5} accepted around 5, the result is 5. |
| IndexToolTest.OneBelow | gui/src/test/java/io/github/vocabhunter/gui/common/IndexToolTest.java:46-49 | With {4, 6} accepted, the result is 4: the tie goes low. |
| IndexToolTest.OneAbove | gui/src/test/java/io/github/vocabhunter/gui/common/IndexToolTest.java:51-54 | With {3, 6} accepted, the result is 6: the nearer index above wins. |
| IndexToolTest.TwoBelow | gui/src/test/java/io/github/vocabhunter/gui/common/IndexToolTest.java:56-59 | With {3, 7} accepted, the result is 3: the tie goes low. |
| IndexToolTest.TwoAbove | gui/src/test/java/io/github/vocabhunter/gui/common/IndexToolTest.java:61-64 | With {2, 7} accepted, the result is 7: the nearer index above wins. |
| IndexToolTest.First | gui/src/test/java/io/github/vocabhunter/gui/common/IndexToolTest.java:66-69 | With {0} accepted, the result is 0. |
| IndexToolTest.Last | gui/src/test/java/io/github/vocabhunter/gui/common/IndexToolTest.java:71-74 | With {9} accepted, the result is 9. |
| IndexToolTest.BeforeFirst | gui/src/test/java/io/github/vocabhunter/gui/common/IndexToolTest.java:76-79 | With only -1 accepted, the search fails. |
| IndexToolTest.AfterLast | gui/src/test/java/io/github/vocabhunter/gui/common/IndexToolTest.java:81-84 | With only 10 (the size) accepted, the search fails. |

## Left out

- Java `int` arithmetic: `requested - d` and `requested + d` are unbounded integers here. The model does not cover 32-bit wrap-around for anchors near `Integer.MIN_VALUE` or `Integer.MAX_VALUE`. The test only uses anchor 5 and size 10.
- Anchors outside `[0, size)`: the test does not cover them. The model checks both bounds on both probes and scans until `[0, size)` is covered. An implementation that stops once `d > size`, or checks only one bound per probe, agrees with the model for every anchor in `[0, size)` but may differ outside it.
- The exception type and its message: the failure is the value `None`.
- The lambda and functional-interface mechanics of the predicate: a Dafny `int -> bool` is used instead.
- The GUI integration tests (`GuiTest.java`, `GuiTestSteps.java`): they drive the JavaFX window through a test robot, wire dependencies and read session files. The classification, filter and search code they exercise is not part of this model.
