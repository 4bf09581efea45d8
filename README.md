# Braid monodromy and the Zariski–Van Kampen presentation

This project models the combinatorial core of Sage's Zariski–Van Kampen
implementation (`src/sage/schemes/curves/zariski_vankampen.py`), which computes
a presentation of the fundamental group of the complement of a plane curve.

Three stages are modelled:

- **`braid_from_piecewise`** turns a family of piecewise-linear strands into a
  braid word. Every strand is a list of samples `(t, c)`, with `t` running from
  0 to 1 and `c` a complex point. The strands are first resampled onto one
  common partition of `[0, 1]`: the `Piecewise` module. On each sub-interval
  the strands are put in lexicographic order of their start points. For every
  pair whose end points come out in the other order, a crossing `[t, k, j, s]`
  is recorded: the time `t` at which the real parts meet, and the sign `s` of
  the comparison of the imaginary parts there. This is the `Crossings` module.
  The crossings are then consumed in order of time. Crossings at the same time
  are taken by least gap under the running permutation. Each crossing emits
  the letter `s * min(P(k+1), P(j+1))`, and then the running permutation is
  multiplied by the transposition. This is the `Ordering` module. The words of
  the sub-intervals are concatenated: the `Words` and `Braid` modules.
- **`braid_in_segment`**, after continuation: the `Segment` module. Each
  approximate end point of a tracked strand is matched to its nearest exact
  root. Two end points that pick the same root are the error "different roots
  are too close". The braid of the segment is the braid of the two-point
  auxiliary strands at the start, then the central braid, then that of the
  auxiliary strands at the end.
- **The assembly in `fundamental_group`**: the `Presentation` module. The
  vertices are the distinct end points of the segments, and each vertex
  carries `d` generators. An optional projective relator is added. Each
  computed segment `i -> j` and each `k < d` contribute the relator
  `w1 / w2`. Here `w1` is the image of fibre generator `k + 1` under the
  segment's braid, moved to the generators of vertex `i`, and `w2` is
  generator `k + 1` of vertex `j`.

Complex points are pairs of exact reals (`Geometry.Point`), and Python's list
comparison is `Sorting.LexLt`. A braid or free-group word is a `seq<int>` in
Tietze form, where letter `n` is generator `n` and `-n` is its inverse.

Each loop of the source is a method. Its `ensures` ties its result to a
reference function, and the lemmas prove the properties about that function:

| method (the source's loop) | reference function |
|---|---|
| `Piecewise.Resample` | `Piecewise.Resampled` |
| `Braid.ExtractBraid` | `Words.Join` of `Braid.Intervals` |
| `Ordering.ConsumeCrossings` | `Ordering.Emit`, the greedy order `Ordering.Order` |
| `Segment.MatchRoots` | `Segment.Matched` |
| `Presentation.Assemble` | `Presentation.Assembled` |

The `Example` module works the documented example of `braid_from_piecewise`
through every stage: the common partition, the resampled table, the sorted
strands and crossings of each of the four sub-intervals, and the joined word
`s0*s1`. The example's decimal times and points are exact reals here.

Two points where the code differs from a plain reading of the algorithm's
description; the model follows the code:

- The crossing indices `k` and `j` are positions in the list sorted at line
  118, not original strand numbers.
- Root matching breaks ties between equally near roots by comparing the roots
  themselves (`sorted(distances)`). It raises an error only when the chosen
  root is already used, not whenever two roots are equally near.

## Model

| member | source | states |
|---|---|---|
| Geometry.LerpAtStart | src/sage/schemes/curves/zariski_vankampen.py:94 | the interpolation at the earlier breakpoint's time gives that breakpoint's point |
| Geometry.LerpAtEnd | src/sage/schemes/curves/zariski_vankampen.py:94 | the interpolation at the later breakpoint's time gives that breakpoint's point |
| Sorting.LexTrichotomy | src/sage/schemes/curves/zariski_vankampen.py:118 | Python's list comparison of real lists is total: equal, less or greater |
| Sorting.LexLtTransitive | src/sage/schemes/curves/zariski_vankampen.py:118 | list comparison is transitive |
| Sorting.SortBy | src/sage/schemes/curves/zariski_vankampen.py:118 | the sorted list is a permutation of its input (same multiset) and is ordered by the key |
| Sorting.SortedUnique | src/sage/schemes/curves/zariski_vankampen.py:129 | when no two elements share a key, there is exactly one sorted permutation, so the result of a sort is determined |
| Piecewise.Resample | src/sage/schemes/curves/zariski_vankampen.py:83-103 | the resampled points are each strand evaluated at every time of the common partition, which is the ascending union of all breakpoint times |
| Piecewise.Start | src/sage/schemes/curves/zariski_vankampen.py:84-86 | the initial points, indices and first time satisfy the resampling loop invariant |
| Piecewise.SampleAll | src/sage/schemes/curves/zariski_vankampen.py:87-100 | the `while i < 1` loop keeps the loop invariant `LoopInv` (the points so far are every strand evaluated at the visited times, the current time `i` is a breakpoint time bracketed by each strand's index, and every breakpoint passed and every breakpoint before `i` has been visited) and stops with `i >= 1` |
| Piecewise.Advance | src/sage/schemes/curves/zariski_vankampen.py:88-100 | one pass of the `while` loop keeps the invariant and records the current time; the next time is the least upcoming breakpoint time; fewer breakpoint times remain unvisited, so the loop ends |
| Piecewise.SampleAt | src/sage/schemes/curves/zariski_vankampen.py:88-99 | each strand gets its value at the current time appended, and its index moves on exactly when its current breakpoint is at that time |
| Piecewise.AppendLast | src/sage/schemes/curves/zariski_vankampen.py:102-103 | each strand gets its value at `t = 1` appended |
| Piecewise.MinOf | src/sage/schemes/curves/zariski_vankampen.py:100 | `min` returns a member of the list that is no larger than any member |
| Piecewise.EvalOnSegment | src/sage/schemes/curves/zariski_vankampen.py:89-95 | between two consecutive breakpoints the strand's value is the linear interpolation of line 94 |
| Piecewise.EvalAtBreakpoint | src/sage/schemes/curves/zariski_vankampen.py:96-98 | at a breakpoint the strand's value is the breakpoint's own point |
| Piecewise.EvalEnds | src/sage/schemes/curves/zariski_vankampen.py:85-103 | a strand's value at `t = 0` is its first point, and at `t = 1` its last point |
| Piecewise.Ascending | src/sage/schemes/curves/zariski_vankampen.py:84-100 | the partition times are strictly increasing and are exactly the breakpoint times |
| Piecewise.AscendingUnique | src/sage/schemes/curves/zariski_vankampen.py:84-100 | any strictly increasing list with the members of a set is that set's ascending listing, so the times the loop visits are determined |
| Piecewise.FinalTimes | src/sage/schemes/curves/zariski_vankampen.py:87-103 | when the loop stops, the visited times followed by `1` are exactly the partition times |
| Piecewise.Finish | src/sage/schemes/curves/zariski_vankampen.py:102-103 | after the last append the points are exactly the resampled strands |
| Piecewise.PartitionEnds | src/sage/schemes/curves/zariski_vankampen.py:84-103 | the partition has at least two times, starts at `0` and ends at `1` |
| Piecewise.ResampledEnds | src/sage/schemes/curves/zariski_vankampen.py:84-103 | every resampled strand has one point per partition time and starts and ends where the original strand does |
| Crossings.SortedMoves | src/sage/schemes/curves/zariski_vankampen.py:117-120 | the moves `[l1[s], l2[s]]` after `M.sort()` are a permutation of the strands' moves, ordered by start point and then end point |
| Crossings.Sgn | src/sage/schemes/curves/zariski_vankampen.py:108-113 | `sgn(x, y)` is `1` exactly when `x < y`, `-1` exactly when `x > y`, and `0` exactly when they are equal |
| Crossings.FindCrossings | src/sage/schemes/curves/zariski_vankampen.py:121-127 | fails exactly when some inverted pair has an undefined crossing time; otherwise returns the crossings in the order the double loop visits the pairs |
| Crossings.RecordedAreCrossings | src/sage/schemes/curves/zariski_vankampen.py:122-127 | the recorded crossings are exactly the crossings of the pairs `k < j` whose end points are out of order |
| Crossings.CrossingCount | src/sage/schemes/curves/zariski_vankampen.py:122-127 | exactly one crossing is recorded per inverted pair |
| Crossings.CrossingMeaning | src/sage/schemes/curves/zariski_vankampen.py:124-126 | the crossing time lies in `[0, 1]`, strictly inside when the real parts strictly swap; the two strands' real parts coincide at that time; the sign tells which imaginary part is smaller there |
| Crossings.UndefinedMeansEqualRealParts | src/sage/schemes/curves/zariski_vankampen.py:125 | the denominator of the crossing time vanishes only when the two strands have equal real parts at both ends of the sub-interval |
| Ordering.Identity | src/sage/schemes/curves/zariski_vankampen.py:130 | the initial permutation is a permutation mapping every `x` to itself |
| Ordering.SwapIsPerm | src/sage/schemes/curves/zariski_vankampen.py:141 | multiplying by the transposition of `k + 1` and `j + 1` swaps those two entries of the permutation, keeps every other entry and yields a permutation |
| Ordering.LetterBound | src/sage/schemes/curves/zariski_vankampen.py:140 | each letter lies in `-(n-1) .. n-1`, is `0` exactly when the sign is `0`, and is `±min(P(k+1), P(j+1))` with the crossing's sign |
| Ordering.FullKeyInjective | src/sage/schemes/curves/zariski_vankampen.py:134-138 | different crossings have different sort keys `(t, gap, k, j, s)`, so the tie-break sort is never ambiguous |
| Ordering.SortedTimes | src/sage/schemes/curves/zariski_vankampen.py:129 | after `cruces.sort()` the crossing times do not decrease |
| Ordering.OrderMembers | src/sage/schemes/curves/zariski_vankampen.py:131-143 | every crossing is consumed exactly once: the consumption order has the same length and the same members as the crossings |
| Ordering.OrderTimes | src/sage/schemes/curves/zariski_vankampen.py:129-136 | crossings are consumed in non-decreasing order of time |
| Ordering.FirstIsEarliest | src/sage/schemes/curves/zariski_vankampen.py:133 | the first consumed crossing has the least time |
| Ordering.OrderFirstIsLeast | src/sage/schemes/curves/zariski_vankampen.py:137-139 | the first consumed crossing is least by time, then by current gap `P(j+1) - P(k+1)`, then by `k`, `j`, `s` |
| Ordering.OrderPermutationInvariant | src/sage/schemes/curves/zariski_vankampen.py:129-143 | the consumption order depends only on the multiset of crossings, not on how they were listed |
| Ordering.ConsumedPermutation | src/sage/schemes/curves/zariski_vankampen.py:129-143 | the emitted letters depend only on the multiset of crossings, so re-extracting the same strands gives the same word |
| Ordering.WordLetters | src/sage/schemes/curves/zariski_vankampen.py:140 | one letter per crossing, each within `-(n-1) .. n-1` and zero exactly when the crossing's sign is zero |
| Ordering.TagRoundTrip | src/sage/schemes/curves/zariski_vankampen.py:134-135 | tagging the crossings of one time with their gaps and stamping the time back gives the same crossings |
| Ordering.RetagKeeps | src/sage/schemes/curves/zariski_vankampen.py:142-143 | recomputing the gaps under the new permutation changes no crossing and makes every gap current |
| Ordering.SameTimePrefix | src/sage/schemes/curves/zariski_vankampen.py:133-136 | the crossings at the earliest time form a non-empty prefix of the sorted list, and every later one has a strictly later time |
| Ordering.TieStep | src/sage/schemes/curves/zariski_vankampen.py:137-143 | taking the least tied crossing first and consuming the rest under the swapped permutation is the greedy order |
| Ordering.ConsumedStep | src/sage/schemes/curves/zariski_vankampen.py:137-143 | one pass of the inner loop emits `s * min(P(k+1), P(j+1))` and leaves the letters of the re-tagged remainder under the new permutation |
| Ordering.PopTied | src/sage/schemes/curves/zariski_vankampen.py:138-143 | the popped letter followed by the letters of what remains equals the letters before the pop; the running `P`, a permutation before, is one after |
| Ordering.ConsumeTied | src/sage/schemes/curves/zariski_vankampen.py:137-143 | the inner `while crossesl` loop emits exactly the letters of the tied crossings; started from a permutation, it leaves a permutation `P` of the same size for the later ones |
| Ordering.ConsumeCrossings | src/sage/schemes/curves/zariski_vankampen.py:128-143 | the letters emitted for one sub-interval are those of the greedy order, starting from the identity; the running `P` stays a permutation (loop invariant) |
| Words.JoinOk | src/sage/schemes/curves/zariski_vankampen.py:114-143 | the braid word exists exactly when every sub-interval has its letters |
| Words.JoinFirstFailure | src/sage/schemes/curves/zariski_vankampen.py:114-143 | the failure is the failure of the first sub-interval that fails |
| Words.JoinLength | src/sage/schemes/curves/zariski_vankampen.py:114-143 | the word's length is the sum of the sub-intervals' lengths |
| Braid.SubIntervalLetters | src/sage/schemes/curves/zariski_vankampen.py:114-143 | building the columns `l1` and `l2` of samples `i` and `i + 1` and computing their letters gives `rs[i]`, the word of sub-interval `i` |
| Braid.IntervalLetters | src/sage/schemes/curves/zariski_vankampen.py:115-143 | the letters of one sub-interval: sort the moves, find the crossings, consume them, or fail on an undefined crossing time |
| Braid.ExtractBraid | src/sage/schemes/curves/zariski_vankampen.py:105-143 | the braid word is the concatenation of the words of the sub-intervals in order, or the first failure |
| Braid.BraidFromPiecewise | src/sage/schemes/curves/zariski_vankampen.py:61-146 | the result is the braid word of the resampled strands, and the resampled strands are rectangular |
| Braid.IntervalLength | src/sage/schemes/curves/zariski_vankampen.py:121-143 | a sub-interval contributes exactly one letter per pair of strands whose order is inverted |
| Braid.BraidLength | src/sage/schemes/curves/zariski_vankampen.py:114-143 | the braid word has exactly as many letters as there are inverted pairs, summed over the sub-intervals |
| Segment.DistanceKeyOrder | src/sage/schemes/curves/zariski_vankampen.py:357-358 | comparing pairs `(norm, root)` compares the distances first, and the roots only when the distances are equal |
| Segment.ClosestIsNearest | src/sage/schemes/curves/zariski_vankampen.py:357-358 | the chosen root is at least as near as every root, and it is the least of the equally near ones |
| Segment.NearestIsClosest | src/sage/schemes/curves/zariski_vankampen.py:357-358 | `sorted(distances)[0][1]` is the root found by one pass over the roots |
| Segment.ChooseRoot | src/sage/schemes/curves/zariski_vankampen.py:357-358 | the root chosen for an approximation is the closest one |
| Segment.MatchRoots | src/sage/schemes/curves/zariski_vankampen.py:355-362 | the matching loop returns the auxiliary strands, fails when there are no roots, and fails with "roots too close" when a chosen root was already used |
| Segment.MatchedStrands | src/sage/schemes/curves/zariski_vankampen.py:362 | there is one auxiliary strand per approximation, a two-point strand from its closest root to the approximation, or back at the end of the segment |
| Segment.MatchedInjective | src/sage/schemes/curves/zariski_vankampen.py:359-361 | a successful matching gives different approximations different roots |
| Segment.MatchedFails | src/sage/schemes/curves/zariski_vankampen.py:357-360 | the matching fails for lack of roots exactly when there are none, and as "roots too close" exactly when two approximations share their closest root |
| Segment.MatchedWellFormed | src/sage/schemes/curves/zariski_vankampen.py:362-363 | the auxiliary strands are a family `braid_from_piecewise` accepts |
| Segment.BraidInSegment | src/sage/schemes/curves/zariski_vankampen.py:352-377 | the segment's word is the initial braid, then the central braid, then the final braid, or the first failure in the source's order of evaluation |
| Presentation.EndpointsMembers | src/sage/schemes/curves/zariski_vankampen.py:450 | `flatten(segs)` contains both ends of every segment and nothing else |
| Presentation.DedupMembers | src/sage/schemes/curves/zariski_vankampen.py:450 | `list(set(...))` has no repetition and exactly the members of its input |
| Presentation.VerticesOf | src/sage/schemes/curves/zariski_vankampen.py:450 | the vertices are distinct, include both ends of every segment, and each is the end of some segment |
| Presentation.IndexOf | src/sage/schemes/curves/zariski_vankampen.py:460-461 | `vertices.index(v)` is the first position holding `v` |
| Presentation.ReindexRange | src/sage/schemes/curves/zariski_vankampen.py:465 | moving a fibre word to vertex `i` keeps each letter's sign and lands it among generators `d*i+1 .. d*i+d` |
| Presentation.ReindexRoundTrip | src/sage/schemes/curves/zariski_vankampen.py:465 | moving a fibre word to vertex `i` loses nothing: moving it back gives the original word |
| Presentation.BlockAt | src/sage/schemes/curves/zariski_vankampen.py:462-467 | the relator for generator `m + 1` of a segment `i -> j` is the braid's image of that generator, moved to vertex `i`, over generator `d*j + m + 1` |
| Presentation.AppendSegment | src/sage/schemes/curves/zariski_vankampen.py:462-467 | the inner loop appends the segment's `d` relators, in order of `k` |
| Presentation.Assemble | src/sage/schemes/curves/zariski_vankampen.py:450-467 | the assembly loops build the presentation of the reference definition: `d` generators per vertex, the projective relator, then the relators of each computed segment in order |
| Presentation.RelatorCount | src/sage/schemes/curves/zariski_vankampen.py:453-467 | after `n` segments there are `d * n` relators, plus the projective one when asked for |
| Presentation.RelatorAt | src/sage/schemes/curves/zariski_vankampen.py:457-467 | relator number `d*s + k` (after the projective one) is the relator of segment `s` and fibre generator `k + 1` |
| Presentation.RelatorsPrefix | src/sage/schemes/curves/zariski_vankampen.py:457-467 | later segments only append: earlier relators are unchanged |
| Presentation.SegmentLetters | src/sage/schemes/curves/zariski_vankampen.py:462-467 | when the braid maps fibre generators to fibre words, every relator of the segment is a word in the `d * |vertices|` generators |
| Presentation.RelatorsLetters | src/sage/schemes/curves/zariski_vankampen.py:453-467 | every relator, the projective one included, uses only generators of `F` |
| Presentation.AssembledFails | src/sage/schemes/curves/zariski_vankampen.py:452-455 | the assembly fails exactly when the projective relator needs a generator of an empty free group (projective, `d > 0`, no segments) |
| Presentation.AssembledShape | src/sage/schemes/curves/zariski_vankampen.py:450-467 | `F` has `d * |vertices|` generators; there are `d` relators per computed segment plus the projective one; every relator is a word in the generators of `F` |
| Example.ExampleTimes | src/sage/schemes/curves/zariski_vankampen.py:84-100 | the common partition of the three example strands is `0, 0.2, 0.5, 0.8, 1` |
| Example.ExampleResampled | src/sage/schemes/curves/zariski_vankampen.py:83-103 | resampling the example strands gives the interpolated table of fifteen points, for instance `-1 - 0.25i` for the first strand at `t = 0.5` |
| Example.SortsTo | src/sage/schemes/curves/zariski_vankampen.py:117-118 | a rearrangement of the moves that is sorted by start and then end point is what `M.sort()` returns |
| Example.NoCrossing | src/sage/schemes/curves/zariski_vankampen.py:114-128 | when no pair of sorted strands ends in the other order, the sub-interval's word is empty |
| Example.RecordedOne | src/sage/schemes/curves/zariski_vankampen.py:121-127 | when exactly one pair `(k, j)` is inverted, the double loop records exactly the crossing of that pair |
| Example.EmitOne | src/sage/schemes/curves/zariski_vankampen.py:128-143 | a single crossing consumed from the identity permutation emits `s * min(k + 1, j + 1)` |
| Example.OneCrossing | src/sage/schemes/curves/zariski_vankampen.py:114-143 | a sub-interval with one inverted pair, whose crossing time is defined, has the one letter of that crossing as its word |
| Example.Interval0 | src/sage/schemes/curves/zariski_vankampen.py:114-143 | from `t = 0` to `0.2` the first two sorted strands cross once, at 5/7 of the sub-interval, giving `s0` |
| Example.Interval1 | src/sage/schemes/curves/zariski_vankampen.py:114-128 | from `t = 0.2` to `0.5` no pair crosses and the word is empty |
| Example.Interval2 | src/sage/schemes/curves/zariski_vankampen.py:114-143 | from `t = 0.5` to `0.8` the last two sorted strands cross once, at 5/6 of the sub-interval, giving `s1` |
| Example.Interval3 | src/sage/schemes/curves/zariski_vankampen.py:114-128 | from `t = 0.8` to `1` the start order changes but no end order is inverted, and the word is empty |
| Example.ExampleIntervals | src/sage/schemes/curves/zariski_vankampen.py:114-143 | the words of the four sub-intervals are `s0`, the empty word, `s1` and the empty word |
| Example.ExampleJoin | src/sage/schemes/curves/zariski_vankampen.py:105-146 | those words, concatenated, are `s0*s1` |
| Example.DocumentedExample | src/sage/schemes/curves/zariski_vankampen.py:77-81 | the braid word of the documented strands is `s0*s1` |
| Example.ExampleBraid | src/sage/schemes/curves/zariski_vankampen.py:77-81 | `braid_from_piecewise` on the documented strands returns `s0*s1` |

## Left out

- Floating point: `CC = ComplexField(64)` and the machine reals are modelled as exact reals, so rounding is not modelled.
- Braid.BraidFromPiecewise: an empty list of strands is excluded by the precondition (`AllWellFormed` asks for at least one strand); the `ValueError` that `min` over an empty generator raises at line 84 is not modelled. The same holds for `Piecewise.Resample`.
- Crossings.FindCrossings: when both strands of an inverted pair have equal real parts at both ends of a sub-interval, the source computes `0/0`, a NaN time, and every comparison with it is false. What happens next depends on where `cruces.sort()` leaves the NaN entry. When it is first, the filter at line 133 keeps nothing, line 136 removes nothing, and `while cruces` does not terminate. When it is not first, it can be sliced off with the tied entries at line 136 while another entry is consumed twice, and the sub-interval's word is wrong. For example, four strands starting at `0, i, 2i, 3i` and ending at `i, -1, 1, 0` record `(0,1)` at time 0, `(0,3)` at NaN and `(2,3)` at time 0, and the source emits the word `[1, 3, 3]`. The model returns the failure `UndefinedCrossingTime` in both cases; it does not model the non-termination or the wrong word.
- Ordering.WordLetters: a crossing whose imaginary parts are equal at its crossing time has sign 0 and gives the letter 0 (`Ordering.LetterBound` states when). No braid generator has index 0. The model keeps the 0 in the word; what `B(braid)` at line 146 does with it (the Sage braid group) is not modelled.
- Continuation (`followstrand`), exact root finding (`F0.roots`, `F1.roots`), the computation of the discriminant (`discrim`) and of the segments (`segments`) are not modelled. Their results are inputs to the model.
- The change of coordinates loop before the assembly (line 445-447) is not modelled, and neither is `simplified()`.
- The braid and free group objects are left out. Braids and free-group words are their Tietze words; a relator `w1 / w2` is the pair `(w1, w2)`; free reduction is not modelled.
- Presentation.Assemble: the action `Faux([k + 1]) * b.inverse()` of a braid on a fibre generator is the parameter `act`. The model does not compute it. `ActsOnFibre` is the assumption that it yields words in the `d` fibre generators.
- Presentation.Dedup: Python's `set` order is not modelled. The model keeps the first occurrence of every end point; the membership and distinctness the source relies on are proved.
- The `@parallel` evaluation of `braid_in_segment` over all segments is left out, as is the order in which parallel results arrive. The model takes the computed segments as a list.
- Printing and `unicode_art` are left out.
