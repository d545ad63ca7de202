# Perimeter product of a planar segment graph — a Dafny model

`perimeterProduct.py` takes a list of line segments. It splits every pair of
properly crossing segments at their intersection point until none cross (the
arrangement). It then indexes the arrangement as an adjacency dictionary and
traces every minimal enclosed face by always taking the sharpest right turn.
A memo of directed segments keeps any face from being traced twice. The
result is the product of the faces' perimeters.

This project models that pipeline over exact reals:

- `Point = (real, real)` and `Segment = (Point, Point)`, compared as tuples,
  so `(a, b)` and `(b, a)` are different values, as in the source.
- `geometry.dfy` (module `Geometry`) holds the orientation test, the
  proper-crossing test and the intersection point of two lines.
- `arrangement.dfy` (module `Arrangement`) holds `splitIntersections`: the
  first-crossing search, the two `list.remove` calls and the conditional
  appends.
- `adjacency.dfy` (module `Adjacency`) holds `generateAdjacencyMatrix`, as a
  map from points to neighbour lists.
- `face_tracer.dfy` (module `FaceTracer`) holds `rightmostPath`,
  `pointInPath` and the seed loop of `findAllShapes`, including the walk and
  the memo.
- `aggregator.dfy` (module `Aggregator`) holds `getPerimeter` and
  `getPerimeterProduct`.

Floating-point computations the code depends on are parameters of the
methods that use them:

- `round` is the rounding of the intersection point (line 92).
- `turn(previous, current, next)` is the normalised `atan2` turn angle
  (lines 163-166).
- `anglesClose(sum, n)` is the rounded comparison of an angle sum with
  (n - 2)·π (line 247).
- `length` is the Euclidean segment length (line 35).

Every property below holds whatever these functions are.

Three behaviours of the code are worth noting:

- After a failed closure check at the start point, the code goes on walking
  (`continue`, line 248). It does not abandon the seed. `TraceFrom` does the
  same, and it is still proved to terminate.
- When `rightmostPath` finds no way on, it returns `None`. The walk appends
  `(previous, None)` at line 233 and calls `rightmostPath` again at line 222.
  That call looks up `matrix[None]` at line 159, which raises `KeyError`. The
  model reports this as the `Dangling` trace and the `MissingKey` failure.
- After a split, only `segments[i:]` is split again (line 131), where i is
  the index of the first segment of the crossing pair. `Arranged` keeps the
  first i segments in the same way.

## Model

| member | source | states |
|---|---|---|
| Geometry.Orientation | perimeterProduct.py:46-50 | the code is in {0,1,2}; 0 exactly when the cross value is 0, 1 exactly when it is positive, 2 exactly when it is negative |
| Geometry.OrientationReversed | perimeterProduct.py:43-50 | traversing the three points in reverse order swaps 1 and 2 and keeps 0 |
| Geometry.OrientationRotated | perimeterProduct.py:43-50 | starting the same triple at another point keeps the orientation |
| Geometry.OrientationBaseSwapped | perimeterProduct.py:43-50 | exchanging the first two points swaps clockwise and counterclockwise |
| Geometry.Intersects | perimeterProduct.py:55-68 | false whenever the segments share an endpoint; true only for two non-degenerate segments; true exactly when each straddles the other's line without both ends on it |
| Geometry.IntersectsSymmetric | perimeterProduct.py:55-68 | the crossing test gives the same answer with its arguments exchanged |
| Geometry.IntersectsIrreflexive | perimeterProduct.py:57-61 | a segment never crosses itself or its own reversal |
| Geometry.IntersectsReversal | perimeterProduct.py:55-68 | reversing either segment does not change the answer |
| Geometry.OnLineIsCollinear | perimeterProduct.py:76-84 | a point satisfies a1·x + b1·y = c1 of a segment exactly when it is collinear with the segment's endpoints (orientation 0) |
| Geometry.IntersectionPoint | perimeterProduct.py:74-89 | with a nonzero determinant the unrounded (x, y) satisfies both line equations, so it is collinear with both segments |
| Geometry.IntersectionPointUnique | perimeterProduct.py:86-89 | with a nonzero determinant no other point lies on both lines |
| Geometry.IntersectsNotParallel | perimeterProduct.py:71-89 | two segments that pass the crossing test always have a nonzero determinant, so the division is safe |
| Geometry.IntersectionOnBothSegments | perimeterProduct.py:53-89 | the intersection point of two crossing segments lies on both closed segments, not just on their lines |
| Geometry.IntersectsComplete | perimeterProduct.py:55-68 | the converse: two non-parallel segments without a shared endpoint that have a common point on both closed segments pass the crossing test, so with IntersectionOnBothSegments the test holds exactly when they are not parallel and meet at a point that is not a shared endpoint |
| Arrangement.RemoveFirst | perimeterProduct.py:115-116 | `list.remove` of a value in the list drops exactly one element; the value is required to be present, since the source raises `ValueError` otherwise, and both calls of a split step remove values that are present |
| Arrangement.RemoveFirstAt | perimeterProduct.py:115-116 | removing a value whose first occurrence is at index k cuts out exactly index k |
| Arrangement.FirstPartner | perimeterProduct.py:103-110 | the inner loop's answer: the first index from b on whose segment crosses segment a, with no crossing partner before it, or the list length when there is none |
| Arrangement.FirstCrossing | perimeterProduct.py:99-110 | the double loop's answer: None only when no two segments cross; otherwise the first crossing pair, with no crossing at an earlier first index or an earlier partner |
| Arrangement.FirstCrossingUnique | perimeterProduct.py:99-110 | there is only one first crossing pair |
| Arrangement.FirstCrossingOrder | perimeterProduct.py:99-110 | at the first crossing pair (i, j) the double loop stops at, i < j, and both segments are the first occurrences of their values |
| Arrangement.RemoveTwo | perimeterProduct.py:114-116 | the two removals of first occurrences at i < j cut out exactly those two indices, in turn |
| Arrangement.FirstCrossingRemoval | perimeterProduct.py:114-116 | at the first crossing pair, the two `remove` calls delete positions i and j and keep every other segment in order |
| Arrangement.ReplacementCount | perimeterProduct.py:94-96 | two crossing segments give at least three and at most four pieces, wherever the rounded split point lands |
| Arrangement.ReplacementShape | perimeterProduct.py:118-127 | every appended piece runs from an original endpoint to the split point and has nonzero length |
| Arrangement.SplitPair | perimeterProduct.py:112-127 | the new list is the list after both removals, followed by the pieces from s1[0], s1[1], s2[0], s2[1] whose endpoint differs from the split point, in that order |
| Arrangement.PartnerOf | perimeterProduct.py:101-110 | the inner loop stops at the first segment that differs from segment i and intersects it, or runs off the end when there is none |
| Arrangement.SplitStep | perimeterProduct.py:97-127 | with no crossing pair, the list is crossing-free and comes back unchanged; otherwise (i, j) is the first crossing pair, and the result is the list without positions i and j plus the pieces, other segments keeping their order |
| Arrangement.SplitFirstCrossing | perimeterProduct.py:97-131 | no crossing pair: the list is crossing-free and is kept whole; otherwise the list after the split, cut at i into the kept `segments[:i]` and the `segments[i:]` that is split again |
| Arrangement.SplitIntersections | perimeterProduct.py:97-134 | the recursion computes Arranged: None once the fuel is spent, the list itself when nothing crosses, otherwise the kept prefix followed by the arrangement of the remainder |
| Arrangement.ArrangedSettled | perimeterProduct.py:133-134 | no result without fuel; with fuel, a crossing-free list comes back unchanged |
| Arrangement.SplitOnceGrows | perimeterProduct.py:114-131 | one split leaves a kept prefix and a remainder that together hold more segments than the input |
| Arrangement.ArrangedLength | perimeterProduct.py:114-131 | the arranged list is never shorter than the input, and strictly longer when anything crossed |
| Arrangement.ArrangedPrefix | perimeterProduct.py:129-131 | every prefix of segments that cross nothing is kept unchanged at the front of the arranged list |
| Adjacency.Append | perimeterProduct.py:146-147 | `setdefault(key, []).append(value)` adds the key, extends its list by one value and leaves every other key's list unchanged |
| Adjacency.GenerateAdjacencyMatrix | perimeterProduct.py:141-149 | the keys are exactly the segment endpoints, and each key's list is what appending both directions of every segment in order builds |
| Adjacency.NeighboursExact | perimeterProduct.py:145-147 | q is listed for p exactly when (p, q) or (q, p) is a segment |
| Adjacency.AdjacencyEdges | perimeterProduct.py:141-149 | for every segment (a, b), b is in matrix[a] and a is in matrix[b]; no other pairs are listed; every listed point is a key |
| Adjacency.AdjacencyTotal | perimeterProduct.py:145-147 | summed over all keys, the neighbour lists have total length 2·len(segments) |
| FaceTracer.RightmostChoice | perimeterProduct.py:154-173 | None with angle 0 exactly when every neighbour is the previous point; otherwise a neighbour other than the previous point, with its turn angle; positive angles give the first minimum, earlier candidates strictly larger; nonnegative angles mean later candidates are positive and no smaller |
| FaceTracer.RightmostPath | perimeterProduct.py:154-173 | the loop over the neighbours of the current point returns the choice whose properties RightmostChoice states |
| FaceTracer.PointInPath | perimeterProduct.py:177-179 | true exactly when the point is an endpoint of some segment of the path |
| FaceTracer.StepKeepsWalk | perimeterProduct.py:221-233 | a step to a neighbour other than the previous point, new or the target, keeps the path a non-backtracking walk; a new point leaves fewer points unvisited |
| FaceTracer.TraceFrom | perimeterProduct.py:210-259 | the walk from one seed terminates and returns the outcome of the walk function: stuck with no step, given up at a visited point other than the start, or accepted at the start when the closure test passes, going on after a failed one |
| FaceTracer.WalkOnce | perimeterProduct.py:221-248 | one pass of the walk loop either stops with the walk function's outcome, or extends the path one rightmost step with the same outcome ahead, keeping the walk's invariants and leaving fewer unvisited points or, with the same points visited, moving closer to standing at the start (the termination measure decreases) |
| FaceTracer.ClosureTest | perimeterProduct.py:241-248 | true exactly when the next rightmost step is the seed's second point and the angle check passes on the angle sum with the closing angle |
| FaceTracer.TraceOutcome | perimeterProduct.py:210-259 | an accepted path has at least three rightmost steps, starts with the seed, ends at its start, follows edges of the index, never turns straight back, revisits no point but the start and passes the closure test there after failing it at every earlier return; a path given up on ends where the next rightmost step reaches a visited point other than the start; a stuck path has no next step |
| FaceTracer.Attempt | perimeterProduct.py:206-259 | a seed already in the memo changes nothing; otherwise a found face is appended and nothing else; a stuck walk fails and leaves the shapes and the memo as they were; after every successful attempt the memo is the set of directed segments of the faces found |
| FaceTracer.FaceCycle | perimeterProduct.py:221-247 | an accepted face is a cycle of rightmost steps: each segment is the rightmost step out of the one before, and the closing step leads back to the seed |
| FaceTracer.FaceClosed | perimeterProduct.py:221-247 | the rightmost step out of any segment of a face is again a segment of that face |
| FaceTracer.FacesDisjoint | perimeterProduct.py:193-208 | faces each seeded outside every earlier face share no directed segment, so each directed segment is in at most one face, as the memo presumes |
| FaceTracer.SeedsAt | perimeterProduct.py:199-204 | seed 2n is segment n and seed 2n + 1 its reversal, so every segment is tried in both directions in list order |
| FaceTracer.CollectKeeps | perimeterProduct.py:197-259 | trying the seeds in turn gives faces each seeded from a segment or its reversal, no face seeded from a directed segment of an earlier face, and fails only with the missing-key error |
| FaceTracer.TraceSegment | perimeterProduct.py:199-259 | the two directions of one segment are tried in turn, exactly as the next two steps of the seed sequence |
| FaceTracer.AttemptAt | perimeterProduct.py:206-259 | trying seed m either fails exactly as trying all seeds from m on fails, with the missing-key error, or leaves the same outcome as trying the seeds after m on the new shapes, with the memo matching them |
| FaceTracer.TraceShapes | perimeterProduct.py:190-261 | the result is that of trying every seed in order from no shapes; the faces are seeded from the segments, never reseeded from a face found earlier, and no two share a directed segment; the memo holds exactly the faces' directed segments; the only failure is the missing-key error |
| FaceTracer.FindAllShapes | perimeterProduct.py:184-261 | the faces are those found by trying every seed of the arranged list on its index; that list is no shorter than the input (equal to it when nothing crosses); every directed segment of a face is a split segment in one of its directions, and no directed segment is in two faces; the memo discipline holds |
| Aggregator.GetPerimeter | perimeterProduct.py:32-37 | the loop's result is the sum of the segment lengths of the shape |
| Aggregator.SumLengthsPermutation | perimeterProduct.py:32-37 | a perimeter does not depend on the order in which the shape lists its segments |
| Aggregator.PerimeterPositive | perimeterProduct.py:32-37 | a nonempty shape whose segments have positive length has a positive perimeter |
| Aggregator.MultiplyPerimeters | perimeterProduct.py:275-281 | the loop's result is the product, in list order, of the perimeters of the shapes (1 for no shapes) |
| Aggregator.GetPerimeterProduct | perimeterProduct.py:268-281 | 0 for fewer than three segments; otherwise the product of the perimeters of exactly the faces that trying every seed of the arranged list finds, each with at least three segments and no two sharing a directed segment, and 1 when there are none; the only failures are running out of fuel and the missing-key error |
| Aggregator.ProductOfPerimetersPositive | perimeterProduct.py:268-281 | with positive segment lengths, the product over found faces is positive, so 0 comes only from the fewer-than-three guard |

## Left out

- Floating point: `math.sqrt`, `math.atan2`, the 2·π normalisation and `round(..., decimalPlaces)` are not modelled. They are the parameters `length`, `turn`, `anglesClose` and `round`, because IEEE semantics has no meaningful exact model here. The constant `decimalPlaces = 6` (line 29) goes with them.
- Arrangement.SplitIntersections: `splitIntersections` recurses once per split (line 131), so Python's recursion limit raises `RecursionError` after about a thousand splits. The model bounds the recursion by `fuel` instead: `None`, and `OutOfFuel` further up, stand for that failure. The model does not show that any fuel bound suffices.
- Arrangement.SplitIntersections: no lemma states that the result is crossing-free. That depends on where the rounded split point lands, which is a floating-point question.
- Arrangement.SplitIntersections: the source's `remove` and `append` mutate the caller's list in place, and that aliasing is visible to the caller of `findAllShapes`. The model works on sequence values, so it does not capture that side effect.
- FaceTracer.RightmostChoice: the minimum property is stated under the hypotheses that the candidate angles are positive, or nonnegative. The 0 sentinel of `rightmostAngle` makes a zero-angle candidate win only when it is the last one. Outside those hypotheses only the candidate and None properties are stated.
- FaceTracer.RightmostPath: it requires `current` to be a key. The source raises `KeyError` otherwise. The walk only reaches that case after a `None` step, which `TraceFrom` reports as `Dangling`.
- FaceTracer.TraceOutcome: the angle-sum half of the closure test is the parameter `anglesClose`. The contract therefore says nothing about interior angles or minimality of the face.
- The memo dictionary `{segment: True}` is a set of directed segments. Only key membership is ever read.
- The module-level test assertions (lines 283-320) depend on floating-point results and are not modelled.
