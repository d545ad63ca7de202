/**
 * The face tracer (rightmostPath, pointInPath and findAllShapes,
 * perimeterProduct.py lines 151-261): from every directed segment not yet
 * attributed to a face, walk the graph always taking the sharpest right
 * turn, and accept the walk as a face when it closes up again; every directed
 * segment of an accepted face goes into a memo and is never used as a seed.
 *
 * Two floating-point computations of the source are parameters here:
 * `turn(previous, current, next)` is the normalised atan2 turn angle at
 * `current` (lines 163-166), and `anglesClose(sum, n)` is the rounded
 * comparison of an angle sum with (n - 2) * pi (line 247).
 */
module FaceTracer {
  import opened Geometry
  import opened Arrangement
  import opened Adjacency

  type TurnAngle = (Point, Point, Point) -> real

  type AngleCheck = (real, int) -> bool

  datatype Failure =
    | MissingKey   // the walk reached a point with no way on: matrix[None] raises KeyError
    | OutOfFuel    // the splitting recursion ran out of fuel

  datatype Result<T> = Ok(value: T) | Err(failure: Failure)

  // ---------------------------------------------------------------------
  // Rightmost neighbour
  // ---------------------------------------------------------------------

  /** Index `m` of `nbrs` is a point the walk may move to: any but the one it came from. */
  predicate IsCandidate(nbrs: seq<Point>, previous: Point, m: int) {
    0 <= m < |nbrs| && nbrs[m] != previous
  }

  /** Every candidate among the first `n` has a positive turn angle. */
  ghost predicate PositiveBefore(nbrs: seq<Point>, previous: Point, current: Point, turn: TurnAngle, n: int) {
    forall m :: IsCandidate(nbrs, previous, m) && m < n ==> turn(previous, current, nbrs[m]) > 0.0
  }

  /** Every candidate among the first `n` has a nonnegative turn angle. */
  ghost predicate NonNegativeBefore(nbrs: seq<Point>, previous: Point, current: Point, turn: TurnAngle, n: int) {
    forall m :: IsCandidate(nbrs, previous, m) && m < n ==> turn(previous, current, nbrs[m]) >= 0.0
  }

  /**
   * What rightmostPath computes over the neighbour list `nbrs`, as a left fold:
   * the candidate with the smallest turn angle, the first one on ties, where
   * an angle of 0 stands for "nothing chosen yet"; (None, 0) when every
   * neighbour is the point the walk came from.
   */
  function Rightmost(nbrs: seq<Point>, previous: Point, current: Point, turn: TurnAngle): (Option<Point>, real) {
    if nbrs == [] then (None, 0.0)
    else
      var chosen := Rightmost(nbrs[..|nbrs| - 1], previous, current, turn);
      var p := nbrs[|nbrs| - 1];
      if p != previous && (turn(previous, current, p) < chosen.1 || chosen.1 == 0.0)
      then (Some(p), turn(previous, current, p))
      else chosen
  }

  /** The fold over the first `n` neighbours, with the index `k` it chose. */
  lemma {:induction false} RightmostPrefix(nbrs: seq<Point>, previous: Point, current: Point, turn: TurnAngle, n: int)
    returns (k: int)
    requires 0 <= n <= |nbrs|
    ensures var c := Rightmost(nbrs[..n], previous, current, turn);
      (c.0.None? <==> forall m :: 0 <= m < n ==> nbrs[m] == previous) &&
      (c.0.None? ==> c.1 == 0.0) &&
      (c.0.Some? ==>
        IsCandidate(nbrs, previous, k) && k < n &&
        c.0.value == nbrs[k] && c.1 == turn(previous, current, nbrs[k])) &&
      (c.0.Some? && PositiveBefore(nbrs, previous, current, turn, n) ==>
        forall m :: IsCandidate(nbrs, previous, m) && m < k ==> turn(previous, current, nbrs[m]) > c.1) &&
      (c.0.Some? && NonNegativeBefore(nbrs, previous, current, turn, n) ==>
        forall m :: IsCandidate(nbrs, previous, m) && k < m < n ==>
          c.1 > 0.0 && turn(previous, current, nbrs[m]) >= c.1)
  {
    if n == 0 {
      k := -1;
    } else {
      var k0 := RightmostPrefix(nbrs, previous, current, turn, n - 1);
      assert nbrs[..n][..n - 1] == nbrs[..n - 1];
      var c0 := Rightmost(nbrs[..n - 1], previous, current, turn);
      var p := nbrs[n - 1];
      if p != previous && (turn(previous, current, p) < c0.1 || c0.1 == 0.0) {
        k := n - 1;
      } else {
        k := k0;
      }
    }
  }

  /**
   * The choice of rightmostPath: None with angle 0 exactly when every
   * neighbour is the previous point; otherwise the candidate at some index k
   * with its turn angle. With positive angles it is the first minimum; with
   * nonnegative ones nothing after k beats it or has angle 0, so a zero-angle
   * candidate is kept only when it is the last candidate.
   */
  lemma RightmostChoice(nbrs: seq<Point>, previous: Point, current: Point, turn: TurnAngle) returns (k: int)
    ensures var c := Rightmost(nbrs, previous, current, turn);
      (c.0.None? <==> forall m :: 0 <= m < |nbrs| ==> nbrs[m] == previous) &&
      (c.0.None? ==> c.1 == 0.0) &&
      (c.0.Some? ==>
        IsCandidate(nbrs, previous, k) && c.0.value == nbrs[k] && c.1 == turn(previous, current, nbrs[k])) &&
      (c.0.Some? && PositiveBefore(nbrs, previous, current, turn, |nbrs|) ==>
        forall m :: IsCandidate(nbrs, previous, m) && m < k ==> turn(previous, current, nbrs[m]) > c.1) &&
      (c.0.Some? && NonNegativeBefore(nbrs, previous, current, turn, |nbrs|) ==>
        forall m :: IsCandidate(nbrs, previous, m) && k < m ==>
          c.1 > 0.0 && turn(previous, current, nbrs[m]) >= c.1)
  {
    k := RightmostPrefix(nbrs, previous, current, turn, |nbrs|);
    assert nbrs[..|nbrs|] == nbrs;
  }

  /** A chosen point is a neighbour other than the previous point, and its angle is its turn angle. */
  lemma RightmostIsCandidate(nbrs: seq<Point>, previous: Point, current: Point, turn: TurnAngle)
    ensures var c := Rightmost(nbrs, previous, current, turn);
      c.0.Some? ==> c.0.value in nbrs && c.0.value != previous && c.1 == turn(previous, current, c.0.value)
  {
    var k := RightmostChoice(nbrs, previous, current, turn);
  }

  /** rightmostPath: the loop over the neighbours of `current` computes the fold. */
  method RightmostPath(current: Point, previous: Point, matrix: Matrix, turn: TurnAngle)
    returns (next: Option<Point>, angle: real)
    requires current in matrix
    ensures (next, angle) == Rightmost(matrix[current], previous, current, turn)
  {
    var nbrs := matrix[current];
    next, angle := None, 0.0;
    for n := 0 to |nbrs|
      invariant (next, angle) == Rightmost(nbrs[..n], previous, current, turn)
    {
      assert nbrs[..n + 1][..n] == nbrs[..n];
      var nextPoint := nbrs[n];
      if nextPoint != previous {
        var a := turn(previous, current, nextPoint);
        if a < angle || angle == 0.0 {
          angle, next := a, Some(nextPoint);
        }
      }
    }
    assert nbrs[..|nbrs|] == nbrs;
  }

  // ---------------------------------------------------------------------
  // Paths
  // ---------------------------------------------------------------------

  /** pointInPath: whether `p` is an endpoint of any segment of `path`. */
  function PointInPath(p: Point, path: seq<Segment>): (b: bool)
    ensures b <==> p in Endpoints(path)
  {
    if path == [] then false
    else
      EndpointsCons(path);
      path[0].0 == p || path[0].1 == p || PointInPath(p, path[1..])
  }

  /** A walk: consecutive segments meet, and every step after the seed is an edge of `matrix`. */
  ghost predicate IsWalk(path: seq<Segment>, matrix: Matrix) {
    (forall k :: 0 <= k < |path| - 1 ==> path[k].1 == path[k + 1].0) &&
    (forall k :: 1 <= k < |path| ==> path[k].0 in matrix && path[k].1 in matrix[path[k].0])
  }

  /** The walk never turns straight back to the point it just came from. */
  ghost predicate NoBacktrack(path: seq<Segment>) {
    forall k :: 0 <= k < |path| - 1 ==> path[k + 1].1 != path[k].0
  }

  /** No point is reached twice, except the start of the first segment. */
  ghost predicate RevisitsOnlyStart(path: seq<Segment>) {
    forall a, b :: 0 <= a < b < |path| && path[a].1 == path[b].1 ==> path[a].1 == path[0].0
  }

  // ---------------------------------------------------------------------
  // The walk from one seed
  // ---------------------------------------------------------------------

  /** How the walk from one seed ends, with the segments it had walked. */
  datatype Trace =
    | Found(path: seq<Segment>)     // the walk closed up and passed the closure check
    | NoShape(path: seq<Segment>)   // the next point is a visited point other than the start
    | Dangling(path: seq<Segment>)  // there is no way on: the source raises KeyError

  /** Second component of the walk's termination measure. */
  function Phase(current: Point, previous: Point, target: Point): nat {
    if current != target then 2 else if previous != target then 1 else 0
  }

  lemma FewerUnvisited(keys: set<Point>, visited: set<Point>, x: Point)
    requires x in keys && x !in visited
    ensures |keys - (visited + {x})| < |keys - visited|
  {
    assert keys - visited == (keys - (visited + {x})) + {x};
  }

  /** The state of the walk from `seed` at the top of the loop. */
  ghost predicate WalkState(path: seq<Segment>, seed: Segment, previous: Point, current: Point, matrix: Matrix) {
    |path| >= 1 && path[0] == seed && path[|path| - 1] == (previous, current) &&
    IsWalk(path, matrix) && NoBacktrack(path) && RevisitsOnlyStart(path) &&
    current in matrix && Endpoints(path) <= matrix.Keys &&
    (|path| == 2 ==> current != seed.0)
  }

  lemma WalkExtends(path: seq<Segment>, current: Point, next: Point, matrix: Matrix)
    requires |path| >= 1 && path[|path| - 1].1 == current && IsWalk(path, matrix)
    requires current in matrix && next in matrix[current]
    ensures IsWalk(path + [(current, next)], matrix)
  {
    var e := path + [(current, next)];
    forall k | 0 <= k < |e| - 1
      ensures e[k].1 == e[k + 1].0
    {
      if k < |path| - 1 {
        assert e[k] == path[k] && e[k + 1] == path[k + 1];
      }
    }
    forall k | 1 <= k < |e|
      ensures e[k].0 in matrix && e[k].1 in matrix[e[k].0]
    {
      if k < |path| {
        assert e[k] == path[k];
      }
    }
  }

  lemma NoBacktrackExtends(path: seq<Segment>, previous: Point, current: Point, next: Point)
    requires |path| >= 1 && path[|path| - 1] == (previous, current) && NoBacktrack(path)
    requires next != previous
    ensures NoBacktrack(path + [(current, next)])
  {
    var e := path + [(current, next)];
    forall k | 0 <= k < |e| - 1
      ensures e[k + 1].1 != e[k].0
    {
      if k < |path| - 1 {
        assert e[k] == path[k] && e[k + 1] == path[k + 1];
      }
    }
  }

  lemma RevisitsExtends(path: seq<Segment>, current: Point, next: Point)
    requires |path| >= 1 && RevisitsOnlyStart(path)
    requires next in Endpoints(path) ==> next == path[0].0
    ensures RevisitsOnlyStart(path + [(current, next)])
  {
    var e := path + [(current, next)];
    forall a, b | 0 <= a < b < |e| && e[a].1 == e[b].1
      ensures e[a].1 == e[0].0
    {
      assert e[a] == path[a];
      if b < |path| {
        assert e[b] == path[b];
      } else {
        assert path[a].1 in Endpoints(path);
      }
    }
  }

  /**
   * One step of the walk to a neighbour other than the previous point that is
   * new or the start point keeps the walk state; a new point leaves fewer
   * points unvisited, the start point leaves the visited points as they were.
   */
  lemma StepKeepsWalk(path: seq<Segment>, seed: Segment, previous: Point, current: Point,
                      next: Point, matrix: Matrix)
    requires WalkState(path, seed, previous, current, matrix) && Closed(matrix)
    requires next in matrix[current] && next != previous
    requires next in Endpoints(path) ==> next == seed.0
    ensures WalkState(path + [(current, next)], seed, current, next, matrix)
    ensures next !in Endpoints(path) ==>
      |matrix.Keys - Endpoints(path + [(current, next)])| < |matrix.Keys - Endpoints(path)|
    ensures next in Endpoints(path) ==> Endpoints(path + [(current, next)]) == Endpoints(path)
  {
    EndpointsSnoc(path, (current, next));
    assert current in Endpoints(path) by {
      assert path[|path| - 1].1 == current;
    }
    assert next in matrix;
    assert Endpoints(path + [(current, next)]) == Endpoints(path) + {next};
    if next !in Endpoints(path) {
      FewerUnvisited(matrix.Keys, Endpoints(path), next);
    }
    WalkExtends(path, current, next, matrix);
    NoBacktrackExtends(path, previous, current, next);
    RevisitsExtends(path, current, next);
  }

  /** The sum of the turn angles of the steps of `path` after the seed. */
  function TurnSum(path: seq<Segment>, turn: TurnAngle): real {
    if |path| <= 1 then 0.0
    else TurnSum(path[..|path| - 1], turn) + turn(path[|path| - 2].0, path[|path| - 1].0, path[|path| - 1].1)
  }

  /** rightmostPath at the end of `path`, coming from the start of its last segment. */
  function NextStep(path: seq<Segment>, matrix: Matrix, turn: TurnAngle): (Option<Point>, real)
    requires |path| >= 1 && path[|path| - 1].1 in matrix
  {
    Rightmost(matrix[path[|path| - 1].1], path[|path| - 1].0, path[|path| - 1].1, turn)
  }

  /**
   * The closure test of line 247 on a path back at its start: the next
   * rightmost step is the seed's own second point, and the turn angles with
   * the closing one pass the angle check.
   */
  ghost predicate Closes(path: seq<Segment>, matrix: Matrix, turn: TurnAngle, anglesClose: AngleCheck) {
    |path| >= 1 && path[|path| - 1].1 in matrix &&
    var c := NextStep(path, matrix, turn);
    c.0 == Some(path[0].1) && anglesClose(TurnSum(path, turn) + c.1, |path|)
  }

  /** Every step after the seed is the rightmost choice at its start, coming from the step before. */
  ghost predicate RightmostSteps(path: seq<Segment>, matrix: Matrix, turn: TurnAngle) {
    forall k :: 1 <= k < |path| ==>
      path[k].0 in matrix && Rightmost(matrix[path[k].0], path[k - 1].0, path[k].0, turn).0 == Some(path[k].1)
  }

  /** Every return to the start among the first `n` segments (the seed aside) failed the closure test. */
  ghost predicate ClosuresFailed(path: seq<Segment>, n: int, matrix: Matrix, turn: TurnAngle, anglesClose: AngleCheck) {
    forall k :: 1 <= k < n && k < |path| && path[k].1 == path[0].0 ==>
      !Closes(path[..k + 1], matrix, turn, anglesClose)
  }

  /**
   * The walk from `seed` as far as it went: rightmost steps that reach no
   * point twice except the seed's start, where every return to the start
   * failed the closure test.
   */
  ghost predicate IsTrail(path: seq<Segment>, seed: Segment, matrix: Matrix, turn: TurnAngle, anglesClose: AngleCheck) {
    |path| >= 1 && path[0] == seed && path[|path| - 1].1 in matrix &&
    IsWalk(path, matrix) && NoBacktrack(path) && RevisitsOnlyStart(path) &&
    RightmostSteps(path, matrix, turn) && ClosuresFailed(path, |path|, matrix, turn, anglesClose)
  }

  /**
   * What an accepted shape is: a walk of at least three rightmost steps that
   * starts with the seed, never turns straight back, reaches no point twice
   * except the seed's start, ends at the seed's start and passes the closure
   * test there, having failed it at every earlier return to the start.
   */
  ghost predicate IsFace(path: seq<Segment>, seed: Segment, matrix: Matrix, turn: TurnAngle, anglesClose: AngleCheck) {
    |path| >= 3 && path[0] == seed && path[|path| - 1].1 == seed.0 &&
    IsWalk(path, matrix) && NoBacktrack(path) && RevisitsOnlyStart(path) &&
    RightmostSteps(path, matrix, turn) && ClosuresFailed(path, |path| - 1, matrix, turn, anglesClose) &&
    Closes(path, matrix, turn, anglesClose)
  }

  /**
   * What each outcome of the walk from `seed` means: a found shape is a face;
   * the walk gives up on a trail whose next rightmost step reaches a visited
   * point other than the start; it is stuck on a trail with no step left.
   */
  ghost predicate Traced(seed: Segment, matrix: Matrix, turn: TurnAngle, anglesClose: AngleCheck, t: Trace) {
    match t
    case Found(p) => IsFace(p, seed, matrix, turn, anglesClose)
    case NoShape(p) =>
      IsTrail(p, seed, matrix, turn, anglesClose) &&
      var c := NextStep(p, matrix, turn);
      c.0.Some? && c.0.value in Endpoints(p) && c.0.value != seed.0
    case Dangling(p) =>
      IsTrail(p, seed, matrix, turn, anglesClose) && NextStep(p, matrix, turn).0.None?
  }

  lemma InitialWalk(seed: Segment, matrix: Matrix)
    requires seed.0 in matrix && seed.1 in matrix
    ensures WalkState([seed], seed, seed.0, seed.1, matrix)
  {
    var path := [seed];
    assert path[0].0 in Endpoints(path) && path[0].1 in Endpoints(path);
    assert Endpoints(path) == {seed.0, seed.1};
  }

  /**
   * The rest of the walk from a loop state `path`, as a function: one
   * rightmost step, then stop on no step (Dangling) or on a visited point
   * other than the start (NoShape), accept at the start if the closure test
   * passes, and otherwise go on.
   */
  ghost function Walk(seed: Segment, path: seq<Segment>, matrix: Matrix, turn: TurnAngle, anglesClose: AngleCheck): Trace
    requires Closed(matrix) && |path| >= 1
    requires WalkState(path, seed, path[|path| - 1].0, path[|path| - 1].1, matrix)
    decreases |matrix.Keys - Endpoints(path)|, Phase(path[|path| - 1].1, path[|path| - 1].0, seed.0)
  {
    var previous, current := path[|path| - 1].0, path[|path| - 1].1;
    var c := Rightmost(matrix[current], previous, current, turn);
    if c.0.None? then Dangling(path)
    else if c.0.value in Endpoints(path) && c.0.value != seed.0 then NoShape(path)
    else
      RightmostIsCandidate(matrix[current], previous, current, turn);
      StepKeepsWalk(path, seed, previous, current, c.0.value, matrix);
      var extended := path + [(current, c.0.value)];
      if c.0.value == seed.0 && Closes(extended, matrix, turn, anglesClose) then Found(extended)
      else Walk(seed, extended, matrix, turn, anglesClose)
  }

  /** Walk unfolded once, in terms of the next rightmost step. */
  lemma WalkStep(seed: Segment, path: seq<Segment>, matrix: Matrix, turn: TurnAngle, anglesClose: AngleCheck)
    requires Closed(matrix) && |path| >= 1
    requires WalkState(path, seed, path[|path| - 1].0, path[|path| - 1].1, matrix)
    ensures NextStep(path, matrix, turn).0.None? ==> Walk(seed, path, matrix, turn, anglesClose) == Dangling(path)
    ensures var next := NextStep(path, matrix, turn).0;
      next.Some? && next.value in Endpoints(path) && next.value != seed.0 ==>
        Walk(seed, path, matrix, turn, anglesClose) == NoShape(path)
    ensures var next := NextStep(path, matrix, turn).0;
      next.Some? && !(next.value in Endpoints(path) && next.value != seed.0) ==>
        var e := path + [(path[|path| - 1].1, next.value)];
        WalkState(e, seed, path[|path| - 1].1, next.value, matrix) &&
        Walk(seed, path, matrix, turn, anglesClose) ==
          if next.value == seed.0 && Closes(e, matrix, turn, anglesClose) then Found(e)
          else Walk(seed, e, matrix, turn, anglesClose)
  {
    var previous, current := path[|path| - 1].0, path[|path| - 1].1;
    var c := Rightmost(matrix[current], previous, current, turn);
    if c.0.Some? && !(c.0.value in Endpoints(path) && c.0.value != seed.0) {
      RightmostIsCandidate(matrix[current], previous, current, turn);
      StepKeepsWalk(path, seed, previous, current, c.0.value, matrix);
    }
  }

  /** The walk of findAllShapes from the directed segment `seed`. */
  ghost function TraceOf(seed: Segment, matrix: Matrix, turn: TurnAngle, anglesClose: AngleCheck): Trace
    requires seed.0 in matrix && seed.1 in matrix && Closed(matrix)
  {
    InitialWalk(seed, matrix);
    Walk(seed, [seed], matrix, turn, anglesClose)
  }

  /** A rightmost step keeps the steps rightmost and the earlier closure failures. */
  lemma StepKeepsTrail(path: seq<Segment>, matrix: Matrix, turn: TurnAngle, anglesClose: AngleCheck, next: Point)
    requires |path| >= 1 && path[|path| - 1].1 in matrix
    requires RightmostSteps(path, matrix, turn) && ClosuresFailed(path, |path|, matrix, turn, anglesClose)
    requires NextStep(path, matrix, turn).0 == Some(next)
    ensures var e := path + [(path[|path| - 1].1, next)];
      RightmostSteps(e, matrix, turn) && ClosuresFailed(e, |path|, matrix, turn, anglesClose)
  {
    var e := path + [(path[|path| - 1].1, next)];
    forall k | 1 <= k < |e|
      ensures e[k].0 in matrix && Rightmost(matrix[e[k].0], e[k - 1].0, e[k].0, turn).0 == Some(e[k].1)
    {
      if k < |path| {
        assert e[k] == path[k] && e[k - 1] == path[k - 1];
      }
    }
    forall k | 1 <= k < |path| && k < |e| && e[k].1 == e[0].0
      ensures !Closes(e[..k + 1], matrix, turn, anglesClose)
    {
      assert e[..k + 1] == path[..k + 1];
    }
  }

  /** A failed closure test at the end of the trail extends the failures to the whole trail. */
  lemma FailedClosure(path: seq<Segment>, matrix: Matrix, turn: TurnAngle, anglesClose: AngleCheck)
    requires ClosuresFailed(path, |path| - 1, matrix, turn, anglesClose)
    requires !Closes(path, matrix, turn, anglesClose)
    ensures ClosuresFailed(path, |path|, matrix, turn, anglesClose)
  {
    assert path[..|path|] == path;
  }

  /** A walk that stops at `path`, with no step or at a visited point other than the start, ends as Traced describes. */
  lemma StopOutcome(seed: Segment, path: seq<Segment>, matrix: Matrix, turn: TurnAngle, anglesClose: AngleCheck)
    requires Closed(matrix) && |path| >= 1
    requires WalkState(path, seed, path[|path| - 1].0, path[|path| - 1].1, matrix)
    requires RightmostSteps(path, matrix, turn) && ClosuresFailed(path, |path|, matrix, turn, anglesClose)
    requires var next := NextStep(path, matrix, turn).0;
      next.None? || (next.value in Endpoints(path) && next.value != seed.0)
    ensures Traced(seed, matrix, turn, anglesClose, Walk(seed, path, matrix, turn, anglesClose))
  {
    WalkStep(seed, path, matrix, turn, anglesClose);
  }

  /** From any loop state reached by rightmost steps, the walk ends in an outcome as Traced describes it. */
  lemma WalkOutcome(seed: Segment, path: seq<Segment>, matrix: Matrix, turn: TurnAngle, anglesClose: AngleCheck)
    requires Closed(matrix) && |path| >= 1
    requires WalkState(path, seed, path[|path| - 1].0, path[|path| - 1].1, matrix)
    requires RightmostSteps(path, matrix, turn) && ClosuresFailed(path, |path|, matrix, turn, anglesClose)
    ensures Traced(seed, matrix, turn, anglesClose, Walk(seed, path, matrix, turn, anglesClose))
    decreases |matrix.Keys - Endpoints(path)|, Phase(path[|path| - 1].1, path[|path| - 1].0, seed.0)
  {
    var next := NextStep(path, matrix, turn).0;
    if next.None? || (next.value in Endpoints(path) && next.value != seed.0) {
      StopOutcome(seed, path, matrix, turn, anglesClose);
    } else {
      LoopStep(seed, path, matrix, turn, anglesClose);
      StepKeepsTrail(path, matrix, turn, anglesClose, next.value);
      var e := path + [(path[|path| - 1].1, next.value)];
      if next.value == seed.0 && Closes(e, matrix, turn, anglesClose) {
        ClosedFace(seed, path, e, matrix, turn, anglesClose);
      } else {
        if next.value == seed.0 {
          FailedClosure(e, matrix, turn, anglesClose);
        }
        WalkOutcome(seed, e, matrix, turn, anglesClose);
      }
    }
  }

  /** A rightmost step back to the start that passes the closure test completes a face. */
  lemma ClosedFace(seed: Segment, path: seq<Segment>, e: seq<Segment>, matrix: Matrix,
                   turn: TurnAngle, anglesClose: AngleCheck)
    requires |path| >= 1 && e == path + [(path[|path| - 1].1, seed.0)]
    requires WalkState(path, seed, path[|path| - 1].0, path[|path| - 1].1, matrix)
    requires WalkState(e, seed, path[|path| - 1].1, seed.0, matrix)
    requires RightmostSteps(e, matrix, turn) && ClosuresFailed(e, |path|, matrix, turn, anglesClose)
    requires Closes(e, matrix, turn, anglesClose)
    ensures IsFace(e, seed, matrix, turn, anglesClose)
  {
  }

  /** The walk from any seed ends in an outcome as Traced describes it. */
  lemma TraceOutcome(seed: Segment, matrix: Matrix, turn: TurnAngle, anglesClose: AngleCheck)
    requires seed.0 in matrix && seed.1 in matrix && Closed(matrix)
    ensures Traced(seed, matrix, turn, anglesClose, TraceOf(seed, matrix, turn, anglesClose))
  {
    InitialWalk(seed, matrix);
    WalkOutcome(seed, [seed], matrix, turn, anglesClose);
  }

  /**
   * The `while True` loop of findAllShapes for one seed. After a failed
   * closure check at the start point the walk goes on (it does not give up).
   * It ends because every step either reaches a new point or the start point,
   * and the start point is never reached three times in a row.
   */
  method TraceFrom(seed: Segment, matrix: Matrix, turn: TurnAngle, anglesClose: AngleCheck)
    returns (t: Trace)
    requires seed.0 in matrix && seed.1 in matrix && Closed(matrix)
    ensures t == TraceOf(seed, matrix, turn, anglesClose)
  {
    var target := seed.0;
    var current := seed.1;
    var previous := seed.0;
    var path := [seed];
    var angleSum := 0.0;
    InitialWalk(seed, matrix);
    while true
      invariant WalkState(path, seed, previous, current, matrix)
      invariant angleSum == TurnSum(path, turn)
      invariant Walk(seed, path, matrix, turn, anglesClose) == TraceOf(seed, matrix, turn, anglesClose)
      decreases |matrix.Keys - Endpoints(path)|, Phase(current, previous, target)
    {
      var stop;
      stop, path, previous, current, angleSum := WalkOnce(seed, path, previous, current, angleSum,
                                                          matrix, turn, anglesClose);
      if stop.Some? {
        return stop.value;
      }
    }
  }

  /**
   * One pass of the loop body (lines 221-248): the rightmost step from
   * `current`. When the walk stops there, `stop` is its outcome; otherwise
   * the path and the angle sum are extended by the step, and the rest of the
   * walk from the new state is the rest of the walk from the old one.
   */
  method WalkOnce(seed: Segment, path: seq<Segment>, previous: Point, current: Point, angleSum: real,
                  matrix: Matrix, turn: TurnAngle, anglesClose: AngleCheck)
    returns (stop: Option<Trace>, path': seq<Segment>, previous': Point, current': Point, angleSum': real)
    requires Closed(matrix) && WalkState(path, seed, previous, current, matrix)
    requires angleSum == TurnSum(path, turn)
    ensures stop.Some? ==> stop.value == Walk(seed, path, matrix, turn, anglesClose)
    ensures stop.None? ==>
      WalkState(path', seed, previous', current', matrix) && angleSum' == TurnSum(path', turn) &&
      Walk(seed, path', matrix, turn, anglesClose) == Walk(seed, path, matrix, turn, anglesClose) &&
      (|matrix.Keys - Endpoints(path')| < |matrix.Keys - Endpoints(path)| ||
       (Endpoints(path') == Endpoints(path) && Phase(current', previous', seed.0) < Phase(current, previous, seed.0)))
  {
    var temp := current;
    var next, a := RightmostPath(current, previous, matrix, turn);
    WalkStep(seed, path, matrix, turn, anglesClose);
    if next.None? {
      return Some(Dangling(path)), path, previous, current, angleSum;
    }
    if PointInPath(next.value, path) && next.value != seed.0 {
      return Some(NoShape(path)), path, previous, current, angleSum;
    }
    LoopStep(seed, path, matrix, turn, anglesClose);
    current' := next.value;
    angleSum' := angleSum + a;
    previous' := temp;
    path' := path + [(previous', current')];
    if current' != seed.0 {
      return None, path', previous', current', angleSum';
    }
    var closed := ClosureTest(path', angleSum', matrix, turn, anglesClose);
    if !closed {
      return None, path', previous', current', angleSum';
    }
    stop := Some(Found(path'));
  }

  /**
   * One step of the loop to a point that is new or the start: the state is
   * kept, the angle sum grows by the step's angle, the termination measure
   * goes down, and the rest of the walk is as Walk says.
   */
  lemma LoopStep(seed: Segment, path: seq<Segment>, matrix: Matrix, turn: TurnAngle, anglesClose: AngleCheck)
    requires Closed(matrix) && |path| >= 1
    requires WalkState(path, seed, path[|path| - 1].0, path[|path| - 1].1, matrix)
    requires var next := NextStep(path, matrix, turn).0;
      next.Some? && !(next.value in Endpoints(path) && next.value != seed.0)
    ensures var previous, current := path[|path| - 1].0, path[|path| - 1].1;
      var (next, a) := NextStep(path, matrix, turn);
      var e := path + [(current, next.value)];
      WalkState(e, seed, current, next.value, matrix) &&
      TurnSum(e, turn) == TurnSum(path, turn) + a &&
      (|matrix.Keys - Endpoints(e)| < |matrix.Keys - Endpoints(path)| ||
       (Endpoints(e) == Endpoints(path) && Phase(next.value, current, seed.0) < Phase(current, previous, seed.0))) &&
      Walk(seed, path, matrix, turn, anglesClose) ==
        if next.value == seed.0 && Closes(e, matrix, turn, anglesClose) then Found(e)
        else Walk(seed, e, matrix, turn, anglesClose)
  {
    var previous, current := path[|path| - 1].0, path[|path| - 1].1;
    var next := NextStep(path, matrix, turn).0.value;
    RightmostIsCandidate(matrix[current], previous, current, turn);
    StepKeepsWalk(path, seed, previous, current, next, matrix);
    TurnSumSnoc(path, turn, next);
    WalkStep(seed, path, matrix, turn, anglesClose);
  }

  /**
   * Lines 243-248: the closure test at the start point, from the next
   * rightmost step and the running angle sum.
   */
  method ClosureTest(path: seq<Segment>, angleSum: real, matrix: Matrix, turn: TurnAngle, anglesClose: AngleCheck)
    returns (closed: bool)
    requires |path| >= 1 && path[|path| - 1].1 in matrix && angleSum == TurnSum(path, turn)
    ensures closed == Closes(path, matrix, turn, anglesClose)
  {
    var closing, closingAngle := RightmostPath(path[|path| - 1].1, path[|path| - 1].0, matrix, turn);
    closed := closing == Some(path[0].1) && anglesClose(angleSum + closingAngle, |path|);
  }

  /** A step adds its turn angle to the sum. */
  lemma TurnSumSnoc(path: seq<Segment>, turn: TurnAngle, next: Point)
    requires |path| >= 1
    ensures var e := path + [(path[|path| - 1].1, next)];
      TurnSum(e, turn) == TurnSum(path, turn) + turn(path[|path| - 1].0, path[|path| - 1].1, next)
  {
    var e := path + [(path[|path| - 1].1, next)];
    assert e[..|e| - 1] == path;
  }

  // ---------------------------------------------------------------------
  // All seeds, with the memo of documented directed segments
  // ---------------------------------------------------------------------

  /** Every directed segment of any of `shapes`: what the memo holds. */
  function Documented(shapes: seq<seq<Segment>>): set<Segment> {
    set j, k | 0 <= j < |shapes| && 0 <= k < |shapes[j]| :: shapes[j][k]
  }

  lemma DocumentedSnoc(shapes: seq<seq<Segment>>, path: seq<Segment>)
    ensures Documented(shapes + [path]) == Documented(shapes) + set k | 0 <= k < |path| :: path[k]
  {
    var e := shapes + [path];
    forall x | x in Documented(e)
      ensures x in Documented(shapes) + set k | 0 <= k < |path| :: path[k]
    {
      var j, k :| 0 <= j < |e| && 0 <= k < |e[j]| && x == e[j][k];
      if j < |shapes| {
        assert e[j] == shapes[j];
      }
    }
    forall x | x in Documented(shapes)
      ensures x in Documented(e)
    {
      var j, k :| 0 <= j < |shapes| && 0 <= k < |shapes[j]| && x == shapes[j][k];
      assert e[j] == shapes[j];
    }
    forall k | 0 <= k < |path|
      ensures path[k] in Documented(e)
    {
      assert e[|shapes|] == path;
    }
  }

  /** No shape was seeded from a directed segment of an earlier shape. */
  ghost predicate NeverReseeded(shapes: seq<seq<Segment>>) {
    forall i, j :: 0 <= i < j < |shapes| && |shapes[j]| > 0 ==> shapes[j][0] !in shapes[i]
  }

  /** Each shape is a face of `matrix` seeded from a segment of `segments`, in one of its directions. */
  ghost predicate FacesFrom(shapes: seq<seq<Segment>>, segments: seq<Segment>, matrix: Matrix,
                            turn: TurnAngle, anglesClose: AngleCheck) {
    forall j :: 0 <= j < |shapes| ==>
      |shapes[j]| > 0 && IsFace(shapes[j], shapes[j][0], matrix, turn, anglesClose) &&
      (shapes[j][0] in segments || Reverse(shapes[j][0]) in segments)
  }

  /**
   * `e'` is the rightmost step out of `e`: it starts where `e` ends and goes
   * to the rightmost choice there, coming from the start of `e`.
   */
  ghost predicate Follows(e: Segment, e': Segment, matrix: Matrix, turn: TurnAngle) {
    e'.0 == e.1 && e.1 in matrix && Rightmost(matrix[e.1], e.0, e.1, turn).0 == Some(e'.1)
  }

  /** No directed segment lies in two of `shapes`. */
  ghost predicate EdgeDisjoint(shapes: seq<seq<Segment>>) {
    forall i, j, x :: 0 <= i < j < |shapes| && x in shapes[i] ==> x !in shapes[j]
  }

  /** A face is a cycle of rightmost steps: each segment follows the one before it, and the seed follows the last. */
  lemma FaceCycle(f: seq<Segment>, matrix: Matrix, turn: TurnAngle, anglesClose: AngleCheck)
    requires |f| > 0 && IsFace(f, f[0], matrix, turn, anglesClose)
    ensures forall k :: 0 <= k < |f| - 1 ==> Follows(f[k], f[k + 1], matrix, turn)
    ensures Follows(f[|f| - 1], f[0], matrix, turn)
  {
    forall k | 0 <= k < |f| - 1
      ensures Follows(f[k], f[k + 1], matrix, turn)
    {
      assert f[k].1 == f[k + 1].0;
    }
  }

  /** Whatever follows a segment of a face is a segment of the same face. */
  lemma FaceClosed(g: seq<Segment>, matrix: Matrix, turn: TurnAngle, anglesClose: AngleCheck, y: Segment, z: Segment)
    requires |g| > 0 && IsFace(g, g[0], matrix, turn, anglesClose)
    requires y in g && Follows(y, z, matrix, turn)
    ensures z in g
  {
    FaceCycle(g, matrix, turn, anglesClose);
    var l :| 0 <= l < |g| && g[l] == y;
    if l < |g| - 1 {
      assert z == g[l + 1];
    } else {
      assert z == g[0];
    }
  }

  /** A face that holds segment k of face `f` holds every later segment of `f`, and so the seed of `f`. */
  lemma {:induction false} FaceReachesSeed(f: seq<Segment>, g: seq<Segment>, k: int,
                                           matrix: Matrix, turn: TurnAngle, anglesClose: AngleCheck)
    requires |f| > 0 && IsFace(f, f[0], matrix, turn, anglesClose)
    requires |g| > 0 && IsFace(g, g[0], matrix, turn, anglesClose)
    requires 0 <= k < |f| && f[k] in g
    ensures f[0] in g
    decreases |f| - k
  {
    FaceCycle(f, matrix, turn, anglesClose);
    if k == |f| - 1 {
      FaceClosed(g, matrix, turn, anglesClose, f[k], f[0]);
    } else {
      FaceClosed(g, matrix, turn, anglesClose, f[k], f[k + 1]);
      FaceReachesSeed(f, g, k + 1, matrix, turn, anglesClose);
    }
  }

  /**
   * What the memo ensures: faces seeded outside every earlier face share no
   * directed segment, so each directed segment is in at most one face.
   */
  lemma FacesDisjoint(shapes: seq<seq<Segment>>, segments: seq<Segment>, matrix: Matrix,
                      turn: TurnAngle, anglesClose: AngleCheck)
    requires FacesFrom(shapes, segments, matrix, turn, anglesClose) && NeverReseeded(shapes)
    ensures EdgeDisjoint(shapes)
  {
    forall i, j, x | 0 <= i < j < |shapes| && x in shapes[i]
      ensures x !in shapes[j]
    {
      if x in shapes[j] {
        var k :| 0 <= k < |shapes[j]| && shapes[j][k] == x;
        FaceReachesSeed(shapes[j], shapes[i], k, matrix, turn, anglesClose);
      }
    }
  }

  /** Both endpoints of every seed are keys of the closed index `matrix`. */
  ghost predicate Indexed(seeds: seq<Segment>, matrix: Matrix) {
    Closed(matrix) && forall k :: 0 <= k < |seeds| ==> seeds[k].0 in matrix && seeds[k].1 in matrix
  }

  /**
   * What lines 206-259 do with the shapes found so far for one directed seed:
   * nothing when the memo has it, the traced face appended when the walk finds
   * one, nothing when it gives up, and the KeyError when it gets stuck.
   */
  ghost function AttemptOf(seed: Segment, shapes: seq<seq<Segment>>, matrix: Matrix,
                           turn: TurnAngle, anglesClose: AngleCheck): Result<seq<seq<Segment>>>
    requires seed.0 in matrix && seed.1 in matrix && Closed(matrix)
  {
    if seed in Documented(shapes) then Ok(shapes)
    else match TraceOf(seed, matrix, turn, anglesClose)
      case Found(p) => Ok(shapes + [p])
      case NoShape(_) => Ok(shapes)
      case Dangling(_) => Err(MissingKey)
  }

  /** The directed seeds in the order the source tries them: each segment, then its reversal. */
  function Seeds(segments: seq<Segment>): seq<Segment> {
    if segments == [] then []
    else [segments[0], Reverse(segments[0])] + Seeds(segments[1..])
  }

  /** Seed 2n is segment n and seed 2n + 1 its reversal. */
  lemma {:induction false} SeedsAt(segments: seq<Segment>)
    ensures |Seeds(segments)| == 2 * |segments|
    ensures forall n :: 0 <= n < |segments| ==>
      Seeds(segments)[2 * n] == segments[n] && Seeds(segments)[2 * n + 1] == Reverse(segments[n])
  {
    if segments != [] {
      var rest := segments[1..];
      SeedsAt(rest);
      var all := Seeds(segments);
      forall n | 1 <= n < |segments|
        ensures all[2 * n] == segments[n] && all[2 * n + 1] == Reverse(segments[n])
      {
        assert all[2 * n] == Seeds(rest)[2 * (n - 1)];
        assert all[2 * n + 1] == Seeds(rest)[2 * (n - 1) + 1];
        assert rest[n - 1] == segments[n];
      }
    }
  }

  /** Every seed is a segment in one of its directions. */
  lemma SeedsFrom(segments: seq<Segment>)
    ensures forall k :: 0 <= k < |Seeds(segments)| ==>
      Seeds(segments)[k] in segments || Reverse(Seeds(segments)[k]) in segments
  {
    SeedsAt(segments);
    forall k | 0 <= k < |Seeds(segments)|
      ensures Seeds(segments)[k] in segments || Reverse(Seeds(segments)[k]) in segments
    {
      var n := k / 2;
      assert k == 2 * n || k == 2 * n + 1;
    }
  }

  /**
   * The seed loop of findAllShapes as a function: every directed seed in turn
   * is attempted against the shapes found so far; the first KeyError ends it.
   */
  ghost function Collect(seeds: seq<Segment>, shapes: seq<seq<Segment>>, matrix: Matrix,
                         turn: TurnAngle, anglesClose: AngleCheck): Result<seq<seq<Segment>>>
    requires Indexed(seeds, matrix)
    decreases |seeds|
  {
    if seeds == [] then Ok(shapes)
    else match AttemptOf(seeds[0], shapes, matrix, turn, anglesClose)
      case Err(f) => Err(f)
      case Ok(next) => Collect(seeds[1..], next, matrix, turn, anglesClose)
  }

  /**
   * Lines 206-259 for one directed seed: skip it when the memo has it,
   * otherwise walk; an accepted walk is appended to the shapes and all its
   * directed segments are written to the memo.
   */
  method Attempt(seed: Segment, shapes: seq<seq<Segment>>, documented: set<Segment>,
                 matrix: Matrix, turn: TurnAngle, anglesClose: AngleCheck)
    returns (ok: bool, shapes': seq<seq<Segment>>, documented': set<Segment>)
    requires seed.0 in matrix && seed.1 in matrix && Closed(matrix)
    requires documented == Documented(shapes)
    ensures seed in documented ==> ok && shapes' == shapes
    ensures seed !in documented ==>
      var t := TraceOf(seed, matrix, turn, anglesClose);
      (ok <==> !t.Dangling?) &&
      (t.Found? ==> shapes' == shapes + [t.path]) &&
      (!t.Found? ==> shapes' == shapes)
    ensures ok ==> documented' == Documented(shapes')
    ensures !ok ==> shapes' == shapes && documented' == documented
    ensures ok <==> AttemptOf(seed, shapes, matrix, turn, anglesClose).Ok?
    ensures ok ==> shapes' == AttemptOf(seed, shapes, matrix, turn, anglesClose).value
  {
    if seed in documented {
      return true, shapes, documented;
    }
    var t := TraceFrom(seed, matrix, turn, anglesClose);
    match t
    case Dangling(_) =>
      return false, shapes, documented;
    case NoShape(_) =>
      return true, shapes, documented;
    case Found(path) =>
      shapes' := shapes + [path];
      documented' := documented;
      for k := 0 to |path|
        invariant documented' == documented + set m | 0 <= m < k :: path[m]
      {
        documented' := documented' + {path[k]};
        assert (set m | 0 <= m < k + 1 :: path[m]) == (set m | 0 <= m < k :: path[m]) + {path[k]};
      }
      DocumentedSnoc(shapes, path);
      ok := true;
  }

  /** Appending a face seeded outside the memo keeps the memo discipline. */
  lemma ReseedStep(shapes: seq<seq<Segment>>, path: seq<Segment>)
    requires NeverReseeded(shapes)
    requires |path| > 0 && path[0] !in Documented(shapes)
    ensures NeverReseeded(shapes + [path])
  {
    var e := shapes + [path];
    forall i, j | 0 <= i < j < |e| && |e[j]| > 0
      ensures e[j][0] !in e[i]
    {
      if j == |shapes| {
        assert e[i] == shapes[i];
        assert forall k :: 0 <= k < |shapes[i]| ==> shapes[i][k] in Documented(shapes);
      } else {
        assert e[i] == shapes[i] && e[j] == shapes[j];
      }
    }
  }

  /** Collect on the seeds from index m on, unfolded once. */
  lemma CollectUnfold(seeds: seq<Segment>, m: int, shapes: seq<seq<Segment>>, matrix: Matrix,
                      turn: TurnAngle, anglesClose: AngleCheck)
    requires Indexed(seeds, matrix) && 0 <= m < |seeds|
    ensures Indexed(seeds[m..], matrix) && Indexed(seeds[m + 1..], matrix)
    ensures Collect(seeds[m..], shapes, matrix, turn, anglesClose) ==
      match AttemptOf(seeds[m], shapes, matrix, turn, anglesClose)
      case Err(f) => Err(f)
      case Ok(next) => Collect(seeds[m + 1..], next, matrix, turn, anglesClose)
  {
    assert seeds[m..][0] == seeds[m];
    assert seeds[m..][1..] == seeds[m + 1..];
  }

  /**
   * One seed of the loop: the attempt keeps the shapes faces seeded from the
   * segments and the memo discipline, and Collect moves on to the next seed
   * (or stops at the KeyError).
   */
  lemma SeedStep(seeds: seq<Segment>, shapes: seq<seq<Segment>>, segments: seq<Segment>,
                 matrix: Matrix, turn: TurnAngle, anglesClose: AngleCheck)
    requires Indexed(seeds, matrix) && seeds != []
    requires seeds[0] in segments || Reverse(seeds[0]) in segments
    requires FacesFrom(shapes, segments, matrix, turn, anglesClose) && NeverReseeded(shapes)
    ensures var a := AttemptOf(seeds[0], shapes, matrix, turn, anglesClose);
      (a.Err? ==> a.failure == MissingKey) &&
      (a.Ok? ==> FacesFrom(a.value, segments, matrix, turn, anglesClose) && NeverReseeded(a.value))
  {
    var seed := seeds[0];
    if seed !in Documented(shapes) {
      TraceOutcome(seed, matrix, turn, anglesClose);
      var t := TraceOf(seed, matrix, turn, anglesClose);
      if t.Found? {
        var e := shapes + [t.path];
        ReseedStep(shapes, t.path);
        forall j | 0 <= j < |e|
          ensures |e[j]| > 0 && IsFace(e[j], e[j][0], matrix, turn, anglesClose) &&
                  (e[j][0] in segments || Reverse(e[j][0]) in segments)
        {
          if j < |shapes| {
            assert e[j] == shapes[j];
          }
        }
      }
    }
  }

  /**
   * The whole seed loop keeps the invariants: from faces seeded from the
   * segments, with no shape reseeded, Collect over seeds taken from the
   * segments gives such faces again, and fails only with the KeyError.
   */
  lemma {:induction false} CollectKeeps(seeds: seq<Segment>, shapes: seq<seq<Segment>>, segments: seq<Segment>,
                                       matrix: Matrix, turn: TurnAngle, anglesClose: AngleCheck)
    requires Indexed(seeds, matrix)
    requires forall k :: 0 <= k < |seeds| ==> seeds[k] in segments || Reverse(seeds[k]) in segments
    requires FacesFrom(shapes, segments, matrix, turn, anglesClose) && NeverReseeded(shapes)
    ensures var c := Collect(seeds, shapes, matrix, turn, anglesClose);
      (c.Err? ==> c.failure == MissingKey) &&
      (c.Ok? ==> FacesFrom(c.value, segments, matrix, turn, anglesClose) && NeverReseeded(c.value))
    decreases |seeds|
  {
    if seeds != [] {
      SeedStep(seeds, shapes, segments, matrix, turn, anglesClose);
      var a := AttemptOf(seeds[0], shapes, matrix, turn, anglesClose);
      if a.Ok? {
        var rest := seeds[1..];
        assert forall k :: 0 <= k < |rest| ==> rest[k] == seeds[k + 1];
        CollectKeeps(rest, a.value, segments, matrix, turn, anglesClose);
      }
    }
  }

  /** The seed loop over all seeds of `segments`: the seeds are indexed, and CollectKeeps applies from no shapes. */
  lemma SeedsCollect(segments: seq<Segment>, matrix: Matrix, turn: TurnAngle, anglesClose: AngleCheck)
    requires forall s :: s in segments ==> s.0 in matrix && s.1 in matrix
    requires Closed(matrix)
    ensures Indexed(Seeds(segments), matrix)
    ensures var c := Collect(Seeds(segments), [], matrix, turn, anglesClose);
      (c.Err? ==> c.failure == MissingKey) &&
      (c.Ok? ==> FacesFrom(c.value, segments, matrix, turn, anglesClose) && NeverReseeded(c.value))
  {
    SeedsIndexed(segments, matrix);
    SeedsFrom(segments);
    CollectKeeps(Seeds(segments), [], segments, matrix, turn, anglesClose);
  }

  /** The seeds of segments whose endpoints are keys of a closed index are indexed. */
  lemma SeedsIndexed(segments: seq<Segment>, matrix: Matrix)
    requires forall s :: s in segments ==> s.0 in matrix && s.1 in matrix
    requires Closed(matrix)
    ensures Indexed(Seeds(segments), matrix)
  {
    var seeds := Seeds(segments);
    SeedsFrom(segments);
    forall k | 0 <= k < |seeds|
      ensures seeds[k].0 in matrix && seeds[k].1 in matrix
    {
      if Reverse(seeds[k]) in segments {
        assert Reverse(seeds[k]).0 == seeds[k].1;
      }
    }
  }

  /**
   * The attempt at seed m of the seed sequence: on success Collect moves on
   * to seed m + 1 from the new shapes; on failure it stops at the KeyError.
   */
  method AttemptAt(seed: Segment, ghost seeds: seq<Segment>, ghost m: int,
                   shapes: seq<seq<Segment>>, documented: set<Segment>,
                   matrix: Matrix, turn: TurnAngle, anglesClose: AngleCheck)
    returns (ok: bool, shapes': seq<seq<Segment>>, documented': set<Segment>)
    requires Indexed(seeds, matrix) && 0 <= m < |seeds| && seeds[m] == seed
    requires documented == Documented(shapes)
    ensures Indexed(seeds[m..], matrix) && Indexed(seeds[m + 1..], matrix)
    ensures !ok ==> Collect(seeds[m..], shapes, matrix, turn, anglesClose) == Err(MissingKey)
    ensures ok ==> Collect(seeds[m..], shapes, matrix, turn, anglesClose) ==
                   Collect(seeds[m + 1..], shapes', matrix, turn, anglesClose)
    ensures ok ==> documented' == Documented(shapes')
  {
    ok, shapes', documented' := Attempt(seed, shapes, documented, matrix, turn, anglesClose);
    CollectUnfold(seeds, m, shapes, matrix, turn, anglesClose);
  }

  /**
   * Lines 199-259 for one segment, seeds 2n and 2n + 1 of the loop: the
   * segment itself, then its reversal. On success Collect has moved past both
   * seeds; on failure it has stopped at the KeyError.
   */
  method TraceSegment(segment: Segment, ghost seeds: seq<Segment>, ghost n: int,
                      shapes: seq<seq<Segment>>, documented: set<Segment>,
                      matrix: Matrix, turn: TurnAngle, anglesClose: AngleCheck)
    returns (ok: bool, shapes': seq<seq<Segment>>, documented': set<Segment>)
    requires Indexed(seeds, matrix) && 0 <= 2 * n && 2 * n + 1 < |seeds|
    requires seeds[2 * n] == segment && seeds[2 * n + 1] == Reverse(segment)
    requires documented == Documented(shapes)
    ensures Indexed(seeds[2 * n..], matrix) && Indexed(seeds[2 * n + 2..], matrix)
    ensures !ok ==> Collect(seeds[2 * n..], shapes, matrix, turn, anglesClose) == Err(MissingKey)
    ensures ok ==> Collect(seeds[2 * n..], shapes, matrix, turn, anglesClose) ==
                   Collect(seeds[2 * n + 2..], shapes', matrix, turn, anglesClose)
    ensures ok ==> documented' == Documented(shapes')
  {
    var directed := segment;
    shapes', documented' := shapes, documented;
    CollectUnfold(seeds, 2 * n, shapes, matrix, turn, anglesClose);
    for i := 0 to 2
      invariant documented' == Documented(shapes')
      invariant directed == (if i <= 1 then segment else Reverse(segment))
      invariant Indexed(seeds[2 * n + i..], matrix)
      invariant Collect(seeds[2 * n..], shapes, matrix, turn, anglesClose) ==
                Collect(seeds[2 * n + i..], shapes', matrix, turn, anglesClose)
    {
      if i != 0 {
        directed := Reverse(directed);
      }
      var ok', shapes'', documented'' := AttemptAt(directed, seeds, 2 * n + i, shapes', documented',
                                                     matrix, turn, anglesClose);
      if !ok' {
        return false, shapes', documented';
      }
      shapes', documented' := shapes'', documented'';
    }
    ok := true;
  }

  /**
   * Lines 190-261 on a split segment list and its index: both directions of
   * every segment in turn, in list order, are tried as seeds.
   */
  method TraceShapes(segments: seq<Segment>, matrix: Matrix, turn: TurnAngle, anglesClose: AngleCheck)
    returns (r: Result<seq<seq<Segment>>>, documented: set<Segment>)
    requires forall s :: s in segments ==> s.0 in matrix && s.1 in matrix
    requires Closed(matrix)
    ensures Indexed(Seeds(segments), matrix)
    ensures r == Collect(Seeds(segments), [], matrix, turn, anglesClose)
    ensures r.Err? ==> r.failure == MissingKey
    ensures r.Ok? ==> FacesFrom(r.value, segments, matrix, turn, anglesClose)
    ensures r.Ok? ==> NeverReseeded(r.value) && EdgeDisjoint(r.value)
    ensures r.Ok? ==> documented == Documented(r.value)
  {
    ghost var seeds := Seeds(segments);
    SeedsAt(segments);
    SeedsIndexed(segments, matrix);
    var shapes: seq<seq<Segment>> := [];
    documented := {};
    assert seeds[0..] == seeds;
    for n := 0 to |segments|
      invariant documented == Documented(shapes)
      invariant Collect(seeds, [], matrix, turn, anglesClose) == Collect(seeds[2 * n..], shapes, matrix, turn, anglesClose)
    {
      var ok;
      ok, shapes, documented := TraceSegment(segments[n], seeds, n, shapes, documented, matrix, turn, anglesClose);
      if !ok {
        return Err(MissingKey), documented;
      }
    }
    assert seeds[2 * |segments|..] == [];
    r := Ok(shapes);
    SeedsCollect(segments, matrix, turn, anglesClose);
    FacesDisjoint(shapes, segments, matrix, turn, anglesClose);
  }

  // ---------------------------------------------------------------------
  // findAllShapes
  // ---------------------------------------------------------------------

  /** Every directed segment of `path` is a segment of `segs` in one of its directions. */
  ghost predicate InArrangement(path: seq<Segment>, segs: seq<Segment>) {
    forall k :: 0 <= k < |path| ==> path[k] in segs || Reverse(path[k]) in segs
  }

  /**
   * findAllShapes: split the segments into an arrangement, index it, and
   * trace the faces. The splitting recursion has `fuel` levels.
   */
  method FindAllShapes(segments: seq<Segment>, round: real -> real, turn: TurnAngle,
                       anglesClose: AngleCheck, fuel: nat)
    returns (r: Result<seq<seq<Segment>>>, ghost split: seq<Segment>, ghost matrix: Matrix)
    ensures Arranged(segments, round, fuel).None? ==> r == Err(OutOfFuel)
    ensures Arranged(segments, round, fuel).Some? ==>
      split == Arranged(segments, round, fuel).value && IsAdjacency(split, matrix) &&
      Indexed(Seeds(split), matrix) && r == Collect(Seeds(split), [], matrix, turn, anglesClose) &&
      (r.Err? ==> r == Err(MissingKey))
    ensures fuel == 0 ==> r == Err(OutOfFuel)
    ensures r.Ok? ==> |split| >= |segments| && (NoCrossings(segments) ==> split == segments)
    ensures r.Ok? ==> FacesFrom(r.value, split, matrix, turn, anglesClose) && NeverReseeded(r.value)
    ensures r.Ok? ==> EdgeDisjoint(r.value)
    ensures r.Ok? ==> forall j :: 0 <= j < |r.value| ==> InArrangement(r.value[j], split)
  {
    ArrangedSettled(segments, round, fuel);
    ArrangedLength(segments, round, fuel);
    var arrangement := SplitIntersections(segments, round, fuel);
    if arrangement.None? {
      return Err(OutOfFuel), [], map[];
    }
    var segs := arrangement.value;
    var index := GenerateAdjacencyMatrix(segs);
    split, matrix := segs, index;
    AdjacencyEdges(split, matrix);
    var documented;
    r, documented := TraceShapes(segs, index, turn, anglesClose);
    if r.Ok? {
      forall j, k | 0 <= j < |r.value| && 0 <= k < |r.value[j]|
        ensures r.value[j][k] in split || Reverse(r.value[j][k]) in split
      {
        var path := r.value[j];
        if k > 0 {
          var p, q := path[k].0, path[k].1;
          assert (p, q) in split || (q, p) in split;
        }
      }
    }
  }
}
