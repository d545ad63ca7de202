/**
 * The adjacency index (generateAdjacencyMatrix, perimeterProduct.py lines
 * 140-149): a dictionary from each endpoint to the list of points joined to
 * it, filled by appending both directions of every segment in list order.
 */
module Adjacency {
  import opened Geometry

  type Matrix = map<Point, seq<Point>>

  /** Every endpoint of every segment of `segs`. */
  function Endpoints(segs: seq<Segment>): set<Point> {
    (set k | 0 <= k < |segs| :: segs[k].0) + (set k | 0 <= k < |segs| :: segs[k].1)
  }

  /** What segment `s` appends to the list of `p`: its far end, once per matching end. */
  function Contribution(s: Segment, p: Point): seq<Point> {
    (if s.0 == p then [s.1] else []) + (if s.1 == p then [s.0] else [])
  }

  /** The list that `segs`, taken in order, builds for point `p`. */
  function Neighbours(segs: seq<Segment>, p: Point): seq<Point> {
    if segs == [] then []
    else Neighbours(segs[..|segs| - 1], p) + Contribution(segs[|segs| - 1], p)
  }

  /** `m` is the index of `segs`: keyed by the endpoints, each list built in order. */
  ghost predicate IsAdjacency(segs: seq<Segment>, m: Matrix) {
    m.Keys == Endpoints(segs) &&
    forall p :: p in m ==> m[p] == Neighbours(segs, p)
  }

  /** Every neighbour listed in `m` is itself a key of `m`. */
  ghost predicate Closed(m: Matrix) {
    forall p, q :: p in m && q in m[p] ==> q in m
  }

  lemma EndpointsSnoc(segs: seq<Segment>, s: Segment)
    ensures Endpoints(segs + [s]) == Endpoints(segs) + {s.0, s.1}
  {
    var e := segs + [s];
    forall x | x in Endpoints(e)
      ensures x in Endpoints(segs) + {s.0, s.1}
    {
      var t :| t in e && (x == t.0 || x == t.1);
      if t != s {
        assert t in segs;
      }
    }
    forall x | x in Endpoints(segs)
      ensures x in Endpoints(e)
    {
      var t :| t in segs && (x == t.0 || x == t.1);
      assert t in e;
    }
    assert s in e;
  }

  lemma EndpointsCons(segs: seq<Segment>)
    requires segs != []
    ensures Endpoints(segs) == {segs[0].0, segs[0].1} + Endpoints(segs[1..])
  {
    assert segs == [segs[0]] + segs[1..];
    forall x | x in Endpoints(segs)
      ensures x in {segs[0].0, segs[0].1} + Endpoints(segs[1..])
    {
      var t :| t in segs && (x == t.0 || x == t.1);
      if t != segs[0] {
        assert t in segs[1..];
      }
    }
    forall x | x in Endpoints(segs[1..])
      ensures x in Endpoints(segs)
    {
      var t :| t in segs[1..] && (x == t.0 || x == t.1);
      assert t in segs;
    }
  }

  /** `matrix.setdefault(key, []).append(value)`. */
  function Append(m: Matrix, key: Point, value: Point): (r: Matrix)
    ensures r.Keys == m.Keys + {key}
    ensures r[key] == (if key in m then m[key] else []) + [value]
    ensures forall p :: p in m && p != key ==> r[p] == m[p]
  {
    m[key := (if key in m then m[key] else []) + [value]]
  }

  /** The value a key has in `m`, empty when it is missing. */
  function ListOf(m: Matrix, p: Point): seq<Point> {
    if p in m then m[p] else []
  }

  /** One append extends the list of its key and of no other point. */
  lemma ListOfAppend(m: Matrix, key: Point, value: Point, p: Point)
    ensures ListOf(Append(m, key, value), p) == ListOf(m, p) + (if p == key then [value] else [])
  {
  }

  /** Under an exact index, every point's list (empty off the keys) is its neighbour list. */
  lemma ListOfIsNeighbours(segs: seq<Segment>, m: Matrix, p: Point)
    requires IsAdjacency(segs, m)
    ensures ListOf(m, p) == Neighbours(segs, p)
  {
    if p !in m {
      NeighboursOutside(segs, p);
    }
  }

  /** The two appends for one more segment give every point its new neighbour list. */
  lemma AdjacencyStepAt(segs: seq<Segment>, s: Segment, m: Matrix, p: Point)
    requires IsAdjacency(segs, m)
    ensures ListOf(Append(Append(m, s.0, s.1), s.1, s.0), p) == Neighbours(segs + [s], p)
  {
    var e := segs + [s];
    assert e[..|e| - 1] == segs;
    assert Neighbours(e, p) == Neighbours(segs, p) + Contribution(s, p);
    ListOfIsNeighbours(segs, m, p);
    ListOfAppend(m, s.0, s.1, p);
    ListOfAppend(Append(m, s.0, s.1), s.1, s.0, p);
  }

  /** The two appends for one more segment keep the index exact. */
  lemma AdjacencyStep(segs: seq<Segment>, s: Segment, m: Matrix)
    requires IsAdjacency(segs, m)
    ensures IsAdjacency(segs + [s], Append(Append(m, s.0, s.1), s.1, s.0))
  {
    EndpointsSnoc(segs, s);
    var r := Append(Append(m, s.0, s.1), s.1, s.0);
    forall p | p in r
      ensures r[p] == Neighbours(segs + [s], p)
    {
      AdjacencyStepAt(segs, s, m, p);
    }
  }

  /**
   * The loop of generateAdjacencyMatrix: both endpoints of each segment in
   * turn get the other one appended (a missing key starts as an empty list).
   */
  method GenerateAdjacencyMatrix(segments: seq<Segment>) returns (m: Matrix)
    ensures IsAdjacency(segments, m)
  {
    m := map[];
    for k := 0 to |segments|
      invariant IsAdjacency(segments[..k], m)
    {
      var s := segments[k];
      AdjacencyStep(segments[..k], s, m);
      assert segments[..k + 1] == segments[..k] + [s];
      m := Append(m, s.0, s.1);
      m := Append(m, s.1, s.0);
    }
    assert segments[..|segments|] == segments;
  }

  /** A point that is no endpoint has an empty list. */
  lemma {:induction false} NeighboursOutside(segs: seq<Segment>, p: Point)
    requires p !in Endpoints(segs)
    ensures Neighbours(segs, p) == []
  {
    if segs != [] {
      var init := segs[..|segs| - 1];
      EndpointsSnoc(init, segs[|segs| - 1]);
      assert segs == init + [segs[|segs| - 1]];
      NeighboursOutside(init, p);
    }
  }

  /**
   * `q` is listed for `p` exactly when some segment joins them, in either
   * direction: the index is undirected and adds no other points.
   */
  lemma {:induction false} NeighboursExact(segs: seq<Segment>, p: Point, q: Point)
    ensures q in Neighbours(segs, p) <==> (p, q) in segs || (q, p) in segs
  {
    if segs != [] {
      var init, s := segs[..|segs| - 1], segs[|segs| - 1];
      assert segs == init + [s];
      NeighboursExact(init, p, q);
      assert q in Contribution(s, p) <==> s == (p, q) || s == (q, p);
    }
  }

  /** Both directions of every segment are recorded, and only those. */
  lemma AdjacencyEdges(segs: seq<Segment>, m: Matrix)
    requires IsAdjacency(segs, m)
    ensures forall s :: s in segs ==> s.0 in m && s.1 in m[s.0] && s.1 in m && s.0 in m[s.1]
    ensures forall p, q :: p in m && q in m[p] ==> (p, q) in segs || (q, p) in segs
    ensures Closed(m)
  {
    forall s | s in segs
      ensures s.0 in m && s.1 in m[s.0] && s.1 in m && s.0 in m[s.1]
    {
      NeighboursExact(segs, s.0, s.1);
      NeighboursExact(segs, s.1, s.0);
    }
    forall p, q | p in m && q in m[p]
      ensures (p, q) in segs || (q, p) in segs
    {
      NeighboursExact(segs, p, q);
    }
    forall p, q | p in m && q in m[p]
      ensures q in m
    {
      NeighboursExact(segs, p, q);
      if (p, q) in segs {
        assert q == (p, q).1;
      } else {
        assert q == (q, p).0;
      }
    }
  }

  // ---------------------------------------------------------------------
  // Total length of the neighbour lists
  // ---------------------------------------------------------------------

  ghost predicate Distinct(ks: seq<Point>) {
    forall a, b :: 0 <= a < b < |ks| ==> ks[a] != ks[b]
  }

  /** The summed lengths of the lists of the points `ks`. */
  function TotalLength(m: Matrix, ks: seq<Point>): nat
    requires forall k :: k in ks ==> k in m
  {
    if ks == [] then 0 else |m[ks[0]]| + TotalLength(m, ks[1..])
  }

  /** The summed lengths of the lists that `segs` builds for the points `ks`. */
  function DegreeSum(segs: seq<Segment>, ks: seq<Point>): nat {
    if ks == [] then 0 else |Neighbours(segs, ks[0])| + DegreeSum(segs, ks[1..])
  }

  /** How often `x` occurs in `ks`. */
  function Occurrences(ks: seq<Point>, x: Point): nat {
    if ks == [] then 0 else (if ks[0] == x then 1 else 0) + Occurrences(ks[1..], x)
  }

  lemma {:induction false} OccursOnce(ks: seq<Point>, x: Point)
    requires Distinct(ks) && x in ks
    ensures Occurrences(ks, x) == 1
  {
    if ks[0] == x {
      OccursNever(ks[1..], x);
    } else {
      OccursOnce(ks[1..], x);
    }
  }

  lemma {:induction false} OccursNever(ks: seq<Point>, x: Point)
    requires x !in ks
    ensures Occurrences(ks, x) == 0
  {
    if ks != [] {
      OccursNever(ks[1..], x);
    }
  }

  /** Adding one segment adds, over all points, one entry per endpoint occurrence. */
  lemma {:induction false} DegreeSumSnoc(segs: seq<Segment>, s: Segment, ks: seq<Point>)
    ensures DegreeSum(segs + [s], ks) == DegreeSum(segs, ks) + Occurrences(ks, s.0) + Occurrences(ks, s.1)
  {
    if ks != [] {
      var e := segs + [s];
      assert e[..|e| - 1] == segs;
      DegreeSumSnoc(segs, s, ks[1..]);
    }
  }

  /** The lists of the points of any duplicate-free cover of the endpoints hold 2*|segs| entries. */
  lemma {:induction false} DegreeSumTotal(segs: seq<Segment>, ks: seq<Point>)
    requires Distinct(ks) && Endpoints(segs) <= set k | k in ks
    ensures DegreeSum(segs, ks) == 2 * |segs|
  {
    if segs == [] {
      DegreeSumEmpty(ks);
    } else {
      var init, s := segs[..|segs| - 1], segs[|segs| - 1];
      assert segs == init + [s];
      EndpointsSnoc(init, s);
      DegreeSumTotal(init, ks);
      DegreeSumSnoc(init, s, ks);
      assert s.0 in (set k | k in ks) && s.1 in (set k | k in ks);
      OccursOnce(ks, s.0);
      OccursOnce(ks, s.1);
    }
  }

  lemma {:induction false} DegreeSumEmpty(ks: seq<Point>)
    ensures DegreeSum([], ks) == 0
  {
    if ks != [] {
      DegreeSumEmpty(ks[1..]);
    }
  }

  lemma {:induction false} TotalLengthIsDegreeSum(segs: seq<Segment>, m: Matrix, ks: seq<Point>)
    requires IsAdjacency(segs, m)
    requires forall k :: k in ks ==> k in m
    ensures TotalLength(m, ks) == DegreeSum(segs, ks)
  {
    if ks != [] {
      TotalLengthIsDegreeSum(segs, m, ks[1..]);
    }
  }

  /**
   * Listing every key once, the neighbour lists of the index have total
   * length twice the number of segments.
   */
  lemma AdjacencyTotal(segs: seq<Segment>, m: Matrix, ks: seq<Point>)
    requires IsAdjacency(segs, m)
    requires Distinct(ks) && (set k | k in ks) == m.Keys
    ensures TotalLength(m, ks) == 2 * |segs|
  {
    TotalLengthIsDegreeSum(segs, m, ks);
    DegreeSumTotal(segs, ks);
  }
}
