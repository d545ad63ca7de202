/**
 * Perimeter and product aggregation (getPerimeter and getPerimeterProduct,
 * perimeterProduct.py lines 31-37 and 263-281).
 *
 * The Euclidean length of a segment (a float square root in the source) is
 * the parameter `length`.
 */
module Aggregator {
  import opened Geometry
  import opened Arrangement
  import opened Adjacency
  import opened FaceTracer

  type Length = Segment -> real

  /** The summed lengths of the segments of `shape`, added in list order. */
  function SumLengths(shape: seq<Segment>, length: Length): real {
    if shape == [] then 0.0
    else SumLengths(shape[..|shape| - 1], length) + length(shape[|shape| - 1])
  }

  /** The product of `f` over `xs`, multiplied in list order. */
  function Product<T>(xs: seq<T>, f: T -> real): real {
    if xs == [] then 1.0
    else Product(xs[..|xs| - 1], f) * f(xs[|xs| - 1])
  }

  /** The perimeter of a shape, as a function to multiply over. */
  function PerimeterOf(length: Length): seq<Segment> -> real {
    shape => SumLengths(shape, length)
  }

  /** The product of the perimeters of `shapes`, multiplied in list order. */
  function ProductOfPerimeters(shapes: seq<seq<Segment>>, length: Length): real {
    Product(shapes, PerimeterOf(length))
  }

  /** getPerimeter: the loop that adds up the segment lengths of one shape. */
  method GetPerimeter(shape: seq<Segment>, length: Length) returns (perimeter: real)
    ensures perimeter == SumLengths(shape, length)
  {
    perimeter := 0.0;
    for k := 0 to |shape|
      invariant perimeter == SumLengths(shape[..k], length)
    {
      assert shape[..k + 1][..k] == shape[..k];
      perimeter := perimeter + length(shape[k]);
    }
    assert shape[..|shape|] == shape;
  }

  /** The loop of getPerimeterProduct: multiplies up the perimeters of `shapes`. */
  method MultiplyPerimeters(shapes: seq<seq<Segment>>, length: Length) returns (product: real)
    ensures product == ProductOfPerimeters(shapes, length)
  {
    product := 1.0;
    for j := 0 to |shapes|
      invariant product == Product(shapes[..j], PerimeterOf(length))
    {
      var perimeter := GetPerimeter(shapes[j], length);
      assert shapes[..j + 1][..j] == shapes[..j];
      product := product * perimeter;
    }
    assert shapes[..|shapes|] == shapes;
  }

  /**
   * getPerimeterProduct: 0 for fewer than three segments, otherwise the
   * product of the perimeters of the shapes findAllShapes finds (1 when it
   * finds none). `shapes` is that list of shapes, `split` the split segment
   * list and `matrix` its index.
   */
  method GetPerimeterProduct(segments: seq<Segment>, length: Length, round: real -> real,
                             turn: TurnAngle, anglesClose: AngleCheck, fuel: nat)
    returns (r: Result<real>, ghost shapes: seq<seq<Segment>>, ghost split: seq<Segment>, ghost matrix: Matrix)
    ensures |segments| < 3 ==> r == Ok(0.0)
    ensures |segments| >= 3 && Arranged(segments, round, fuel).None? ==> r == Err(OutOfFuel)
    ensures |segments| >= 3 && fuel == 0 ==> r == Err(OutOfFuel)
    ensures |segments| >= 3 && Arranged(segments, round, fuel).Some? ==>
      split == Arranged(segments, round, fuel).value && IsAdjacency(split, matrix) &&
      Indexed(Seeds(split), matrix) &&
      (r.Ok? <==> Collect(Seeds(split), [], matrix, turn, anglesClose).Ok?) &&
      (r.Ok? ==> shapes == Collect(Seeds(split), [], matrix, turn, anglesClose).value) &&
      (r.Err? ==> r == Err(MissingKey))
    ensures |segments| >= 3 && r.Ok? ==>
      r.value == ProductOfPerimeters(shapes, length) &&
      FacesFrom(shapes, split, matrix, turn, anglesClose) && NeverReseeded(shapes) &&
      EdgeDisjoint(shapes) &&
      forall j :: 0 <= j < |shapes| ==> |shapes[j]| >= 3 && InArrangement(shapes[j], split)
    ensures |segments| >= 3 && r.Ok? && shapes == [] ==> r.value == 1.0
  {
    shapes, split, matrix := [], [], map[];
    if |segments| < 3 {
      return Ok(0.0), shapes, split, matrix;
    }
    var found;
    found, split, matrix := FindAllShapes(segments, round, turn, anglesClose, fuel);
    if found.Err? {
      return Err(found.failure), shapes, split, matrix;
    }
    shapes := found.value;
    var product := MultiplyPerimeters(found.value, length);
    r := Ok(product);
  }

  // ---------------------------------------------------------------------
  // Properties
  // ---------------------------------------------------------------------

  /** Cutting out index i < |xs| - 1 commutes with dropping the last element. */
  lemma CutBeforeLast<T>(xs: seq<T>, i: int)
    requires 0 <= i < |xs| - 1
    ensures var ys, init := xs[..i] + xs[i + 1..], xs[..|xs| - 1];
      ys[..|ys| - 1] == init[..i] + init[i + 1..] && ys[|ys| - 1] == xs[|xs| - 1]
  {
    var ys, init := xs[..i] + xs[i + 1..], xs[..|xs| - 1];
    assert ys[..|ys| - 1] == init[..i] + init[i + 1..];
  }

  /** Cancelling the last element of `xs` against an equal element of `ys` keeps the multisets equal. */
  lemma MatchLast<T>(xs: seq<T>, ys: seq<T>, i: int)
    requires multiset(xs) == multiset(ys) && xs != []
    requires 0 <= i < |ys| && ys[i] == xs[|xs| - 1]
    ensures multiset(xs[..|xs| - 1]) == multiset(ys[..i] + ys[i + 1..])
  {
    var n, x := |xs|, xs[|xs| - 1];
    MultisetSnoc(xs[..n - 1], x);
    assert xs[..n - 1] + [x] == xs;
    MultisetCut(ys, i);
  }

  /** Appending `x` adds one `x` to the multiset. */
  lemma MultisetSnoc<T>(xs: seq<T>, x: T)
    ensures multiset(xs + [x]) == multiset(xs) + multiset{x}
  {
  }

  /** Cutting out index i takes one `ys[i]` out of the multiset. */
  lemma MultisetCut<T>(ys: seq<T>, i: int)
    requires 0 <= i < |ys|
    ensures multiset(ys[..i] + ys[i + 1..]) == multiset(ys) - multiset{ys[i]}
  {
    var before, after := ys[..i], ys[i + 1..];
    assert ys == before + [ys[i]] + after;
    assert multiset(ys) == multiset(before) + multiset{ys[i]} + multiset(after);
  }

  /** A value in the multiset of a sequence sits at some index of it. */
  lemma IndexOf<T>(ys: seq<T>, x: T) returns (i: int)
    requires x in multiset(ys)
    ensures 0 <= i < |ys| && ys[i] == x
  {
    assert x in ys;
    i :| 0 <= i < |ys| && ys[i] == x;
  }

  /** Taking out the element at `i` takes its length out of the sum. */
  lemma {:induction false} SumLengthsRemove(xs: seq<Segment>, i: int, length: Length)
    requires 0 <= i < |xs|
    ensures SumLengths(xs, length) == SumLengths(xs[..i] + xs[i + 1..], length) + length(xs[i])
  {
    var n := |xs|;
    if i < n - 1 {
      SumLengthsRemove(xs[..n - 1], i, length);
      CutBeforeLast(xs, i);
    } else {
      assert xs[..i] + xs[i + 1..] == xs[..n - 1];
    }
  }

  /**
   * A perimeter does not depend on the order in which a shape lists its
   * segments: permuted lists have equal sums.
   */
  lemma {:induction false} SumLengthsPermutation(xs: seq<Segment>, ys: seq<Segment>, length: Length)
    requires multiset(xs) == multiset(ys)
    ensures SumLengths(xs, length) == SumLengths(ys, length)
  {
    if xs != [] {
      var n := |xs|;
      var i := IndexOf(ys, xs[n - 1]);
      MatchLast(xs, ys, i);
      SumLengthsPermutation(xs[..n - 1], ys[..i] + ys[i + 1..], length);
      SumLengthsRemove(ys, i, length);
    } else {
      assert |ys| == |multiset(ys)| == 0;
    }
  }

  /** A nonempty shape whose segments all have positive length has a positive perimeter. */
  lemma {:induction false} PerimeterPositive(shape: seq<Segment>, length: Length)
    requires shape != []
    requires forall k :: 0 <= k < |shape| ==> length(shape[k]) > 0.0
    ensures SumLengths(shape, length) > 0.0
  {
    var init := shape[..|shape| - 1];
    if init != [] {
      PerimeterPositive(init, length);
    }
  }

  /** A product of positive factors is positive. */
  lemma {:induction false} ProductPositive<T>(xs: seq<T>, f: T -> real)
    requires forall j :: 0 <= j < |xs| ==> f(xs[j]) > 0.0
    ensures Product(xs, f) > 0.0
  {
    if xs != [] {
      ProductPositive(xs[..|xs| - 1], f);
    }
  }

  /**
   * With positive segment lengths, a product over found shapes is never 0:
   * the result 0 comes only from the fewer-than-three-segments guard.
   */
  lemma ProductOfPerimetersPositive(shapes: seq<seq<Segment>>, length: Length)
    requires forall j :: 0 <= j < |shapes| ==> shapes[j] != []
    requires forall j, k :: 0 <= j < |shapes| && 0 <= k < |shapes[j]| ==> length(shapes[j][k]) > 0.0
    ensures ProductOfPerimeters(shapes, length) > 0.0
  {
    forall j | 0 <= j < |shapes|
      ensures PerimeterOf(length)(shapes[j]) > 0.0
    {
      PerimeterPositive(shapes[j], length);
    }
    ProductPositive(shapes, PerimeterOf(length));
  }
}
