/**
 * The arrangement builder (splitIntersections, perimeterProduct.py lines
 * 94-134): find the first pair of distinct segments that properly cross,
 * remove both, append the up-to-four pieces that meet at their intersection
 * point, and recurse on the part of the list from the first crossing on.
 *
 * The intersection point is rounded in the source; here the rounding is the
 * parameter `round`, applied to each coordinate, and every property below
 * holds whatever it is.
 */
module Arrangement {
  import opened Geometry

  /** `segs[a]` and `segs[b]` are different values that properly cross. */
  predicate Crosses(segs: seq<Segment>, a: int, b: int)
    requires 0 <= a < |segs| && 0 <= b < |segs|
  {
    segs[a] != segs[b] && Intersects(segs[a], segs[b])
  }

  /** No segment of `segs` before index `i` crosses any segment of `segs`. */
  predicate SettledBefore(segs: seq<Segment>, i: int) {
    0 <= i <= |segs| &&
    forall a, b :: 0 <= a < i && 0 <= b < |segs| ==> !Crosses(segs, a, b)
  }

  /** No two segments of `segs` properly cross: a planar arrangement. */
  predicate NoCrossings(segs: seq<Segment>) {
    SettledBefore(segs, |segs|)
  }

  /**
   * (i, j) is the pair the source's double loop stops at: `i` is the first
   * index that has a crossing partner, `j` the first partner of `segs[i]`.
   */
  predicate IsFirstCrossing(segs: seq<Segment>, i: int, j: int) {
    0 <= i < |segs| && 0 <= j < |segs| && Crosses(segs, i, j) &&
    SettledBefore(segs, i) &&
    forall b :: 0 <= b < j ==> !Crosses(segs, i, b)
  }

  /**
   * Python's `list.remove`: drops the first occurrence of `x`. The source's
   * callers only remove values that are present; a missing one raises
   * ValueError, so the value is required to be in the list.
   */
  function RemoveFirst(s: seq<Segment>, x: Segment): (r: seq<Segment>)
    requires x in s
    ensures |r| == |s| - 1
  {
    assert s == [s[0]] + s[1..];
    if s[0] == x then s[1..]
    else [s[0]] + RemoveFirst(s[1..], x)
  }

  /** Removing a value whose first occurrence is at `k` cuts out index `k`. */
  lemma {:induction false} RemoveFirstAt(s: seq<Segment>, k: int)
    requires 0 <= k < |s|
    requires forall m :: 0 <= m < k ==> s[m] != s[k]
    ensures RemoveFirst(s, s[k]) == s[..k] + s[k + 1..]
  {
    if k > 0 {
      assert s[1..][k - 1] == s[k] && s[0] != s[k];
      RemoveFirstAt(s[1..], k - 1);
      assert RemoveFirst(s, s[k]) == [s[0]] + RemoveFirst(s[1..], s[k]);
      assert s[1..][..k - 1] + s[1..][k..] == s[1..k] + s[k + 1..];
      assert s[..k] == [s[0]] + s[1..k];
    }
  }

  /** The piece from endpoint `e` to the split point `p`, unless it has length 0. */
  function Piece(e: Point, p: Point): seq<Segment> {
    if e != p then [(e, p)] else []
  }

  /** The pieces appended in the order s1[0], s1[1], s2[0], s2[1]. */
  function Replacements(s1: Segment, s2: Segment, p: Point): seq<Segment> {
    Piece(s1.0, p) + Piece(s1.1, p) + Piece(s2.0, p) + Piece(s2.1, p)
  }

  /** The rounded intersection point the source splits at. */
  function SplitPoint(s1: Segment, s2: Segment, round: real -> real): Point
    requires Det(s1, s2) != 0.0
  {
    var p := IntersectionPoint(s1, s2);
    (round(p.0), round(p.1))
  }

  /**
   * Two crossing segments are always replaced by three or four pieces, wherever
   * the (rounded) split point lands: at most one endpoint of each segment can
   * coincide with it, and not one of each, as they share no endpoint.
   */
  lemma ReplacementCount(s1: Segment, s2: Segment, p: Point)
    requires Intersects(s1, s2)
    ensures 3 <= |Replacements(s1, s2, p)| <= 4
  {
  }

  /** Every piece is a proper segment that ends at the split point. */
  lemma ReplacementShape(s1: Segment, s2: Segment, p: Point)
    ensures forall r :: r in Replacements(s1, s2, p) ==>
      r.1 == p && r.0 != p && r.0 in {s1.0, s1.1, s2.0, s2.1}
  {
  }

  /**
   * The first crossing pair always has i < j (a partner before i would have
   * made an earlier index cross), and both segments are the first occurrences
   * of their values (an earlier copy would have been reached first).
   */
  lemma FirstCrossingOrder(segs: seq<Segment>, i: int, j: int)
    requires IsFirstCrossing(segs, i, j)
    ensures i < j
    ensures forall m :: 0 <= m < i ==> segs[m] != segs[i]
    ensures forall m :: 0 <= m < j ==> segs[m] != segs[j]
  {
    IntersectsSymmetric(segs[i], segs[j]);
    assert j < i ==> !Crosses(segs, j, i);
    forall m | 0 <= m < i
      ensures segs[m] != segs[i]
    {
      assert !Crosses(segs, m, j);
    }
    forall m | 0 <= m < j
      ensures segs[m] != segs[j]
    {
      assert !Crosses(segs, i, m);
    }
  }

  /**
   * Removing two first occurrences at i < j, one after the other, cuts out
   * exactly those indices.
   */
  lemma RemoveTwo(segs: seq<Segment>, i: int, j: int)
    requires 0 <= i < j < |segs|
    requires forall m :: 0 <= m < i ==> segs[m] != segs[i]
    requires forall m :: 0 <= m < j ==> segs[m] != segs[j]
    ensures RemoveFirst(segs, segs[i]) == segs[..i] + segs[i + 1..]
    ensures RemoveFirst(segs[..i] + segs[i + 1..], segs[j]) == segs[..i] + segs[i + 1..j] + segs[j + 1..]
  {
    RemoveFirstAt(segs, i);
    RemoveSecond(segs, i, j);
  }

  /** The second removal, of the value at j, from the list with index i < j cut out. */
  lemma RemoveSecond(segs: seq<Segment>, i: int, j: int)
    requires 0 <= i < j < |segs|
    requires forall m :: 0 <= m < j ==> segs[m] != segs[j]
    ensures RemoveFirst(segs[..i] + segs[i + 1..], segs[j]) == segs[..i] + segs[i + 1..j] + segs[j + 1..]
  {
    var t := segs[..i] + segs[i + 1..];
    StillFirst(segs, i, j);
    RemoveFirstAt(t, j - 1);
    CutTwice(segs, i, j);
  }

  /** After cutting out index i < j, the value at j is still a first occurrence, now at j - 1. */
  lemma StillFirst(segs: seq<Segment>, i: int, j: int)
    requires 0 <= i < j < |segs|
    requires forall m :: 0 <= m < j ==> segs[m] != segs[j]
    ensures var t := segs[..i] + segs[i + 1..];
      t[j - 1] == segs[j] && forall m :: 0 <= m < j - 1 ==> t[m] != t[j - 1]
  {
    var t := segs[..i] + segs[i + 1..];
    assert t[j - 1] == segs[j];
    forall m | 0 <= m < j - 1
      ensures t[m] != t[j - 1]
    {
      if m < i {
        assert t[m] == segs[m];
      } else {
        assert t[m] == segs[m + 1];
      }
    }
  }

  lemma CutTwice(segs: seq<Segment>, i: int, j: int)
    requires 0 <= i < j < |segs|
    ensures var t := segs[..i] + segs[i + 1..];
      t[..j - 1] + t[j..] == segs[..i] + segs[i + 1..j] + segs[j + 1..]
  {
    var t := segs[..i] + segs[i + 1..];
    assert t[..j - 1] == segs[..i] + segs[i + 1..j];
    assert t[j..] == segs[j + 1..];
  }

  /** The two `remove` calls of a split step cut out exactly indices i and j. */
  lemma FirstCrossingRemoval(segs: seq<Segment>, i: int, j: int)
    requires IsFirstCrossing(segs, i, j)
    ensures i < j
    ensures RemoveFirst(segs, segs[i]) == segs[..i] + segs[i + 1..]
    ensures RemoveFirst(segs[..i] + segs[i + 1..], segs[j]) == segs[..i] + segs[i + 1..j] + segs[j + 1..]
  {
    FirstCrossingOrder(segs, i, j);
    RemoveTwo(segs, i, j);
  }

  /**
   * The rewrite of lines 112-127: remove both segments (first occurrences),
   * then append the pieces from each endpoint that is not the split point.
   */
  method SplitPair(segments: seq<Segment>, segment1: Segment, segment2: Segment, p: Point)
    returns (result: seq<Segment>)
    requires segment1 in segments && segment2 in RemoveFirst(segments, segment1)
    ensures result == RemoveFirst(RemoveFirst(segments, segment1), segment2) +
                      Replacements(segment1, segment2, p)
  {
    result := RemoveFirst(segments, segment1);
    result := RemoveFirst(result, segment2);
    ghost var kept := result;
    if segment1.0 != p { result := result + [(segment1.0, p)]; }
    assert result == kept + Piece(segment1.0, p);
    if segment1.1 != p { result := result + [(segment1.1, p)]; }
    assert result == kept + Piece(segment1.0, p) + Piece(segment1.1, p);
    if segment2.0 != p { result := result + [(segment2.0, p)]; }
    assert result == kept + Piece(segment1.0, p) + Piece(segment1.1, p) + Piece(segment2.0, p);
    if segment2.1 != p { result := result + [(segment2.1, p)]; }
    assert result == kept + Piece(segment1.0, p) + Piece(segment1.1, p) + Piece(segment2.0, p) + Piece(segment2.1, p);
    AppendReplacements(kept, segment1, segment2, p);
  }

  /** Appending the pieces one by one appends the replacements. */
  lemma AppendReplacements(kept: seq<Segment>, s1: Segment, s2: Segment, p: Point)
    ensures kept + Piece(s1.0, p) + Piece(s1.1, p) + Piece(s2.0, p) + Piece(s2.1, p) ==
            kept + Replacements(s1, s2, p)
  {
  }

  /**
   * One step of splitIntersections: either no two segments cross and the list
   * is returned as it is, or the first crossing pair (i, j) is removed and its
   * pieces are appended; all other segments keep their relative order.
   */
  method SplitStep(segments: seq<Segment>, round: real -> real)
    returns (found: bool, i: nat, ghost j: nat, result: seq<Segment>)
    ensures !found ==> NoCrossings(segments) && result == segments
    ensures found ==> IsFirstCrossing(segments, i, j) && i < j
    ensures found ==> Det(segments[i], segments[j]) != 0.0
    ensures found ==>
      result == segments[..i] + segments[i + 1..j] + segments[j + 1..] +
                Replacements(segments[i], segments[j], SplitPoint(segments[i], segments[j], round))
  {
    i := 0;
    while i < |segments|
      invariant 0 <= i <= |segments|
      invariant SettledBefore(segments, i)
    {
      var k := PartnerOf(segments, i);
      if k < |segments| {
        var segment1, segment2 := segments[i], segments[k];
        j := k;
        IntersectsNotParallel(segment1, segment2);
        FirstCrossingRemoval(segments, i, j);
        var p := SplitPoint(segment1, segment2, round);
        result := SplitPair(segments, segment1, segment2, p);
        found := true;
        return;
      }
      i := i + 1;
    }
    found, i, j, result := false, 0, 0, segments;
  }

  /**
   * The inner loop of splitIntersections: the first index whose segment
   * crosses segment `i`, or |segments| when there is none.
   */
  method PartnerOf(segments: seq<Segment>, i: nat) returns (k: nat)
    requires i < |segments|
    ensures k == FirstPartner(segments, i, 0)
  {
    var segment1 := segments[i];
    k := 0;
    while k < |segments|
      invariant 0 <= k <= |segments|
      invariant FirstPartner(segments, i, 0) == FirstPartner(segments, i, k)
    {
      var segment2 := segments[k];
      if segment1 != segment2 && Intersects(segment1, segment2) {
        return;
      }
      k := k + 1;
    }
  }

  /** The first index from `b` on whose segment crosses segment `a`, or |segs| when there is none. */
  function FirstPartner(segs: seq<Segment>, a: int, b: int): (r: int)
    requires 0 <= a < |segs| && 0 <= b <= |segs|
    ensures b <= r <= |segs|
    ensures r < |segs| ==> Crosses(segs, a, r)
    ensures forall c :: b <= c < r ==> !Crosses(segs, a, c)
    decreases |segs| - b
  {
    if b == |segs| then |segs|
    else if Crosses(segs, a, b) then b
    else FirstPartner(segs, a, b + 1)
  }

  /**
   * The double loop of splitIntersections as a function: the first crossing
   * pair whose first index is at least `a`, or None when no segment from `a`
   * on crosses anything.
   */
  function FirstCrossing(segs: seq<Segment>, a: int): (r: Option<(int, int)>)
    requires SettledBefore(segs, a)
    ensures r.None? ==> NoCrossings(segs)
    ensures r.Some? ==> IsFirstCrossing(segs, r.value.0, r.value.1)
    decreases |segs| - a
  {
    if a == |segs| then None
    else
      var b := FirstPartner(segs, a, 0);
      if b < |segs| then Some((a, b))
      else FirstCrossing(segs, a + 1)
  }

  /** The first crossing pair is unique. */
  lemma FirstCrossingUnique(segs: seq<Segment>, i: int, j: int)
    requires IsFirstCrossing(segs, i, j)
    ensures forall i', j' :: IsFirstCrossing(segs, i', j') ==> i' == i && j' == j
  {
    forall i', j' | IsFirstCrossing(segs, i', j')
      ensures i' == i && j' == j
    {
      assert !(i < i') && !(i' < i);
      assert !(j < j') && !(j' < j);
    }
  }

  /**
   * One split of a list that has a crossing pair (i, j), cut at index i: the
   * first i segments, which the split keeps in place, and the rest of the list
   * with both segments removed and the pieces meeting at their split point
   * appended.
   */
  ghost function SplitOnce(segs: seq<Segment>, round: real -> real): (seq<Segment>, seq<Segment>)
    requires !NoCrossings(segs)
  {
    var (i, j) := FirstCrossing(segs, 0).value;
    FirstCrossingOrder(segs, i, j);
    IntersectsNotParallel(segs[i], segs[j]);
    (segs[..i], segs[i + 1..j] + segs[j + 1..] +
        Replacements(segs[i], segs[j], SplitPoint(segs[i], segs[j], round)))
  }

  /**
   * The list splitIntersections builds, as a function of its input: None once
   * the fuel is spent, the list itself when nothing crosses, and otherwise the
   * list after splitting the first crossing pair (i, j), whose first i
   * segments are kept and whose remainder from i on is arranged again.
   */
  ghost function Arranged(segs: seq<Segment>, round: real -> real, fuel: nat): Option<seq<Segment>>
    decreases fuel
  {
    if fuel == 0 then None
    else if NoCrossings(segs) then Some(segs)
    else
      var (kept, remainder) := SplitOnce(segs, round);
      match Arranged(remainder, round, fuel - 1)
      case None => None
      case Some(rest) => Some(kept + rest)
  }

  /** SplitOnce at the first crossing pair (i, j) of the list. */
  lemma SplitOnceAt(segs: seq<Segment>, round: real -> real, i: int, j: int, result: seq<Segment>)
    requires IsFirstCrossing(segs, i, j) && i < j && Det(segs[i], segs[j]) != 0.0
    requires result == segs[..i] + segs[i + 1..j] + segs[j + 1..] +
                       Replacements(segs[i], segs[j], SplitPoint(segs[i], segs[j], round))
    ensures 0 <= i <= |result|
    ensures !NoCrossings(segs) && SplitOnce(segs, round) == (result[..i], result[i..])
  {
    assert !SettledBefore(segs, |segs|) by {
      assert Crosses(segs, i, j);
    }
    FirstCrossingUnique(segs, i, j);
    assert result[..i] == segs[..i];
    assert result[i..] == segs[i + 1..j] + segs[j + 1..] +
      Replacements(segs[i], segs[j], SplitPoint(segs[i], segs[j], round));
  }

  /**
   * One pass of the double loop, as the step of Arranged: SplitStep's list,
   * cut at the first index i of the crossing pair into `segments[:i]` and
   * `segments[i:]` of line 131.
   */
  method SplitFirstCrossing(segments: seq<Segment>, round: real -> real)
    returns (found: bool, kept: seq<Segment>, remainder: seq<Segment>)
    ensures !found ==> NoCrossings(segments) && kept == segments
    ensures found ==> !NoCrossings(segments) && SplitOnce(segments, round) == (kept, remainder)
  {
    var i, result;
    ghost var j;
    found, i, j, result := SplitStep(segments, round);
    if !found {
      return false, segments, [];
    }
    SplitOnceAt(segments, round, i, j, result);
    kept, remainder := result[..i], result[i..];
  }

  /** Arranged on a list with a crossing pair, unfolded once at its split. */
  lemma ArrangedUnfold(segs: seq<Segment>, round: real -> real, fuel: nat,
                       kept: seq<Segment>, remainder: seq<Segment>, rest: Option<seq<Segment>>)
    requires fuel > 0 && !NoCrossings(segs)
    requires SplitOnce(segs, round).0 == kept && SplitOnce(segs, round).1 == remainder
    requires rest == Arranged(remainder, round, fuel - 1)
    ensures rest.None? ==> Arranged(segs, round, fuel) == None
    ensures rest.Some? ==> Arranged(segs, round, fuel) == Some(kept + rest.value)
  {
  }

  /**
   * splitIntersections with its recursion bounded by `fuel`: None when the
   * fuel runs out; otherwise split the first crossing pair and arrange the
   * list again from its first index on. The properties of the result are the
   * lemmas about Arranged below.
   */
  method SplitIntersections(segments: seq<Segment>, round: real -> real, fuel: nat)
    returns (r: Option<seq<Segment>>)
    decreases fuel
    ensures r == Arranged(segments, round, fuel)
  {
    if fuel == 0 {
      return None;
    }
    var found, kept, remainder := SplitFirstCrossing(segments, round);
    if !found {
      return Some(segments);
    }
    var rest := SplitIntersections(remainder, round, fuel - 1);
    ArrangedUnfold(segments, round, fuel, kept, remainder, rest);
    if rest == None {
      return None;
    }
    r := Some(kept + rest.value);
  }

  /**
   * Without fuel there is no result, and a crossing-free list comes back
   * unchanged: the builder is idempotent on its own output's fixed points.
   */
  lemma ArrangedSettled(segs: seq<Segment>, round: real -> real, fuel: nat)
    ensures fuel == 0 ==> Arranged(segs, round, fuel) == None
    ensures fuel > 0 && NoCrossings(segs) ==> Arranged(segs, round, fuel) == Some(segs)
  {
  }

  /** The first crossing pair of a list that has one, with the list after splitting it. */
  lemma FirstSplit(segs: seq<Segment>, round: real -> real) returns (i: int, j: int, result: seq<Segment>)
    requires !NoCrossings(segs)
    ensures IsFirstCrossing(segs, i, j) && i < j && Det(segs[i], segs[j]) != 0.0
    ensures result == segs[..i] + segs[i + 1..j] + segs[j + 1..] +
                      Replacements(segs[i], segs[j], SplitPoint(segs[i], segs[j], round))
    ensures |result| > |segs| && result[..i] == segs[..i]
  {
    i, j := FirstCrossing(segs, 0).value.0, FirstCrossing(segs, 0).value.1;
    FirstCrossingOrder(segs, i, j);
    IntersectsNotParallel(segs[i], segs[j]);
    result := segs[..i] + segs[i + 1..j] + segs[j + 1..] +
              Replacements(segs[i], segs[j], SplitPoint(segs[i], segs[j], round));
    ReplacementCount(segs[i], segs[j], SplitPoint(segs[i], segs[j], round));
    assert result[..i] == segs[..i];
  }

  /** One split makes the list longer: the kept prefix and the remainder together outgrow the input. */
  lemma SplitOnceGrows(segs: seq<Segment>, round: real -> real)
    requires !NoCrossings(segs)
    ensures |SplitOnce(segs, round).0| + |SplitOnce(segs, round).1| > |segs|
  {
    var i, j, result := FirstSplit(segs, round);
    SplitOnceAt(segs, round, i, j, result);
  }

  /** The arranged list is never shorter than the input, and longer when anything was split. */
  lemma {:induction false} ArrangedLength(segs: seq<Segment>, round: real -> real, fuel: nat)
    ensures Arranged(segs, round, fuel).Some? ==> |Arranged(segs, round, fuel).value| >= |segs|
    ensures Arranged(segs, round, fuel).Some? && !NoCrossings(segs) ==>
      |Arranged(segs, round, fuel).value| > |segs|
    decreases fuel
  {
    if fuel > 0 && !NoCrossings(segs) {
      ArrangedLength(SplitOnce(segs, round).1, round, fuel - 1);
      ArrangedGrows(segs, round, fuel);
    }
  }

  /** One step of ArrangedLength: a split list grows when its remainder does not shrink. */
  lemma ArrangedGrows(segs: seq<Segment>, round: real -> real, fuel: nat)
    requires fuel > 0 && !NoCrossings(segs)
    requires Arranged(SplitOnce(segs, round).1, round, fuel - 1).Some? ==>
      |Arranged(SplitOnce(segs, round).1, round, fuel - 1).value| >= |SplitOnce(segs, round).1|
    ensures Arranged(segs, round, fuel).Some? ==> |Arranged(segs, round, fuel).value| > |segs|
  {
    var kept, remainder := SplitOnce(segs, round).0, SplitOnce(segs, round).1;
    SplitOnceGrows(segs, round);
    var rest := Arranged(remainder, round, fuel - 1);
    ArrangedUnfold(segs, round, fuel, kept, remainder, rest);
    JoinLength(Arranged(segs, round, fuel), kept, remainder, rest, |segs|);
  }

  /** A result made of a kept prefix and an arranged remainder is as long as the two together. */
  lemma JoinLength(r: Option<seq<Segment>>, kept: seq<Segment>, remainder: seq<Segment>,
                   rest: Option<seq<Segment>>, n: int)
    requires rest.None? ==> r == None
    requires rest.Some? ==> r == Some(kept + rest.value) && |rest.value| >= |remainder|
    requires |kept| + |remainder| > n
    ensures r.Some? ==> |r.value| > n
  {
  }

  /** Every settled prefix (segments with no crossing partner) of the input is kept. */
  lemma ArrangedPrefix(segs: seq<Segment>, round: real -> real, fuel: nat)
    ensures Arranged(segs, round, fuel).Some? ==> forall i :: SettledBefore(segs, i) ==>
      i <= |Arranged(segs, round, fuel).value| && Arranged(segs, round, fuel).value[..i] == segs[..i]
  {
    if fuel > 0 && !NoCrossings(segs) {
      var i, j, result := FirstSplit(segs, round);
      SplitOnceAt(segs, round, i, j, result);
      if Arranged(segs, round, fuel).Some? {
        PrefixKept(segs, i, j, result, Arranged(result[i..], round, fuel - 1).value);
      }
    }
  }

  /** Splitting at the first crossing pair (i, j) keeps every settled prefix. */
  lemma PrefixKept(segments: seq<Segment>, i: int, j: int, result: seq<Segment>, rest: seq<Segment>)
    requires IsFirstCrossing(segments, i, j) && i < j <= |result|
    requires result[..i] == segments[..i]
    ensures forall i' :: SettledBefore(segments, i') ==>
      i' <= |result[..i] + rest| && (result[..i] + rest)[..i'] == segments[..i']
  {
    forall i' | SettledBefore(segments, i')
      ensures i' <= |result[..i] + rest| && (result[..i] + rest)[..i'] == segments[..i']
    {
      assert Crosses(segments, i, j);
      assert i' <= i;
      assert (result[..i] + rest)[..i'] == result[..i][..i'];
    }
  }
}
