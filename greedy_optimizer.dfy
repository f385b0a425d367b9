/**
 * Brute-force grid search over a rectangular search space.
 *
 * Every interval of the space is split into evenly spaced coordinates, the
 * splits are combined into grid points, and the grid is scanned once for the
 * point whose score beats a running maximum that starts at zero.
 *
 * Coordinates are mathematical reals, so `a + i*(b-a)/n` is exact. The score
 * function is an arbitrary total function from a grid point to a real.
 */
module GreedyOptimizer {

  /** One closed interval [a, b] of the search space. */
  datatype Interval = Interval(a: real, b: real)

  /** The places where the optimizer fails; each one is an index error in the source. */
  datatype Error =
    | NoDimensions   // the list of per-dimension splits is empty, so it has no first element
    | EmptySubGrid   // the points combined from the later dimensions have no first point
    | EmptyGrid      // the discretized space has no first point

  datatype Result<T> = Ok(value: T) | Err(error: Error)

  /*************************************************************************
   * Splitting one interval
   *************************************************************************/

  /** A conversion of a real to an integer that truncates toward zero. */
  function Trunc(x: real): int {
    if x >= 0.0 then x.Floor else -((-x).Floor)
  }

  /**
   * What splitting an interval needs: a partition size that can be divided
   * by, and a partition count that is a valid array length.
   */
  predicate Splittable(iv: Interval, p: real) {
    p != 0.0 && Trunc((iv.b - iv.a) / p) >= 0
  }

  /** The number of points an interval is split into. */
  function PartitionCount(iv: Interval, p: real): nat
    requires Splittable(iv, p)
  {
    Trunc((iv.b - iv.a) / p)
  }

  /** Coordinate i of an interval split into n points: a + i*(b-a)/n. */
  function Coordinate(iv: Interval, n: nat, i: nat): real
    requires i < n
  {
    iv.a + ((i as real) * (iv.b - iv.a)) / (n as real)
  }

  /** The split of an interval: its n coordinates, in increasing index order. */
  function Split(iv: Interval, p: real): seq<real>
    requires Splittable(iv, p)
  {
    var n := PartitionCount(iv, p);
    seq(n, i requires 0 <= i < n => Coordinate(iv, n, i))
  }

  /** Fills a zero-initialised buffer of n coordinates by index. */
  method SplitInterval(iv: Interval, p: real) returns (parts: seq<real>)
    requires Splittable(iv, p)
    ensures parts == Split(iv, p)
  {
    var n := PartitionCount(iv, p);
    var buffer := new real[n](_ => 0.0);
    for i := 0 to n
      invariant forall k :: 0 <= k < i ==> buffer[k] == Coordinate(iv, n, k)
    {
      buffer[i] := iv.a + ((i as real) * (iv.b - iv.a)) / (n as real);
    }
    parts := buffer[..];
  }

  lemma MulMonotone(x: real, y: real, p: real)
    requires p > 0.0
    ensures x <= y ==> x * p <= y * p
    ensures x < y ==> x * p < y * p
  {
  }

  /** For d >= 0 and p > 0, floor(d/p) whole partitions of size p fit in d, and one more does not. */
  lemma WholePartitions(d: real, p: real)
    requires p > 0.0 && d >= 0.0
    ensures d / p >= 0.0
    ensures ((d / p).Floor as real) * p <= d < (((d / p).Floor + 1) as real) * p
  {
    var x := d / p;
    assert x * p == d;
    assert x >= 0.0 by {
      if x < 0.0 {
        MulMonotone(x, 0.0, p);
      }
    }
    var n := x.Floor as real;
    assert n <= x < n + 1.0;
    var m := n + 1.0;
    MulMonotone(n, x, p);
    MulMonotone(x, m, p);
    assert x * p < m * p;
    assert d == x * p;
    assert d < m * p;
    assert n * p <= d;
    assert ((x.Floor + 1) as real) == n + 1.0;
  }

  /**
   * For a proper interval and a positive partition size, the count is the
   * floor of (b-a)/p: the number of whole partitions that fit in [a, b].
   */
  lemma SplitCount(iv: Interval, p: real)
    requires p > 0.0 && iv.a <= iv.b
    ensures Splittable(iv, p)
    ensures |Split(iv, p)| == ((iv.b - iv.a) / p).Floor
    ensures (|Split(iv, p)| as real) * p <= iv.b - iv.a < ((|Split(iv, p)| + 1) as real) * p
  {
    WholePartitions(iv.b - iv.a, p);
    assert PartitionCount(iv, p) == ((iv.b - iv.a) / p).Floor;
  }

  /** Consecutive coordinates of a split into n points differ by (b-a)/n. */
  lemma CoordinateStep(iv: Interval, n: nat, i: nat)
    requires i + 1 < n
    ensures Coordinate(iv, n, i + 1) - Coordinate(iv, n, i) == (iv.b - iv.a) / (n as real)
  {
    var d, r, m := iv.b - iv.a, i as real, n as real;
    assert ((i + 1) as real) * d == r * d + d;
    assert (r * d + d) / m == (r * d) / m + d / m;
  }

  /** For a < b, each of the n coordinates lies in [a, b). */
  lemma CoordinateInRange(iv: Interval, n: nat, i: nat)
    requires iv.a < iv.b && i < n
    ensures iv.a <= Coordinate(iv, n, i) < iv.b
  {
    var d, r, m := iv.b - iv.a, i as real, n as real;
    MulMonotone(r, m, d);
    assert 0.0 <= r * d < m * d;
    assert (m * d) / m == d;
    assert (r * d) / m < (m * d) / m by {
      MulMonotone(r * d, m * d, 1.0 / m);
    }
  }

  /**
   * The geometry of a non-empty split: it starts at a, consecutive points
   * differ by the constant (b-a)/n, and for a < b every point lies in [a, b).
   */
  lemma SplitGeometry(iv: Interval, p: real)
    requires Splittable(iv, p) && PartitionCount(iv, p) > 0
    ensures Split(iv, p)[0] == iv.a
    ensures forall i :: 0 <= i < |Split(iv, p)| - 1 ==>
      Split(iv, p)[i + 1] - Split(iv, p)[i] == (iv.b - iv.a) / (PartitionCount(iv, p) as real)
    ensures iv.a < iv.b ==> forall i :: 0 <= i < |Split(iv, p)| ==> iv.a <= Split(iv, p)[i] < iv.b
  {
    var s, n := Split(iv, p), PartitionCount(iv, p);
    forall i | 0 <= i < |s| - 1
      ensures s[i + 1] - s[i] == (iv.b - iv.a) / (n as real)
    {
      CoordinateStep(iv, n, i);
    }
    if iv.a < iv.b {
      forall i | 0 <= i < |s|
        ensures iv.a <= s[i] < iv.b
      {
        CoordinateInRange(iv, n, i);
      }
    }
  }

  /** An interval shorter than the partition size yields no points at all. */
  lemma SplitShort(iv: Interval, p: real)
    requires p > 0.0 && iv.a <= iv.b < iv.a + p
    ensures Splittable(iv, p) && Split(iv, p) == []
  {
    var x := (iv.b - iv.a) / p;
    assert x * p == iv.b - iv.a;
    assert 0.0 <= x < 1.0 by {
      if x >= 1.0 {
        MulMonotone(1.0, x, p);
      }
    }
  }

  /** A partition size equal to the interval length yields the single point a. */
  lemma SplitWhole(iv: Interval, p: real)
    requires p > 0.0 && iv.b - iv.a == p
    ensures Splittable(iv, p) && Split(iv, p) == [iv.a]
  {
    assert (iv.b - iv.a) / p == p / p == 1.0;
  }

  /*************************************************************************
   * Combining the splits
   *************************************************************************/

  /** The points [x, y] for one fixed x and every y in ys, in order. */
  function Row(x: real, ys: seq<real>): seq<seq<real>> {
    seq(|ys|, j requires 0 <= j < |ys| => [x, ys[j]])
  }

  /** The pairs [x, y] for x in xs and y in ys, x varying slowest. */
  function Pairs(xs: seq<real>, ys: seq<real>): seq<seq<real>>
    decreases |xs|
  {
    if xs == [] then [] else Pairs(xs[..|xs| - 1], ys) + Row(xs[|xs| - 1], ys)
  }

  /**
   * Combination of the per-dimension splits as the source does it. One vector
   * is returned unchanged. Otherwise the first sub-point of the combination of
   * the remaining vectors is taken, and each coordinate of the first vector is
   * paired with each coordinate of that sub-point. Only for two vectors is this
   * the product of the two.
   */
  function AllPoints(vs: seq<seq<real>>): Result<seq<seq<real>>>
    decreases |vs|
  {
    if |vs| == 0 then Err(NoDimensions)
    else if |vs| == 1 then Ok(vs)
    else if vs[0] == [] then Ok([])
    else match AllPoints(vs[1..])
      case Err(e) => Err(e)
      case Ok(rest) => if rest == [] then Err(EmptySubGrid) else Ok(Pairs(vs[0], rest[0]))
  }

  lemma {:induction false} PairsPrefix(xs: seq<real>, ys: seq<real>, i: nat)
    requires i < |xs|
    ensures Pairs(xs[..i + 1], ys) == Pairs(xs[..i], ys) + Row(xs[i], ys)
  {
    assert xs[..i + 1][..i] == xs[..i];
  }

  /** There are |xs|*|ys| pairs. */
  lemma {:induction false} PairsLength(xs: seq<real>, ys: seq<real>)
    ensures |Pairs(xs, ys)| == |xs| * |ys|
    decreases |xs|
  {
    if xs != [] {
      PairsLength(xs[..|xs| - 1], ys);
      assert |xs| * |ys| == (|xs| - 1) * |ys| + |ys|;
    }
  }

  /** The pair at i*|ys| + j is [xs[i], ys[j]]: x varies slowest. */
  lemma {:induction false} PairsIndex(xs: seq<real>, ys: seq<real>, i: nat, j: nat)
    requires i < |xs| && j < |ys|
    ensures i * |ys| + j < |Pairs(xs, ys)|
    ensures Pairs(xs, ys)[i * |ys| + j] == [xs[i], ys[j]]
    decreases |xs|
  {
    var init, m := xs[..|xs| - 1], |ys|;
    PairsLength(xs, ys);
    PairsLength(init, ys);
    var front := Pairs(init, ys);
    assert |front| == |init| * m;
    if i < |init| {
      PairsIndex(init, ys, i, j);
    } else {
      assert i * m == |front|;
      assert Pairs(xs, ys)[i * m + j] == Row(xs[|xs| - 1], ys)[j];
    }
  }

  /** Every pair is [x, y] for some x in xs and y in ys. */
  lemma {:induction false} PairsMembers(xs: seq<real>, ys: seq<real>)
    ensures forall q :: q in Pairs(xs, ys) ==> |q| == 2 && q[0] in xs && q[1] in ys
    decreases |xs|
  {
    if xs != [] {
      var init := xs[..|xs| - 1];
      PairsMembers(init, ys);
      forall q | q in Pairs(xs, ys)
        ensures |q| == 2 && q[0] in xs && q[1] in ys
      {
        if q in Pairs(init, ys) {
          assert q[0] in init;
        } else {
          assert q in Row(xs[|xs| - 1], ys);
        }
      }
    }
  }

  /**
   * Two vectors combine into their ordered product, whatever their lengths:
   * |v0|*|v1| pairs, laid out as PairsIndex describes.
   */
  lemma AllPointsTwo(v0: seq<real>, v1: seq<real>)
    ensures AllPoints([v0, v1]) == Ok(Pairs(v0, v1))
    ensures |AllPoints([v0, v1]).value| == |v0| * |v1|
  {
    assert [v0, v1][1..] == [v1];
    PairsLength(v0, v1);
  }

  /** The pairs are empty exactly when one side is; otherwise the first is [xs[0], ys[0]]. */
  lemma PairsFirst(xs: seq<real>, ys: seq<real>)
    ensures Pairs(xs, ys) == [] <==> xs == [] || ys == []
    ensures xs != [] && ys != [] ==> Pairs(xs, ys)[0] == [xs[0], ys[0]]
  {
    PairsLength(xs, ys);
    if xs != [] && ys != [] {
      PairsIndex(xs, ys, 0, 0);
    }
  }

  /** Every vector in the list has at least one coordinate. */
  predicate NoneEmpty(vs: seq<seq<real>>) {
    forall k :: 0 <= k < |vs| ==> vs[k] != []
  }

  /**
   * With three or more vectors the combination is not a product: when the
   * first vector is empty there are no points; otherwise it fails unless
   * every later vector is non-empty, and then each coordinate of the first
   * vector is paired with just the first coordinates of the second and third.
   */
  lemma {:induction false} AllPointsThreeOrMore(vs: seq<seq<real>>)
    requires |vs| >= 3
    ensures vs[0] == [] ==> AllPoints(vs) == Ok([])
    ensures vs[0] != [] && !NoneEmpty(vs[1..]) ==> AllPoints(vs) == Err(EmptySubGrid)
    ensures vs[0] != [] && NoneEmpty(vs[1..]) ==> AllPoints(vs) == Ok(Pairs(vs[0], [vs[1][0], vs[2][0]]))
    decreases |vs|
  {
    var tail := vs[1..];
    if vs[0] != [] {
      if |vs| == 3 {
        assert tail == [vs[1], vs[2]];
        AllPointsTwo(vs[1], vs[2]);
        PairsFirst(vs[1], vs[2]);
        assert NoneEmpty(tail) <==> vs[1] != [] && vs[2] != [];
      } else {
        AllPointsThreeOrMore(tail);
        assert tail[1..] == vs[2..];
        if tail[0] == [] {
          assert !NoneEmpty(tail);
        } else if !NoneEmpty(tail[1..]) {
          assert !NoneEmpty(tail);
        } else {
          assert NoneEmpty(tail);
          PairsFirst(tail[0], [tail[1][0], tail[2][0]]);
        }
      }
    }
  }

  /** The combination step, built by nested loops that append one point at a time. */
  method GetAllPoints(vs: seq<seq<real>>) returns (r: Result<seq<seq<real>>>)
    ensures r == AllPoints(vs)
    ensures |vs| == 1 ==> r == Ok(vs)
    decreases |vs|
  {
    if |vs| == 0 {
      return Err(NoDimensions);
    }
    var v0 := vs[0];
    var points: seq<seq<real>> := [];
    if |vs| == 1 {
      return Ok(vs);
    }
    for i := 0 to |v0|
      invariant i == 0 ==> points == []
      invariant i > 0 ==> AllPoints(vs[1..]).Ok? && AllPoints(vs[1..]).value != []
      invariant i > 0 ==> points == Pairs(v0[..i], AllPoints(vs[1..]).value[0])
    {
      var rest := GetAllPoints(vs[1..]);
      if rest.Err? {
        return Err(rest.error);
      }
      if rest.value == [] {
        return Err(EmptySubGrid);
      }
      var sub := rest.value[0];
      PairsPrefix(v0, sub, i);
      ghost var before := points;
      assert before == Pairs(v0[..i], sub);
      for j := 0 to |sub|
        invariant points == before + Row(v0[i], sub[..j])
      {
        assert Row(v0[i], sub[..j + 1]) == Row(v0[i], sub[..j]) + [[v0[i], sub[j]]];
        points := points + [[v0[i], sub[j]]];
      }
      assert sub[..|sub|] == sub;
    }
    assert v0[..|v0|] == v0;
    return Ok(points);
  }

  /*************************************************************************
   * Discretizing the space
   *************************************************************************/

  /** Every interval of the space can be split at partition size p. */
  predicate SpaceSplittable(space: seq<Interval>, p: real) {
    forall k :: 0 <= k < |space| ==> Splittable(space[k], p)
  }

  /** The splits of the intervals, one per interval, in the order of the space. */
  function Splits(space: seq<Interval>, p: real): seq<seq<real>>
    requires SpaceSplittable(space, p)
  {
    seq(|space|, k requires 0 <= k < |space| => Split(space[k], p))
  }

  /** The discretized space: the combination of the splits. */
  function Discretize(space: seq<Interval>, p: real): Result<seq<seq<real>>>
    requires SpaceSplittable(space, p)
  {
    AllPoints(Splits(space, p))
  }

  /** Splits each interval in turn, appending the splits, then combines them. */
  method DiscretizeSpace(space: seq<Interval>, p: real) returns (r: Result<seq<seq<real>>>)
    requires SpaceSplittable(space, p)
    ensures r == AllPoints(Splits(space, p))
  {
    var splitIntervals: seq<seq<real>> := [];
    for k := 0 to |space|
      invariant |splitIntervals| == k
      invariant forall m :: 0 <= m < k ==> splitIntervals[m] == Split(space[m], p)
    {
      var parts := SplitInterval(space[k], p);
      splitIntervals := splitIntervals + [parts];
    }
    assert splitIntervals == Splits(space, p);
    r := GetAllPoints(splitIntervals);
  }

  /**
   * A one-dimensional space yields a single "point": the whole split of its
   * interval.
   */
  lemma DiscretizeOne(iv: Interval, p: real)
    requires Splittable(iv, p)
    ensures SpaceSplittable([iv], p)
    ensures Discretize([iv], p) == Ok([Split(iv, p)])
  {
    assert Splits([iv], p) == [Split(iv, p)];
  }

  /**
   * A two-dimensional space yields the ordered product of the two splits,
   * n0*n1 points, the first split varying slowest.
   */
  lemma DiscretizeTwo(iv0: Interval, iv1: Interval, p: real)
    requires Splittable(iv0, p) && Splittable(iv1, p)
    ensures SpaceSplittable([iv0, iv1], p)
    ensures Discretize([iv0, iv1], p) == Ok(Pairs(Split(iv0, p), Split(iv1, p)))
    ensures |Discretize([iv0, iv1], p).value| == PartitionCount(iv0, p) * PartitionCount(iv1, p)
  {
    assert Splits([iv0, iv1], p) == [Split(iv0, p), Split(iv1, p)];
    AllPointsTwo(Split(iv0, p), Split(iv1, p));
  }

  /** The space [0,2] x [0,2] at partition size 1 is the grid (0,0), (0,1), (1,0), (1,1). */
  lemma UnitGrid()
    ensures SpaceSplittable([Interval(0.0, 2.0), Interval(0.0, 2.0)], 1.0)
    ensures Discretize([Interval(0.0, 2.0), Interval(0.0, 2.0)], 1.0)
      == Ok([[0.0, 0.0], [0.0, 1.0], [1.0, 0.0], [1.0, 1.0]])
  {
    var iv := Interval(0.0, 2.0);
    assert PartitionCount(iv, 1.0) == 2;
    assert Split(iv, 1.0) == [0.0, 1.0];
    DiscretizeTwo(iv, iv, 1.0);
    var s := [0.0, 1.0];
    assert s[..1] == [0.0] && [0.0][..0] == [];
    assert Row(0.0, s) == [[0.0, 0.0], [0.0, 1.0]];
    assert Row(1.0, s) == [[1.0, 0.0], [1.0, 1.0]];
    assert Pairs(s, s) == Row(0.0, s) + Row(1.0, s) == [[0.0, 0.0], [0.0, 1.0], [1.0, 0.0], [1.0, 1.0]];
    assert Discretize([iv, iv], 1.0) == Ok(Pairs(s, s));
  }

  /**
   * A single interval shorter than the partition size does not fail: the
   * discretized space holds one point with no coordinates.
   */
  lemma ShortIntervalYieldsEmptyPoint()
    ensures SpaceSplittable([Interval(0.0, 0.05)], 0.1)
    ensures Discretize([Interval(0.0, 0.05)], 0.1) == Ok([[]])
  {
    SplitShort(Interval(0.0, 0.05), 0.1);
    DiscretizeOne(Interval(0.0, 0.05), 0.1);
  }

  /*************************************************************************
   * Searching the grid
   *************************************************************************/

  /** The running best of the scan: the index of the kept point and the running maximum. */
  datatype Best = Best(index: nat, maximum: real)

  /**
   * The state after scanning the first k points: it starts at the first point
   * with maximum 0, and a point replaces it only when its score is strictly
   * greater than the running maximum.
   */
  function Scan(points: seq<seq<real>>, score: seq<real> -> real, k: nat): (best: Best)
    requires 0 < |points| && k <= |points|
    ensures best.index < |points|
  {
    if k == 0 then Best(0, 0.0)
    else
      var prev := Scan(points, score, k - 1);
      if score(points[k - 1]) > prev.maximum then Best(k - 1, score(points[k - 1])) else prev
  }

  /** The index of the point the full scan keeps. */
  function FirstBestIndex(points: seq<seq<real>>, score: seq<real> -> real): nat
    requires 0 < |points|
  {
    Scan(points, score, |points|).index
  }

  /**
   * What a scan of the first k points keeps: if no score among them is
   * positive, the first point with maximum 0; otherwise the first point among
   * them with the greatest score, with that score as the maximum.
   */
  lemma {:induction false} ScanKeepsFirstMaximum(points: seq<seq<real>>, score: seq<real> -> real, k: nat)
    requires 0 < |points| && k <= |points|
    ensures Scan(points, score, k).index < |points|
    ensures (forall j :: 0 <= j < k ==> score(points[j]) <= 0.0) ==> Scan(points, score, k) == Best(0, 0.0)
    ensures (exists j :: 0 <= j < k && score(points[j]) > 0.0) ==>
      var m := Scan(points, score, k).index;
      && m < k
      && Scan(points, score, k).maximum == score(points[m]) > 0.0
      && (forall j :: 0 <= j < k ==> score(points[j]) <= score(points[m]))
      && (forall j :: 0 <= j < m ==> score(points[j]) < score(points[m]))
  {
    if k > 0 {
      ScanKeepsFirstMaximum(points, score, k - 1);
    }
  }

  /**
   * The whole search: discretize, fail on an empty grid, then scan every point
   * once, keeping a point only when its score beats the running maximum.
   */
  method SearchOptimalPoint(space: seq<Interval>, precision: real, score: seq<real> -> real)
    returns (r: Result<seq<real>>)
    requires SpaceSplittable(space, precision)
    ensures Discretize(space, precision).Err? ==> r == Err(Discretize(space, precision).error)
    ensures Discretize(space, precision) == Ok([]) ==> r == Err(EmptyGrid)
    ensures r.Ok? <==> Discretize(space, precision).Ok? && Discretize(space, precision).value != []
    ensures r.Ok? ==> Discretize(space, precision).Ok? && r.value in Discretize(space, precision).value
    ensures r.Ok? ==>
      var points := Discretize(space, precision).value;
      |points| > 0 && r.value == points[FirstBestIndex(points, score)]
    ensures r.Ok? && (forall q :: q in Discretize(space, precision).value ==> score(q) <= 0.0) ==>
      r.value == Discretize(space, precision).value[0]
  {
    var discrete := DiscretizeSpace(space, precision);
    if discrete.Err? {
      return Err(discrete.error);
    }
    var points := discrete.value;
    if points == [] {
      return Err(EmptyGrid);
    }
    var optimal := points[0];
    var maximum := 0.0;
    ghost var best := 0;
    for i := 0 to |points|
      invariant Scan(points, score, i) == Best(best, maximum)
      invariant best < |points| && optimal == points[best]
    {
      var s := score(points[i]);
      if s > maximum {
        optimal, maximum, best := points[i], s, i;
      }
    }
    ScanKeepsFirstMaximum(points, score, |points|);
    return Ok(optimal);
  }

  /**
   * The search result as a function of the grid: when no score is positive it
   * is the first grid point; otherwise it is the first grid point, in scan
   * order, whose score is the greatest of all.
   */
  lemma SearchResultOnGrid(points: seq<seq<real>>, score: seq<real> -> real)
    requires 0 < |points|
    ensures FirstBestIndex(points, score) < |points|
    ensures (forall j :: 0 <= j < |points| ==> score(points[j]) <= 0.0) ==> FirstBestIndex(points, score) == 0
    ensures (exists j :: 0 <= j < |points| && score(points[j]) > 0.0) ==>
      var m := FirstBestIndex(points, score);
      && score(points[m]) > 0.0
      && (forall j :: 0 <= j < |points| ==> score(points[j]) <= score(points[m]))
      && (forall j :: 0 <= j < m ==> score(points[j]) < score(points[m]))
  {
    ScanKeepsFirstMaximum(points, score, |points|);
  }
}
