/** Region-of-interest extent fitting: the centre and per-axis radius of an
    axis-aligned box around a set of 3-D node positions, with a growth factor
    applied to the spread and a floor on the box size. */
module RoiExtent {
  import opened Wrappers

  /** A node position (x, y, z). */
  type Point = (real, real, real)

  datatype Axis = X | Y | Z

  /** The box: its centre and, per axis, half its side length. */
  datatype Extent = Extent(center: Point, radius: Point)

  /** The one error kind of the calculation. */
  datatype RoiError = InvalidArgument

  function Coord(p: Point, a: Axis): real
  {
    match a
    case X => p.0
    case Y => p.1
    case Z => p.2
  }

  function MaxReal(u: real, v: real): real
  {
    if u >= v then u else v
  }

  /** The smallest coordinate of the points along axis `a`. */
  function Lowest(points: seq<Point>, a: Axis): real
    requires |points| > 0
  {
    if |points| == 1 then Coord(points[0], a)
    else
      var rest := Lowest(points[1..], a);
      if Coord(points[0], a) <= rest then Coord(points[0], a) else rest
  }

  /** The largest coordinate of the points along axis `a`. */
  function Highest(points: seq<Point>, a: Axis): real
    requires |points| > 0
  {
    if |points| == 1 then Coord(points[0], a)
    else
      var rest := Highest(points[1..], a);
      if Coord(points[0], a) >= rest then Coord(points[0], a) else rest
  }

  /** `Lowest` is the minimum: no coordinate is below it and some point has it. */
  lemma {:induction false} LowestIsMinimum(points: seq<Point>, a: Axis)
    requires |points| > 0
    ensures forall i :: 0 <= i < |points| ==> Lowest(points, a) <= Coord(points[i], a)
    ensures exists i :: 0 <= i < |points| && Coord(points[i], a) == Lowest(points, a)
  {
    if |points| == 1 {
      assert Coord(points[0], a) == Lowest(points, a);
    } else {
      var rest := points[1..];
      LowestIsMinimum(rest, a);
      var j :| 0 <= j < |rest| && Coord(rest[j], a) == Lowest(rest, a);
      assert rest[j] == points[j + 1];
      forall i | 1 <= i < |points| ensures Lowest(points, a) <= Coord(points[i], a) {
        assert points[i] == rest[i - 1];
      }
      if Coord(points[0], a) <= Lowest(rest, a) {
        assert Coord(points[0], a) == Lowest(points, a);
      } else {
        assert Coord(points[j + 1], a) == Lowest(points, a);
      }
    }
  }

  /** `Highest` is the maximum: no coordinate is above it and some point has it. */
  lemma {:induction false} HighestIsMaximum(points: seq<Point>, a: Axis)
    requires |points| > 0
    ensures forall i :: 0 <= i < |points| ==> Coord(points[i], a) <= Highest(points, a)
    ensures exists i :: 0 <= i < |points| && Coord(points[i], a) == Highest(points, a)
  {
    if |points| == 1 {
      assert Coord(points[0], a) == Highest(points, a);
    } else {
      var rest := points[1..];
      HighestIsMaximum(rest, a);
      var j :| 0 <= j < |rest| && Coord(rest[j], a) == Highest(rest, a);
      assert rest[j] == points[j + 1];
      forall i | 1 <= i < |points| ensures Coord(points[i], a) <= Highest(points, a) {
        assert points[i] == rest[i - 1];
      }
      if Coord(points[0], a) >= Highest(rest, a) {
        assert Coord(points[0], a) == Highest(points, a);
      } else {
        assert Coord(points[j + 1], a) == Highest(points, a);
      }
    }
  }

  lemma SpreadNonNegative(points: seq<Point>, a: Axis)
    requires |points| > 0
    ensures Lowest(points, a) <= Highest(points, a)
  {
    LowestIsMinimum(points, a);
    HighestIsMaximum(points, a);
    assert Lowest(points, a) <= Coord(points[0], a) <= Highest(points, a);
  }

  /** Half the spread of the points along `a`, before growth and floor. */
  function HalfSpread(points: seq<Point>, a: Axis): real
    requires |points| > 0
  {
    (Highest(points, a) - Lowest(points, a)) / 2.0
  }

  function AxisCenter(points: seq<Point>, a: Axis): real
    requires |points| > 0
  {
    (Lowest(points, a) + Highest(points, a)) / 2.0
  }

  /** A half-spread grown by the growth factor, floored at half the minimum
      extent. */
  function Grown(halfSpread: real, minExtent: real, growthFactor: real): real
  {
    MaxReal(halfSpread * growthFactor, minExtent / 2.0)
  }

  function AxisRadius(points: seq<Point>, a: Axis, minExtent: real, growthFactor: real): real
    requires |points| > 0
  {
    Grown(HalfSpread(points, a), minExtent, growthFactor)
  }

  /** calculateRoiExtent on a non-empty point list: each axis on its own,
      centre at the midpoint of the extreme coordinates, radius the grown
      half-spread or half the minimum extent, whichever is larger. */
  function FitExtent(points: seq<Point>, minExtent: real, growthFactor: real): (r: Extent)
    requires |points| > 0
    ensures r.radius.0 >= minExtent / 2.0 && r.radius.1 >= minExtent / 2.0 && r.radius.2 >= minExtent / 2.0
  {
    Extent(
      (AxisCenter(points, X), AxisCenter(points, Y), AxisCenter(points, Z)),
      (AxisRadius(points, X, minExtent, growthFactor),
       AxisRadius(points, Y, minExtent, growthFactor),
       AxisRadius(points, Z, minExtent, growthFactor)))
  }

  lemma AxisOfExtent(points: seq<Point>, minExtent: real, growthFactor: real, a: Axis)
    requires |points| > 0
    ensures Coord(FitExtent(points, minExtent, growthFactor).center, a) == AxisCenter(points, a)
    ensures Coord(FitExtent(points, minExtent, growthFactor).radius, a) == AxisRadius(points, a, minExtent, growthFactor)
  {
  }

  /** The radius never drops below half the minimum extent, and when the
      growth factor is at least one the box contains every node. */
  lemma BoxKeepsFloorAndContainsPoints(points: seq<Point>, minExtent: real, growthFactor: real, a: Axis)
    requires |points| > 0
    ensures Coord(FitExtent(points, minExtent, growthFactor).radius, a) >= minExtent / 2.0
    ensures growthFactor >= 1.0 ==>
      var e := FitExtent(points, minExtent, growthFactor);
      forall i :: 0 <= i < |points| ==>
        Coord(e.center, a) - Coord(e.radius, a) <= Coord(points[i], a) <= Coord(e.center, a) + Coord(e.radius, a)
  {
    AxisOfExtent(points, minExtent, growthFactor, a);
    if growthFactor >= 1.0 {
      LowestIsMinimum(points, a);
      HighestIsMaximum(points, a);
      RadiusCoversHalfSpread(points, a, minExtent, growthFactor);
    }
  }

  /** calculateRoiExtent with its argument checks: an empty point list, a
      negative minimum extent or a growth factor that is not positive is an
      invalid argument; otherwise the extent of the points. */
  function CalculateRoiExtent(points: seq<Point>, minExtent: real, growthFactor: real): (r: Result<Extent, RoiError>)
    ensures r.Failure? <==> (|points| == 0 || minExtent < 0.0 || growthFactor <= 0.0)
    ensures r.Success? ==> r.value == FitExtent(points, minExtent, growthFactor)
  {
    if |points| == 0 || minExtent < 0.0 || growthFactor <= 0.0 then Failure(InvalidArgument)
    else Success(FitExtent(points, minExtent, growthFactor))
  }

  /** With no floor and no growth the box reaches exactly the extreme node
      positions on every axis: both faces touch a point. */
  lemma TightBoxReachesExtremes(points: seq<Point>, a: Axis)
    requires |points| > 0
    ensures var e := FitExtent(points, 0.0, 1.0);
      && (forall i :: 0 <= i < |points| ==>
            Coord(e.center, a) - Coord(e.radius, a) <= Coord(points[i], a) <= Coord(e.center, a) + Coord(e.radius, a))
      && (exists i :: 0 <= i < |points| && Coord(points[i], a) == Coord(e.center, a) - Coord(e.radius, a))
      && (exists i :: 0 <= i < |points| && Coord(points[i], a) == Coord(e.center, a) + Coord(e.radius, a))
  {
    var e := FitExtent(points, 0.0, 1.0);
    LowestIsMinimum(points, a);
    HighestIsMaximum(points, a);
    SpreadNonNegative(points, a);
    assert Coord(e.center, a) - Coord(e.radius, a) == Lowest(points, a);
    assert Coord(e.center, a) + Coord(e.radius, a) == Highest(points, a);
  }

  /** The centre depends on the points only, never on the floor or the
      growth factor: `AxisCenter` takes neither. */
  lemma CenterIndependentOfParameters(points: seq<Point>, minExtent1: real, growthFactor1: real,
                                      minExtent2: real, growthFactor2: real)
    requires |points| > 0
    ensures FitExtent(points, minExtent1, growthFactor1).center == FitExtent(points, minExtent2, growthFactor2).center
  {
  }

  /** The growth factor scales the tight radius, and the floor is applied
      after it, unscaled: every radius is the larger of the growth factor
      times the tight (no floor, no growth) radius and half the minimum
      extent. */
  lemma RadiusIsGrownTightRadiusOrFloor(points: seq<Point>, minExtent: real, growthFactor: real, a: Axis)
    requires |points| > 0
    ensures Coord(FitExtent(points, minExtent, growthFactor).radius, a)
         == MaxReal(growthFactor * Coord(FitExtent(points, 0.0, 1.0).radius, a), minExtent / 2.0)
  {
    calc {
      MaxReal(growthFactor * Coord(FitExtent(points, 0.0, 1.0).radius, a), minExtent / 2.0);
      { AxisOfExtent(points, 0.0, 1.0, a); }
      MaxReal(growthFactor * AxisRadius(points, a, 0.0, 1.0), minExtent / 2.0);
      { RadiusFromTightRadius(points, a, minExtent, growthFactor); }
      AxisRadius(points, a, minExtent, growthFactor);
      { AxisOfExtent(points, minExtent, growthFactor, a); }
      Coord(FitExtent(points, minExtent, growthFactor).radius, a);
    }
  }

  /** Without a floor the radius is linear in the growth factor: growing by
      `k` times a factor multiplies every radius by `k`. */
  lemma RadiusLinearInGrowth(points: seq<Point>, growthFactor: real, k: real, a: Axis)
    requires |points| > 0
    requires growthFactor >= 0.0 && k >= 0.0
    ensures Coord(FitExtent(points, 0.0, k * growthFactor).radius, a)
         == k * Coord(FitExtent(points, 0.0, growthFactor).radius, a)
  {
    calc {
      Coord(FitExtent(points, 0.0, k * growthFactor).radius, a);
      { AxisOfExtent(points, 0.0, k * growthFactor, a); }
      AxisRadius(points, a, 0.0, k * growthFactor);
      { UnflooredRadiusLinear(points, a, growthFactor, k); }
      k * AxisRadius(points, a, 0.0, growthFactor);
      { AxisOfExtent(points, 0.0, growthFactor, a); }
      k * Coord(FitExtent(points, 0.0, growthFactor).radius, a);
    }
  }

  /** Raising the floor or the growth factor never shrinks a radius. */
  lemma RadiusMonotone(points: seq<Point>, minExtent1: real, growthFactor1: real,
                       minExtent2: real, growthFactor2: real, a: Axis)
    requires |points| > 0
    requires minExtent1 <= minExtent2 && 0.0 <= growthFactor1 <= growthFactor2
    ensures Coord(FitExtent(points, minExtent1, growthFactor1).radius, a)
         <= Coord(FitExtent(points, minExtent2, growthFactor2).radius, a)
  {
    AxisOfExtent(points, minExtent1, growthFactor1, a);
    AxisOfExtent(points, minExtent2, growthFactor2, a);
    AxisRadiusMonotone(points, a, minExtent1, growthFactor1, minExtent2, growthFactor2);
  }

  /** With a non-negative floor and growth factor no radius is negative, and
      a degenerate axis (all points share the coordinate) gets exactly the
      floor. */
  lemma RadiusNonNegative(points: seq<Point>, minExtent: real, growthFactor: real, a: Axis)
    requires |points| > 0
    requires minExtent >= 0.0 && growthFactor >= 0.0
    ensures Coord(FitExtent(points, minExtent, growthFactor).radius, a) >= 0.0
    ensures (forall i :: 0 <= i < |points| ==> Coord(points[i], a) == Coord(points[0], a)) ==>
      Coord(FitExtent(points, minExtent, growthFactor).radius, a) == minExtent / 2.0
  {
    AxisOfExtent(points, minExtent, growthFactor, a);
    AxisRadiusMonotone(points, a, 0.0, 0.0, minExtent, growthFactor);
    if forall i :: 0 <= i < |points| ==> Coord(points[i], a) == Coord(points[0], a) {
      FlatAxisRadius(points, a, minExtent, growthFactor);
    }
  }

  // The radius of one axis, as the arithmetic of its half-spread.

  lemma RadiusCoversHalfSpread(points: seq<Point>, a: Axis, minExtent: real, growthFactor: real)
    requires |points| > 0 && growthFactor >= 1.0
    ensures AxisRadius(points, a, minExtent, growthFactor) >= HalfSpread(points, a)
  {
    SpreadNonNegative(points, a);
    GrownCovers(HalfSpread(points, a), minExtent, growthFactor);
  }

  lemma RadiusFromTightRadius(points: seq<Point>, a: Axis, minExtent: real, growthFactor: real)
    requires |points| > 0
    ensures AxisRadius(points, a, minExtent, growthFactor)
         == MaxReal(growthFactor * AxisRadius(points, a, 0.0, 1.0), minExtent / 2.0)
  {
    SpreadNonNegative(points, a);
    GrownFromTight(HalfSpread(points, a), minExtent, growthFactor);
  }

  lemma UnflooredRadiusLinear(points: seq<Point>, a: Axis, growthFactor: real, k: real)
    requires |points| > 0 && growthFactor >= 0.0 && k >= 0.0
    ensures AxisRadius(points, a, 0.0, k * growthFactor) == k * AxisRadius(points, a, 0.0, growthFactor)
  {
    SpreadNonNegative(points, a);
    GrownLinear(HalfSpread(points, a), growthFactor, k);
  }

  lemma AxisRadiusMonotone(points: seq<Point>, a: Axis, minExtent1: real, growthFactor1: real,
                           minExtent2: real, growthFactor2: real)
    requires |points| > 0
    requires minExtent1 <= minExtent2 && 0.0 <= growthFactor1 <= growthFactor2
    ensures AxisRadius(points, a, minExtent1, growthFactor1) <= AxisRadius(points, a, minExtent2, growthFactor2)
  {
    SpreadNonNegative(points, a);
    GrownMonotone(HalfSpread(points, a), minExtent1, growthFactor1, minExtent2, growthFactor2);
  }

  // The same facts about one half-spread `s`, as plain real arithmetic.

  lemma GrownCovers(s: real, minExtent: real, growthFactor: real)
    requires s >= 0.0 && growthFactor >= 1.0
    ensures Grown(s, minExtent, growthFactor) >= s
  {
    assert s * growthFactor - s == s * (growthFactor - 1.0);
    assert s * (growthFactor - 1.0) >= 0.0;
  }

  lemma GrownFromTight(s: real, minExtent: real, growthFactor: real)
    requires s >= 0.0
    ensures Grown(s, minExtent, growthFactor) == MaxReal(growthFactor * Grown(s, 0.0, 1.0), minExtent / 2.0)
  {
    assert Grown(s, 0.0, 1.0) == s;
    assert s * growthFactor == growthFactor * s;
  }

  lemma GrownLinear(s: real, growthFactor: real, k: real)
    requires s >= 0.0 && growthFactor >= 0.0 && k >= 0.0
    ensures Grown(s, 0.0, k * growthFactor) == k * Grown(s, 0.0, growthFactor)
  {
    assert s * growthFactor >= 0.0;
    assert s * (k * growthFactor) == k * (s * growthFactor);
    assert k * (s * growthFactor) >= 0.0;
  }

  lemma GrownMonotone(s: real, minExtent1: real, growthFactor1: real, minExtent2: real, growthFactor2: real)
    requires s >= 0.0
    requires minExtent1 <= minExtent2 && 0.0 <= growthFactor1 <= growthFactor2
    ensures Grown(s, minExtent1, growthFactor1) <= Grown(s, minExtent2, growthFactor2)
  {
    MulLeftMonotone(s, growthFactor1, growthFactor2);
  }

  /** Multiplying by a non-negative factor keeps the order. */
  lemma MulLeftMonotone(s: real, u: real, v: real)
    requires s >= 0.0 && u <= v
    ensures s * u <= s * v
  {
    if s > 0.0 {
      var d := v - u;
      assert s * v == s * u + s * d;
      if d > 0.0 {
        assert s * d > 0.0;
      }
    }
  }

  lemma FlatAxisRadius(points: seq<Point>, a: Axis, minExtent: real, growthFactor: real)
    requires |points| > 0 && minExtent >= 0.0
    requires forall i :: 0 <= i < |points| ==> Coord(points[i], a) == Coord(points[0], a)
    ensures AxisRadius(points, a, minExtent, growthFactor) == minExtent / 2.0
  {
    LowestIsMinimum(points, a);
    HighestIsMaximum(points, a);
    assert Lowest(points, a) == Coord(points[0], a) == Highest(points, a);
    assert HalfSpread(points, a) * growthFactor == 0.0;
  }

  /** Only which positions occur matters: reordering the nodes or repeating
      one leaves the extent unchanged. */
  lemma {:induction false} OrderIndependent(points1: seq<Point>, points2: seq<Point>, minExtent: real, growthFactor: real)
    requires |points1| > 0
    requires forall p :: p in points1 <==> p in points2
    ensures |points2| > 0
    ensures FitExtent(points1, minExtent, growthFactor) == FitExtent(points2, minExtent, growthFactor)
  {
    assert points1[0] in points2;
    SameAxisFit(points1, points2, X, minExtent, growthFactor);
    SameAxisFit(points1, points2, Y, minExtent, growthFactor);
    SameAxisFit(points1, points2, Z, minExtent, growthFactor);
  }

  lemma SameAxisFit(points1: seq<Point>, points2: seq<Point>, a: Axis, minExtent: real, growthFactor: real)
    requires |points1| > 0 && |points2| > 0
    requires forall p :: p in points1 <==> p in points2
    ensures AxisCenter(points1, a) == AxisCenter(points2, a)
    ensures AxisRadius(points1, a, minExtent, growthFactor) == AxisRadius(points2, a, minExtent, growthFactor)
  {
    SubsetBounds(points1, points2, a);
    SubsetBounds(points2, points1, a);
    assert HalfSpread(points1, a) == HalfSpread(points2, a);
  }

  /** Every point of `points1` is one of `points2`, so the bounds of
      `points2` enclose those of `points1`. */
  lemma SubsetBounds(points1: seq<Point>, points2: seq<Point>, a: Axis)
    requires |points1| > 0 && |points2| > 0
    requires forall p :: p in points1 ==> p in points2
    ensures Lowest(points2, a) <= Lowest(points1, a)
    ensures Highest(points1, a) <= Highest(points2, a)
  {
    LowestIsMinimum(points1, a);
    LowestIsMinimum(points2, a);
    HighestIsMaximum(points1, a);
    HighestIsMaximum(points2, a);
    var i :| 0 <= i < |points1| && Coord(points1[i], a) == Lowest(points1, a);
    var h :| 0 <= h < |points1| && Coord(points1[h], a) == Highest(points1, a);
    assert points1[i] in points2 && points1[h] in points2;
    var j :| 0 <= j < |points2| && points2[j] == points1[i];
    var k :| 0 <= k < |points2| && points2[k] == points1[h];
    assert Lowest(points2, a) <= Coord(points2[j], a);
    assert Coord(points2[k], a) <= Highest(points2, a);
  }

  // The five fixed cases the module's logic tests check.

  /** Duplicated nodes, one axis spread: the box reaches x = -1 and x = 40. */
  lemma ExtremeNodePositionsCase()
    ensures FitExtent(DuplicatedNodes(), 0.0, 1.0)
         == Extent((19.5, 0.0, 0.0), (20.5, 0.0, 0.0))
  {
    DuplicatedNodesBounds();
  }

  /** Without a floor, a growth factor of two doubles every radius. The
      node list is given element by element: the three repeated nodes
      (1, 0, 0), then (40, 0, 0) and (-1, 0, 0). */
  lemma GrowthFactorDoublesRadiusCase(points: seq<Point>)
    requires |points| == 5
    requires points[0] == points[1] == points[2] == (1.0, 0.0, 0.0)
    requires points[3] == (40.0, 0.0, 0.0) && points[4] == (-1.0, 0.0, 0.0)
    ensures var r1 := FitExtent(points, 0.0, 1.0).radius;
      FitExtent(points, 0.0, 2.0).radius == (2.0 * r1.0, 2.0 * r1.1, 2.0 * r1.2)
  {
    var r1 := FitExtent(points, 0.0, 1.0).radius;
    var r2 := FitExtent(points, 0.0, 2.0).radius;
    assert r2.0 == 2.0 * r1.0 by { RadiusLinearInGrowth(points, 1.0, 2.0, X); }
    assert r2.1 == 2.0 * r1.1 by { RadiusLinearInGrowth(points, 1.0, 2.0, Y); }
    assert r2.2 == 2.0 * r1.2 by { RadiusLinearInGrowth(points, 1.0, 2.0, Z); }
  }

  /** The node list of the duplicated-node tests. */
  function DuplicatedNodes(): seq<Point>
  {
    [(1.0, 0.0, 0.0), (1.0, 0.0, 0.0), (1.0, 0.0, 0.0), (40.0, 0.0, 0.0), (-1.0, 0.0, 0.0)]
  }

  lemma DuplicatedNodesBounds()
    ensures Lowest(DuplicatedNodes(), X) == -1.0 && Highest(DuplicatedNodes(), X) == 40.0
    ensures Lowest(DuplicatedNodes(), Y) == 0.0 == Highest(DuplicatedNodes(), Y)
    ensures Lowest(DuplicatedNodes(), Z) == 0.0 == Highest(DuplicatedNodes(), Z)
  {
  }

  /** A floor of 10 lifts the flat y and z axes to 5 and keeps x at 20.5. */
  lemma MinExtentAdjustsRadiusCase()
    ensures FitExtent([(0.0, 1.0, 0.0), (40.0, 0.0, 0.0), (-1.0, 0.0, 0.0)], 10.0, 1.0)
         == Extent((19.5, 0.5, 0.0), (20.5, 5.0, 5.0))
  {
  }

  /** Growth doubles the x spread to 41 but leaves the floor at 5. */
  lemma MinExtentWithGrowthFactorCase()
    ensures FitExtent([(0.0, 1.0, 0.0), (40.0, 0.0, 0.0), (-1.0, 0.0, 0.0)], 10.0, 2.0)
         == Extent((19.5, 0.5, 0.0), (41.0, 5.0, 5.0))
  {
  }

  /** Negative coordinates: the centre is still the midpoint. */
  lemma NegativeNodePositionsCase()
    ensures FitExtent([(-46.0, -24.0, -28.0), (-45.0, -22.0, -54.0)], 0.0, 1.0)
         == Extent((-45.5, -23.0, -41.0), (0.5, 1.0, 13.0))
  {
  }
}
