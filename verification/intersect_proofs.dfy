/**
  What `Geometry.Intersect` computes, measured against the geometric
  reference `Geometry.MeetAt`: exact when nothing is narrowed and the
  segments are not parallel; in the parallel case exact only for the
  directions its x-only overlap test was written for.
 */
module IntersectProofs {
  import opened CInt
  import opened Geometry

  /** When nothing is narrowed, `Intersect` is the sign-normalised
      parametric test on exact cross products. */
  lemma NarrowingIsIdentity(a0: Point, a1: Point, b0: Point, b1: Point)
    requires NoNarrowing(a0, a1, b0, b1)
    ensures Intersect(a0, a1, b0, b1) ==
      var det := Det(a0, a1, b0, b1);
      var s := AlongB(a0, a1, b0, b1);
      var t := AlongA(a0, a1, b0, b1);
      if det == 0 then s == 0 && XTest(a0, a1, b0, b1)
      else if det > 0 then 0 <= s <= det && 0 <= t <= det
      else det <= s <= 0 && det <= t <= 0
  {
    var va := MakePoint(a1.x - a0.x, a1.y - a0.y);
    var vb := MakePoint(b1.x - b0.x, b1.y - b0.y);
    assert va.x == a1.x - a0.x && va.y == a1.y - a0.y;
    assert vb.x == b1.x - b0.x && vb.y == b1.y - b0.y;
    assert vb.x * va.y - va.x * vb.y == Det(a0, a1, b0, b1);
    assert (a0.x - b0.x) * va.y - (a0.y - b0.y) * va.x == AlongB(a0, a1, b0, b1);
    assert -(-(a0.x - b0.x) * vb.y + (a0.y - b0.y) * vb.x) == AlongA(a0, a1, b0, b1);
    assert (b0.x - a0.x) * va.y == (b0.y - a0.y) * va.x <==> AlongB(a0, a1, b0, b1) == 0;
  }

  // ---------------------------------------------------------------------
  // Algebra on plain integers (kept apart from the points so that the
  // solver sees only the products that matter)

  /** The vector identity behind the parametric solution:
      det * w == s * vb - t * va, with w = a0 - b0. */
  lemma CrossIdentity(wx: int, wy: int, vax: int, vay: int, vbx: int, vby: int)
    ensures Cross(vbx, vby, vax, vay) * wx == Cross(wx, wy, vax, vay) * vbx - Cross(wx, wy, vbx, vby) * vax
    ensures Cross(vbx, vby, vax, vay) * wy == Cross(wx, wy, vax, vay) * vby - Cross(wx, wy, vbx, vby) * vay
  {
  }

  /** Scaled coordinates agree exactly when `den` times the offset between
      the starting points is made up by the two scaled steps. */
  lemma ScaledAgree(den: int, onA: int, onB: int, a0: int, a1: int, b0: int, b1: int)
    ensures Scaled(den, onA, a0, a1) == Scaled(den, onB, b0, b1)
        <==> den * (a0 - b0) + onA * (a1 - a0) - onB * (b1 - b0) == 0
  {
    assert den * (a0 - b0) == den * a0 - den * b0;
  }

  /** Crossing the two meeting equations with each direction eliminates
      one parameter at a time. */
  lemma Eliminate(den: int, onA: int, onB: int, wx: int, wy: int, vax: int, vay: int, vbx: int, vby: int)
    requires den * wx + onA * vax - onB * vbx == 0
    requires den * wy + onA * vay - onB * vby == 0
    ensures den * Cross(wx, wy, vax, vay) == onB * Cross(vbx, vby, vax, vay)
    ensures den * Cross(wx, wy, vbx, vby) == onA * Cross(vbx, vby, vax, vay)
  {
    var ex, ey := den * wx + onA * vax - onB * vbx, den * wy + onA * vay - onB * vby;
    assert ex * vay - ey * vax == den * Cross(wx, wy, vax, vay) - onB * Cross(vbx, vby, vax, vay);
    assert ex * vby - ey * vbx == den * Cross(wx, wy, vbx, vby) - onA * Cross(vbx, vby, vax, vay);
  }

  /** If w is parallel to a non-vertical va, and vb is parallel to va, then
      w is parallel to vb. */
  lemma ParallelTransfer(wx: int, wy: int, vax: int, vay: int, vbx: int, vby: int)
    requires Cross(wx, wy, vax, vay) == 0 && Cross(vbx, vby, vax, vay) == 0
    requires vax != 0
    ensures Cross(wx, wy, vbx, vby) == 0
  {
    assert (wx * vby) * vax == (wy * vbx) * vax by {
      assert wx * vay == wy * vax;
      assert vbx * vay == vby * vax;
      assert (wx * vby) * vax == wx * (vby * vax);
      assert wx * (vbx * vay) == vbx * (wx * vay);
      assert vbx * (wy * vax) == (wy * vbx) * vax;
    }
    CancelFactor(wx * vby, wy * vbx, vax);
  }

  /** A product with a non-zero factor vanishes only when the other does. */
  lemma ZeroProduct(x: int, y: int)
    requires y != 0
    ensures x * y == 0 <==> x == 0
  {
    if x != 0 {
      MultipleOfAtLeast(x, Abs(y));
      assert Abs(x * y) == Abs(x * Abs(y));
    }
  }

  /** One-dimensional overlap: if a common coordinate is reached by
      rightward steps from both a0 and b0, one start lies within the
      other's range. */
  lemma RangesOverlap(den: int, onA: int, onB: int, a0: int, a1: int, b0: int, b1: int)
    requires den > 0 && 0 <= onA <= den && 0 <= onB <= den
    requires a1 - a0 >= 0 && b1 - b0 >= 0
    requires Scaled(den, onA, a0, a1) == Scaled(den, onB, b0, b1)
    ensures (0 <= b0 - a0 <= a1 - a0) || (0 <= a0 - b0 <= b1 - b0)
  {
    var va, vb := a1 - a0, b1 - b0;
    MulMonotone(0, onA, va);
    MulMonotone(0, onB, vb);
    MulMonotone(onA, den, va);
    MulMonotone(onB, den, vb);
    if b0 >= a0 {
      assert b0 * den <= (a0 + va) * den;
      MulCancel(b0, a0 + va, den);
    } else {
      assert a0 * den <= (b0 + vb) * den;
      MulCancel(a0, b0 + vb, den);
    }
  }

  /** A point of a segment lies within the segment's coordinate range:
      `den * min(u0, u1) <= Scaled(den, k, u0, u1) <= den * max(u0, u1)`. */
  lemma ScaledWithin(den: int, k: int, u0: int, u1: int)
    requires den > 0 && 0 <= k <= den
    ensures den * Min(u0, u1) <= Scaled(den, k, u0, u1) <= den * Max(u0, u1)
  {
    var d := u1 - u0;
    if d >= 0 {
      MulMonotone(0, k, d);
      MulMonotone(k, den, d);
      assert den * u1 == den * u0 + den * d;
    } else {
      MulMonotone(0, k, -d);
      MulMonotone(k, den, -d);
      assert k * d == -(k * (-d));
      assert den * u1 == den * u0 - den * (-d);
    }
  }

  /** One-dimensional meeting: a coordinate reached from both ranges
      forces the ranges to overlap. */
  lemma RangesMeet(den: int, onA: int, onB: int, a0: int, a1: int, b0: int, b1: int)
    requires den > 0 && 0 <= onA <= den && 0 <= onB <= den
    requires Scaled(den, onA, a0, a1) == Scaled(den, onB, b0, b1)
    ensures Min(a0, a1) <= Max(b0, b1) && Min(b0, b1) <= Max(a0, a1)
  {
    ScaledWithin(den, onA, a0, a1);
    ScaledWithin(den, onB, b0, b1);
    MulCancel(Min(a0, a1), Max(b0, b1), den);
    MulCancel(Min(b0, b1), Max(a0, a1), den);
  }

  // ---------------------------------------------------------------------
  // Soundness and completeness against the geometric reference

  /** A common point fixes both scaled parameters: `den * s == onB * det`
      and `den * t == onA * det`. */
  lemma MeetAtFixesParams(a0: Point, a1: Point, b0: Point, b1: Point, p: Param)
    ensures MeetAt(a0, a1, b0, b1, p) ==>
      && p.den * AlongB(a0, a1, b0, b1) == p.onB * Det(a0, a1, b0, b1)
      && p.den * AlongA(a0, a1, b0, b1) == p.onA * Det(a0, a1, b0, b1)
  {
    if MeetAt(a0, a1, b0, b1, p) {
      ScaledAgree(p.den, p.onA, p.onB, a0.x, a1.x, b0.x, b1.x);
      ScaledAgree(p.den, p.onA, p.onB, a0.y, a1.y, b0.y, b1.y);
      Eliminate(p.den, p.onA, p.onB, a0.x - b0.x, a0.y - b0.y, a1.x - a0.x, a1.y - a0.y, b1.x - b0.x, b1.y - b0.y);
    }
  }

  /** Soundness: whenever the segments are not parallel, or a is not
      vertical, a reported intersection is a real common point. */
  lemma IntersectSound(a0: Point, a1: Point, b0: Point, b1: Point)
    requires NoNarrowing(a0, a1, b0, b1)
    requires Det(a0, a1, b0, b1) != 0 || a1.x != a0.x
    requires Intersect(a0, a1, b0, b1)
    ensures MeetAt(a0, a1, b0, b1, Witness(a0, a1, b0, b1))
  {
    NarrowingIsIdentity(a0, a1, b0, b1);
    if Det(a0, a1, b0, b1) == 0 {
      CollinearSound(a0, a1, b0, b1);
    } else {
      CrossingSound(a0, a1, b0, b1);
    }
  }

  /** The non-parallel case of soundness: parameters in range give the
      common point. */
  lemma CrossingSound(a0: Point, a1: Point, b0: Point, b1: Point)
    requires Det(a0, a1, b0, b1) > 0 ==>
      0 <= AlongB(a0, a1, b0, b1) <= Det(a0, a1, b0, b1) && 0 <= AlongA(a0, a1, b0, b1) <= Det(a0, a1, b0, b1)
    requires Det(a0, a1, b0, b1) < 0 ==>
      Det(a0, a1, b0, b1) <= AlongB(a0, a1, b0, b1) <= 0 && Det(a0, a1, b0, b1) <= AlongA(a0, a1, b0, b1) <= 0
    requires Det(a0, a1, b0, b1) != 0
    ensures MeetAt(a0, a1, b0, b1, Witness(a0, a1, b0, b1))
  {
    var det, s, t := Det(a0, a1, b0, b1), AlongB(a0, a1, b0, b1), AlongA(a0, a1, b0, b1);
    if det > 0 {
      SolutionMeets(a0, a1, b0, b1, 1);
    } else {
      SolutionMeets(a0, a1, b0, b1, -1);
    }
  }

  /** The parametric solution, with its sign chosen by `k`, satisfies the
      meeting equations. */
  lemma SolutionMeets(a0: Point, a1: Point, b0: Point, b1: Point, k: int)
    requires k == 1 || k == -1
    ensures
      var det, s, t := Det(a0, a1, b0, b1), AlongB(a0, a1, b0, b1), AlongA(a0, a1, b0, b1);
      && Scaled(k * det, k * t, a0.x, a1.x) == Scaled(k * det, k * s, b0.x, b1.x)
      && Scaled(k * det, k * t, a0.y, a1.y) == Scaled(k * det, k * s, b0.y, b1.y)
  {
    var wx, wy := a0.x - b0.x, a0.y - b0.y;
    var vax, vay := a1.x - a0.x, a1.y - a0.y;
    var vbx, vby := b1.x - b0.x, b1.y - b0.y;
    var det, s, t := Cross(vbx, vby, vax, vay), Cross(wx, wy, vax, vay), Cross(wx, wy, vbx, vby);
    CrossIdentity(wx, wy, vax, vay, vbx, vby);
    ScaledAgree(k * det, k * t, k * s, a0.x, a1.x, b0.x, b1.x);
    ScaledAgree(k * det, k * t, k * s, a0.y, a1.y, b0.y, b1.y);
    SignedSum(k, det, t, s, wx, vax, vbx);
    SignedSum(k, det, t, s, wy, vay, vby);
  }

  /** Multiplying an equation `d * w + t * va - s * vb == 0` through by `k`. */
  lemma SignedSum(k: int, d: int, t: int, s: int, w: int, va: int, vb: int)
    requires d * w + t * va - s * vb == 0
    ensures (k * d) * w + (k * t) * va - (k * s) * vb == 0
  {
    assert (k * d) * w + (k * t) * va - (k * s) * vb == k * (d * w + t * va - s * vb);
  }

  /** The parallel case of soundness: the endpoint the overlap test found
      lies on the other segment, provided a is not vertical. */
  lemma CollinearSound(a0: Point, a1: Point, b0: Point, b1: Point)
    requires Det(a0, a1, b0, b1) == 0 && AlongB(a0, a1, b0, b1) == 0
    requires a1.x != a0.x
    requires XTest(a0, a1, b0, b1)
    ensures MeetAt(a0, a1, b0, b1, Witness(a0, a1, b0, b1))
  {
    var vax, vay := a1.x - a0.x, a1.y - a0.y;
    var vbx, vby := b1.x - b0.x, b1.y - b0.y;
    var wx, wy := a0.x - b0.x, a0.y - b0.y;
    var p := Witness(a0, a1, b0, b1);
    ScaledAgree(p.den, p.onA, p.onB, a0.x, a1.x, b0.x, b1.x);
    ScaledAgree(p.den, p.onA, p.onB, a0.y, a1.y, b0.y, b1.y);
    if 0 <= b0.x - a0.x <= vax {
      // b0 lies on line a, between a0 and a1.
      assert p == Param(-wx, 0, vax);
      assert Cross(wx, wy, vax, vay) == 0;
    } else if vbx > 0 {
      // b0 lies on line a and a is parallel to b, so a0 lies on line b.
      assert p == Param(0, wx, vbx);
      ParallelTransfer(wx, wy, vax, vay, vbx, vby);
    } else {
      // b has no horizontal extent, so the test found a0.x == b0.x; the
      // lines coincide and a is not vertical, so a0 == b0.
      assert p == Param(0, 0, 1);
      assert wx == 0 && vbx == 0;
      assert Cross(vbx, vby, vax, vay) == -(vby * vax);
      ZeroProduct(vby, vax);
      assert Cross(wx, wy, vax, vay) == -(wy * vax);
      ZeroProduct(wy, vax);
    }
  }

  /** Completeness: a common point is always reported when the segments
      are not parallel, and in the parallel case when neither points
      leftward. */
  lemma IntersectComplete(a0: Point, a1: Point, b0: Point, b1: Point, p: Param)
    requires NoNarrowing(a0, a1, b0, b1)
    requires Det(a0, a1, b0, b1) != 0 || (a1.x - a0.x >= 0 && b1.x - b0.x >= 0)
    requires MeetAt(a0, a1, b0, b1, p)
    ensures Intersect(a0, a1, b0, b1)
  {
    NarrowingIsIdentity(a0, a1, b0, b1);
    MeetAtFixesParams(a0, a1, b0, b1, p);
    var det := Det(a0, a1, b0, b1);
    ScaledBetween(p.den, p.onB, AlongB(a0, a1, b0, b1), det);
    ScaledBetween(p.den, p.onA, AlongA(a0, a1, b0, b1), det);
    if det == 0 {
      RangesOverlap(p.den, p.onA, p.onB, a0.x, a1.x, b0.x, b1.x);
    }
  }

  /** Distinct parallel lines share no point at all, so the `false` of the
      parallel, non-collinear case is exact. */
  lemma ParallelDistinctNeverMeet(a0: Point, a1: Point, b0: Point, b1: Point, p: Param)
    requires Det(a0, a1, b0, b1) == 0
    requires AlongB(a0, a1, b0, b1) != 0
    ensures !MeetAt(a0, a1, b0, b1, p)
  {
    MeetAtFixesParams(a0, a1, b0, b1, p);
  }

  /** Segments that share an endpoint are reported as intersecting (the
      segments are closed), under the conditions of `IntersectComplete`. */
  lemma SharedEndpointIntersects(a0: Point, a1: Point, b0: Point, b1: Point)
    requires NoNarrowing(a0, a1, b0, b1)
    requires Det(a0, a1, b0, b1) != 0 || (a1.x - a0.x >= 0 && b1.x - b0.x >= 0)
    requires a0 == b0 || a0 == b1 || a1 == b0 || a1 == b1
    ensures Intersect(a0, a1, b0, b1)
  {
    var p := SharedEndpointMeets(a0, a1, b0, b1);
    IntersectComplete(a0, a1, b0, b1, p);
  }

  /** A shared endpoint is a common point of the closed segments. */
  lemma SharedEndpointMeets(a0: Point, a1: Point, b0: Point, b1: Point) returns (p: Param)
    requires a0 == b0 || a0 == b1 || a1 == b0 || a1 == b1
    ensures MeetAt(a0, a1, b0, b1, p)
  {
    var onA := if a0 == b0 || a0 == b1 then 0 else 1;
    var shared := if onA == 0 then a0 else a1;
    var onB := if shared == b0 then 0 else 1;
    EndpointScaled(onA, a0.x, a1.x);
    EndpointScaled(onA, a0.y, a1.y);
    EndpointScaled(onB, b0.x, b1.x);
    EndpointScaled(onB, b0.y, b1.y);
    p := Param(onA, onB, 1);
  }

  /** With denominator 1, parameter 0 is the start and 1 the end. */
  lemma EndpointScaled(k: int, u0: int, u1: int)
    requires k == 0 || k == 1
    ensures Scaled(1, k, u0, u1) == if k == 0 then u0 else u1
  {
  }

  /** Swapping the two segments does not change the answer, as long as
      neither is a single point. */
  lemma IntersectSymmetric(a0: Point, a1: Point, b0: Point, b1: Point)
    requires NoNarrowing(a0, a1, b0, b1)
    requires a0 != a1 && b0 != b1
    ensures Intersect(a0, a1, b0, b1) == Intersect(b0, b1, a0, a1)
  {
    var det, s, t := Det(a0, a1, b0, b1), AlongB(a0, a1, b0, b1), AlongA(a0, a1, b0, b1);
    assert Det(b0, b1, a0, a1) == -det;
    assert AlongB(b0, b1, a0, a1) == -t;
    assert AlongA(b0, b1, a0, a1) == -s;
    NarrowingIsIdentity(a0, a1, b0, b1);
    NarrowingIsIdentity(b0, b1, a0, a1);
    if det == 0 {
      // Parallel: b0 is on line a exactly when a0 is on line b.
      CrossIdentity(a0.x - b0.x, a0.y - b0.y, a1.x - a0.x, a1.y - a0.y, b1.x - b0.x, b1.y - b0.y);
      assert s * (b1.x - b0.x) == t * (a1.x - a0.x);
      assert s * (b1.y - b0.y) == t * (a1.y - a0.y);
      NonZeroVector(s, b1.x - b0.x, b1.y - b0.y);
      NonZeroVector(t, a1.x - a0.x, a1.y - a0.y);
    }
  }

  /** Segments that meet have overlapping x-ranges and overlapping
      y-ranges. */
  lemma MeetAtOverlap(a0: Point, a1: Point, b0: Point, b1: Point, p: Param)
    requires MeetAt(a0, a1, b0, b1, p)
    ensures Min(a0.x, a1.x) <= Max(b0.x, b1.x) && Min(b0.x, b1.x) <= Max(a0.x, a1.x)
    ensures Min(a0.y, a1.y) <= Max(b0.y, b1.y) && Min(b0.y, b1.y) <= Max(a0.y, a1.y)
  {
    RangesMeet(p.den, p.onA, p.onB, a0.x, a1.x, b0.x, b1.x);
    RangesMeet(p.den, p.onA, p.onB, a0.y, a1.y, b0.y, b1.y);
  }

  /** A reported intersection always has overlapping x-ranges, even where
      the parallel case is unsound: its overlap test reads x only. */
  lemma IntersectXOverlap(a0: Point, a1: Point, b0: Point, b1: Point)
    requires NoNarrowing(a0, a1, b0, b1)
    requires Intersect(a0, a1, b0, b1)
    ensures Min(a0.x, a1.x) <= Max(b0.x, b1.x) && Min(b0.x, b1.x) <= Max(a0.x, a1.x)
  {
    NarrowingIsIdentity(a0, a1, b0, b1);
    if Det(a0, a1, b0, b1) != 0 {
      CrossingSound(a0, a1, b0, b1);
      MeetAtOverlap(a0, a1, b0, b1, Witness(a0, a1, b0, b1));
    }
  }

  /** A reported intersection has overlapping y-ranges whenever it is
      sound: the segments are not parallel or a is not vertical. */
  lemma IntersectYOverlap(a0: Point, a1: Point, b0: Point, b1: Point)
    requires NoNarrowing(a0, a1, b0, b1)
    requires Det(a0, a1, b0, b1) != 0 || a1.x != a0.x
    requires Intersect(a0, a1, b0, b1)
    ensures Min(a0.y, a1.y) <= Max(b0.y, b1.y) && Min(b0.y, b1.y) <= Max(a0.y, a1.y)
  {
    IntersectSound(a0, a1, b0, b1);
    MeetAtOverlap(a0, a1, b0, b1, Witness(a0, a1, b0, b1));
  }

  /** A hand no longer than 100 pixels per axis, starting on screen, and
      an axis-aligned edge on screen: nothing is narrowed. */
  lemma OnScreenNoNarrowing(a0: Point, a1: Point, b0: Point, b1: Point)
    requires OnScreen(a0) && OnScreen(b0) && OnScreen(b1)
    requires Abs(a1.x - a0.x) <= 100 && Abs(a1.y - a0.y) <= 100
    requires b0.x == b1.x || b0.y == b1.y
    ensures NoNarrowing(a0, a1, b0, b1)
  {
    var vax, vay := a1.x - a0.x, a1.y - a0.y;
    var vbx, vby := b1.x - b0.x, b1.y - b0.y;
    var wx, wy := a0.x - b0.x, a0.y - b0.y;
    CrossBound(wx, wy, vax, vay, ScreenWidth, ScreenHeight, 100, 100);
    if b0.x == b1.x {
      CrossBound(vbx, vby, vax, vay, 0, ScreenHeight, 100, 100);
      CrossBound(wx, wy, vbx, vby, ScreenWidth, ScreenHeight, 0, ScreenHeight);
    } else {
      CrossBound(vbx, vby, vax, vay, ScreenWidth, 0, 100, 100);
      CrossBound(wx, wy, vbx, vby, ScreenWidth, ScreenHeight, ScreenWidth, 0);
    }
  }

  /** Bounds on the components bound the cross product. */
  lemma CrossBound(ux: int, uy: int, vx: int, vy: int, bux: nat, buy: nat, bvx: nat, bvy: nat)
    requires Abs(ux) <= bux && Abs(uy) <= buy && Abs(vx) <= bvx && Abs(vy) <= bvy
    ensures Abs(Cross(ux, uy, vx, vy)) <= bux * bvy + buy * bvx
  {
    MulBound(ux, vy, bux, bvy);
    MulBound(uy, vx, buy, bvx);
  }
}
