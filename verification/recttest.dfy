/**
  The rectangle tests of the watch face (`line_rect_intersect` and
  `line2_rect_intersect` in src/obsidian.c): a segment hits a rectangle
  when `intersect` reports a crossing with one of four edges built from
  two opposite corners.
 */
module RectTest {
  import opened CInt
  import opened Geometry
  import opened IntersectProofs

  /** A directed segment from `from` to `to`. */
  datatype Edge = Edge(from: Point, to: Point)

  /** The four edges `line_rect_intersect` tests, in its order, for the
      rectangle with opposite corners r0 and r1: two edges leave r0 and
      two leave r1, each towards one of the other two corners. */
  function Edges(r0: Point, r1: Point): (es: seq<Edge>)
    ensures |es| == 4
  {
    [ Edge(r0, Point(r1.x, r0.y)), Edge(r0, Point(r0.x, r1.y)),
      Edge(r1, Point(r1.x, r0.y)), Edge(r1, Point(r0.x, r1.y)) ]
  }

  /** Does the segment l0-l1 hit the boundary of the rectangle r0/r1? */
  function LineRectIntersect(l0: Point, l1: Point, r0: Point, r1: Point): bool {
    || Intersect(l0, l1, r0, Point(r1.x, r0.y))
    || Intersect(l0, l1, r0, Point(r0.x, r1.y))
    || Intersect(l0, l1, r1, Point(r1.x, r0.y))
    || Intersect(l0, l1, r1, Point(r0.x, r1.y))
  }

  /** Does either of two segments hit the rectangle? */
  function Line2RectIntersect(a0: Point, a1: Point, b0: Point, b1: Point, r0: Point, r1: Point): bool {
    LineRectIntersect(a0, a1, r0, r1) || LineRectIntersect(b0, b1, r0, r1)
  }

  // ---------------------------------------------------------------------
  // The edges are the rectangle's boundary

  predicate Between(v: int, u0: int, u1: int) {
    (u0 <= v <= u1) || (u1 <= v <= u0)
  }

  /** q lies on the boundary of the axis-aligned rectangle with opposite
      corners r0 and r1. */
  predicate OnBoundary(q: Point, r0: Point, r1: Point) {
    && Between(q.x, r0.x, r1.x) && Between(q.y, r0.y, r1.y)
    && (q.x == r0.x || q.x == r1.x || q.y == r0.y || q.y == r1.y)
  }

  /** q lies within the bounding box of e (for an axis-aligned edge: on it). */
  predicate OnEdge(q: Point, e: Edge) {
    Between(q.x, e.from.x, e.to.x) && Between(q.y, e.from.y, e.to.y)
  }

  /** Every edge is horizontal or vertical, so `OnEdge` means lying on it. */
  lemma EdgesAxisAligned(r0: Point, r1: Point)
    ensures forall e :: e in Edges(r0, r1) ==> e.from.x == e.to.x || e.from.y == e.to.y
  {
  }

  /** The four edges trace exactly the boundary of the rectangle, whichever
      two opposite corners are given. */
  lemma EdgesTraceBoundary(q: Point, r0: Point, r1: Point)
    ensures OnBoundary(q, r0, r1) <==> exists e :: e in Edges(r0, r1) && OnEdge(q, e)
  {
    var es := Edges(r0, r1);
    if OnBoundary(q, r0, r1) {
      if q.y == r0.y {
        assert OnEdge(q, es[0]);
      } else if q.x == r0.x {
        assert OnEdge(q, es[1]);
      } else if q.x == r1.x {
        assert OnEdge(q, es[2]);
      } else {
        assert OnEdge(q, es[3]);
      }
    }
    if exists e :: e in es && OnEdge(q, e) {
      var e :| e in es && OnEdge(q, e);
      assert e == es[0] || e == es[1] || e == es[2] || e == es[3];
    }
  }

  // ---------------------------------------------------------------------
  // The test is the disjunction over the edges

  /** `line_rect_intersect` reports a hit exactly when `intersect` reports
      one for some edge. */
  lemma LineRectIsAnyEdge(l0: Point, l1: Point, r0: Point, r1: Point)
    ensures LineRectIntersect(l0, l1, r0, r1)
        <==> exists e :: e in Edges(r0, r1) && Intersect(l0, l1, e.from, e.to)
  {
    var es := Edges(r0, r1);
    if LineRectIntersect(l0, l1, r0, r1) {
      if Intersect(l0, l1, es[0].from, es[0].to) {
        assert es[0] in es;
      } else if Intersect(l0, l1, es[1].from, es[1].to) {
        assert es[1] in es;
      } else if Intersect(l0, l1, es[2].from, es[2].to) {
        assert es[2] in es;
      } else {
        assert es[3] in es;
      }
    }
    if exists e :: e in es && Intersect(l0, l1, e.from, e.to) {
      var e :| e in es && Intersect(l0, l1, e.from, e.to);
      assert e == es[0] || e == es[1] || e == es[2] || e == es[3];
    }
  }

  /** Swapping the two corners passed in gives the same four directed
      edges, so the same answer. */
  lemma LineRectCornerSwap(l0: Point, l1: Point, r0: Point, r1: Point)
    ensures multiset(Edges(r0, r1)) == multiset(Edges(r1, r0))
    ensures LineRectIntersect(l0, l1, r0, r1) == LineRectIntersect(l0, l1, r1, r0)
  {
    var es, fs := Edges(r0, r1), Edges(r1, r0);
    assert fs == [es[3], es[2], es[1], es[0]];
    calc {
      multiset(fs);
      multiset([es[3]]) + multiset([es[2]]) + multiset([es[1]]) + multiset([es[0]]);
      multiset(es);
    }
  }

  /** Naming the rectangle by its other diagonal is not the same: every
      edge is reversed, and a leftward segment lying along the bottom edge
      is then missed by the parallel overlap test. */
  lemma OtherDiagonalDiffers()
    ensures LineRectIntersect(Point(8, 0), Point(2, 0), Point(0, 0), Point(10, 10))
    ensures !LineRectIntersect(Point(8, 0), Point(2, 0), Point(10, 0), Point(0, 10))
  {
    AlongBottomEdge();
    ReversedEdgesFromCorner();
    ReversedEdgesFromOpposite();
  }

  /** The segment from (8,0) to (2,0) lies along the edge (0,0)-(10,0). */
  lemma AlongBottomEdge()
    ensures Intersect(Point(8, 0), Point(2, 0), Point(0, 0), Point(10, 0))
  {
    assert Intersect(Point(8, 0), Point(2, 0), Point(0, 0), Point(10, 0))
        == IntersectDirections(Point(8, 0), Point(0, 0), Point(-6, 0), Point(10, 0));
    assert IntersectDirections(Point(8, 0), Point(0, 0), Point(-6, 0), Point(10, 0))
        == IntersectWithDet(Point(8, 0), Point(0, 0), Point(-6, 0), Point(10, 0), 0);
  }

  /** Neither edge leaving (10,0) is reported: the reversed bottom edge
      fails the x-only overlap test, and the right edge is not reached. */
  lemma ReversedEdgesFromCorner()
    ensures !Intersect(Point(8, 0), Point(2, 0), Point(10, 0), Point(0, 0))
    ensures !Intersect(Point(8, 0), Point(2, 0), Point(10, 0), Point(10, 10))
  {
    ReversedBottomEdge();
    RightEdgeUnreached();
  }

  lemma ReversedBottomEdge()
    ensures !Intersect(Point(8, 0), Point(2, 0), Point(10, 0), Point(0, 0))
  {
    assert Intersect(Point(8, 0), Point(2, 0), Point(10, 0), Point(0, 0))
        == IntersectDirections(Point(8, 0), Point(10, 0), Point(-6, 0), Point(-10, 0));
    assert Wrap16(0) == 0;
    assert IntersectDirections(Point(8, 0), Point(10, 0), Point(-6, 0), Point(-10, 0))
        == IntersectWithDet(Point(8, 0), Point(10, 0), Point(-6, 0), Point(-10, 0), 0);
  }

  lemma RightEdgeUnreached()
    ensures !Intersect(Point(8, 0), Point(2, 0), Point(10, 0), Point(10, 10))
  {
    assert Intersect(Point(8, 0), Point(2, 0), Point(10, 0), Point(10, 10))
        == IntersectDirections(Point(8, 0), Point(10, 0), Point(-6, 0), Point(0, 10));
    assert Wrap16(60) == 60 && Wrap16(0) == 0 && Wrap16(-20) == -20;
    assert IntersectDirections(Point(8, 0), Point(10, 0), Point(-6, 0), Point(0, 10))
        == IntersectWithDet(Point(8, 0), Point(10, 0), Point(-6, 0), Point(0, 10), 60);
    assert IntersectWithDet(Point(8, 0), Point(10, 0), Point(-6, 0), Point(0, 10), 60)
        == ParamsInRange(60, 0, -20);
  }

  /** Neither edge leaving (0,10) is reported. */
  lemma ReversedEdgesFromOpposite()
    ensures !Intersect(Point(8, 0), Point(2, 0), Point(0, 10), Point(0, 0))
    ensures !Intersect(Point(8, 0), Point(2, 0), Point(0, 10), Point(10, 10))
  {
    ReversedLeftEdge();
    TopEdgeApart();
  }

  lemma ReversedLeftEdge()
    ensures !Intersect(Point(8, 0), Point(2, 0), Point(0, 10), Point(0, 0))
  {
    assert Intersect(Point(8, 0), Point(2, 0), Point(0, 10), Point(0, 0))
        == IntersectDirections(Point(8, 0), Point(0, 10), Point(-6, 0), Point(0, -10));
    assert Wrap16(-60) == -60 && Wrap16(-80) == -80;
    assert IntersectDirections(Point(8, 0), Point(0, 10), Point(-6, 0), Point(0, -10))
        == IntersectWithDet(Point(8, 0), Point(0, 10), Point(-6, 0), Point(0, -10), -60);
    assert IntersectWithDet(Point(8, 0), Point(0, 10), Point(-6, 0), Point(0, -10), -60)
        == ParamsInRange(-60, -60, -80);
    assert Wrap16(60) == 60 && Wrap16(80) == 80;
    assert ParamsInRange(-60, -60, -80) == InRange(60, 60, 80);
  }

  lemma TopEdgeApart()
    ensures !Intersect(Point(8, 0), Point(2, 0), Point(0, 10), Point(10, 10))
  {
    assert Intersect(Point(8, 0), Point(2, 0), Point(0, 10), Point(10, 10))
        == IntersectDirections(Point(8, 0), Point(0, 10), Point(-6, 0), Point(10, 0));
    assert Wrap16(0) == 0;
    assert IntersectDirections(Point(8, 0), Point(0, 10), Point(-6, 0), Point(10, 0))
        == IntersectWithDet(Point(8, 0), Point(0, 10), Point(-6, 0), Point(10, 0), 0);
  }

  /** `line2_rect_intersect` does not depend on the order of the segments. */
  lemma Line2RectSymmetric(a0: Point, a1: Point, b0: Point, b1: Point, r0: Point, r1: Point)
    ensures Line2RectIntersect(a0, a1, b0, b1, r0, r1) == Line2RectIntersect(b0, b1, a0, a1, r0, r1)
  {
  }

  // ---------------------------------------------------------------------
  // Against the geometry

  /** Nothing inside any of the four `intersect` calls is narrowed. */
  predicate EdgesFit(l0: Point, l1: Point, r0: Point, r1: Point) {
    forall e :: e in Edges(r0, r1) ==> NoNarrowing(l0, l1, e.from, e.to)
  }

  /** A hand of at most 100 pixels per axis from an on-screen centre,
      against an on-screen rectangle: nothing is narrowed. */
  lemma HandEdgesFit(l0: Point, l1: Point, r0: Point, r1: Point)
    requires OnScreen(l0) && OnScreen(r0) && OnScreen(r1)
    requires Abs(l1.x - l0.x) <= 100 && Abs(l1.y - l0.y) <= 100
    ensures EdgesFit(l0, l1, r0, r1)
  {
    forall e | e in Edges(r0, r1)
      ensures NoNarrowing(l0, l1, e.from, e.to)
    {
      OnScreenNoNarrowing(l0, l1, e.from, e.to);
    }
  }

  /** Soundness: a hit reported for a segment that is not vertical is a
      real common point of the segment and the rectangle's boundary. */
  lemma LineRectSound(l0: Point, l1: Point, r0: Point, r1: Point)
    requires EdgesFit(l0, l1, r0, r1)
    requires l1.x != l0.x
    requires LineRectIntersect(l0, l1, r0, r1)
    ensures exists e :: e in Edges(r0, r1) && MeetAt(l0, l1, e.from, e.to, Witness(l0, l1, e.from, e.to))
  {
    LineRectIsAnyEdge(l0, l1, r0, r1);
    var e :| e in Edges(r0, r1) && Intersect(l0, l1, e.from, e.to);
    IntersectSound(l0, l1, e.from, e.to);
  }

  /** Completeness: a segment that is not horizontal and touches the
      boundary of a rectangle of non-zero width and height is reported. */
  lemma LineRectComplete(l0: Point, l1: Point, r0: Point, r1: Point, e: Edge, p: Param)
    requires EdgesFit(l0, l1, r0, r1)
    requires l1.y != l0.y
    requires r0.x != r1.x && r0.y != r1.y
    requires e in Edges(r0, r1) && MeetAt(l0, l1, e.from, e.to, p)
    ensures LineRectIntersect(l0, l1, r0, r1)
  {
    EdgeDirection(l0, l1, e);
    IntersectComplete(l0, l1, e.from, e.to, p);
    LineRectIsAnyEdge(l0, l1, r0, r1);
  }

  /** Against a non-degenerate axis-aligned edge, a segment that is not
      horizontal is parallel only when both are vertical. */
  lemma EdgeDirection(l0: Point, l1: Point, e: Edge)
    requires l1.y != l0.y
    requires (e.from.x == e.to.x) != (e.from.y == e.to.y)
    ensures Det(l0, l1, e.from, e.to) != 0 || (l1.x - l0.x == 0 && e.to.x - e.from.x == 0)
  {
    var vax, vay := l1.x - l0.x, l1.y - l0.y;
    var vbx, vby := e.to.x - e.from.x, e.to.y - e.from.y;
    if vby == 0 {
      assert Det(l0, l1, e.from, e.to) == vbx * vay;
      ZeroProduct(vbx, vay);
    } else {
      assert Det(l0, l1, e.from, e.to) == -(vby * vax);
      ZeroProduct(vax, vby);
    }
  }

  /** A segment entirely to one side of the rectangle in x is never
      reported as hitting it. */
  lemma XSeparatedMiss(l0: Point, l1: Point, r0: Point, r1: Point)
    requires EdgesFit(l0, l1, r0, r1)
    requires Max(l0.x, l1.x) < Min(r0.x, r1.x) || Max(r0.x, r1.x) < Min(l0.x, l1.x)
    ensures !LineRectIntersect(l0, l1, r0, r1)
  {
    forall e | e in Edges(r0, r1)
      ensures !Intersect(l0, l1, e.from, e.to)
    {
      if Intersect(l0, l1, e.from, e.to) {
        IntersectXOverlap(l0, l1, e.from, e.to);
      }
    }
    LineRectIsAnyEdge(l0, l1, r0, r1);
  }

  /** A segment that is not vertical and lies entirely above or below the
      rectangle is never reported as hitting it. */
  lemma YSeparatedMiss(l0: Point, l1: Point, r0: Point, r1: Point)
    requires EdgesFit(l0, l1, r0, r1)
    requires l1.x != l0.x
    requires Max(l0.y, l1.y) < Min(r0.y, r1.y) || Max(r0.y, r1.y) < Min(l0.y, l1.y)
    ensures !LineRectIntersect(l0, l1, r0, r1)
  {
    forall e | e in Edges(r0, r1)
      ensures !Intersect(l0, l1, e.from, e.to)
    {
      if Intersect(l0, l1, e.from, e.to) {
        IntersectYOverlap(l0, l1, e.from, e.to);
      }
    }
    LineRectIsAnyEdge(l0, l1, r0, r1);
  }

  /** The restriction of `YSeparatedMiss` is needed: a vertical segment
      in line with a vertical edge, but far above the rectangle, is
      reported as hitting it. */
  lemma VerticalLineAboveRectHits()
    ensures LineRectIntersect(Point(5, 0), Point(5, 3), Point(5, 10), Point(9, 20))
    ensures Max(0, 3) < Min(10, 20)
  {
    assert Intersect(Point(5, 0), Point(5, 3), Point(5, 10), Point(5, 20))
        == IntersectDirections(Point(5, 0), Point(5, 10), Point(0, 3), Point(0, 10));
    assert IntersectDirections(Point(5, 0), Point(5, 10), Point(0, 3), Point(0, 10))
        == IntersectWithDet(Point(5, 0), Point(5, 10), Point(0, 3), Point(0, 10), 0);
  }
}
