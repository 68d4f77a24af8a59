/**
  Concrete inputs on which `Geometry.Intersect`, as written, departs from
  the geometry of closed segments.
 */
module IntersectQuirks {
  import opened CInt
  import opened Geometry

  /** Two vertical segments on the same line but far apart are reported as
      intersecting: the parallel case compares x-offsets only. */
  lemma VerticalCollinearFalsePositive(p: Param)
    ensures Intersect(Point(0, 0), Point(0, 1), Point(0, 5), Point(0, 6))
    ensures !MeetAt(Point(0, 0), Point(0, 1), Point(0, 5), Point(0, 6), p)
  {
  }

  /** A leftward segment that contains a collinear segment is reported as
      not intersecting it: the parallel case only tests rightward ranges. */
  lemma LeftwardCollinearMiss()
    ensures !Intersect(Point(10, 0), Point(0, 0), Point(5, 0), Point(3, 0))
    ensures MeetAt(Point(10, 0), Point(0, 0), Point(5, 0), Point(3, 0), Param(5, 0, 10))
  {
    assert Intersect(Point(10, 0), Point(0, 0), Point(5, 0), Point(3, 0))
        == IntersectDirections(Point(10, 0), Point(5, 0), Point(-10, 0), Point(-2, 0));
    assert IntersectDirections(Point(10, 0), Point(5, 0), Point(-10, 0), Point(-2, 0))
        == IntersectWithDet(Point(10, 0), Point(5, 0), Point(-10, 0), Point(-2, 0), 0);
  }

  /** Two leftward collinear segments chained end to start are reported as
      not intersecting, although they share an endpoint. */
  lemma LeftwardSharedEndpointMiss()
    ensures !Intersect(Point(5, 0), Point(0, 0), Point(0, 0), Point(-5, 0))
    ensures MeetAt(Point(5, 0), Point(0, 0), Point(0, 0), Point(-5, 0), Param(1, 0, 1))
  {
  }

  /** With a single-point first segment the answer depends on argument
      order: a point off a horizontal segment is reported as hitting it,
      but not the other way round. */
  lemma DegenerateOrderMatters(p: Param)
    ensures Intersect(Point(0, 0), Point(0, 0), Point(0, 1), Point(5, 1))
    ensures !Intersect(Point(0, 1), Point(5, 1), Point(0, 0), Point(0, 0))
    ensures !MeetAt(Point(0, 0), Point(0, 0), Point(0, 1), Point(5, 1), p)
  {
  }

  /** Narrowing matters: the two diagonals of a 160-pixel square cross at
      its centre, but the cross product overflows `int16_t` and the test
      reports no intersection. */
  lemma NarrowingMissesCrossingDiagonals()
    ensures !Intersect(Point(0, 160), Point(160, 0), Point(0, 0), Point(160, 160))
    ensures MeetAt(Point(0, 160), Point(160, 0), Point(0, 0), Point(160, 160), Param(1, 1, 2))
    ensures !NoNarrowing(Point(0, 160), Point(160, 0), Point(0, 0), Point(160, 160))
  {
    NarrowedDiagonalsMissed();
    assert Det(Point(0, 160), Point(160, 0), Point(0, 0), Point(160, 160)) == -51200;
  }

  /** The exact cross product is -51200; narrowed, it becomes 14336 and
      flips sign, while s and t stay at -25600, so the range test fails. */
  lemma NarrowedDiagonalsMissed()
    ensures !Intersect(Point(0, 160), Point(160, 0), Point(0, 0), Point(160, 160))
  {
    assert Intersect(Point(0, 160), Point(160, 0), Point(0, 0), Point(160, 160))
        == IntersectDirections(Point(0, 160), Point(0, 0), Point(160, -160), Point(160, 160));
    assert Wrap16(-51200) == 14336;
    assert IntersectDirections(Point(0, 160), Point(0, 0), Point(160, -160), Point(160, 160))
        == IntersectWithDet(Point(0, 160), Point(0, 0), Point(160, -160), Point(160, 160), 14336);
    assert Wrap16(-25600) == -25600;
    assert IntersectWithDet(Point(0, 160), Point(0, 0), Point(160, -160), Point(160, 160), 14336)
        == ParamsInRange(14336, -25600, -25600);
  }

  /** Narrowing can also invent a hit: these segments lie in disjoint
      x-ranges, yet det, s and t narrow to 25550, 23867 and 3861, which
      pass the range test. */
  lemma NarrowingReportsSeparatedSegments(p: Param)
    ensures Intersect(Point(-907, 12), Point(-1122, 42), Point(-494, 453), Point(-73, -1011))
    ensures Max(-907, -1122) < Min(-494, -73)
    ensures !MeetAt(Point(-907, 12), Point(-1122, 42), Point(-494, 453), Point(-73, -1011), p)
    ensures !NoNarrowing(Point(-907, 12), Point(-1122, 42), Point(-494, 453), Point(-73, -1011))
  {
    NarrowedSeparatedHit();
    SeparatedNeverMeet(p);
    SeparatedOverflows();
  }

  lemma SeparatedOverflows()
    ensures !NoNarrowing(Point(-907, 12), Point(-1122, 42), Point(-494, 453), Point(-73, -1011))
  {
    assert Det(Point(-907, 12), Point(-1122, 42), Point(-494, 453), Point(-73, -1011))
        == Cross(421, -1464, -215, 30) == -302130;
  }

  lemma NarrowedSeparatedHit()
    ensures Intersect(Point(-907, 12), Point(-1122, 42), Point(-494, 453), Point(-73, -1011))
  {
    SeparatedWraps();
    assert Intersect(Point(-907, 12), Point(-1122, 42), Point(-494, 453), Point(-73, -1011))
        == IntersectDirections(Point(-907, 12), Point(-494, 453), Point(-215, 30), Point(421, -1464));
    assert IntersectDirections(Point(-907, 12), Point(-494, 453), Point(-215, 30), Point(421, -1464))
        == IntersectWithDet(Point(-907, 12), Point(-494, 453), Point(-215, 30), Point(421, -1464), 25550);
    assert IntersectWithDet(Point(-907, 12), Point(-494, 453), Point(-215, 30), Point(421, -1464), 25550)
        == ParamsInRange(25550, 23867, 3861);
  }

  /** The exact det, s and t of the separated pair, and what they narrow to. */
  lemma SeparatedWraps()
    ensures 421 * 30 - -215 * -1464 == -302130 && Wrap16(-302130) == 25550
    ensures (-907 - -494) * 30 - (12 - 453) * -215 == -107205 && Wrap16(-107205) == 23867
    ensures -(-(-907 - -494) * -1464 + (12 - 453) * 421) == 790293 && Wrap16(790293) == 3861
  {
  }

  /** Segments in disjoint x-ranges share no point. */
  lemma SeparatedNeverMeet(p: Param)
    ensures !MeetAt(Point(-907, 12), Point(-1122, 42), Point(-494, 453), Point(-73, -1011), p)
  {
    if p.den > 0 && 0 <= p.onA && 0 <= p.onB {
      assert Scaled(p.den, p.onA, -907, -1122) == -907 * p.den - 215 * p.onA;
      assert Scaled(p.den, p.onB, -494, -73) == -494 * p.den + 421 * p.onB;
    }
  }

  /** The `false` of the parallel branch is reached by segments that are
      not parallel at all: these cross at (100, 0), but their cross product
      65536 narrows to 0, and they do not lie on one line. */
  lemma NarrowedDetMissesCrossing()
    ensures !Intersect(Point(0, 0), Point(256, 0), Point(100, 128), Point(100, -128))
    ensures MeetAt(Point(0, 0), Point(256, 0), Point(100, 128), Point(100, -128), Param(100, 128, 256))
    ensures Det(Point(0, 0), Point(256, 0), Point(100, 128), Point(100, -128)) == 65536
    ensures Wrap16(65536) == 0
  {
    assert Intersect(Point(0, 0), Point(256, 0), Point(100, 128), Point(100, -128))
        == IntersectDirections(Point(0, 0), Point(100, 128), Point(256, 0), Point(0, -256));
    assert IntersectDirections(Point(0, 0), Point(100, 128), Point(256, 0), Point(0, -256))
        == IntersectWithDet(Point(0, 0), Point(100, 128), Point(256, 0), Point(0, -256), 0);
  }
}
