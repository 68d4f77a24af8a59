/**
  Points and the segment-intersection test of the obsidian watch face
  (`intersect` in src/obsidian.c), with its `int16_t` narrowing modelled
  exactly, and a geometric reference: two closed segments meet when some
  point lies on both, given by rational parameters with a common
  denominator.
 */
module Geometry {
  import opened CInt

  /** A screen position (`GPoint`): two `int16_t` coordinates. */
  datatype Point = Point(x: I16, y: I16)

  /** `GPoint(x, y)` built from `int` expressions: each coordinate is
      narrowed to `int16_t`. */
  function MakePoint(x: int, y: int): (p: Point)
    ensures InI16(x) && InI16(y) ==> p.x == x && p.y == y
  {
    Point(Wrap16(x), Wrap16(y))
  }

  /** Do the closed segments a0-a1 and b0-b1 intersect? As written: integer
      cross products, every intermediate narrowed to `int16_t`, and in the
      parallel case an overlap test that reads x-coordinates only. The C
      function's local variables become the parameters of the stages below. */
  function Intersect(a0: Point, a1: Point, b0: Point, b1: Point): bool {
    IntersectDirections(a0, b0, MakePoint(a1.x - a0.x, a1.y - a0.y), MakePoint(b1.x - b0.x, b1.y - b0.y))
  }

  /** `intersect` once the direction vectors `va` and `vb` are formed. */
  function IntersectDirections(a0: Point, b0: Point, va: Point, vb: Point): bool {
    IntersectWithDet(a0, b0, va, vb, Wrap16(vb.x * va.y - va.x * vb.y))
  }

  /** `intersect` once the narrowed cross product `det` is known: the
      parallel case, or the range test on the narrowed `s` and `t`. */
  function IntersectWithDet(a0: Point, b0: Point, va: Point, vb: Point, det: int): bool {
    if det == 0 then
      if (b0.x - a0.x) * va.y == (b0.y - a0.y) * va.x then
        (0 <= b0.x - a0.x && b0.x - a0.x <= va.x) || (0 <= a0.x - b0.x && a0.x - b0.x <= vb.x)
      else
        false
    else
      ParamsInRange(det,
        Wrap16((a0.x - b0.x) * va.y - (a0.y - b0.y) * va.x),
        Wrap16(-(-(a0.x - b0.x) * vb.y + (a0.y - b0.y) * vb.x)))
  }

  /** The final test of `intersect`: negate all three values (narrowing
      again) when `det` is negative, then require `0 <= s, t <= det`. */
  function ParamsInRange(det: int, s: int, t: int): bool {
    if det < 0 then
      InRange(Wrap16(-det), Wrap16(-s), Wrap16(-t))
    else
      InRange(det, s, t)
  }

  predicate InRange(det: int, s: int, t: int) {
    0 <= s && s <= det && 0 <= t && t <= det
  }

  // ---------------------------------------------------------------------
  // Exact (unnarrowed) quantities

  /** The cross product of the vectors (ux, uy) and (vx, vy). */
  function Cross(ux: int, uy: int, vx: int, vy: int): int {
    ux * vy - uy * vx
  }

  /** Cross product of the direction of b with the direction of a. Zero
      exactly when the segments are parallel. */
  function Det(a0: Point, a1: Point, b0: Point, b1: Point): int {
    Cross(b1.x - b0.x, b1.y - b0.y, a1.x - a0.x, a1.y - a0.y)
  }

  /** `Det` times the parameter of the meeting point along b. Zero exactly
      when b0 lies on the line through a0 and a1. */
  function AlongB(a0: Point, a1: Point, b0: Point, b1: Point): int {
    Cross(a0.x - b0.x, a0.y - b0.y, a1.x - a0.x, a1.y - a0.y)
  }

  /** `Det` times the parameter of the meeting point along a. */
  function AlongA(a0: Point, a1: Point, b0: Point, b1: Point): int {
    Cross(a0.x - b0.x, a0.y - b0.y, b1.x - b0.x, b1.y - b0.y)
  }

  /** A value that survives narrowing to `int16_t`, and so does its negation. */
  predicate Fits(v: int) {
    -MaxI16 <= v <= MaxI16
  }

  /** None of the narrowings inside `Intersect` changes a value. */
  predicate NoNarrowing(a0: Point, a1: Point, b0: Point, b1: Point) {
    && Fits(a1.x - a0.x) && Fits(a1.y - a0.y)
    && Fits(b1.x - b0.x) && Fits(b1.y - b0.y)
    && Fits(Det(a0, a1, b0, b1))
    && Fits(AlongB(a0, a1, b0, b1))
    && Fits(AlongA(a0, a1, b0, b1))
  }

  /** The overlap test of the parallel case: b0 lies in the x-range of a
      when a points rightward, or a0 lies in the x-range of b when b points
      rightward. */
  predicate XTest(a0: Point, a1: Point, b0: Point, b1: Point) {
    || (0 <= b0.x - a0.x <= a1.x - a0.x)
    || (0 <= a0.x - b0.x <= b1.x - b0.x)
  }

  // ---------------------------------------------------------------------
  // Geometric reference

  /** Scaled parameters of a point: `onA / den` of the way from a0 to a1 and
      `onB / den` of the way from b0 to b1. */
  datatype Param = Param(onA: int, onB: int, den: int)

  /** The closed segments a0-a1 and b0-b1 share the point
      a0 + (onA / den) (a1 - a0) == b0 + (onB / den) (b1 - b0). */
  predicate MeetAt(a0: Point, a1: Point, b0: Point, b1: Point, p: Param) {
    && p.den > 0
    && 0 <= p.onA <= p.den
    && 0 <= p.onB <= p.den
    && Scaled(p.den, p.onA, a0.x, a1.x) == Scaled(p.den, p.onB, b0.x, b1.x)
    && Scaled(p.den, p.onA, a0.y, a1.y) == Scaled(p.den, p.onB, b0.y, b1.y)
  }

  /** `den` times the coordinate lying `k / den` of the way from u0 to u1. */
  function Scaled(den: int, k: int, u0: int, u1: int): int {
    den * u0 + k * (u1 - u0)
  }

  /** The common point `Intersect` vouches for: the parametric solution when
      the segments are not parallel, otherwise the endpoint that the overlap
      test found inside the other segment. */
  function Witness(a0: Point, a1: Point, b0: Point, b1: Point): Param {
    var det := Det(a0, a1, b0, b1);
    if det > 0 then Param(AlongA(a0, a1, b0, b1), AlongB(a0, a1, b0, b1), det)
    else if det < 0 then Param(-AlongA(a0, a1, b0, b1), -AlongB(a0, a1, b0, b1), -det)
    else if 0 <= b0.x - a0.x <= a1.x - a0.x then Param(b0.x - a0.x, 0, a1.x - a0.x)
    else if b1.x - b0.x > 0 then Param(0, a0.x - b0.x, b1.x - b0.x)
    else Param(0, 0, 1)
  }

  // ---------------------------------------------------------------------
  // The screen

  /** The display of the round-less Pebble models, in pixels. */
  const ScreenWidth: int := 144
  const ScreenHeight: int := 168

  predicate OnScreen(p: Point) {
    0 <= p.x <= ScreenWidth && 0 <= p.y <= ScreenHeight
  }
}
