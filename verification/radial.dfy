/**
  Where the hands point: the radial-point helper of the watch face
  (`get_radial_point` in src/obsidian.c) and the hand-angle arithmetic of
  its background update. Pebble angles run from 0 to TRIG_MAX_ANGLE for a
  full turn, clockwise from twelve o'clock; the sine and cosine lookups
  return values scaled by TRIG_MAX_RATIO. The lookup tables themselves
  are not part of this model: their results are parameters.
 */
module Radial {
  import opened CInt
  import opened Geometry

  /** A full turn (Pebble SDK `TRIG_MAX_ANGLE`). */
  const TrigMaxAngle: int := 0x10000
  /** The scale of the sine and cosine lookups (`TRIG_MAX_RATIO`). */
  const TrigMaxRatio: int := 0xffff

  /** A value the SDK's `sin_lookup` or `cos_lookup` can return. */
  predicate TrigValue(v: int) {
    -TrigMaxRatio <= v <= TrigMaxRatio
  }

  /** The point `distance` pixels from `center` in the direction whose
      sine and cosine lookups are `sinValue` and `cosValue`: each offset is
      the product divided by TRIG_MAX_RATIO with C's truncating division,
      narrowed to `int16_t`, then added to the centre and narrowed again.
      Screen y grows downward, hence the negated cosine. */
  function RadialPoint(center: Point, distance: I16, sinValue: int, cosValue: int): (p: Point)
    requires TrigValue(sinValue) && TrigValue(cosValue)
    ensures sinValue == 0 ==> p.x == center.x
    ensures cosValue == 0 ==> p.y == center.y
  {
    AxisOffsetZero(sinValue, distance);
    AxisOffsetZero(-cosValue, distance);
    assert -cosValue * distance == (-cosValue) * distance;
    MakePoint(Wrap16(TruncDiv(sinValue * distance, TrigMaxRatio)) + center.x,
              Wrap16(TruncDiv(-cosValue * distance, TrigMaxRatio)) + center.y)
  }

  /** The offset along one axis, before it is added to the centre. */
  function AxisOffset(trigValue: int, distance: I16): int
    requires TrigValue(trigValue)
  {
    TruncDiv(trigValue * distance, TrigMaxRatio)
  }

  /** No offset along an axis whose trigonometric value is zero. */
  lemma AxisOffsetZero(trigValue: int, distance: I16)
    requires TrigValue(trigValue)
    ensures trigValue == 0 ==> AxisOffset(trigValue, distance) == 0
  {
    if trigValue == 0 {
      assert trigValue * distance == 0;
      TruncDivUnique(0, TrigMaxRatio, 0);
    }
  }

  /** The offset along an axis never exceeds the distance (the division
      truncates, so it cannot round outward). */
  lemma AxisOffsetBound(trigValue: int, distance: I16)
    requires TrigValue(trigValue) && distance >= 0
    ensures Abs(AxisOffset(trigValue, distance)) <= distance
  {
    MulBoundNat(trigValue, distance);
    TruncDivBound(trigValue * distance, TrigMaxRatio, distance);
  }

  lemma MulBoundNat(trigValue: int, distance: nat)
    requires TrigValue(trigValue)
    ensures Abs(trigValue * distance) <= distance * TrigMaxRatio
  {
    MulBound(trigValue, distance, TrigMaxRatio, distance);
  }

  /** A point at distance d >= 0 lies within d pixels of the centre along
      each axis, as long as the square of side 2d around the centre stays
      within `int16_t`. */
  lemma RadialPointBound(center: Point, distance: I16, sinValue: int, cosValue: int)
    requires TrigValue(sinValue) && TrigValue(cosValue)
    requires distance >= 0
    requires InI16(center.x - distance) && InI16(center.x + distance)
    requires InI16(center.y - distance) && InI16(center.y + distance)
    ensures Abs(RadialPoint(center, distance, sinValue, cosValue).x - center.x) <= distance
    ensures Abs(RadialPoint(center, distance, sinValue, cosValue).y - center.y) <= distance
  {
    AxisOffsetBound(sinValue, distance);
    AxisOffsetBound(-cosValue, distance);
    assert -cosValue * distance == (-cosValue) * distance;
  }

  /** Negating the trigonometric value negates the offset. */
  lemma AxisOffsetOdd(trigValue: int, distance: I16)
    requires TrigValue(trigValue)
    ensures AxisOffset(-trigValue, distance) == -AxisOffset(trigValue, distance)
  {
    assert -trigValue * distance == -(trigValue * distance);
    TruncDivOdd(trigValue * distance, TrigMaxRatio);
  }

  /** When the horizontal reach stays within `int16_t`, neither narrowing
      of the x-coordinate changes anything. */
  lemma RadialX(center: Point, distance: I16, sinValue: int, cosValue: int)
    requires TrigValue(sinValue) && TrigValue(cosValue)
    requires distance >= 0
    requires InI16(center.x - distance) && InI16(center.x + distance)
    ensures RadialPoint(center, distance, sinValue, cosValue).x == center.x + AxisOffset(sinValue, distance)
  {
    AxisOffsetBound(sinValue, distance);
  }

  /** Mirroring the direction left to right mirrors the point about the
      centre's vertical; floor division would shift it by a pixel. */
  lemma RadialMirror(center: Point, distance: I16, sinValue: int, cosValue: int)
    requires TrigValue(sinValue) && TrigValue(cosValue)
    requires distance >= 0
    requires InI16(center.x - distance) && InI16(center.x + distance)
    ensures RadialPoint(center, distance, -sinValue, cosValue).x - center.x
         == -(RadialPoint(center, distance, sinValue, cosValue).x - center.x)
    ensures RadialPoint(center, distance, -sinValue, cosValue).y
         == RadialPoint(center, distance, sinValue, cosValue).y
  {
    RadialX(center, distance, sinValue, cosValue);
    RadialX(center, distance, -sinValue, cosValue);
    AxisOffsetOdd(sinValue, distance);
  }

  /** At a full-scale sine (three o'clock) the point is exactly `distance`
      to the right of the centre. */
  lemma RadialFullScale(center: Point, distance: I16)
    requires distance >= 0 && InI16(center.x + distance)
    ensures RadialPoint(center, distance, TrigMaxRatio, 0).x == center.x + distance
  {
    assert TrigMaxRatio * distance - distance * TrigMaxRatio == 0;
    TruncDivUnique(TrigMaxRatio * distance, TrigMaxRatio, distance);
  }

  /** Near the edge of the `int16_t` range the final narrowing wraps: a
      point 100 pixels right of x = 32767 lands at x = -32669. */
  lemma RadialWrapsPastEdge()
    ensures RadialPoint(Point(32767, 0), 100, TrigMaxRatio, 0).x == -32669
  {
    TruncDivUnique(TrigMaxRatio * 100, TrigMaxRatio, 100);
    assert Wrap16(100) == 100 && Wrap16(32867) == -32669;
  }

  // ---------------------------------------------------------------------
  // Hand angles

  /** The angle of the minute hand: `tm_min * TRIG_MAX_ANGLE / 60`. */
  function MinuteAngle(minute: int): int {
    TruncDiv(minute * TrigMaxAngle, 60)
  }

  /** The hour hand moves in 72 steps a half day, one every ten minutes:
      `(tm_hour % 12) * 6 + tm_min / 10`. */
  function HourTick(hour: int, minute: int): int {
    TruncMod(hour, 12) * 6 + TruncDiv(minute, 10)
  }

  /** The angle of the hour hand: `hour_tick * TRIG_MAX_ANGLE / (12 * 6)`. */
  function HourAngle(hour: int, minute: int): int {
    TruncDiv(HourTick(hour, minute) * TrigMaxAngle, 12 * 6)
  }

  /** The angle of the i-th hour tick mark: `i * TRIG_MAX_ANGLE / 12`. */
  function HourMarkAngle(i: int): int {
    TruncDiv(i * TrigMaxAngle, 12)
  }

  /** The time fields `localtime` produces. */
  predicate ValidTime(hour: int, minute: int) {
    0 <= hour <= 23 && 0 <= minute <= 59
  }

  /** For any valid time the hour step is one of the 72 of a half day. */
  lemma HourTickRange(hour: int, minute: int)
    requires ValidTime(hour, minute)
    ensures 0 <= HourTick(hour, minute) <= 71
    ensures HourTick(hour, minute) == (hour % 12) * 6 + minute / 10
  {
    TruncDivOnNatural(minute, 10);
  }

  /** Both hand angles of a valid time are within one turn. */
  lemma HandAnglesInTurn(hour: int, minute: int)
    requires ValidTime(hour, minute)
    ensures 0 <= MinuteAngle(minute) < TrigMaxAngle
    ensures 0 <= HourAngle(hour, minute) < TrigMaxAngle
  {
    HourTickRange(hour, minute);
    AngleInTurn(minute, 60);
    AngleInTurn(HourTick(hour, minute), 72);
  }

  /** `k * TRIG_MAX_ANGLE / n` for 0 <= k < n is within one turn. */
  lemma AngleInTurn(k: int, n: int)
    requires 0 <= k < n
    ensures 0 <= TruncDiv(k * TrigMaxAngle, n) < TrigMaxAngle
  {
    var q := TruncDiv(k * TrigMaxAngle, n);
    MulMonotone(0, k, TrigMaxAngle);
    EuclidRemainder(k * TrigMaxAngle, n);
    MulMonotone(k, n - 1, TrigMaxAngle);
    assert (n - 1) * TrigMaxAngle == n * TrigMaxAngle - TrigMaxAngle;
    MulCancelStrict(q, TrigMaxAngle, n);
  }

  /** On the hour the hour hand points exactly at that hour's tick mark,
      and on a multiple of five minutes the minute hand points at a tick
      mark too. */
  lemma HandsOnTickMarks(hour: int, k: int)
    requires 0 <= hour <= 23 && 0 <= k <= 11
    ensures HourAngle(hour, 0) == HourMarkAngle(hour % 12)
    ensures MinuteAngle(5 * k) == HourMarkAngle(k)
  {
    HourTickRange(hour, 0);
    var h := hour % 12;
    assert HourTick(hour, 0) * TrigMaxAngle == 6 * (h * TrigMaxAngle);
    SameQuotient(h * TrigMaxAngle, 6, 12);
    assert 5 * k * TrigMaxAngle == 5 * (k * TrigMaxAngle);
    SameQuotient(k * TrigMaxAngle, 5, 12);
  }

  /** Scaling dividend and divisor by the same positive factor keeps a
      quotient of a natural number. */
  lemma SameQuotient(a: nat, c: int, n: int)
    requires c > 0 && n > 0
    ensures TruncDiv(c * a, c * n) == TruncDiv(a, n)
  {
    var q := TruncDiv(a, n);
    var r := a - q * n;
    assert c * a - q * (c * n) == c * r;
    MulMonotone(0, r, c);
    MulMonotone(r, n - 1, c);
    assert (n - 1) * c == c * n - c;
    TruncDivUnique(c * a, c * n, q);
  }

  /** C's division of naturals is monotone in the dividend. */
  lemma DivMonotone(a: int, b: int, n: int)
    requires 0 <= a <= b && n > 0
    ensures TruncDiv(a, n) <= TruncDiv(b, n)
  {
    var q1, q2 := TruncDiv(a, n), TruncDiv(b, n);
    assert (q2 + 1) * n == q2 * n + n;
    MulCancelStrict(q1, q2 + 1, n);
  }

  /** Adding at least one divisor to a natural dividend raises the
      quotient. */
  lemma DivStrict(a: int, b: int, n: int)
    requires 0 <= a && a + n <= b && n > 0
    ensures TruncDiv(a, n) < TruncDiv(b, n)
  {
    var q1, q2 := TruncDiv(a, n), TruncDiv(b, n);
    MulCancelStrict(q1, q2, n);
  }

  /** The hour step is the number of whole ten-minute periods since
      twelve o'clock. */
  lemma HourTickCountsTenMinutes(hour: int, minute: int)
    requires ValidTime(hour, minute)
    ensures HourTick(hour, minute) == TruncDiv((hour % 12) * 60 + minute, 10)
  {
    HourTickRange(hour, minute);
    var t := (hour % 12) * 60 + minute;
    assert t - HourTick(hour, minute) * 10 == minute - (minute / 10) * 10;
    TruncDivUnique(t, 10, HourTick(hour, minute));
  }

  /** Between the hour marks: the hour hand of h:m lies from the mark of h
      up to, but not including, the mark of h + 1. */
  lemma HourHandBetweenMarks(hour: int, minute: int)
    requires ValidTime(hour, minute)
    ensures HourMarkAngle(hour % 12) <= HourAngle(hour, minute) < HourMarkAngle(hour % 12 + 1)
  {
    HourTickRange(hour, minute);
    var h := hour % 12;
    var tick := HourTick(hour, minute);
    SameQuotient(h * TrigMaxAngle, 6, 12);
    SameQuotient((h + 1) * TrigMaxAngle, 6, 12);
    assert 6 * (h * TrigMaxAngle) == (6 * h) * TrigMaxAngle;
    assert 6 * ((h + 1) * TrigMaxAngle) == (6 * h + 6) * TrigMaxAngle;
    MulMonotone(6 * h, tick, TrigMaxAngle);
    MulMonotone(tick + 1, 6 * h + 6, TrigMaxAngle);
    assert (tick + 1) * TrigMaxAngle == tick * TrigMaxAngle + TrigMaxAngle;
    MulMonotone(0, tick, TrigMaxAngle);
    DivMonotone((6 * h) * TrigMaxAngle, tick * TrigMaxAngle, 72);
    DivStrict(tick * TrigMaxAngle, (6 * h + 6) * TrigMaxAngle, 72);
  }

  /** Later in the same half day, the hour hand has not moved back. */
  lemma HourAngleMonotone(hour: int, minute: int, hour': int, minute': int)
    requires ValidTime(hour, minute) && ValidTime(hour', minute')
    requires hour / 12 == hour' / 12
    requires hour * 60 + minute <= hour' * 60 + minute'
    ensures HourAngle(hour, minute) <= HourAngle(hour', minute')
  {
    HourTickCountsTenMinutes(hour, minute);
    HourTickCountsTenMinutes(hour', minute');
    HourTickRange(hour, minute);
    DivMonotone((hour % 12) * 60 + minute, (hour' % 12) * 60 + minute', 10);
    var tick, tick' := HourTick(hour, minute), HourTick(hour', minute');
    MulMonotone(0, tick, TrigMaxAngle);
    MulMonotone(tick, tick', TrigMaxAngle);
    DivMonotone(tick * TrigMaxAngle, tick' * TrigMaxAngle, 72);
  }

  // ---------------------------------------------------------------------
  // Hand lengths

  /** Half the layer width: `bounds.size.w / 2`. */
  function Radius(layerWidth: I16): int {
    TruncDiv(layerWidth, 2)
  }

  /** The minute hand's length: `radius - 10`. */
  function MinuteHandLength(radius: int): int {
    radius - 10
  }

  /** The hour hand's length: `radius * 55 / 100`. */
  function HourHandLength(radius: int): int {
    TruncDiv(radius * 55, 100)
  }

  /** On the 144-pixel-wide screen the hands are 62 and 39 pixels long:
      shorter than 100, and the hour hand shorter than the minute hand. */
  lemma ScreenHandLengths()
    ensures Radius(ScreenWidth) == 72
    ensures MinuteHandLength(72) == 62
    ensures HourHandLength(72) == 39
  {
    TruncDivUnique(144, 2, 72);
    TruncDivUnique(72 * 55, 100, 39);
  }
}
