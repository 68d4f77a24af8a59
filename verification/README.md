# obsidian watch face — geometry and date placement in Dafny

obsidian is an analogue watch face for Pebble watches. Each time the
background is redrawn, `src/obsidian.c` does the following:

- It picks an outer colour from the battery charge.
- It computes the angles and tips of the hour and minute hands.
- It formats the date label and strips a leading zero from the day.
- It searches fifteen candidate positions for the day and date labels. It keeps the first position where neither hand crosses either label's box.

The box test reduces to a segment-intersection routine, `intersect`. That
routine works on 16-bit screen coordinates, and in the parallel case its
overlap test looks at x-coordinates only.

This project models these pieces as pure Dafny functions. It relates each
one to an independent reference and proves the relation:

- `intersect` is compared with a geometric definition of a common point of two closed segments (`Geometry.MeetAt`).
- The rectangle test is compared with the boundary of the rectangle.
- The search is compared with a first-fit specification.
- The label text is compared with the decimal rendering of the day.
- The hand angles are compared with the tick marks of the dial.

Modules, one per file:

- `CInt` (cint.dfy): C integer semantics.
  - `int16_t` narrowing (`Wrap16`) as two's-complement wrap-around.
  - Division truncating toward zero (`TruncDiv`, `TruncMod`).
- `Geometry` (geometry.dfy): the following pieces.
  - Points and `intersect` exactly as written.
  - The exact cross products.
  - The reference predicate `MeetAt`.
- `IntersectProofs` (intersect_proofs.dfy): when `Intersect` agrees with `MeetAt`.
- `IntersectQuirks` (intersect_quirks.dfy): concrete inputs on which it does not agree.
- `RectTest` (recttest.dfy): `line_rect_intersect` and `line2_rect_intersect`.
- `Radial` (radial.dfy): `get_radial_point`, hand angles and hand lengths.
- `DateText` (datetext.dfy): the date buffer and the leading-zero strip.
- `Battery` (battery.dfy): the battery colour ladder.
- `Placement` (placement.dfy): the label placement search.

## Model

| member | source | states |
|---|---|---|
| CInt.Wrap16 | src/obsidian.c:86 | narrowing to `int16_t` leaves every value in range unchanged |
| CInt.Wrap16Congruent | src/obsidian.c:97-98 | a narrowed value differs from the exact one by a multiple of 65536 |
| CInt.Wrap16Unique | src/obsidian.c:97-98 | the narrowed value is the only `int16_t` congruent to the exact value modulo 65536 |
| CInt.TruncDiv | src/obsidian.c:71-72 | C division truncates toward zero: the remainder is smaller than the divisor in magnitude and has the dividend's sign |
| CInt.TruncDivUnique | src/obsidian.c:303 | any quotient with such a remainder is the C quotient |
| CInt.TruncDivOdd | src/obsidian.c:72 | C division commutes with negation, unlike Euclidean or floor division |
| CInt.TruncDivVersusEuclid | src/obsidian.c:72 | C's quotient equals the Euclidean one for a non-negative or exactly divisible dividend, and is one larger for any other negative dividend |
| CInt.TruncMod | src/obsidian.c:305 | C's `%` is the remainder left by the truncating quotient, smaller than the divisor and non-negative for non-negative dividends |
| Geometry.MakePoint | src/obsidian.c:82-83 | building a `GPoint` from `int` expressions narrows each coordinate to `int16_t` and keeps every coordinate already in range |
| Geometry.Intersect | src/obsidian.c:81-106 | `intersect` as written: the narrowed direction vectors, then the stages below; what its answers mean is stated by `IntersectProofs.NarrowingIsIdentity`, `IntersectProofs.IntersectSound` and `IntersectProofs.IntersectComplete`, and where it departs from `MeetAt` by `IntersectQuirks` |
| Geometry.IntersectDirections | src/obsidian.c:86 | the cross product `det` of the direction vectors, narrowed to `int16_t`; stated as for `Geometry.Intersect` |
| Geometry.IntersectWithDet | src/obsidian.c:87-98 | with `det` zero: the collinearity test, then the overlap test on x only, else false; otherwise the narrowed `s` and `t` go to the range test; stated as for `Geometry.Intersect` |
| Geometry.InRange | src/obsidian.c:105 | the closed range test 0 <= s <= det and 0 <= t <= det; `IntersectProofs.CrossingSound` states that passing it gives a common point |
| Geometry.ParamsInRange | src/obsidian.c:100-105 | for negative `det`, all three values are negated and narrowed again, then the closed test 0 <= s, t <= det; `IntersectProofs.CrossingSound` states what passing it means |
| IntersectProofs.NarrowingIsIdentity | src/obsidian.c:81-106 | when nothing is narrowed, `intersect` is the sign-normalised parametric test on exact cross products; when the segments are parallel it is the collinearity test plus the x-only overlap test |
| IntersectProofs.IntersectSound | src/obsidian.c:81-106 | a reported intersection is a real common point, given by `Witness`, provided nothing is narrowed and the segments are not parallel or segment a is not vertical |
| IntersectProofs.CrossingSound | src/obsidian.c:97-105 | for non-parallel segments, parameters that pass the sign-normalised range test give a common point |
| IntersectProofs.CollinearSound | src/obsidian.c:87-90 | for collinear segments with a non-vertical, the endpoint the overlap test finds lies on both segments |
| IntersectProofs.IntersectComplete | src/obsidian.c:81-106 | every common point is reported, provided nothing is narrowed and the segments are not parallel or both point rightward |
| IntersectProofs.ParallelDistinctNeverMeet | src/obsidian.c:91-93 | segments whose exact cross product is 0 and that lie on distinct lines share no point, so `false` there is correct when `det` is exact; when `det` only narrows to 0 it is not (`IntersectQuirks.NarrowedDetMissesCrossing`) |
| IntersectProofs.SharedEndpointIntersects | src/obsidian.c:105 | segments sharing an endpoint are reported as intersecting, because the range test is closed at both ends; stated when nothing is narrowed and the segments are not parallel or both point rightward (not leftward) |
| IntersectProofs.SharedEndpointMeets | src/obsidian.c:81 | a shared endpoint is a common point of the closed segments |
| IntersectProofs.IntersectSymmetric | src/obsidian.c:81-106 | for non-degenerate segments with nothing narrowed, swapping the two segments does not change the answer |
| IntersectProofs.MeetAtOverlap | src/obsidian.c:81 | segments with a common point have overlapping x-ranges and y-ranges |
| IntersectProofs.IntersectXOverlap | src/obsidian.c:81-106 | when nothing is narrowed (`NoNarrowing`), a reported intersection has overlapping x-ranges, in the parallel case as well |
| IntersectProofs.IntersectYOverlap | src/obsidian.c:81-106 | when nothing is narrowed (`NoNarrowing`), a reported intersection has overlapping y-ranges unless the segments are parallel and a is vertical |
| IntersectProofs.OnScreenNoNarrowing | src/obsidian.c:86-98 | a hand of at most 100 pixels per axis from an on-screen point, against an axis-aligned on-screen edge, overflows none of the `int16_t` intermediates |
| IntersectProofs.MeetAtFixesParams | src/obsidian.c:97-98 | at a common point, the exact cross products fix the two parameters: det times each parameter equals s and t |
| IntersectQuirks.VerticalCollinearFalsePositive | src/obsidian.c:90 | two disjoint segments on the same vertical line are reported as intersecting |
| IntersectQuirks.LeftwardCollinearMiss | src/obsidian.c:90 | collinear leftward segments that overlap are reported as disjoint |
| IntersectQuirks.LeftwardSharedEndpointMiss | src/obsidian.c:90 | leftward collinear segments that share an endpoint are reported as disjoint |
| IntersectQuirks.DegenerateOrderMatters | src/obsidian.c:87-94 | with a zero-length segment, the answer depends on the argument order and can be a false positive |
| IntersectQuirks.NarrowingMissesCrossingDiagonals | src/obsidian.c:86 | once `det` overflows `int16_t`, two crossing diagonals of a 160-pixel square are reported as disjoint |
| IntersectQuirks.NarrowingReportsSeparatedSegments | src/obsidian.c:86-105 | narrowing can also invent a hit: two segments in disjoint x-ranges, which share no point, are reported because `det`, `s` and `t` narrow to 25550, 23867 and 3861 |
| IntersectQuirks.NarrowedDetMissesCrossing | src/obsidian.c:86-93 | segments crossing at (100,0) have cross product 65536, which narrows to 0, so they take the parallel branch and are reported as disjoint |
| RectTest.LineRectIntersect | src/obsidian.c:149-154 | the four `intersect` tests against the edges built from `rect0` and `rect1`, joined by `||`; its meaning is stated by `RectTest.LineRectIsAnyEdge`, `RectTest.LineRectSound` and `RectTest.LineRectComplete` |
| RectTest.Line2RectIntersect | src/obsidian.c:159-161 | the rectangle test for the first segment or the second; `RectTest.Line2RectSymmetric` states that the order does not matter |
| RectTest.Edges | src/obsidian.c:150-153 | the rectangle test tries exactly four edges |
| RectTest.EdgesTraceBoundary | src/obsidian.c:150-153 | the four edges built from two opposite corners cover exactly the rectangle's boundary |
| RectTest.EdgesAxisAligned | src/obsidian.c:150-153 | each of the four edges is horizontal or vertical |
| RectTest.LineRectIsAnyEdge | src/obsidian.c:149-154 | `line_rect_intersect` is true exactly when `intersect` is true for one of the four edges |
| RectTest.LineRectCornerSwap | src/obsidian.c:149-154 | swapping `rect0` and `rect1` gives the same four directed edges and the same answer |
| RectTest.OtherDiagonalDiffers | src/obsidian.c:149-154 | naming the rectangle by its other two corners reverses every edge and can change the answer: a leftward segment along the bottom edge is reported with corners (0,0) and (10,10) and missed with (10,0) and (0,10) |
| RectTest.Line2RectSymmetric | src/obsidian.c:159-161 | `line2_rect_intersect` does not depend on which segment comes first |
| RectTest.HandEdgesFit | src/obsidian.c:149-154 | a short hand against an on-screen rectangle overflows nothing in any of the four tests |
| RectTest.LineRectSound | src/obsidian.c:149-154 | when none of the four tests narrows anything (`EdgesFit`), a reported hit by a non-vertical segment is a real common point with some edge |
| RectTest.LineRectComplete | src/obsidian.c:149-154 | when none of the four tests narrows anything (`EdgesFit`), a non-horizontal segment that touches the boundary of a rectangle with non-zero sides is reported |
| RectTest.XSeparatedMiss | src/obsidian.c:149-154 | when none of the four tests narrows anything (`EdgesFit`), a segment wholly left or right of the rectangle is never reported |
| RectTest.YSeparatedMiss | src/obsidian.c:149-154 | when none of the four tests narrows anything (`EdgesFit`), a non-vertical segment wholly above or below the rectangle is never reported |
| RectTest.VerticalLineAboveRectHits | src/obsidian.c:151 | a vertical segment above a rectangle, in line with its left edge, is reported as a hit |
| Radial.RadialPoint | src/obsidian.c:69-75 | the radial point keeps the centre's x when the sine is 0 and the centre's y when the cosine is 0 |
| Radial.AxisOffset | src/obsidian.c:71-72 | the truncated quotient `trig * distance / TRIG_MAX_RATIO` before narrowing; stated by `Radial.AxisOffsetBound`, `Radial.AxisOffsetOdd` and `Radial.RadialX` |
| Radial.AxisOffsetBound | src/obsidian.c:71-72 | for a non-negative distance, each axis offset is at most the distance in magnitude |
| Radial.RadialPointBound | src/obsidian.c:69-75 | for a non-negative distance with centre ± distance in `int16_t` on both axes, the radial point lies within `distance` of the centre on each axis |
| Radial.AxisOffsetOdd | src/obsidian.c:71-72 | negating the sine or cosine negates the axis offset, because C division truncates toward zero |
| Radial.RadialX | src/obsidian.c:71 | when the horizontal reach fits in `int16_t`, the x-coordinate is the centre's plus the truncated offset, unchanged by either narrowing |
| Radial.RadialMirror | src/obsidian.c:71-72 | for a non-negative distance with centre.x ± distance in `int16_t`, negating the sine mirrors the point about the vertical through the centre and keeps its y |
| Radial.RadialFullScale | src/obsidian.c:71 | for a non-negative distance with centre.x + distance in `int16_t`, at sine TRIG_MAX_RATIO the point is exactly `distance` to the right |
| Radial.RadialWrapsPastEdge | src/obsidian.c:71 | the `int16_t` conditions above are needed: 100 pixels right of x = 32767 the point wraps to x = -32669 |
| Radial.MinuteAngle | src/obsidian.c:303 | `tm_min * TRIG_MAX_ANGLE / 60` with C's division; its range and tick marks are stated by `Radial.HandAnglesInTurn` and `Radial.HandsOnTickMarks` |
| Radial.HourTick | src/obsidian.c:305 | `(tm_hour % 12) * 6 + tm_min / 10` with C's `%` and `/`; stated by `Radial.HourTickRange` and `Radial.HourTickCountsTenMinutes` |
| Radial.HourAngle | src/obsidian.c:306 | the hour step as a fraction of 72 of a turn; stated by `Radial.HourHandBetweenMarks` and `Radial.HourAngleMonotone` |
| Radial.HourMarkAngle | src/obsidian.c:260 | the angle of hour tick mark i, `i * TRIG_MAX_ANGLE / 12` with C's division; `Radial.HandsOnTickMarks` and `Radial.HourHandBetweenMarks` relate the hands to it |
| Radial.HourTickRange | src/obsidian.c:305 | the hour step lies between 0 and 71 and, for valid times, equals the mathematical formula |
| Radial.HourTickCountsTenMinutes | src/obsidian.c:305 | the hour step is the number of whole ten-minute periods since the half day began |
| Radial.HandAnglesInTurn | src/obsidian.c:303-306 | both hand angles lie in [0, TRIG_MAX_ANGLE) for every valid time |
| Radial.AngleInTurn | src/obsidian.c:260 | k / n of a turn, computed as in the source, lies in [0, TRIG_MAX_ANGLE) for 0 <= k < n |
| Radial.HandsOnTickMarks | src/obsidian.c:260 | on the hour the hour hand points at that hour's tick mark, and minute 5k points at mark k |
| Radial.HourHandBetweenMarks | src/obsidian.c:303-307 | the hour hand lies at or after the current hour's mark and strictly before the next one |
| Radial.HourAngleMonotone | src/obsidian.c:305-306 | within a half day, a later time never moves the hour hand backwards |
| Radial.SameQuotient | src/obsidian.c:306 | scaling both operands of the truncating division by the same positive factor leaves the quotient unchanged |
| Radial.Radius | src/obsidian.c:173 | half the layer width, truncated; `Radial.ScreenHandLengths` gives its value on the screen |
| Radial.MinuteHandLength | src/obsidian.c:304 | the radius less 10; value on the screen in `Radial.ScreenHandLengths` |
| Radial.HourHandLength | src/obsidian.c:307 | 55% of the radius, truncated; value on the screen in `Radial.ScreenHandLengths` |
| Radial.ScreenHandLengths | src/obsidian.c:173 | on the 144-pixel screen the radius is 72, the minute hand 62 and the hour hand 39 |
| DateText.FormatMonthDay | src/obsidian.c:310 | the date buffer always holds 30 characters |
| DateText.CString | src/obsidian.c:310 | the text of a C string is a NUL-free prefix followed by a NUL |
| DateText.StripLeadingZero | src/obsidian.c:311-314 | the strip keeps the length, the month and the separating space, and everything from index 6 on; it changes nothing unless the day starts with '0' |
| DateText.CStringUpTo | src/obsidian.c:312-313 | a buffer whose first NUL is at n reads as its first n characters |
| DateText.StrippedLabel | src/obsidian.c:310-314 | after the strip the label reads month, space, and the day in decimal without a leading zero |
| DateText.StripIdempotent | src/obsidian.c:312-313 | stripping a second time changes nothing |
| Battery.OuterColour | src/obsidian.c:180-187 | the colour is the normal one exactly above 30% and red exactly at 10% or less |
| Battery.SeverityCountsThresholds | src/obsidian.c:181-187 | the warning level counts the thresholds (30%, 20%, 10%) the charge has reached |
| Battery.OuterColourAntitone | src/obsidian.c:180-187 | a lower charge never shows a less urgent colour |
| Placement.Candidate | src/obsidian.c:339-342 | the offset tried at step i, mirrored on even steps; its order, distinctness and bounds are stated by `Placement.CandidateOrder`, `Placement.CandidatesNearestFirst`, `Placement.CandidatesDistinct` and `Placement.CandidateBounds` |
| Placement.DayBox | src/obsidian.c:350-351 | the corners of the day box the search compares with the hands; its shape is stated by `Placement.BoxShape` and `Placement.BoxOnScreen` |
| Placement.DateBox | src/obsidian.c:353-355 | the corners of the date box the search compares with the hands; its shape is stated by `Placement.BoxShape` and `Placement.BoxOnScreen` |
| Placement.HandsHit | src/obsidian.c:349-351 | either hand, from the centre, crosses the box; what a miss means is stated by `Placement.ChosenDayBoxClear` and `Placement.ChosenDateBoxClear` |
| Placement.Blocked | src/obsidian.c:349-355 | a hand crosses the day box or the date box of the candidate |
| Placement.DayPos | src/obsidian.c:346 | the rectangle the day label is drawn in, 144 by 21 from row 100 + c.y; related to the compared box by `Placement.BoxShape` |
| Placement.DatePos | src/obsidian.c:343 | the rectangle the date label is drawn in, 15 rows below the day label's; related to the compared box by `Placement.BoxShape` |
| Placement.BoxShape | src/obsidian.c:343-355 | each compared box starts on the top row of the rectangle its label is drawn in; the date box is the day box's shape moved 15 rows down; each is 21 rows tall, centred on column 72 + c.x, and as wide as the measured width rounded down to even |
| Placement.PlaceDate | src/obsidian.c:332-366 | the search as blocked-table then choice; stated by `Placement.PlaceDateMeaning`, `Placement.PlaceDateFindsFirstFit` and `Placement.FallbackIsFirstCandidate`, and `Placement.PlaceDateLoop` proves the loop returns the same |
| Placement.Offsets | src/obsidian.c:318-328 | the eight candidate offsets of `d_points`; `Placement.OffsetsMoveAway` and `Placement.CandidateBounds` state their order and bounds |
| Placement.BlockedTable | src/obsidian.c:349-355 | entry i says whether step i's candidate is blocked, as the loop's test computes it, for each of the fifteen steps |
| Placement.FirstFree | src/obsidian.c:338-359 | scanning from step i stops at the first unblocked step, or after the last step; every step it passes over is blocked |
| Placement.Choose | src/obsidian.c:332-366 | given which candidates are blocked, a found candidate is the first unblocked one; none is found exactly when all fifteen are blocked, and then the labels go to (0,100) and (0,115), 144 by 21; the label rectangles always follow the chosen offset |
| Placement.PlaceDateLoop | src/obsidian.c:338-366 | the loop with its early exit returns the searched placement, its choice is clear of both hands, and every earlier candidate is blocked |
| Placement.PlaceDateMeaning | src/obsidian.c:338-366 | for the hands and measured widths, the chosen candidate's boxes are crossed by neither hand and every earlier candidate's are; the search fails exactly when every candidate's boxes are crossed |
| Placement.FirstFreeReaches | src/obsidian.c:338-359 | scanning from any earlier step stops at the first fit |
| Placement.FirstFitUnique | src/obsidian.c:338-359 | there is only one first fit |
| Placement.PlaceDateFindsFirstFit | src/obsidian.c:338-359 | a candidate that is clear while all earlier ones are blocked is the one chosen |
| Placement.FallbackIsFirstCandidate | src/obsidian.c:361-366 | the fallback uses exactly the first candidate's offset and rectangles |
| Placement.CandidateCountIsFifteen | src/obsidian.c:338 | the loop bound `1 + (8 - 1) * 2` is 15 |
| Placement.CandidateOrder | src/obsidian.c:339-342 | step 0 is the default offset; steps 2k-1 and 2k try offset k on the right and mirrored to the left |
| Placement.OffsetsMoveAway | src/obsidian.c:318-328 | each listed offset is strictly further from the default than every earlier one |
| Placement.CandidatesNearestFirst | src/obsidian.c:338-342 | candidates are tried in order of non-decreasing distance from the default |
| Placement.CandidatesDistinct | src/obsidian.c:338-342 | no two steps try the same offset |
| Placement.CandidateBounds | src/obsidian.c:318-328 | every candidate is within 33 columns of the default and at most 39 rows above it |
| Placement.BoxOnScreen | src/obsidian.c:350-355 | for labels 2 to 78 pixels wide, every candidate's day and date boxes lie on screen and have non-zero sides |
| Placement.DrawnHandsAreShort | src/obsidian.c:303-307 | the hands the face draws stay within 100 pixels of an on-screen centre on each axis |
| Placement.ChosenDayBoxClear | src/obsidian.c:349-351 | after a successful search, no non-horizontal hand has a point on the boundary of the chosen day box; stated for hands reaching at most 100 pixels per axis from an on-screen centre and a day label 2 to 78 pixels wide (`Placement.ModestWidth`) |
| Placement.ChosenDateBoxClear | src/obsidian.c:352-355 | after a successful search, no non-horizontal hand has a point on the boundary of the chosen date box; stated for hands reaching at most 100 pixels per axis from an on-screen centre and a date label 2 to 78 pixels wide (`Placement.ModestWidth`) |

## Left out

- Drawing is not modelled, and neither is any other Pebble SDK call (layers, colours, text drawing, services). The model only computes which positions, colours and strings would be used.
- The trigonometric lookup tables (`sin_lookup`, `cos_lookup`) are not modelled. Their results are parameters of `Radial.RadialPoint`, limited to the range [-TRIG_MAX_RATIO, TRIG_MAX_RATIO].
- The SDK constants TRIG_MAX_ANGLE = 0x10000 and TRIG_MAX_RATIO = 0xffff are the Pebble SDK's values. The SDK header is not part of this model.
- `strftime` is not modelled. The day buffer (`"%a"`) is not modelled at all. The date buffer is built by `DateText.FormatMonthDay` from the month abbreviation, the day and the rest of the buffer.
- Text measurement (`graphics_text_layout_get_content_size`) is not modelled. The measured widths are parameters of the search: one pair per candidate in `Placement.PlaceDate`.
- The clock (`time`, `localtime`) is not modelled. Hour and minute are parameters. The debug overrides of the time (`DEBUG_DATE_POSITION`, `DEBUG_NICE_TIME`) are left out.
- `get_radial_point_basic` is left out. It is used only by commented-out code.
- The number labels and their positions are left out. They are compiled only under optional build flags.
- The second hand is left out. It is commented out.
- src/simplex.c is not part of this model. It is a variant face whose geometry code is a copy of the same functions.
- Where `center` is set is not part of this model. The centre is a parameter, assumed on screen where a lemma needs it.
- Signed overflow of `int` products is undefined behaviour in C. The model follows what the compiler does for the `int16_t` stores: two's-complement wrap-around (`CInt.Wrap16`). The 32-bit products in `get_radial_point` cannot overflow for `int16_t` distances and trigonometric values in range, so they are modelled as exact.
- Radial.RadialPoint: the trigonometric range is required, not handled. The lookups never return values outside it.
- IntersectProofs.IntersectSound: only stated when nothing is narrowed, and excluding parallel segments with vertical a. `IntersectQuirks` shows both conditions are needed.
- IntersectProofs.IntersectComplete: only stated when nothing is narrowed, and excluding parallel segments pointing leftward. `IntersectQuirks` shows both conditions are needed.
- IntersectProofs.ParallelDistinctNeverMeet: only about an exact cross product of 0. The parallel branch is also reached when the cross product narrows to 0, and then its `false` can be wrong, as `IntersectQuirks.NarrowedDetMissesCrossing` shows.
- IntersectProofs.IntersectXOverlap: only stated when nothing is narrowed. `IntersectQuirks.NarrowingReportsSeparatedSegments` reports a narrowed pair with disjoint x-ranges.
- IntersectProofs.IntersectYOverlap: only stated when nothing is narrowed, for the same reason.
- RectTest.LineRectSound: only stated when none of the four tests narrows anything (`EdgesFit`). Each test is an `intersect` call, and narrowing can invent a hit there (`IntersectQuirks.NarrowingReportsSeparatedSegments`). The face's own hands and boxes always fit (`RectTest.HandEdgesFit`).
- RectTest.LineRectComplete: only stated under `EdgesFit`. Narrowing can hide a real crossing (`IntersectQuirks.NarrowingMissesCrossingDiagonals`).
- RectTest.XSeparatedMiss: only stated under `EdgesFit`, because narrowing can invent a hit.
- RectTest.YSeparatedMiss: only stated under `EdgesFit`, for the same reason.
- Radial.RadialPointBound: only stated for a non-negative distance with centre ± distance in `int16_t`. Otherwise the final narrowing wraps, as `Radial.RadialWrapsPastEdge` shows.
- Radial.RadialMirror: only stated for a non-negative distance with centre.x ± distance in `int16_t`, for the same reason.
- Radial.RadialFullScale: only stated with centre.x + distance in `int16_t`. `Radial.RadialWrapsPastEdge` shows the wrap otherwise.
- Placement.ChosenDayBoxClear: horizontal hands are excluded. A horizontal hand is parallel to the two horizontal edges, one of which points leftward. On that path `intersect` can miss a real overlap, as `IntersectQuirks.LeftwardCollinearMiss` shows. The label must also be 2 to 78 pixels wide (`Placement.ModestWidth`), so that its box is on screen with non-zero sides and nothing in the tests overflows; wider or empty text is not covered.
- Placement.ChosenDateBoxClear: horizontal hands are excluded, and the label width is limited to 2 to 78 pixels, for the same reasons.
- DateText.StripLeadingZero: the source shifts the day with an overlapping `memcpy(&buffer_1[4], &buffer_1[5], 2)`. Overlapping `memcpy` is undefined behaviour in C. The model takes it as a forward copy: index 4 receives the old index 5 and index 5 the old index 6, which is what `memmove` would give.
