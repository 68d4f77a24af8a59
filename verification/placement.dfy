/**
  Where the watch face draws the day and date labels (the search in the
  background update of src/obsidian.c): fifteen candidate offsets below
  the centre are tried in a fixed order, and the first at which neither
  hand crosses the day box or the date box is used. If every candidate is
  crossed the labels go to the first offset anyway. Text measurement is
  not part of this model: the measured widths are parameters, one pair
  per candidate.
 */
module Placement {
  import opened CInt
  import opened Geometry
  import opened RectTest
  import opened Radial

  /** A drawing rectangle (`GRect`): origin and size. */
  datatype Rect = Rect(x: I16, y: I16, w: I16, h: I16)

  /** Two opposite corners of a box, as `line_rect_intersect` takes them. */
  datatype Corners = Corners(r0: Point, r1: Point)

  /** The centre of the dial and the tips of the hour and minute hands. */
  datatype Hands = Hands(center: Point, hour: Point, minute: Point)

  /** The measured widths (`GSize.w`) of the day label ("Wed") and the
      date label ("Sep 5") at one candidate. */
  datatype Widths = Widths(day: I16, date: I16)

  /** The outcome of the search: whether a free candidate was found, the
      final value of the loop counter, the offset used, and the rectangles
      the day and date labels are drawn in. */
  datatype Placement = Placement(found: bool, index: nat, offset: Point, dayPos: Rect, datePos: Rect)

  /** The candidate offsets (`d_points`), right of and above the default. */
  const Offsets: seq<Point> := [
    Point(0, 0), Point(10, -3), Point(17, -7), Point(26, -13),
    Point(29, -19), Point(33, -25), Point(33, -32), Point(33, -39)
  ]

  /** Every offset but the first is tried on both sides. */
  const CandidateCount: nat := 1 + (|Offsets| - 1) * 2

  /** `d_y_start`, `d_offset`, `d_height`: the top of the day label, the
      gap from it to the date label, and the height of both. */
  const LabelTop: int := 100
  const DateGap: int := 15
  const LabelHeight: int := 21
  /** The labels are centred on this column, and drawn this wide. */
  const MiddleColumn: int := 72
  const LabelWidth: int := 144

  /** The offset tried at step i: `d_points[(i + 1) / 2]`, with x negated
      on even steps. */
  function Candidate(i: nat): Point
    requires i < CandidateCount
  {
    var p := Offsets[(i + 1) / 2];
    if i % 2 == 0 then Point(Wrap16(-p.x), p.y) else p
  }

  /** The corners of the day box tried at offset c, for a day label of
      measured width w: centred on column 72 + c.x, from row 100 + c.y
      down by 21. */
  function DayBox(c: Point, w: I16): Corners {
    Corners(MakePoint(MiddleColumn + c.x - TruncDiv(w, 2), LabelTop + c.y),
            MakePoint(MiddleColumn + c.x + TruncDiv(w, 2), LabelTop + c.y + LabelHeight))
  }

  /** The date box: the day box's shape for the date's width, 15 rows
      further down. */
  function DateBox(c: Point, w: I16): Corners {
    Corners(MakePoint(MiddleColumn + c.x - TruncDiv(w, 2), LabelTop + c.y + DateGap),
            MakePoint(MiddleColumn + c.x + TruncDiv(w, 2), LabelTop + c.y + LabelHeight + DateGap))
  }

  /** Does either hand cross the box? */
  function HandsHit(h: Hands, box: Corners): bool {
    Line2RectIntersect(h.center, h.hour, h.center, h.minute, box.r0, box.r1)
  }

  /** Is the candidate offset c unusable: a hand crosses its day box or its
      date box? */
  function Blocked(h: Hands, c: Point, w: Widths): bool {
    HandsHit(h, DayBox(c, w.day)) || HandsHit(h, DateBox(c, w.date))
  }

  /** The rectangle the day label is drawn in at offset c. */
  function DayPos(c: Point): Rect {
    Rect(c.x, Wrap16(LabelTop + c.y), LabelWidth, LabelHeight)
  }

  /** The rectangle the date label is drawn in at offset c. */
  function DatePos(c: Point): Rect {
    Rect(c.x, Wrap16(LabelTop + c.y + DateGap), LabelWidth, LabelHeight)
  }

  /** The boxes compared with the hands match the rectangles drawn: the day box starts on
      the day label's top row and the date box on the date label's; the
      date box is the day box's shape moved 15 rows down; each box is 21
      rows tall, centred on column 72 + c.x, and as wide as the measured
      width rounded down to an even number. */
  lemma BoxShape(c: Point, w: I16)
    requires 0 <= w
    requires InI16(MiddleColumn + c.x - w) && InI16(MiddleColumn + c.x + w)
    requires InI16(LabelTop + c.y) && InI16(LabelTop + c.y + LabelHeight + DateGap)
    ensures DayBox(c, w).r0.y == DayPos(c).y && DateBox(c, w).r0.y == DatePos(c).y
    ensures DateBox(c, w).r0.x == DayBox(c, w).r0.x && DateBox(c, w).r1.x == DayBox(c, w).r1.x
    ensures DateBox(c, w).r0.y == DayBox(c, w).r0.y + DateGap
    ensures DateBox(c, w).r1.y == DayBox(c, w).r1.y + DateGap
    ensures DayBox(c, w).r1.y - DayBox(c, w).r0.y == LabelHeight
    ensures DayBox(c, w).r0.x + DayBox(c, w).r1.x == 2 * (MiddleColumn + c.x)
    ensures DayBox(c, w).r1.x - DayBox(c, w).r0.x == w - w % 2
  {
    TruncDivOnNatural(w, 2);
  }

  /** Which candidates are blocked, in the order they are tried. */
  function BlockedTable(h: Hands, widths: seq<Widths>): (t: seq<bool>)
    requires |widths| == CandidateCount
    ensures |t| == CandidateCount
    ensures forall i :: 0 <= i < CandidateCount ==> t[i] == Blocked(h, Candidate(i), widths[i])
  {
    seq(CandidateCount, i requires 0 <= i < CandidateCount => Blocked(h, Candidate(i), widths[i]))
  }

  /** Step i is the first free one: it is not blocked, and every earlier
      step is. */
  predicate IsFirstFit(blocked: seq<bool>, i: nat) {
    i < |blocked| && !blocked[i] && forall j :: 0 <= j < i ==> blocked[j]
  }

  /** The first free step from i on, or `|blocked|` if there is none. */
  function FirstFree(blocked: seq<bool>, i: nat): (r: nat)
    requires i <= |blocked|
    ensures i <= r <= |blocked|
    ensures forall j :: i <= j < r ==> blocked[j]
    ensures r < |blocked| ==> !blocked[r]
    decreases |blocked| - i
  {
    if i == |blocked| then i
    else if !blocked[i] then i
    else FirstFree(blocked, i + 1)
  }

  /** The choice the search makes once it is known which candidates are
      blocked: the first free one, or the default offset when every
      candidate is blocked. */
  function Choose(blocked: seq<bool>): (r: Placement)
    requires |blocked| == CandidateCount
    ensures r.found ==> IsFirstFit(blocked, r.index) && r.offset == Candidate(r.index)
    ensures !r.found <==> forall j :: 0 <= j < CandidateCount ==> blocked[j]
    ensures !r.found ==> r.index == CandidateCount && r.offset == Point(0, 0)
    ensures !r.found ==> r.dayPos == Rect(0, 100, 144, 21) && r.datePos == Rect(0, 115, 144, 21)
    ensures r.dayPos == DayPos(r.offset) && r.datePos == DatePos(r.offset)
  {
    var i := FirstFree(blocked, 0);
    if i < CandidateCount then
      Placement(true, i, Candidate(i), DayPos(Candidate(i)), DatePos(Candidate(i)))
    else
      Placement(false, i, Offsets[0], DayPos(Offsets[0]), DatePos(Offsets[0]))
  }

  /** The search: test every candidate against the hands, then choose. */
  function PlaceDate(h: Hands, widths: seq<Widths>): Placement
    requires |widths| == CandidateCount
  {
    Choose(BlockedTable(h, widths))
  }

  /** The search as the source writes it: a counting loop that tests the
      hands against each candidate's boxes and stops at the first free
      one, then the fallback. */
  method PlaceDateLoop(h: Hands, widths: seq<Widths>) returns (r: Placement)
    requires |widths| == CandidateCount
    ensures r.found ==> r.index < CandidateCount && !Blocked(h, r.offset, widths[r.index])
    ensures r.index <= CandidateCount
    ensures forall j :: 0 <= j < r.index ==> Blocked(h, Candidate(j), widths[j])
    ensures r == PlaceDate(h, widths)
  {
    ghost var table := BlockedTable(h, widths);
    var found := false;
    var i: nat := 0;
    var offset := Offsets[0];
    while i < CandidateCount
      invariant i <= CandidateCount
      invariant forall j :: 0 <= j < i ==> Blocked(h, Candidate(j), widths[j])
      invariant FirstFree(table, 0) == FirstFree(table, i)
    {
      offset := Candidate(i);
      if !Blocked(h, offset, widths[i]) {
        found := true;
        break;
      }
      i := i + 1;
    }
    if !found {
      offset := Offsets[0];
    }
    r := Placement(found, i, offset, DayPos(offset), DatePos(offset));
  }

  // ---------------------------------------------------------------------
  // Properties of the search

  /** What a successful search means for the hands: the chosen candidate's
      boxes are clear of both hands and every earlier candidate's are
      not; an unsuccessful one means every candidate is crossed. */
  lemma PlaceDateMeaning(h: Hands, widths: seq<Widths>)
    requires |widths| == CandidateCount
    ensures var r := PlaceDate(h, widths);
      r.found ==> !Blocked(h, r.offset, widths[r.index])
    ensures var r := PlaceDate(h, widths);
      forall j :: 0 <= j < r.index ==> Blocked(h, Candidate(j), widths[j])
    ensures !PlaceDate(h, widths).found <==>
      forall j :: 0 <= j < CandidateCount ==> Blocked(h, Candidate(j), widths[j])
  {
    var t := BlockedTable(h, widths);
    var r := PlaceDate(h, widths);
    assert r.index == FirstFree(t, 0);
    if !r.found {
      assert forall j :: 0 <= j < CandidateCount ==> t[j];
    }
  }

  /** A first fit at i is what the search finds from any earlier step. */
  lemma {:induction false} FirstFreeReaches(blocked: seq<bool>, k: nat, i: nat)
    requires k <= i && IsFirstFit(blocked, i)
    ensures FirstFree(blocked, k) == i
    decreases i - k
  {
    if k < i {
      assert blocked[k];
      FirstFreeReaches(blocked, k + 1, i);
    }
  }

  /** There is only one first fit, so the search is determined by the
      hands and the widths. */
  lemma FirstFitUnique(blocked: seq<bool>, i: nat, j: nat)
    requires IsFirstFit(blocked, i) && IsFirstFit(blocked, j)
    ensures i == j
  {
    FirstFreeReaches(blocked, 0, i);
    FirstFreeReaches(blocked, 0, j);
  }

  /** Every candidate whose boxes are clear while all earlier ones are
      crossed is the one the search returns. */
  lemma PlaceDateFindsFirstFit(h: Hands, widths: seq<Widths>, i: nat)
    requires |widths| == CandidateCount && i < CandidateCount
    requires !Blocked(h, Candidate(i), widths[i])
    requires forall j :: 0 <= j < i ==> Blocked(h, Candidate(j), widths[j])
    ensures PlaceDate(h, widths).found && PlaceDate(h, widths).index == i
  {
    var t := BlockedTable(h, widths);
    assert IsFirstFit(t, i);
    FirstFreeReaches(t, 0, i);
  }

  /** The fallback draws the labels exactly where the first candidate
      would have put them. */
  lemma FallbackIsFirstCandidate(h: Hands, widths: seq<Widths>)
    requires |widths| == CandidateCount
    ensures !PlaceDate(h, widths).found ==>
      && PlaceDate(h, widths).offset == Candidate(0)
      && PlaceDate(h, widths).dayPos == DayPos(Candidate(0))
      && PlaceDate(h, widths).datePos == DatePos(Candidate(0))
  {
  }

  // ---------------------------------------------------------------------
  // The candidate table

  /** There are fifteen candidates. */
  lemma CandidateCountIsFifteen()
    ensures CandidateCount == 15
  {
  }

  /** Step 0 is the default offset; steps 2k - 1 and 2k try offset k on
      the right and mirrored to the left. */
  lemma CandidateOrder(k: nat)
    requires 1 <= k < |Offsets|
    ensures Candidate(0) == Offsets[0] == Point(0, 0)
    ensures Candidate(2 * k - 1) == Offsets[k]
    ensures Candidate(2 * k) == Point(-Offsets[k].x, Offsets[k].y)
  {
    assert (2 * k - 1 + 1) / 2 == k && (2 * k + 1) / 2 == k;
    assert (2 * k) % 2 == 0 && (2 * k - 1) % 2 == 1;
  }

  /** The squared distance of p from the default position. */
  function Norm2(p: Point): int {
    p.x * p.x + p.y * p.y
  }

  /** The offsets lie right of (or on) the default column, within 33
      columns, and at most 39 rows above; only the first is the default. */
  lemma OffsetBounds(k: nat)
    requires k < |Offsets|
    ensures 0 <= Offsets[k].x <= 33 && -39 <= Offsets[k].y <= 0
    ensures k > 0 ==> Offsets[k].x > 0
  {
    if k == 0 {} else if k == 1 {} else if k == 2 {} else if k == 3 {}
    else if k == 4 {} else if k == 5 {} else if k == 6 {} else {}
  }

  /** Each offset is further from the default than the one before it. */
  lemma OffsetStep(k: nat)
    requires k + 1 < |Offsets|
    ensures Norm2(Offsets[k]) < Norm2(Offsets[k + 1])
  {
    if k == 0 {
      assert Norm2(Offsets[1]) == 109;
    } else if k == 1 {
      assert Norm2(Offsets[1]) == 109 && Norm2(Offsets[2]) == 338;
    } else if k == 2 {
      assert Norm2(Offsets[2]) == 338 && Norm2(Offsets[3]) == 845;
    } else if k == 3 {
      assert Norm2(Offsets[3]) == 845 && Norm2(Offsets[4]) == 1202;
    } else if k == 4 {
      assert Norm2(Offsets[4]) == 1202 && Norm2(Offsets[5]) == 1714;
    } else if k == 5 {
      assert Norm2(Offsets[5]) == 1714 && Norm2(Offsets[6]) == 2113;
    } else {
      assert Norm2(Offsets[6]) == 2113 && Norm2(Offsets[7]) == 2610;
    }
  }

  /** So later offsets are always further away. */
  lemma {:induction false} OffsetsMoveAway(k: nat, k': nat)
    requires k < k' < |Offsets|
    ensures Norm2(Offsets[k]) < Norm2(Offsets[k'])
    decreases k' - k
  {
    OffsetStep(k' - 1);
    if k < k' - 1 {
      OffsetsMoveAway(k, k' - 1);
    }
  }

  lemma NegSquare(x: int)
    ensures (-x) * (-x) == x * x
  {
  }

  /** Mirroring does not change the distance from the default. */
  lemma CandidateNorm(i: nat)
    requires i < CandidateCount
    ensures Norm2(Candidate(i)) == Norm2(Offsets[(i + 1) / 2])
  {
    var p := Offsets[(i + 1) / 2];
    OffsetBounds((i + 1) / 2);
    NegSquare(p.x);
  }

  /** The search tries nearer offsets first: the squared distance from the
      default never decreases along the order. */
  lemma CandidatesNearestFirst(i: nat, j: nat)
    requires i <= j < CandidateCount
    ensures Norm2(Candidate(i)) <= Norm2(Candidate(j))
  {
    var k, k' := (i + 1) / 2, (j + 1) / 2;
    CandidateNorm(i);
    CandidateNorm(j);
    if k < k' {
      OffsetsMoveAway(k, k');
    }
  }

  /** No offset is tried twice. */
  lemma CandidatesDistinct(i: nat, j: nat)
    requires i < j < CandidateCount
    ensures Candidate(i) != Candidate(j)
  {
    var k, k' := (i + 1) / 2, (j + 1) / 2;
    if k < k' {
      OffsetsMoveAway(k, k');
      CandidateNorm(i);
      CandidateNorm(j);
    } else {
      OffsetBounds(k);
      assert i % 2 != j % 2;
    }
  }

  /** Every candidate lies within 33 columns of the default and at most 39
      rows above it. */
  lemma CandidateBounds(i: nat)
    requires i < CandidateCount
    ensures -33 <= Candidate(i).x <= 33 && -39 <= Candidate(i).y <= 0
  {
    OffsetBounds((i + 1) / 2);
  }

  // ---------------------------------------------------------------------
  // What the chosen boxes guarantee

  /** Text no wider than 78 pixels and at least 2 keeps both boxes of
      every candidate on the 144 x 168 screen and of non-zero width. */
  predicate ModestWidth(w: I16) {
    2 <= w <= 78
  }

  /** Under `ModestWidth`, a box of any candidate lies on screen, has
      non-zero width and height, and its corners are exact (nothing is
      narrowed). */
  lemma BoxOnScreen(i: nat, w: I16)
    requires i < CandidateCount && ModestWidth(w)
    ensures var b := DayBox(Candidate(i), w);
      OnScreen(b.r0) && OnScreen(b.r1) && b.r0.x < b.r1.x && b.r0.y < b.r1.y
    ensures var b := DateBox(Candidate(i), w);
      OnScreen(b.r0) && OnScreen(b.r1) && b.r0.x < b.r1.x && b.r0.y < b.r1.y
  {
    CandidateBounds(i);
    TruncDivOnNatural(w, 2);
  }

  /** Hands that start on screen and reach at most 100 pixels along each
      axis. */
  predicate ShortHands(h: Hands) {
    && OnScreen(h.center)
    && Abs(h.hour.x - h.center.x) <= 100 && Abs(h.hour.y - h.center.y) <= 100
    && Abs(h.minute.x - h.center.x) <= 100 && Abs(h.minute.y - h.center.y) <= 100
  }

  /** The hands the face actually draws on a 144-pixel-wide layer (hour
      hand 39 pixels, minute hand 62, from an on-screen centre) are short
      enough for the lemmas below, whatever the trigonometric values. */
  lemma DrawnHandsAreShort(center: Point, hourSin: int, hourCos: int, minuteSin: int, minuteCos: int)
    requires OnScreen(center)
    requires TrigValue(hourSin) && TrigValue(hourCos) && TrigValue(minuteSin) && TrigValue(minuteCos)
    ensures ShortHands(Hands(center,
      RadialPoint(center, HourHandLength(Radius(ScreenWidth)) as I16, hourSin, hourCos),
      RadialPoint(center, MinuteHandLength(Radius(ScreenWidth)) as I16, minuteSin, minuteCos)))
  {
    ScreenHandLengths();
    RadialPointBound(center, 39, hourSin, hourCos);
    RadialPointBound(center, 62, minuteSin, minuteCos);
  }

  /** The geometric meaning of a successful search: a hand that is not
      horizontal has no point on the boundary of the chosen day box. */
  lemma ChosenDayBoxClear(h: Hands, widths: seq<Widths>, tip: Point, e: Edge, p: Param)
    requires |widths| == CandidateCount
    requires ShortHands(h) && (tip == h.hour || tip == h.minute) && tip.y != h.center.y
    requires PlaceDate(h, widths).found
    requires ModestWidth(widths[PlaceDate(h, widths).index].day)
    requires e in Edges(DayBox(PlaceDate(h, widths).offset, widths[PlaceDate(h, widths).index].day).r0,
                        DayBox(PlaceDate(h, widths).offset, widths[PlaceDate(h, widths).index].day).r1)
    ensures !MeetAt(h.center, tip, e.from, e.to, p)
  {
    var r := PlaceDate(h, widths);
    var b := DayBox(r.offset, widths[r.index].day);
    BoxOnScreen(r.index, widths[r.index].day);
    HandEdgesFit(h.center, tip, b.r0, b.r1);
    if MeetAt(h.center, tip, e.from, e.to, p) {
      LineRectComplete(h.center, tip, b.r0, b.r1, e, p);
    }
  }

  /** The same for the chosen date box. */
  lemma ChosenDateBoxClear(h: Hands, widths: seq<Widths>, tip: Point, e: Edge, p: Param)
    requires |widths| == CandidateCount
    requires ShortHands(h) && (tip == h.hour || tip == h.minute) && tip.y != h.center.y
    requires PlaceDate(h, widths).found
    requires ModestWidth(widths[PlaceDate(h, widths).index].date)
    requires e in Edges(DateBox(PlaceDate(h, widths).offset, widths[PlaceDate(h, widths).index].date).r0,
                        DateBox(PlaceDate(h, widths).offset, widths[PlaceDate(h, widths).index].date).r1)
    ensures !MeetAt(h.center, tip, e.from, e.to, p)
  {
    var r := PlaceDate(h, widths);
    var b := DateBox(r.offset, widths[r.index].date);
    BoxOnScreen(r.index, widths[r.index].date);
    HandEdgesFit(h.center, tip, b.r0, b.r1);
    if MeetAt(h.center, tip, e.from, e.to, p) {
      LineRectComplete(h.center, tip, b.r0, b.r1, e, p);
    }
  }
}
