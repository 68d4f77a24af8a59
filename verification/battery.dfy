/**
  The battery warning of the watch face: the colour of the area outside
  the dial darkens from grey through yellow and orange to red as the
  charge falls (src/obsidian.c, start of the background update).
 */
module Battery {

  /** The Pebble colours the ladder chooses from. */
  datatype Colour = DarkGray | Yellow | Orange | Red

  /** The outer background colour for a charge percentage: red at 10% or
      less, orange at 20% or less, yellow at 30% or less, otherwise the
      normal dark grey. */
  function OuterColour(chargePercent: int): (c: Colour)
    ensures c == DarkGray <==> chargePercent > 30
    ensures c == Red <==> chargePercent <= 10
  {
    if chargePercent <= 10 then Red
    else if chargePercent <= 20 then Orange
    else if chargePercent <= 30 then Yellow
    else DarkGray
  }

  /** How urgent a warning colour is: 0 for none up to 3 for red. */
  function Severity(c: Colour): nat {
    match c
    case DarkGray => 0
    case Yellow => 1
    case Orange => 2
    case Red => 3
  }

  /** The severity is the number of warning thresholds (30%, 20%, 10%)
      the charge has fallen to. */
  lemma SeverityCountsThresholds(chargePercent: int)
    ensures Severity(OuterColour(chargePercent))
         == (if chargePercent <= 30 then 1 else 0)
          + (if chargePercent <= 20 then 1 else 0)
          + (if chargePercent <= 10 then 1 else 0)
  {
  }

  /** A lower charge never shows a less urgent colour. */
  lemma OuterColourAntitone(chargePercent: int, chargePercent': int)
    requires chargePercent <= chargePercent'
    ensures Severity(OuterColour(chargePercent)) >= Severity(OuterColour(chargePercent'))
  {
    SeverityCountsThresholds(chargePercent);
    SeverityCountsThresholds(chargePercent');
  }
}
