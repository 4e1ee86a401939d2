/**
 The calendar repeats every 400 years, which are a whole number of weeks, and so do the rules of
 packages/coreutils/slicc_tz.c: their transitions, and what `in_dst` makes of them.
 */
module TransitionCycle {
  import opened Calendar
  import opened TimeZone

  // the seconds of 400 years
  const CYCLE := 146097 * 86400

  /** The years of one cycle. */
  predicate OneCycle(y: int) {
    0 <= y < 400
  }

  lemma DaysShift(y: int, q: int)
    ensures DaysBeforeYear(y + q * 400) == DaysBeforeYear(y) + q * 146097
  {
    hide DaysBeforeYear, FromMarch;
    var era, yoe := (y - 1) / 400, (y - 1) % 400;
    YearStart(y);
    YearStart(y + q * 400);
    FromMarchFloor(y - 1, era, yoe, 306);
    FromMarchFloor(y + q * 400 - 1, era + q, yoe, 306);
  }

  lemma YearBeginShift(y: int, q: int)
    ensures YearBegin(y + q * 400) == YearBegin(y) + q * CYCLE
  {
    DaysShift(y, q);
  }

  lemma {:induction false} MonthShift(y: int, q: int, m: int)
    requires 1 <= m <= 13
    ensures DaysBeforeMonth(y + q * 400, m) == DaysBeforeMonth(y, m)
    decreases m
  {
    if m > 1 {
      LeapShift(y, q);
      MonthShift(y, q, m - 1);
    }
  }

  /** A cycle is a whole number of weeks. */
  lemma WeekdayShift(day: int, q: int)
    ensures Weekday(day + q * 146097) == Weekday(day)
  {
    assert day + q * 146097 + 4 == (day + 4) + 7 * (20871 * q);
    Weeks(day + 4, 20871 * q);
  }

  lemma Weeks(n: int, k: int)
    ensures (n + 7 * k) % 7 == n % 7
  {
  }

  lemma RuleDayShift(r: Rule, y: int, q: int)
    requires r.Valid()
    ensures RuleDay(r, y + q * 400) == RuleDay(r, y) + q * 146097
  {
    hide DaysBeforeYear, Weekday, DaysBeforeMonth, Leap, StepBack;
    DaysShift(y, q);
    LeapShift(y, q);
    if r.MonthRule? {
      MonthShift(y, q, r.month);
      WeekdayShift(DayNumber(y, r.month, 1), q);
    }
  }

  lemma TransitionShift(r: Rule, y: int, q: int)
    requires r.Valid()
    ensures RuleInstant(r, y + q * 400) == RuleInstant(r, y) + q * CYCLE
  {
    hide RuleDay;
    RuleDayShift(r, y, q);
  }

  /** Both transitions of a year, and the year itself, moved by whole cycles. */
  lemma YearShift(z: Zone, y: int, q: int)
    requires z.Valid()
    ensures DstBegins(z, y + q * 400) == DstBegins(z, y) + q * CYCLE
    ensures DstEnds(z, y + q * 400) == DstEnds(z, y) + q * CYCLE
    ensures YearBegin(y + q * 400) == YearBegin(y) + q * CYCLE
  {
    hide RuleInstant, YearBegin;
    TransitionShift(z.start, y, q);
    TransitionShift(z.end, y, q);
    YearBeginShift(y, q);
  }

  lemma InDstShift(z: Zone, t: int, q: int)
    requires z.Valid()
    ensures InDst(z, t + q * CYCLE) <==> InDst(z, t)
  {
    hide DstBegins, DstEnds, YearBegin;
    var c := CivilYear(t + z.stdGmt);
    YearShift(z, c, q);
    YearBeginShift(c + 1, q);
    assert c + 1 + q * 400 == c + q * 400 + 1;
    CivilYearUnique(t + q * CYCLE + z.stdGmt, c + q * 400);
  }

  /** Every year is one of the cycle, moved by whole cycles. */
  lemma InCycle(y: int)
    ensures OneCycle(y % 400) && y == y % 400 + y / 400 * 400
  {
  }
}
