/** Zones on which the answer of packages/coreutils/slicc_tz.c is right, or is not. */
module DaylightZones {
  import opened Calendar
  import opened TimeZone
  import opened DaylightSaving
  import opened TransitionCycle

  /** EST5EDT,0/0,J365/25: daylight saving time all year, each end being the next start. */
  const AllYearZone := Zone(-18000, true, -14400, DayRule(0, 0), JulianRule(365, 90000))

  /** The two rules that make up all of a year. */
  lemma WholeYear(y: int, time: int)
    ensures RuleInstant(DayRule(0, 0), y) == YearBegin(y)
    ensures RuleInstant(JulianRule(365, time), y) == YearBegin(y + 1) - 86400 + time
    ensures YearBegin(y) + 365 * 86400 <= YearBegin(y + 1)
  {
    hide DaysBeforeYear;
    NextYear(y);
  }

  lemma AllYearZoneYear(y: int)
    ensures DstBegins(AllYearZone, y) == YearBegin(y) + 18000 < DstEnds(AllYearZone, y)
    ensures DstEnds(AllYearZone, y) == YearBegin(y + 1) + 18000
  {
    hide RuleInstant, YearBegin;
    WholeYear(y, 90000);
  }

  lemma AllYearZoneInOrder(y: int)
    ensures InOrder(AllYearZone, true, y) && InItsYear(AllYearZone, y)
  {
    hide YearBegin, DstBegins, DstEnds;
    AllYearZoneYear(y);
    AllYearZoneYear(y + 1);
  }

  lemma AllYearZoneIsRight(t: int)
    ensures InDst(AllYearZone, t) && SinceStart(AllYearZone, t)
  {
    hide YearBegin, DstBegins, DstEnds, SinceStart;
    var z := AllYearZone;
    forall y ensures InOrder(z, true, y) && InItsYear(z, y) {
      AllYearZoneInOrder(y);
    }
    AllYearZoneYear(CivilYear(t + z.stdGmt));
    InDstIsSinceStart(z, true, t);
  }

  /** A zone that ends daylight saving time as the year begins: standard time still shows the
      old year then, and `in_dst` looks at the old year's rules for an hour. */
  const NewYearZone := Zone(0, true, 3600, MonthRule(6, 1, 0, 7200), JulianRule(1, 0))

  lemma NewYearZoneYear(y: int)
    ensures InOrder(NewYearZone, false, y)
    ensures FirstTransition(NewYearZone, y) == YearBegin(y) - 3600 < SecondTransition(NewYearZone, y)
  {
    var z := NewYearZone;
    assert DstEnds(z, y) == YearBegin(y) - 3600;
    assert DstEnds(z, y + 1) == YearBegin(y + 1) - 3600;
    NewYearZoneStart(y);
    assert DstBegins(z, y) == RuleDay(z.start, y) * 86400 + 7200;
    NewYearZoneStart(y + 1);
    assert DstBegins(z, y + 1) == RuleDay(z.start, y + 1) * 86400 + 7200;
  }

  lemma NewYearZoneStart(y: int)
    ensures DaysBeforeYear(y) <= RuleDay(NewYearZone.start, y) < DaysBeforeYear(y + 1) - 1
  {
    MonthRulePicks(y, 6, 0, 1);
    MonthOffset(y, 6);
    YearsIncrease(y, y + 1);
  }

  lemma NewYearZoneIsWrong() returns (t: int)
    ensures InDst(NewYearZone, t) && !SinceStart(NewYearZone, t)
  {
    var z := NewYearZone;
    forall y ensures InOrder(z, false, y) {
      NewYearZoneYear(y);
    }
    NewYearZoneYear(1970);
    t := InDstWrongOutsideYear(z, false, 1970);
    SinceStartBetween(z, false, 1970, t);
  }

  // ----- Zones of neither kind -----

  /** WET0WEST,M1.1.0/-24,0/1: an end as every year begins, and a start the day before the first
      Sunday of January, which may be in the old year. */
  const SundayZone := Zone(0, true, 3600, MonthRule(1, 1, 0, -86400), DayRule(0, 3600))

  /** The first Sunday of the year. */
  function Sunday(y: int): int {
    MonthRuleDay(y, 1, 0, 1)
  }

  lemma SundayIsFirst(y: int)
    ensures Sunday(y) == FirstOn(y, 1, 0) && 1 <= Sunday(y) <= 7
    ensures DayNumber(y, 1, 1) == DaysBeforeYear(y)
  {
    hide Weekday;
    assert DaysBeforeMonth(y, 1) == 0;
    assert MonthLength(y, 1) == 31;
    MonthRuleArithmetic(FirstOn(y, 1, 0), 1, 31);
  }

  lemma SundayZoneYear(y: int)
    ensures 1 <= Sunday(y) <= 7
    ensures DstEnds(SundayZone, y) == YearBegin(y)
    ensures DstBegins(SundayZone, y) == YearBegin(y) + (Sunday(y) - 2) * 86400
    ensures YearBegin(y) + 365 * 86400 <= YearBegin(y + 1)
  {
    hide DaysBeforeYear, MonthRuleDay, FirstOn, DaysBeforeMonth, StepBack;
    SundayIsFirst(y);
    assert RuleDay(SundayZone.start, y) == DaysBeforeYear(y) + Sunday(y) - 1 by {
      assert DayNumber(y, 1, 1) == DaysBeforeYear(y);
    }
    YearsIncrease(y, y + 1);
  }

  /** Two years in a row do not both begin on a Sunday. */
  lemma SundaysMove(y: int)
    ensures Sunday(y) == 1 ==> Sunday(y + 1) != 1
  {
    hide Sunday, DaysBeforeYear;
    SundayIs(y);
    SundayIs(y + 1);
    NextYear(y);
    NotBothWeeks(DaysBeforeYear(y) + 4, YearLength(y));
  }

  lemma NotBothWeeks(n: int, len: int)
    requires len == 365 || len == 366
    ensures n % 7 == 0 ==> (n + len) % 7 != 0
  {
  }

  lemma NextYear(y: int)
    ensures DaysBeforeYear(y + 1) == DaysBeforeYear(y) + YearLength(y)
  {
  }

  lemma SundayIs(y: int)
    ensures Sunday(y) == 1 <==> (DaysBeforeYear(y) + 4) % 7 == 0
  {
    hide Sunday, DaysBeforeYear;
    SundayIsFirst(y);
    WrapsToOne((DaysBeforeYear(y) + 4) % 7);
  }

  lemma WrapsToOne(w: int)
    requires 0 <= w <= 6
    ensures (0 - w + 7) % 7 + 1 == 1 <==> w == 0
  {
  }

  /** When that zone has daylight saving time in year c. */
  ghost predicate SundayZoneIsOn(c: int, t: int) {
    Sunday(c) != 1 && YearBegin(c) + (Sunday(c) - 2) * 86400 <= t
  }

  /** Neither do its transitions alternate nor do they stay in their years, and still `in_dst`
      is right everywhere: what the rules of one year leave out, the next year undoes. */
  lemma SundayZoneIsRight(t: int)
    ensures InDst(SundayZone, t) <==> SinceStart(SundayZone, t)
  {
    hide YearBegin, SinceStart, InDst, SundayZoneIsOn;
    var c := CivilYear(t);
    SundayZoneInDst(c, t);
    if SundayZoneIsOn(c, t) {
      SundayZoneOn(c, t);
    } else {
      SundayZoneOff(c, t);
    }
  }

  lemma SundayZoneInDst(c: int, t: int)
    requires YearBegin(c) <= t < YearBegin(c + 1)
    ensures InDst(SundayZone, t) <==> SundayZoneIsOn(c, t)
  {
    hide YearBegin, Sunday, DstBegins, DstEnds;
    SundayZoneYear(c);
    CivilYearUnique(t, c);
    assert t + SundayZone.stdGmt == t;
  }

  lemma SundayZoneOn(c: int, t: int)
    requires YearBegin(c) <= t < YearBegin(c + 1) && SundayZoneIsOn(c, t)
    ensures SinceStart(SundayZone, t)
  {
    hide YearBegin, Sunday, DstBegins, DstEnds;
    SundayZoneYear(c);
    forall e | DstEnds(SundayZone, e) <= t ensures EndsBefore(SundayZone, e, c) {
      SundayZoneYear(e);
      if e > c {
        YearBeginsGrow(c + 1, e);
      } else {
        YearBeginsGrow(e, c);
      }
    }
    assert NoEndSince(SundayZone, c, t);
  }

  lemma SundayZoneOff(c: int, t: int)
    requires YearBegin(c) <= t < YearBegin(c + 1)
    ensures SinceStart(SundayZone, t) ==> SundayZoneIsOn(c, t)
  {
    hide YearBegin, Sunday, DstBegins, DstEnds;
    SundayZoneYear(c);
    if !SundayZoneIsOn(c, t) {
      forall b | DstBegins(SundayZone, b) <= t ensures !EndsBefore(SundayZone, c, b) {
        SundayZoneStartsBefore(c, t, b);
      }
    }
  }

  /** Any other start so far came before the end as year c began. */
  lemma SundayZoneStartsBefore(c: int, t: int, b: int)
    requires YearBegin(c) <= t < YearBegin(c + 1) && DstBegins(SundayZone, b) <= t
    ensures EndsBefore(SundayZone, c, b) ==> SundayZoneIsOn(c, t)
  {
    hide YearBegin, Sunday, DstBegins, DstEnds;
    SundayZoneYear(c);
    SundayZoneYear(b);
    if b < c {
      YearBeginsGrow(b + 1, c);
    } else if b > c + 1 {
      YearBeginsGrow(c + 2, b);
      SundayZoneYear(c + 1);
    } else if b == c + 1 {
      SundaysMove(c);
    }
  }

  lemma SundayZoneIsOfNeitherKind(startFirst: bool)
    ensures !Alternates(SundayZone, startFirst) && !StaysInYear(SundayZone)
  {
    // 1 January 1978 was a Sunday
    hide YearBegin, DstBegins, DstEnds, Sunday, InOrder, InItsYear, Alternates, StaysInYear;
    var z := SundayZone;
    SundaySeventyEight();
    SundaysMove(1978);
    SundayZoneOrder(1978);
    SundayZoneOrder(1979);
    CyclesAlternate(z, startFirst);
    CyclesStay(z);
    if EverAlternates(z, startFirst) {
      OrderIsFirst(z, startFirst, 1978);
      OrderIsFirst(z, startFirst, 1979);
    }
  }

  lemma OrderIsFirst(z: Zone, startFirst: bool, y: int)
    requires z.Valid() && InOrder(z, startFirst, y)
    ensures StartFirst(z, y) == startFirst
  {
  }

  lemma SundaySeventyEight()
    ensures Sunday(1978) == 1
  {
    hide Sunday;
    SundayIs(1978);
    YearStart(1978);
    FromMarchFloor(1977, 4, 377, 306);
  }

  lemma SundayZoneOrder(y: int)
    ensures StartFirst(SundayZone, y) <==> Sunday(y) == 1
    ensures InItsYear(SundayZone, y) ==> Sunday(y) != 1
  {
    hide YearBegin, Sunday, DstBegins, DstEnds, StartFirst, InItsYear;
    SundayZoneYear(y);
    OrderByDay(SundayZone, y, Sunday(y));
  }

  lemma OrderByDay(z: Zone, y: int, day: int)
    requires z.Valid() && z.stdGmt == 0 && 1 <= day <= 7
    requires DstEnds(z, y) == YearBegin(y) && DstBegins(z, y) == YearBegin(y) + (day - 2) * 86400
    ensures StartFirst(z, y) <==> day == 1
    ensures day == 1 ==> !InItsYear(z, y)
  {
    hide YearBegin, DstBegins, DstEnds;
  }

  /** EST5EDT,0/0,J365/49: each year's daylight saving time lasts a day into the next year's, and
      ends there. `in_dst` does not see that end. */
  const LongYearZone := Zone(-18000, true, -14400, DayRule(0, 0), JulianRule(365, 49 * 3600))

  lemma LongYearZoneYear(y: int)
    ensures DstBegins(LongYearZone, y) == YearBegin(y) + 18000
    ensures DstEnds(LongYearZone, y) == YearBegin(y + 1) + 18000 + 86400
    ensures YearBegin(y) + 365 * 86400 <= YearBegin(y + 1)
  {
    hide RuleInstant, YearBegin;
    WholeYear(y, 49 * 3600);
  }

  lemma LongYearZoneIsWrong(y: int)
    ensures var t := YearBegin(y) + 18000 + 2 * 86400; InDst(LongYearZone, t) && !SinceStart(LongYearZone, t)
    ensures forall startFirst :: !Alternates(LongYearZone, startFirst)
    ensures !StaysInYear(LongYearZone)
  {
    hide YearBegin, DstBegins, DstEnds;
    var z, t := LongYearZone, YearBegin(y) + 18000 + 2 * 86400;
    LongYearZoneYear(y);
    LongYearZoneYear(y - 1);
    CivilYearUnique(t + z.stdGmt, y);
    forall b | DstBegins(z, b) <= t ensures !EndsBefore(z, y - 1, b) {
      LongYearZoneYear(b);
      if b <= y {
        YearBeginsGrow(b, y);
      } else {
        YearBeginsGrow(y + 1, b);
      }
    }
    LongYearZoneYear(0);
    LongYearZoneYear(1);
    assert !InItsYear(z, 0);
    forall startFirst ensures !Alternates(z, startFirst) {
      assert !InOrder(z, startFirst, 0);
    }
  }
}
