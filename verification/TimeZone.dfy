/**
 POSIX time-zone rules as packages/coreutils/slicc_tz.c evaluates them (POSIX.1-2024 Base
 Definitions, section 8.3): which day a rule picks, whether daylight saving time is in
 effect at an instant, and `localtime` and `mktime` for a zone given by such rules.
 */
module TimeZone {
  import opened Calendar

  /** When a transition happens: on the `week`-th `wday` of a month (5 is the last one), on a
      day of the year that never counts 29 February, or on a day of the year from 0. */
  datatype Rule =
    | MonthRule(month: int, week: int, wday: int, time: int)
    | JulianRule(day: int, time: int)
    | DayRule(day: int, time: int)
  {
    /** What the parser accepts of a month rule; it leaves the others unchecked. */
    predicate Valid() {
      MonthRule? ==> 1 <= month <= 12 && 1 <= week <= 5 && 0 <= wday <= 6
    }
  }

  /** Offsets are seconds east of UTC. Without daylight saving time the last three are unused. */
  datatype Zone = Zone(stdGmt: int, hasDst: bool, dstGmt: int, start: Rule, end: Rule) {
    predicate Valid() {
      start.Valid() && end.Valid()
    }
  }

  // ----- Which day a rule picks -----

  /** 0 is Sunday; 1970-01-01 was a Thursday. */
  function Weekday(day: int): int {
    (day + 4) % 7
  }

  /** How many of the first d days of the month fall on weekday w. */
  function Occurrences(y: int, m: int, w: int, d: nat): nat
    requires 1 <= m <= 12
  {
    if d == 0 then 0
    else Occurrences(y, m, w, d - 1) + (if Weekday(DayNumber(y, m, d)) == w then 1 else 0)
  }

  /** d is the week-th w of the month, or its last one when there are fewer. */
  ghost predicate IsNthWeekday(y: int, m: int, w: int, week: int, d: int)
    requires 1 <= m <= 12
  {
    && 1 <= d <= MonthLength(y, m)
    && Weekday(DayNumber(y, m, d)) == w
    && NthOrLast(Occurrences(y, m, w, d), week, Occurrences(y, m, w, MonthLength(y, m)))
  }

  /** The n-th of `total`, or the last one when there are fewer than n. */
  predicate NthOrLast(index: nat, n: int, total: nat) {
    index <= n && (index < n ==> index == total)
  }

  /** The first day of the month that falls on weekday w. */
  function FirstOn(y: int, m: int, w: int): int
    requires 1 <= m <= 12
  {
    (w - Weekday(DayNumber(y, m, 1)) + 7) % 7 + 1
  }

  /** Whole weeks back until the day is inside the month. */
  function StepBack(d: int, len: int): int
    requires len >= 28
    decreases d
  {
    if d > len then StepBack(d - 7, len) else d
  }

  function MonthRuleDay(y: int, m: int, w: int, week: int): int
    requires 1 <= m <= 12
  {
    StepBack(FirstOn(y, m, w) + 7 * (week - 1), MonthLength(y, m))
  }

  lemma WeekdayArithmetic(first: int, w: int, d: int)
    requires 0 <= w <= 6 && d >= 1
    ensures var f := (w - Weekday(first) + 7) % 7 + 1;
            Weekday(first + d - 1) == w <==> d >= f && (d - f) % 7 == 0
  {
    var b := Weekday(first);
    var f := (w - b + 7) % 7 + 1;
    var q := (first + 4) / 7;
    assert first + 4 == 7 * q + b;
    assert first + d - 1 + 4 == 7 * q + (b + d - 1);
    assert Weekday(first + d - 1) == (b + d - 1) % 7;
    assert f == if w >= b then w - b + 1 else w - b + 8;
  }

  /** The given weekday comes on the first such day and every seventh day after it. */
  lemma WeekdayOf(y: int, m: int, w: int, d: int)
    requires 1 <= m <= 12 && 0 <= w <= 6 && d >= 1
    ensures Weekday(DayNumber(y, m, d)) == w <==> d >= FirstOn(y, m, w) && (d - FirstOn(y, m, w)) % 7 == 0
  {
    var first := DayNumber(y, m, 1);
    assert DayNumber(y, m, d) == first + d - 1;
    WeekdayArithmetic(first, w, d);
  }

  lemma {:induction false} CountWeekday(y: int, m: int, w: int, d: nat)
    requires 1 <= m <= 12 && 0 <= w <= 6
    ensures var f := FirstOn(y, m, w);
            Occurrences(y, m, w, d) == if d < f then 0 else (d - f) / 7 + 1
  {
    if d > 0 {
      CountWeekday(y, m, w, d - 1);
      WeekdayOf(y, m, w, d);
      var f := FirstOn(y, m, w);
      if d >= f {
        CountStep(d - f);
      }
    }
  }

  lemma CountStep(n: int)
    requires n >= 0
    ensures n / 7 + 1 == (if n == 0 then 0 else (n - 1) / 7 + 1) + (if n % 7 == 0 then 1 else 0)
  {
  }

  /** The rule's day is the week-th given weekday of the month, the last one for week 5. */
  lemma MonthRulePicks(y: int, m: int, w: int, week: int)
    requires 1 <= m <= 12 && 1 <= week <= 5 && 0 <= w <= 6
    ensures IsNthWeekday(y, m, w, week, MonthRuleDay(y, m, w, week))
    ensures week == 5 ==> MonthLength(y, m) - 7 < MonthRuleDay(y, m, w, week)
  {
    var d := MonthRuleDay(y, m, w, week);
    MonthRuleArithmetic(FirstOn(y, m, w), week, MonthLength(y, m));
    WeekdayOf(y, m, w, d);
    CountsAt(y, m, w, week, d, MonthLength(y, m));
  }

  lemma CountsAt(y: int, m: int, w: int, week: int, d: nat, len: nat)
    requires 1 <= m <= 12 && 0 <= w <= 6 && FirstOn(y, m, w) <= d <= len
    requires var f := FirstOn(y, m, w); NthOrLast((d - f) / 7 + 1, week, (len - f) / 7 + 1)
    ensures NthOrLast(Occurrences(y, m, w, d), week, Occurrences(y, m, w, len))
  {
    CountWeekday(y, m, w, d);
    CountWeekday(y, m, w, len);
  }

  lemma MonthRuleArithmetic(f: int, week: int, len: int)
    requires 1 <= f <= 7 && 1 <= week <= 5 && 28 <= len <= 31
    ensures var d := StepBack(f + 7 * (week - 1), len);
            && f <= d <= len && (d - f) % 7 == 0
            && NthOrLast((d - f) / 7 + 1, week, (len - f) / 7 + 1)
            && (week == 5 ==> len - 7 < d)
  {
    var d := f + 7 * (week - 1);
    assert StepBack(d, len) == if d > len then d - 7 else d;
  }

  lemma {:induction false} OccurrencesGrow(y: int, m: int, w: int, d1: nat, d2: nat)
    requires 1 <= m <= 12 && d1 <= d2
    ensures Occurrences(y, m, w, d1) <= Occurrences(y, m, w, d2)
    ensures d1 < d2 && Weekday(DayNumber(y, m, d2)) == w ==> Occurrences(y, m, w, d1) < Occurrences(y, m, w, d2)
    decreases d2 - d1
  {
    if d1 < d2 {
      OccurrencesGrow(y, m, w, d1, d2 - 1);
    }
  }

  /** No other day of the month fits the rule. */
  lemma NthWeekdayUnique(y: int, m: int, w: int, week: int, d1: int, d2: int)
    requires 1 <= m <= 12
    requires IsNthWeekday(y, m, w, week, d1) && IsNthWeekday(y, m, w, week, d2)
    ensures d1 == d2
  {
    var lo, hi := if d1 < d2 then d1 else d2, if d1 < d2 then d2 else d1;
    OccurrencesGrow(y, m, w, lo, hi);
    OccurrencesGrow(y, m, w, hi, MonthLength(y, m));
  }

  /** The day number a rule names in year y. */
  function RuleDay(r: Rule, y: int): int
    requires r.Valid()
  {
    match r
    case MonthRule(m, week, w, _) => DayNumber(y, m, 1) + MonthRuleDay(y, m, w, week) - 1
    case JulianRule(n, _) => DaysBeforeYear(y) + n - 1 + (if Leap(y) && n >= 60 then 1 else 0)
    case DayRule(n, _) => DaysBeforeYear(y) + n
  }

  /** A J rule's day has the same month and day in every year, those of the n-th day of a
      common year; so it is never 29 February. */
  lemma JulianDate(y: int, n: int, time: int, m: int, d: int)
    requires ValidDate(2001, m, d) && DayNumber(2001, m, d) == DaysBeforeYear(2001) + n - 1
    ensures CivilDate(RuleDay(JulianRule(n, time), y)) == (y, m, d)
    ensures !(m == 2 && d == 29)
  {
    CommonDate(n, m, d);
    SameDateIn(y, n, m, d);
    CivilDateInverts(y, m, d);
  }

  lemma SameDateIn(y: int, n: int, m: int, d: int)
    requires 1 <= m <= 12 && 1 <= d <= MonthLength(2001, m) && !Leap(2001)
    requires n >= 60 <==> m > 2
    requires n == d + (if m <= 2 then 31 * (m - 1) else 59 + (153 * (m - 3) + 2) / 5)
    ensures ValidDate(y, m, d)
    ensures DayNumber(y, m, d) == DaysBeforeYear(y) + n - 1 + (if Leap(y) && n >= 60 then 1 else 0)
  {
    MonthOffset(y, m);
  }

  lemma CommonDate(n: int, m: int, d: int)
    requires ValidDate(2001, m, d) && DaysBeforeMonth(2001, m) + d == n
    ensures !(m == 2 && d == 29) && (n >= 60 <==> m > 2)
    ensures n == d + (if m <= 2 then 31 * (m - 1) else 59 + (153 * (m - 3) + 2) / 5)
  {
    MonthOffset(2001, m);
    assert !Leap(2001);
  }

  lemma {:induction false} MonthOffset(y: int, m: int)
    requires 1 <= m <= 12
    ensures m <= 2 ==> DaysBeforeMonth(y, m) == 31 * (m - 1)
    ensures m > 2 ==> DaysBeforeMonth(y, m) == 59 + (153 * (m - 3) + 2) / 5 + (if Leap(y) then 1 else 0)
  {
    if m > 2 {
      MonthStart(y, m);
    } else {
      assert DaysBeforeMonth(y, 1) == 0;
    }
  }

  /** When the rule's transition happens in year y, in the wall time in effect before it. */
  function RuleInstant(r: Rule, y: int): int
    requires r.Valid()
  {
    RuleDay(r, y) * 86400 + r.time
  }

  /** `rule_secs`. */
  method RuleSecs(r: Rule, y: int) returns (secs: int)
    requires r.Valid()
    ensures secs == RuleInstant(r, y)
  {
    var day;
    match r {
      case JulianRule(n, _) =>
        day := DaysFromCivil(y, 1, 1) + n - 1 + (if Leap(y) && n >= 60 then 1 else 0);
        DaysFromCivilIsNaive(y, 1, 1);
      case DayRule(n, _) =>
        day := DaysFromCivil(y, 1, 1) + n;
        DaysFromCivilIsNaive(y, 1, 1);
      case MonthRule(m, week, w, _) =>
        var first := DaysFromCivil(y, m, 1);
        DaysFromCivilIsNaive(y, m, 1);
        var wday := CMod(CMod(first, 7) + 11, 7);
        CWeekday(first);
        var d := CMod(w - wday + 7, 7) + 1 + 7 * (week - 1);
        assert d == FirstOn(y, m, w) + 7 * (week - 1);
        var len := MonthLength(y, m);
        while d > len
          invariant StepBack(d, len) == MonthRuleDay(y, m, w, week)
        {
          d := d - 7;
        }
        day := first + d - 1;
    }
    secs := day * 86400 + r.time;
  }

  lemma CWeekday(day: int)
    ensures CMod(CMod(day, 7) + 11, 7) == Weekday(day)
  {
    var q := CDiv(day, 7);
    assert day == 7 * q + CMod(day, 7) && -7 < CMod(day, 7) < 7;
  }

  // ----- Daylight saving time at an instant -----

  function YearBegin(y: int): int {
    DaysBeforeYear(y) * 86400
  }

  /** The civil year an instant of local time falls in. */
  ghost function CivilYear(secs: int): (y: int)
    ensures YearBegin(y) <= secs < YearBegin(y + 1)
  {
    DateOfInstant(secs);
    var y :| YearBegin(y) <= secs < YearBegin(y + 1);
    y
  }

  lemma DateOfInstant(secs: int)
    ensures exists y :: YearBegin(y) <= secs < YearBegin(y + 1)
  {
    CivilDateIsRight(secs / 86400);
    var (y, m, d) := CivilDate(secs / 86400);
    YearOfDate(secs, y, m, d);
  }

  lemma YearOfDate(secs: int, y: int, m: int, d: int)
    requires ValidDate(y, m, d) && DayNumber(y, m, d) == secs / 86400
    ensures YearBegin(y) <= secs < YearBegin(y + 1)
  {
    DateInYear(y, m, d);
    YearsIncrease(y, y + 1);
  }

  lemma CivilYearUnique(secs: int, y: int)
    requires YearBegin(y) <= secs < YearBegin(y + 1)
    ensures y == CivilYear(secs)
  {
    var c := CivilYear(secs);
    if y < c {
      YearBeginsGrow(y + 1, c);
    } else if c < y {
      YearBeginsGrow(c + 1, y);
    }
  }

  lemma YearBeginsGrow(y1: int, y2: int)
    requires y1 <= y2
    ensures YearBegin(y1) <= YearBegin(y2)
  {
    if y1 < y2 {
      YearsIncrease(y1, y2);
    }
  }

  lemma YearOrder(secs: int, y: int)
    ensures YearBegin(y) > secs <==> y > CivilYear(secs)
    ensures YearBegin(y + 1) <= secs <==> y < CivilYear(secs)
  {
    var c := CivilYear(secs);
    if y > c {
      YearBeginsGrow(c + 1, y);
    } else {
      YearBeginsGrow(y, c);
    }
    if y < c {
      YearBeginsGrow(y + 1, c);
    } else {
      YearBeginsGrow(c + 1, y + 1);
    }
  }

  /** When the zone leaves standard time in year y, and when it returns to it. */
  function DstBegins(z: Zone, y: int): int
    requires z.Valid()
  {
    RuleInstant(z.start, y) - z.stdGmt
  }

  function DstEnds(z: Zone, y: int): int
    requires z.Valid()
  {
    RuleInstant(z.end, y) - z.dstGmt
  }

  /** The rules of year y at t; a start that does not come before the end leaves standard
      time between the two. */
  predicate InDstByYear(z: Zone, y: int, t: int)
    requires z.Valid()
  {
    if DstBegins(z, y) < DstEnds(z, y) then DstBegins(z, y) <= t < DstEnds(z, y)
    else !(DstEnds(z, y) <= t < DstBegins(z, y))
  }

  /** The POSIX answer: by the rules of the civil year that standard time shows at t. */
  ghost predicate InDst(z: Zone, t: int)
    requires z.Valid()
  {
    z.hasDst && InDstByYear(z, CivilYear(t + z.stdGmt), t)
  }

  const MEAN_YEAR := 31556952

  /** A year begins within a few days of the mean-year estimate, forever. */
  lemma YearBeginEstimate(y: int)
    ensures -3 * 86400 <= YearBegin(y) - (y - 1970) * MEAN_YEAR <= 3 * 86400
  {
    var era, yoe := (y - 1) / 400, (y - 1) % 400;
    FromMarchFloor(y - 1, era, yoe, 306);
    YearStart(y);
    var days := DaysBeforeYear(y);
    assert days == era * 146097 + yoe * 365 + yoe / 4 - yoe / 100 + 306 - 719468;
    assert MEAN_YEAR * 400 == 146097 * 86400;
    EstimateInEra(yoe);
    assert 400 * days - 146097 * (y - 1970)
           == 400 * (yoe * 365 + yoe / 4 - yoe / 100) - 146097 * yoe + 400 * (306 - 719468) + 146097 * 1969;
  }

  lemma EstimateInEra(yoe: int)
    requires 0 <= yoe < 400
    ensures -700 <= 400 * (yoe * 365 + yoe / 4 - yoe / 100) - 146097 * yoe <= 400
  {
    assert yoe == 4 * (yoe / 4) + yoe % 4 && yoe == 100 * (yoe / 100) + yoe % 100;
  }

  /** The truncating first guess is the civil year, or off by one, or one more too late. */
  lemma FirstGuess(s: int)
    ensures var g := 1970 + CDiv(s, MEAN_YEAR);
            CivilYear(s) - 1 <= g <= CivilYear(s) + 2
  {
    var y := CivilYear(s);
    YearBeginEstimate(y);
    YearBeginEstimate(y + 1);
    var q := CDiv(s, MEAN_YEAR);
    assert (q - 1) * MEAN_YEAR < s < (q + 1) * MEAN_YEAR;
  }

  /** `in_dst`: two corrections always reach the civil year, negative times included. */
  method IsDst(z: Zone, t: int) returns (b: bool)
    requires z.Valid()
    ensures b == InDst(z, t)
  {
    if !z.hasDst {
      return false;
    }
    var local := t + z.stdGmt;
    var y := 1970 + CDiv(local, MEAN_YEAR);
    FirstGuess(local);
    ghost var year := CivilYear(local);
    var k := 0;
    while k < 2
      invariant 0 <= k <= 2
      invariant year - 1 <= y <= year + 2 && (k >= 1 ==> year <= y <= year + 1) && (k == 2 ==> y == year)
    {
      DaysFromCivilIsNaive(y, 1, 1);
      DaysFromCivilIsNaive(y + 1, 1, 1);
      YearOrder(local, y);
      if DaysFromCivil(y, 1, 1) * 86400 > local {
        y := y - 1;
      } else if DaysFromCivil(y + 1, 1, 1) * 86400 <= local {
        y := y + 1;
      }
      k := k + 1;
    }
    var t0 := RuleSecs(z.start, y);
    t0 := t0 - z.stdGmt;
    var t1 := RuleSecs(z.end, y);
    t1 := t1 - z.dstGmt;
    b := if t0 < t1 then t >= t0 && t < t1 else !(t >= t1 && t < t0);
  }

  /** The first guess can be two years late, so one correction would not do. */
  lemma TwoCorrectionsNeeded()
    ensures 1970 + CDiv(-31536001, MEAN_YEAR) == CivilYear(-31536001) + 2
  {
    assert DaysBeforeYear(1969) == -365 && DaysBeforeYear(1968) == -731;
    CivilYearUnique(-31536001, 1968);
  }

  // ----- localtime and mktime -----

  /** The broken-down times: month from 0, and isDst as C has it (negative: unknown). */
  datatype Tm = Tm(year: int, month: int, mday: int, hour: int, minute: int, second: int, isDst: int, gmtOff: int)

  ghost function GmtOffset(z: Zone, t: int): int
    requires z.Valid()
  {
    if InDst(z, t) then z.dstGmt else z.stdGmt
  }

  ghost function LocalTime(z: Zone, t: int): Tm
    requires z.Valid()
  {
    Fields(Civil(t + GmtOffset(z, t)), if InDst(z, t) then 1 else 0, GmtOffset(z, t))
  }

  function Fields(c: DateTime, isDst: int, gmtOff: int): Tm {
    Tm(c.year, c.month - 1, c.day, c.hour, c.minute, c.second, isDst, gmtOff)
  }

  /** `timegm`, which normalises out-of-range fields. */
  function TimeGm(tm: Tm): int {
    DayNumber(tm.year + tm.month / 12, tm.month % 12 + 1, tm.mday) * 86400
    + tm.hour * 3600 + tm.minute * 60 + tm.second
  }

  /** `timegm` carries every field over into the next: twelve months are a year, and days, hours,
      minutes and seconds are as many as they are. */
  lemma TimeGmCarries(tm: Tm, years: int, days: int, hours: int, minutes: int, seconds: int)
    ensures TimeGm(tm.(month := tm.month + 12 * years, mday := tm.mday + days, hour := tm.hour + hours,
                       minute := tm.minute + minutes, second := tm.second + seconds))
            == TimeGm(tm.(year := tm.year + years)) + days * 86400 + hours * 3600 + minutes * 60 + seconds
  {
    hide DaysBeforeYear, DaysBeforeMonth;
    WholeYears(tm.month, years);
  }

  lemma WholeYears(month: int, years: int)
    ensures (month + 12 * years) / 12 == month / 12 + years && (month + 12 * years) % 12 == month % 12
  {
  }

  /** The wall clock shows `wall` at instant t. */
  ghost predicate Shows(z: Zone, t: int, wall: int)
    requires z.Valid()
  {
    t + GmtOffset(z, t) == wall
  }

  lemma TimeGmOfFields(c: DateTime, isDst: int, gmtOff: int)
    requires c.Valid()
    ensures TimeGm(Fields(c, isDst, gmtOff)) == c.Seconds()
  {
    var month := c.month - 1;
    assert month / 12 == 0 && month % 12 == month;
    assert c.year + month / 12 == c.year && month % 12 + 1 == c.month;
  }

  lemma TimeGmOfCivil(wall: int, isDst: int, gmtOff: int)
    ensures TimeGm(Fields(Civil(wall), isDst, gmtOff)) == wall
  {
    CivilIsRight(wall);
    TimeGmOfFields(Civil(wall), isDst, gmtOff);
  }

  /** A date that exists and a time of day. */
  predicate Normal(tm: Tm) {
    && 0 <= tm.month < 12 && ValidDate(tm.year, tm.month + 1, tm.mday)
    && 0 <= tm.hour < 24 && 0 <= tm.minute < 60 && 0 <= tm.second < 60
  }

  /** The broken-down time of an instant is normal, is the instant's own once the offset it shows
      is taken off, and shows the offset in effect. */
  lemma TimeGmOfLocalTime(z: Zone, t: int)
    requires z.Valid()
    ensures Normal(LocalTime(z, t)) && TimeGm(LocalTime(z, t)) - LocalTime(z, t).gmtOff == t
    ensures LocalTime(z, t).gmtOff == if InDst(z, t) then z.dstGmt else z.stdGmt
    ensures LocalTime(z, t).isDst == if InDst(z, t) then 1 else 0
  {
    hide InDst, Civil;
    CivilIsRight(t + GmtOffset(z, t));
    TimeGmOfCivil(t + GmtOffset(z, t), if InDst(z, t) then 1 else 0, GmtOffset(z, t));
  }

  /** `zone_at` for a zone given by rules. */
  method ZoneAt(z: Zone, t: int) returns (gmt: int, dst: bool)
    requires z.Valid()
    ensures dst == InDst(z, t) && gmt == GmtOffset(z, t)
  {
    dst := IsDst(z, t);
    gmt := if dst then z.dstGmt else z.stdGmt;
  }

  /** `localtime_r`. */
  method LocalTimeR(z: Zone, t: int) returns (tm: Tm)
    requires z.Valid()
    ensures tm == LocalTime(z, t) && Normal(tm) && TimeGm(tm) - tm.gmtOff == t
  {
    TimeGmOfLocalTime(z, t);
    var gmt, dst := ZoneAt(z, t);
    tm := Fields(Civil(t + gmt), if dst then 1 else 0, gmt);
  }

  /** What the search settles on when nobody says which of the two times the wall shows. */
  ghost function Settled(z: Zone, wall: int): int
    requires z.Valid()
  {
    if InDst(z, wall - z.stdGmt) then wall - z.dstGmt else wall - z.stdGmt
  }

  /** It shows the wall time whenever some instant does, in an overlap the later one in
      standard time; a wall time in a gap is read by the daylight-saving offset. */
  lemma SettledShows(z: Zone, wall: int)
    requires z.Valid()
    ensures (exists u :: Shows(z, u, wall)) <==> Shows(z, Settled(z, wall), wall)
    ensures Shows(z, wall - z.stdGmt, wall) ==> Settled(z, wall) == wall - z.stdGmt
    ensures (forall u :: !Shows(z, u, wall)) ==> Settled(z, wall) == wall - z.dstGmt
  {
    hide InDst;
    var std, day := wall - z.stdGmt, wall - z.dstGmt;
    forall u | Shows(z, u, wall) ensures u == std || u == day {
    }
    if !Shows(z, std, wall) && !Shows(z, day, wall) {
      assert InDst(z, std);
    }
  }

  /** `mktime`. Told which of the two times the wall shows, it uses that offset; otherwise
      three rounds of the search reach the settled instant. */
  method MkTime(z: Zone, tm: Tm) returns (t: int, normal: Tm)
    requires z.Valid()
    ensures normal == LocalTime(z, t)
    ensures t == if tm.isDst >= 0 && z.hasDst
                 then TimeGm(tm) - (if tm.isDst != 0 then z.dstGmt else z.stdGmt)
                 else Settled(z, TimeGm(tm))
  {
    var want := tm.isDst;
    var wall := TimeGm(tm);
    var dst, gmt := false, 0;
    t := wall - z.stdGmt;
    ghost var std, day := wall - z.stdGmt, wall - z.dstGmt;
    ghost var stdIsDst, dayIsDst := InDst(z, std), InDst(z, day);
    var k := 0;
    while k < 3
      invariant 0 <= k <= 3
      invariant k == 0 ==> t == std
      invariant !stdIsDst ==> t == std && !dst
      invariant stdIsDst && dayIsDst && k > 0 ==> t == day && dst
      invariant stdIsDst && !dayIsDst ==> t == (if k % 2 == 0 then std else day) && dst == (k % 2 == 1)
    {
      gmt, dst := ZoneAt(z, t);
      t := wall - gmt;
      k := k + 1;
    }
    assert dst == stdIsDst && t == Settled(z, wall);
    if z.hasDst && want >= 0 && want != (if dst then 1 else 0) {
      t := wall - (if want != 0 then z.dstGmt else z.stdGmt);
    }
    normal := LocalTimeR(z, t);
  }

  /** `mktime` undoes `localtime`, at every instant of every zone. */
  method RoundTrip(z: Zone, t: int) returns (t': int)
    requires z.Valid()
    ensures t' == t
  {
    var tm := LocalTimeR(z, t);
    TimeGmOfLocalTime(z, t);
    ghost var wall, dst := TimeGm(tm), InDst(z, t);
    assert wall == t + (if dst then z.dstGmt else z.stdGmt) && tm.isDst == (if dst then 1 else 0);
    assert dst ==> z.hasDst;
    var normal;
    t', normal := MkTime(z, tm);
  }
}
