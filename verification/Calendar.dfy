/**
 The proleptic Gregorian calendar: `days_from_civil` of packages/coreutils/slicc_tz.c and
 its inverse `civil` of packages/wasi-dig/src/present.rs, over all integers.
 */
module Calendar {

  // ----- C's integer division -----

  /** C's `/`: truncation toward zero. */
  function CDiv(a: int, b: int): int
    requires b > 0
  {
    if a >= 0 then a / b else -(-a / b)
  }

  /** C's `%`: takes the sign of the dividend. */
  function CMod(a: int, b: int): int
    requires b > 0
  {
    a - CDiv(a, b) * b
  }

  // ----- The calendar, counted naively -----

  /** A remainder of zero does not depend on the rounding direction. */
  predicate Leap(y: int) {
    (y % 4 == 0 && y % 100 != 0) || y % 400 == 0
  }

  function YearLength(y: int): int {
    if Leap(y) then 366 else 365
  }

  function MonthLength(y: int, m: int): int
    requires 1 <= m <= 12
  {
    if m == 2 then (if Leap(y) then 29 else 28)
    else if m == 4 || m == 6 || m == 9 || m == 11 then 30
    else 31
  }

  /** Days from 1970-01-01 to the first day of year y, one year at a time. */
  function DaysBeforeYear(y: int): int
    decreases if y >= 1970 then y - 1970 else 1970 - y
  {
    if y == 1970 then 0
    else if y > 1970 then DaysBeforeYear(y - 1) + YearLength(y - 1)
    else DaysBeforeYear(y + 1) - YearLength(y)
  }

  /** Days from the first of January to the first of month m, one month at a time. */
  function DaysBeforeMonth(y: int, m: int): int
    requires 1 <= m <= 13
    decreases m
  {
    if m == 1 then 0 else DaysBeforeMonth(y, m - 1) + MonthLength(y, m - 1)
  }

  function DayNumber(y: int, m: int, d: int): int
    requires 1 <= m <= 12
  {
    DaysBeforeYear(y) + DaysBeforeMonth(y, m) + d - 1
  }

  predicate ValidDate(y: int, m: int, d: int) {
    1 <= m <= 12 && 1 <= d <= MonthLength(y, m)
  }

  // ----- The code's arithmetic -----

  /** `days_from_civil`: years that begin in March, in eras of 400 years. */
  function DaysFromCivil(y: int, m: int, d: int): int
    requires 1 <= m <= 12
  {
    FromMarch(if m <= 2 then y - 1 else y, CDiv(153 * (m + if m > 2 then -3 else 9) + 2, 5) + d - 1)
  }

  function FromMarch(y: int, doy: int): int {
    var era := CDiv(if y >= 0 then y else y - 399, 400);
    var yoe := y - era * 400;
    var doe := yoe * 365 + CDiv(yoe, 4) - CDiv(yoe, 100) + doy;
    era * 146097 + doe - 719468
  }

  /** A UTC date and time of day. */
  datatype DateTime = DateTime(year: int, month: int, day: int, hour: int, minute: int, second: int) {
    predicate Valid() {
      && ValidDate(year, month, day)
      && 0 <= hour < 24 && 0 <= minute < 60 && 0 <= second < 60
    }

    /** Seconds since 1970, counted naively. */
    function Seconds(): int
      requires 1 <= month <= 12
    {
      DayNumber(year, month, day) * 86400 + hour * 3600 + minute * 60 + second
    }
  }

  /** `civil`: the date of the day, and the time of day. */
  function Civil(secs: int): DateTime {
    var (y, m, d) := CivilDate(secs / 86400);
    var rem := secs % 86400;
    DateTime(y, m, d, rem / 3600, rem % 3600 / 60, rem % 60)
  }

  function CivilDate(days: int): (int, int, int) {
    var z := days + 719468;
    var era := z / 146097;
    EraDate(era, z - era * 146097)
  }

  function EraDate(era: int, doe: int): (int, int, int) {
    MonthDay(YearOfEra(doe) + era * 400, DayOfYear(doe))
  }

  /** The year of an era (from 0, each beginning in March) that holds its day `doe`. */
  function YearOfEra(doe: int): int {
    (doe - doe / 1460 + doe / 36524 - doe / 146096) / 365
  }

  function DayOfYear(doe: int): int {
    var yoe := YearOfEra(doe);
    doe - (365 * yoe + yoe / 4 - yoe / 100)
  }

  /** The date of day `doy` of the year that begins in March of y. */
  function MonthDay(y: int, doy: int): (int, int, int) {
    var mp := (5 * doy + 2) / 153;
    var d := doy - (153 * mp + 2) / 5 + 1;
    var m := if mp < 10 then mp + 3 else mp - 9;
    (if m <= 2 then y + 1 else y, m, d)
  }

  // ----- days_from_civil counts naively -----

  lemma EraIsFloor(y: int)
    ensures CDiv(if y >= 0 then y else y - 399, 400) == y / 400
  {
  }

  lemma Rem4(q: int, t: int)
    requires 0 <= t < 4
    ensures (4 * q + t) % 4 == t
  {
  }

  lemma Rem100(q: int, t: int)
    requires 0 <= t < 100
    ensures (100 * q + t) % 100 == t
  {
  }

  lemma Rem400(q: int, t: int)
    requires 0 <= t < 400
    ensures (400 * q + t) % 400 == t
  {
  }

  lemma LeapOfParts(q: int, r: int, h: int, t: int, f: int, u: int)
    requires 0 <= t < 100 && 0 <= u < 4 && 0 <= r < 400 && r == 100 * h + t == 4 * f + u
    ensures Leap(400 * q + r) <==> (u == 0 && t != 0) || r == 0
  {
    var y := 400 * q + r;
    assert y == 100 * (4 * q + h) + t && y == 4 * (100 * q + f) + u;
    Rem100(4 * q + h, t);
    Rem4(100 * q + f, u);
    Rem400(q, r);
  }

  lemma LeapOfEra(q: int, r: int)
    requires 0 <= r < 400
    ensures Leap(400 * q + r) == Leap(r)
  {
    LeapOfParts(q, r, r / 100, r % 100, r / 4, r % 4);
    LeapOfParts(0, r, r / 100, r % 100, r / 4, r % 4);
  }

  lemma LeapShift(y: int, era: int)
    ensures Leap(y + era * 400) == Leap(y)
  {
    var q := y / 400;
    var r := y % 400;
    assert y == 400 * q + r && y + era * 400 == 400 * (q + era) + r;
    assert Leap(400 * (q + era) + r) == Leap(r) by { LeapOfEra(q + era, r); }
    assert Leap(400 * q + r) == Leap(r) by { LeapOfEra(q, r); }
  }

  /** The code's two arithmetic steps without C's rounding. */
  lemma FromMarchFloor(y: int, era: int, yoe: int, doy: int)
    requires 0 <= yoe < 400 && y == 400 * era + yoe
    ensures FromMarch(y, doy) == era * 146097 + yoe * 365 + yoe / 4 - yoe / 100 + doy - 719468
  {
    EraIsFloor(y);
    assert y / 400 == era;
  }

  lemma YearStep(y: int)
    ensures FromMarch(y, 0) == FromMarch(y - 1, 0) + YearLength(y)
  {
    var era, yoe := (y - 1) / 400, (y - 1) % 400;
    FromMarchFloor(y - 1, era, yoe, 0);
    LeapShift(yoe + 1, era);
    assert yoe + 1 + era * 400 == y;
    if yoe == 399 {
      FromMarchFloor(y, era + 1, 0, 0);
      assert Leap(400);
    } else {
      FromMarchFloor(y, era, yoe + 1, 0);
      YearOfEraStep(yoe);
    }
  }

  lemma YearOfEraStep(yoe: int)
    requires 0 <= yoe < 399
    ensures 365 + (yoe + 1) / 4 - yoe / 4 - (yoe + 1) / 100 + yoe / 100 == YearLength(yoe + 1)
  {
  }

  lemma FromMarchDays(y: int, doy: int)
    ensures FromMarch(y, doy) == FromMarch(y, 0) + doy
  {
  }

  lemma {:induction false} YearStart(y: int)
    ensures FromMarch(y - 1, 306) == DaysBeforeYear(y)
    decreases if y >= 1970 then y - 1970 else 1970 - y
  {
    FromMarchDays(y - 1, 306);
    if y > 1970 {
      YearStart(y - 1);
      YearStep(y - 1);
      FromMarchDays(y - 2, 306);
    } else if y < 1970 {
      YearStart(y + 1);
      YearStep(y);
      FromMarchDays(y, 306);
    } else {
      FromMarchFloor(1969, 4, 369, 306);
    }
  }

  /** Counting from the first of March, the month lengths repeat whatever the year. */
  lemma {:induction false} MonthStart(y: int, m: int)
    requires 3 <= m <= 12
    ensures DaysBeforeMonth(y, m) == 31 + MonthLength(y, 2) + (153 * (m - 3) + 2) / 5
    decreases m
  {
    if m == 3 {
      assert DaysBeforeMonth(y, 2) == 31;
    } else {
      MonthStart(y, m - 1);
      MonthStep(m);
    }
  }

  lemma MonthStep(m: int)
    requires 3 < m <= 12
    ensures (153 * (m - 3) + 2) / 5 == (153 * (m - 4) + 2) / 5 + MonthLength(0, m - 1)
  {
  }

  /** The closed form is the naive count, for every year and month and any day offset. */
  lemma DaysFromCivilIsNaive(y: int, m: int, d: int)
    requires 1 <= m <= 12
    ensures DaysFromCivil(y, m, d) == DayNumber(y, m, d)
  {
    YearStart(y);
    FromMarchDays(y - 1, 306);
    if m <= 2 {
      FromMarchDays(y - 1, (153 * (m + 9) + 2) / 5 + d - 1);
      assert DaysBeforeMonth(y, m) == 31 * (m - 1);
    } else {
      FromMarchDays(y, (153 * (m - 3) + 2) / 5 + d - 1);
      YearStep(y);
      MonthStart(y, m);
    }
  }

  // ----- civil inverts it -----

  /** Every day of a 400-year era, split into century, four-year group, year and day of year. */
  lemma SplitEra(doe: int) returns (c: int, q: int, r: int, doy: int)
    requires 0 <= doe <= 146096
    ensures 0 <= c <= 3 && 0 <= q <= 24 && 0 <= r <= 3 && 0 <= doy <= 365
    ensures doe == 36524 * c + 1461 * q + 365 * r + doy
    ensures doy == 365 ==> r == 3 && (q < 24 || c == 3)
  {
    c := if doe == 146096 then 3 else doe / 36524;
    var r1 := doe - 36524 * c;
    q := r1 / 1461;
    var r2 := r1 - 1461 * q;
    r := if r2 == 1460 then 3 else r2 / 365;
    doy := r2 - 365 * r;
  }

  lemma YearOfEraIsRight(doe: int, c: int, q: int, r: int, doy: int)
    requires 0 <= doe <= 146096
    requires 0 <= c <= 3 && 0 <= q <= 24 && 0 <= r <= 3 && 0 <= doy <= 365
    requires doe == 36524 * c + 1461 * q + 365 * r + doy
    requires doy == 365 ==> r == 3 && (q < 24 || c == 3)
    ensures YearOfEra(doe) == 100 * c + 4 * q + r
  {
    var tail := 24 * c + q + 365 * r + doy;
    assert doe == 1460 * (25 * c + q) + tail;
    assert 0 <= tail < 2 * 1460;
    var e := if tail >= 1460 then 1 else 0;
    assert doe / 1460 == 25 * c + q + e;
    var last := if doe == 146096 then 1 else 0;
    assert doe / 146096 == last;
    assert doe / 36524 == c + last by {
      var inCentury := 1461 * q + 365 * r + doy;
      assert 0 <= inCentury <= 36524;
      assert doe == 36524 * c + inCentury;
      if inCentury == 36524 {
        assert c == 3;
      }
    }
    assert doe - doe / 1460 + doe / 36524 - doe / 146096 == 365 * (100 * c + 4 * q + r) + (doy - e);
    assert 0 <= doy - e < 365;
  }

  /** Days of an era before its year `yoe` (a year that begins in March). */
  lemma YearOfEraBounds(doe: int)
    requires 0 <= doe <= 146096
    ensures 0 <= YearOfEra(doe) < 400 && 0 <= DayOfYear(doe) <= 365
    ensures DayOfYear(doe) == 365 ==> Leap(YearOfEra(doe) + 1)
  {
    var c, q, r, doy := SplitEra(doe);
    YearOfEraIsRight(doe, c, q, r, doy);
    var yoe := YearOfEra(doe);
    assert yoe / 100 == c;
    assert yoe / 4 == 25 * c + q;
    assert doe - (365 * yoe + yoe / 4 - yoe / 100) == doy;
    if doy == 365 {
      Rem4(25 * c + q + 1, 0);
      if q == 24 {
        assert yoe + 1 == 400;
      } else {
        Rem100(c, 4 * (q + 1));
      }
    }
  }

  lemma MonthOfYear(y: int, doy: int)
    requires 0 <= doy <= 365 && (doy == 365 ==> Leap(y + 1))
    ensures var (year, m, d) := MonthDay(y, doy);
            ValidDate(year, m, d) && DaysFromCivil(year, m, d) == FromMarch(y, doy)
  {
    var mp := (5 * doy + 2) / 153;
    assert 0 <= mp <= 11;
    assert 153 * mp <= 5 * doy + 2 < 153 * mp + 153;
  }

  lemma TimeOfDay(rem: int)
    requires 0 <= rem < 86400
    ensures rem == rem / 3600 * 3600 + rem % 3600 / 60 * 60 + rem % 60
    ensures 0 <= rem / 3600 < 24 && 0 <= rem % 3600 / 60 < 60
  {
    var h, q := rem / 3600, rem % 3600;
    assert rem == 3600 * h + q && q == 60 * (q / 60) + q % 60;
    assert rem == 60 * (60 * h + q / 60) + q % 60;
  }

  /** The date of day `doy` of a March year, counted from 1970. */
  lemma DateFromEra(era: int, yoe: int, doy: int)
    requires 0 <= yoe < 400 && 0 <= doy <= 365 && (doy == 365 ==> Leap(yoe + 1))
    ensures var (y, m, d) := MonthDay(yoe + era * 400, doy);
            && ValidDate(y, m, d)
            && DayNumber(y, m, d) == era * 146097 + (365 * yoe + yoe / 4 - yoe / 100) + doy - 719468
  {
    LeapShift(yoe + 1, era);
    assert (yoe + 1) + era * 400 == yoe + era * 400 + 1;
    FromMarchFloor(yoe + era * 400, era, yoe, doy);
    MonthOfYear(yoe + era * 400, doy);
    var (y, m, d) := MonthDay(yoe + era * 400, doy);
    DaysFromCivilIsNaive(y, m, d);
  }

  lemma EraDateIsRight(era: int, doe: int)
    requires 0 <= doe <= 146096
    ensures var (y, m, d) := EraDate(era, doe);
            ValidDate(y, m, d) && DayNumber(y, m, d) == era * 146097 + doe - 719468
  {
    YearOfEraBounds(doe);
    var yoe, doy := YearOfEra(doe), DayOfYear(doe);
    assert 365 * yoe + yoe / 4 - yoe / 100 + doy == doe;
    DateFromEra(era, yoe, doy);
  }

  /** The date of a day number is valid and counts back to it. */
  lemma CivilDateIsRight(days: int)
    ensures var (y, m, d) := CivilDate(days);
            ValidDate(y, m, d) && DayNumber(y, m, d) == days
  {
    var z := days + 719468;
    var era := z / 146097;
    EraDateIsRight(era, z - era * 146097);
  }

  /** Every second count comes back from its date and time, which is a valid one. */
  lemma CivilIsRight(secs: int)
    ensures Civil(secs).Valid() && Civil(secs).Seconds() == secs
  {
    CivilDateIsRight(secs / 86400);
    TimeOfDay(secs % 86400);
  }

  // ----- Order and uniqueness -----

  lemma {:induction false} YearsIncrease(y1: int, y2: int)
    requires y1 < y2
    ensures DaysBeforeYear(y1) + YearLength(y1) <= DaysBeforeYear(y2)
    decreases y2 - y1
  {
    assert DaysBeforeYear(y1 + 1) == DaysBeforeYear(y1) + YearLength(y1);
    if y1 + 1 < y2 {
      YearsIncrease(y1 + 1, y2);
    }
  }

  lemma {:induction false} MonthsIncrease(y: int, m1: int, m2: int)
    requires 1 <= m1 < m2 <= 13
    ensures DaysBeforeMonth(y, m1) + MonthLength(y, m1) <= DaysBeforeMonth(y, m2)
    decreases m2 - m1
  {
    if m1 + 1 < m2 {
      MonthsIncrease(y, m1, m2 - 1);
    }
  }

  /** A date lies inside its year. */
  lemma DateInYear(y: int, m: int, d: int)
    requires ValidDate(y, m, d)
    ensures DaysBeforeYear(y) <= DayNumber(y, m, d) < DaysBeforeYear(y) + YearLength(y)
  {
    if m > 1 {
      MonthsIncrease(y, 1, m);
    }
    MonthsIncrease(y, m, 13);
    YearIsItsMonths(y);
  }

  lemma YearIsItsMonths(y: int)
    ensures DaysBeforeMonth(y, 13) == YearLength(y)
  {
    assert DaysBeforeMonth(y, 5) == DaysBeforeMonth(y, 3) + 61;
    assert DaysBeforeMonth(y, 7) == DaysBeforeMonth(y, 5) + 61;
    assert DaysBeforeMonth(y, 9) == DaysBeforeMonth(y, 7) + 62;
    assert DaysBeforeMonth(y, 11) == DaysBeforeMonth(y, 9) + 61;
    assert DaysBeforeMonth(y, 13) == DaysBeforeMonth(y, 11) + 61;
  }

  lemma DatesAreDistinct(y1: int, m1: int, d1: int, y2: int, m2: int, d2: int)
    requires ValidDate(y1, m1, d1) && ValidDate(y2, m2, d2)
    requires DayNumber(y1, m1, d1) == DayNumber(y2, m2, d2)
    ensures y1 == y2 && m1 == m2 && d1 == d2
  {
    DateInYear(y1, m1, d1);
    DateInYear(y2, m2, d2);
    if y1 < y2 {
      YearsIncrease(y1, y2);
    } else if y2 < y1 {
      YearsIncrease(y2, y1);
    } else if m1 < m2 {
      MonthsIncrease(y1, m1, m2);
    } else if m2 < m1 {
      MonthsIncrease(y1, m2, m1);
    }
  }

  lemma TimeSplits(h: int, mi: int, sec: int)
    requires 0 <= h < 24 && 0 <= mi < 60 && 0 <= sec < 60
    ensures var rem := h * 3600 + mi * 60 + sec;
            && 0 <= rem < 86400
            && rem / 3600 == h && rem % 3600 / 60 == mi && rem % 60 == sec
  {
    var rem := h * 3600 + mi * 60 + sec;
    assert rem % 3600 == mi * 60 + sec;
    assert rem == 60 * (60 * h + mi) + sec;
  }

  /** Every valid date and time comes back from its second count. */
  lemma CivilInverts(dt: DateTime)
    requires dt.Valid()
    ensures Civil(dt.Seconds()) == dt
  {
    TimeSplits(dt.hour, dt.minute, dt.second);
    var days := DayNumber(dt.year, dt.month, dt.day);
    var rem := dt.hour * 3600 + dt.minute * 60 + dt.second;
    assert dt.Seconds() == days * 86400 + rem;
    assert dt.Seconds() / 86400 == days && dt.Seconds() % 86400 == rem;
    CivilDateInverts(dt.year, dt.month, dt.day);
  }

  lemma CivilDateInverts(y: int, m: int, d: int)
    requires ValidDate(y, m, d)
    ensures CivilDate(DayNumber(y, m, d)) == (y, m, d)
  {
    var days := DayNumber(y, m, d);
    CivilDateIsRight(days);
    var (y1, m1, d1) := CivilDate(days);
    DatesAreDistinct(y1, m1, d1, y, m, d);
  }
}
