/**
 When `in_dst` of packages/coreutils/slicc_tz.c, which looks at the rules of one year, gives the
 answer that the whole sequence of transitions gives.
 */
module DaylightSaving {
  import opened Calendar
  import opened TimeZone
  import opened TransitionCycle

  // ----- The answer without years -----

  /** The end of year e comes before the start of year b. Transitions at one instant happen in
      the order of their years, and within a year the end comes first: a year whose start and
      end coincide is all daylight saving time. */
  predicate EndsBefore(z: Zone, e: int, b: int)
    requires z.Valid()
  {
    DstEnds(z, e) < DstBegins(z, b) || (DstEnds(z, e) == DstBegins(z, b) && e <= b)
  }

  /** The last transition at or before t was one into daylight saving time. */
  ghost predicate SinceStart(z: Zone, t: int)
    requires z.Valid()
  {
    exists y :: DstBegins(z, y) <= t && NoEndSince(z, y, t)
  }

  ghost predicate NoEndSince(z: Zone, y: int, t: int)
    requires z.Valid()
  {
    forall e :: DstEnds(z, e) <= t ==> EndsBefore(z, e, y)
  }

  /** The first and the second transition of a year, whichever they are. */
  function FirstTransition(z: Zone, y: int): int
    requires z.Valid()
  {
    if StartFirst(z, y) then DstBegins(z, y) else DstEnds(z, y)
  }

  function SecondTransition(z: Zone, y: int): int
    requires z.Valid()
  {
    if StartFirst(z, y) then DstEnds(z, y) else DstBegins(z, y)
  }

  predicate StartFirst(z: Zone, y: int)
    requires z.Valid()
  {
    DstBegins(z, y) < DstEnds(z, y)
  }

  /** Year y has its start and end in the given order, neither after those of the next year. */
  predicate InOrder(z: Zone, startFirst: bool, y: int)
    requires z.Valid()
  {
    StartFirst(z, y) == startFirst && SecondTransition(z, y) <= FirstTransition(z, y + 1)
  }

  ghost predicate EverAlternates(z: Zone, startFirst: bool)
    requires z.Valid()
  {
    z.hasDst && forall y :: InOrder(z, startFirst, y)
  }

  /** The time between the transitions of year y, if there is any, lies in the year that
      standard time shows. */
  predicate InItsYear(z: Zone, y: int)
    requires z.Valid()
  {
    FirstTransition(z, y) == SecondTransition(z, y)
    || (YearBegin(y) <= FirstTransition(z, y) + z.stdGmt && SecondTransition(z, y) + z.stdGmt <= YearBegin(y + 1))
  }

  ghost predicate EverInYear(z: Zone)
    requires z.Valid()
  {
    forall y :: InItsYear(z, y)
  }

  lemma {:induction false} TransitionsGrow(z: Zone, startFirst: bool, y1: int, y2: int)
    requires z.Valid() && EverAlternates(z, startFirst) && y1 < y2
    ensures SecondTransition(z, y1) <= FirstTransition(z, y2)
    decreases y2 - y1
  {
    assert InOrder(z, startFirst, y2 - 1) && y2 - 1 + 1 == y2;
    if y1 + 1 == y2 {
    } else {
      TransitionsGrow(z, startFirst, y1, y2 - 1);
    }
  }

  /** t lies between the two transitions of year y. */
  predicate Between(z: Zone, y: int, t: int)
    requires z.Valid()
  {
    FirstTransition(z, y) <= t < SecondTransition(z, y)
  }

  /** The transitions of two years, in order. */
  lemma OrderOfYears(z: Zone, startFirst: bool, y1: int, y2: int)
    requires z.Valid() && EverAlternates(z, startFirst)
    ensures StartFirst(z, y1) == StartFirst(z, y2) == startFirst
    ensures y1 < y2 ==> SecondTransition(z, y1) <= FirstTransition(z, y2)
    ensures y1 > y2 ==> SecondTransition(z, y2) <= FirstTransition(z, y1)
  {
    assert InOrder(z, startFirst, y1) && InOrder(z, startFirst, y2);
    if y1 < y2 {
      TransitionsGrow(z, startFirst, y1, y2);
    } else if y2 < y1 {
      TransitionsGrow(z, startFirst, y2, y1);
    }
  }

  /** Between the transitions of a year the last one was that year's first. */
  lemma SinceStartBetween(z: Zone, startFirst: bool, y: int, t: int)
    requires z.Valid() && EverAlternates(z, startFirst) && Between(z, y, t)
    ensures SinceStart(z, t) <==> startFirst
  {
    OrderOfYears(z, startFirst, y, y);
    if startFirst {
      forall e | DstEnds(z, e) <= t ensures EndsBefore(z, e, y) {
        OrderOfYears(z, startFirst, y, e);
      }
      assert NoEndSince(z, y, t);
    } else {
      forall b | DstBegins(z, b) <= t ensures !EndsBefore(z, y, b) {
        OrderOfYears(z, startFirst, y, b);
      }
    }
  }

  /** Between a year's second transition and the next year's first the last one was the former. */
  lemma SinceStartOutside(z: Zone, startFirst: bool, y: int, t: int)
    requires z.Valid() && EverAlternates(z, startFirst)
    requires SecondTransition(z, y) <= t < FirstTransition(z, y + 1)
    ensures SinceStart(z, t) <==> !startFirst
  {
    OrderOfYears(z, startFirst, y, y + 1);
    if !startFirst {
      forall e | DstEnds(z, e) <= t ensures EndsBefore(z, e, y) {
        OrderOfYears(z, startFirst, y, e);
        OrderOfYears(z, startFirst, y + 1, e);
      }
      assert NoEndSince(z, y, t);
    } else {
      forall b | DstBegins(z, b) <= t ensures !EndsBefore(z, y, b) {
        OrderOfYears(z, startFirst, y, b);
        OrderOfYears(z, startFirst, y + 1, b);
      }
    }
  }

  // ----- Where an instant lies among the transitions -----

  /** How far from the beginning of its year a rule's transition can be. */
  function Earliest(r: Rule): int {
    match r
    case MonthRule(_, _, _, time) => time
    case JulianRule(n, time) => (n - 1) * 86400 + time
    case DayRule(n, time) => n * 86400 + time
  }

  function Latest(r: Rule): int {
    match r
    case MonthRule(_, _, _, time) => 366 * 86400 + time
    case JulianRule(n, time) => n * 86400 + time
    case DayRule(n, time) => n * 86400 + time
  }

  lemma RuleNearYear(r: Rule, y: int)
    requires r.Valid()
    ensures YearBegin(y) + Earliest(r) <= RuleInstant(r, y) <= YearBegin(y) + Latest(r)
  {
    if r.MonthRule? {
      MonthRuleInYear(r, y);
      YearLengths(y);
    }
  }

  lemma YearLengths(y: int)
    ensures DaysBeforeYear(y + 1) <= DaysBeforeYear(y) + 366
  {
  }

  function Lower(a: int, b: int): int {
    if a < b then a else b
  }

  function Upper(a: int, b: int): int {
    if a < b then b else a
  }

  /** Year y's first transition is the last of its kind at or before t. */
  ghost predicate Began(z: Zone, y: int, t: int)
    requires z.Valid()
  {
    FirstTransition(z, y) <= t < FirstTransition(z, y + 1)
  }

  lemma Located(z: Zone, startFirst: bool, t: int)
    requires z.Valid() && EverAlternates(z, startFirst)
    ensures exists y :: Began(z, y, t)
  {
    var low := Lower(Earliest(z.start) - z.stdGmt, Earliest(z.end) - z.dstGmt);
    var high := Upper(Latest(z.start) - z.stdGmt, Latest(z.end) - z.dstGmt);
    var y1, y2 := CivilYear(t - high), CivilYear(t - low) + 1;
    RuleNearYear(z.start, y1);
    RuleNearYear(z.end, y1);
    RuleNearYear(z.start, y2);
    RuleNearYear(z.end, y2);
    LocatedBetween(z, startFirst, y1, y2, t);
  }

  lemma {:induction false} LocatedBetween(z: Zone, startFirst: bool, y1: int, y2: int, t: int)
    requires z.Valid() && EverAlternates(z, startFirst)
    requires FirstTransition(z, y1) <= t < FirstTransition(z, y2)
    ensures exists y :: Began(z, y, t)
    decreases y2 - y1
  {
    OrderOfYears(z, startFirst, y1, y2);
    if t < FirstTransition(z, y1 + 1) {
      assert Began(z, y1, t);
    } else {
      LocatedBetween(z, startFirst, y1 + 1, y2, t);
    }
  }

  /** Daylight saving time is the time between a year's start and end, or all but the time
      between a year's end and start. */
  lemma SinceStartIs(z: Zone, startFirst: bool, t: int)
    requires z.Valid() && EverAlternates(z, startFirst)
    ensures SinceStart(z, t) <==> ((exists y :: Between(z, y, t)) <==> startFirst)
  {
    Located(z, startFirst, t);
    var y :| Began(z, y, t);
    if t < SecondTransition(z, y) {
      SinceStartBetween(z, startFirst, y, t);
      assert Between(z, y, t);
    } else {
      SinceStartOutside(z, startFirst, y, t);
      forall c ensures !Between(z, c, t) {
        OrderOfYears(z, startFirst, y, c);
        OrderOfYears(z, startFirst, y + 1, c);
      }
    }
  }

  lemma InDstBetween(z: Zone, startFirst: bool, t: int)
    requires z.Valid() && EverAlternates(z, startFirst)
    ensures InDst(z, t) <==> (Between(z, CivilYear(t + z.stdGmt), t) <==> startFirst)
  {
    OrderOfYears(z, startFirst, CivilYear(t + z.stdGmt), CivilYear(t + z.stdGmt));
  }

  // ----- The years of one cycle stand for all -----

  predicate Alternates(z: Zone, startFirst: bool)
    requires z.Valid()
  {
    z.hasDst && forall y :: 0 <= y < 400 ==> InOrder(z, startFirst, y)
  }

  predicate StaysInYear(z: Zone)
    requires z.Valid()
  {
    forall y :: 0 <= y < 400 ==> InItsYear(z, y)
  }

  /** All transitions of year y fall in the year that standard time shows, none as it begins
      or ends. */
  predicate InsideYear(z: Zone, y: int)
    requires z.Valid()
  {
    YearBegin(y) < FirstTransition(z, y) + z.stdGmt && SecondTransition(z, y) + z.stdGmt < YearBegin(y + 1)
  }

  predicate InsideYears(z: Zone)
    requires z.Valid()
  {
    forall y :: 0 <= y < 400 ==> InsideYear(z, y)
  }

  /** Start and end come in the same order every year. */
  predicate OneOrder(z: Zone)
    requires z.Valid()
  {
    forall y :: 0 <= y < 400 ==> StartFirst(z, y) == StartFirst(z, 0)
  }

  /** A year and its place in the cycle are alike. */
  lemma YearRepeats(z: Zone, y: int)
    requires z.Valid()
    ensures 0 <= y % 400 < 400
    ensures StartFirst(z, y) == StartFirst(z, y % 400) && InItsYear(z, y) == InItsYear(z, y % 400)
    ensures InsideYear(z, y) == InsideYear(z, y % 400)
    ensures forall startFirst :: InOrder(z, startFirst, y) == InOrder(z, startFirst, y % 400)
  {
    hide DstBegins, DstEnds, YearBegin;
    InCycle(y);
    YearShift(z, y % 400, y / 400);
    YearShift(z, y % 400 + 1, y / 400);
    assert y % 400 + 1 + y / 400 * 400 == y + 1;
  }

  lemma CyclesAlternate(z: Zone, startFirst: bool)
    requires z.Valid()
    ensures Alternates(z, startFirst) <==> EverAlternates(z, startFirst)
  {
    hide InOrder;
    if Alternates(z, startFirst) {
      forall y ensures InOrder(z, startFirst, y) {
        YearRepeats(z, y);
        assert InOrder(z, startFirst, y % 400);
      }
    }
  }

  lemma CyclesStay(z: Zone)
    requires z.Valid()
    ensures StaysInYear(z) <==> EverInYear(z)
  {
    hide InItsYear;
    if StaysInYear(z) {
      forall y ensures InItsYear(z, y) {
        YearRepeats(z, y);
        assert InItsYear(z, y % 400);
      }
    }
  }

  lemma CyclesInside(z: Zone)
    requires z.Valid()
    ensures InsideYears(z) <==> forall y :: InsideYear(z, y)
  {
    hide InsideYear;
    if InsideYears(z) {
      forall y ensures InsideYear(z, y) {
        YearRepeats(z, y);
        assert InsideYear(z, y % 400);
      }
    }
  }

  lemma CyclesOrdered(z: Zone)
    requires z.Valid()
    ensures OneOrder(z) <==> forall y :: StartFirst(z, y) == StartFirst(z, 0)
  {
    hide StartFirst;
    if OneOrder(z) {
      forall y ensures StartFirst(z, y) == StartFirst(z, 0) {
        YearRepeats(z, y);
        assert StartFirst(z, y % 400) == StartFirst(z, 0);
      }
    }
  }

  // ----- When the two agree -----

  /** Where the time between each year's transitions stays in the year, `in_dst` is whether the
      last transition was a start. */
  lemma InDstIsSinceStart(z: Zone, startFirst: bool, t: int)
    requires z.Valid() && Alternates(z, startFirst) && StaysInYear(z)
    ensures InDst(z, t) <==> SinceStart(z, t)
  {
    CyclesAlternate(z, startFirst);
    CyclesStay(z);
    var c := CivilYear(t + z.stdGmt);
    InDstBetween(z, startFirst, t);
    SinceStartIs(z, startFirst, t);
    if y :| Between(z, y, t) {
      assert InItsYear(z, y);
      CivilYearUnique(t + z.stdGmt, y);
    }
  }

  /** Where it leaves some year, `in_dst` is wrong at some instant. */
  lemma InDstWrongOutsideYear(z: Zone, startFirst: bool, y: int) returns (t: int)
    requires z.Valid() && EverAlternates(z, startFirst) && !InItsYear(z, y)
    ensures InDst(z, t) != SinceStart(z, t) && Between(z, y, t)
  {
    var first := FirstTransition(z, y);
    t := if YearBegin(y) <= first + z.stdGmt < YearBegin(y + 1) then YearBegin(y + 1) - z.stdGmt else first;
    var c := CivilYear(t + z.stdGmt);
    assert c != y;
    OrderOfYears(z, startFirst, c, y);
    assert !Between(z, c, t);
    InDstBetween(z, startFirst, t);
    SinceStartBetween(z, startFirst, y, t);
  }

  /** Exactly when `in_dst` is right everywhere, for rules whose transitions alternate. */
  lemma InDstExact(z: Zone, startFirst: bool)
    requires z.Valid() && Alternates(z, startFirst)
    ensures (forall t :: InDst(z, t) <==> SinceStart(z, t)) <==> StaysInYear(z)
  {
    CyclesAlternate(z, startFirst);
    CyclesStay(z);
    if StaysInYear(z) {
      forall t ensures InDst(z, t) <==> SinceStart(z, t) {
        InDstIsSinceStart(z, startFirst, t);
      }
    } else {
      var y :| !InItsYear(z, y);
      var t := InDstWrongOutsideYear(z, startFirst, y);
    }
  }

  /** The transitions of other years, seen from the end of year y. */
  lemma OtherYears(z: Zone, y: int, x: int)
    requires z.Valid() && InsideYear(z, y) && InsideYear(z, x)
    ensures x < y ==> SecondTransition(z, x) < FirstTransition(z, y)
    ensures x > y ==> YearBegin(y + 1) < FirstTransition(z, x) + z.stdGmt
    ensures FirstTransition(z, x) <= SecondTransition(z, x)
  {
    if x < y {
      YearBeginsGrow(x + 1, y);
    } else if x > y {
      YearBeginsGrow(y + 1, x);
    }
  }

  /** As year y ends, its second transition is the last one. */
  lemma SinceStartAtTurn(z: Zone, y: int)
    requires z.Valid() && forall x :: InsideYear(z, x)
    ensures SinceStart(z, YearBegin(y + 1) - z.stdGmt) <==> !StartFirst(z, y)
  {
    hide InsideYear, YearBegin;
    var t := YearBegin(y + 1) - z.stdGmt;
    TransitionsPast(z, y);
    if StartFirst(z, y) {
      forall b | DstBegins(z, b) <= t ensures !EndsBefore(z, y, b) {
        OtherYears(z, y, b);
      }
    } else {
      forall e | DstEnds(z, e) <= t ensures EndsBefore(z, e, y) {
        OtherYears(z, y, e);
      }
      assert NoEndSince(z, y, t);
    }
  }

  lemma TransitionsPast(z: Zone, y: int)
    requires z.Valid() && InsideYear(z, y)
    ensures FirstTransition(z, y) <= SecondTransition(z, y) < YearBegin(y + 1) - z.stdGmt
  {
  }

  /** A year whose transitions are the other way round from the year before makes `in_dst`
      change as the year begins, when nothing happens. */
  lemma InDstWrongAtTurn(z: Zone, y: int)
    requires z.Valid() && z.hasDst && (forall x :: InsideYear(z, x)) && StartFirst(z, y) != StartFirst(z, y + 1)
    ensures var t := YearBegin(y + 1) - z.stdGmt; InDst(z, t) != SinceStart(z, t)
  {
    SinceStartAtTurn(z, y);
    assert InsideYear(z, y + 1);
    CivilYearUnique(YearBegin(y + 1), y + 1);
  }

  lemma {:induction false} SomeTurn(z: Zone, y1: int, y2: int) returns (y: int)
    requires z.Valid() && y1 < y2 && StartFirst(z, y1) != StartFirst(z, y2)
    ensures StartFirst(z, y) != StartFirst(z, y + 1)
    decreases y2 - y1
  {
    if StartFirst(z, y1) != StartFirst(z, y1 + 1) {
      y := y1;
    } else {
      y := SomeTurn(z, y1 + 1, y2);
    }
  }

  lemma AlwaysInOrder(z: Zone, order: bool)
    requires z.Valid() && z.hasDst && (forall y :: InsideYear(z, y)) && forall y :: StartFirst(z, y) == order
    ensures EverAlternates(z, order) && EverInYear(z)
  {
    forall y ensures InOrder(z, order, y) {
      assert InsideYear(z, y) && InsideYear(z, y + 1);
    }
    forall y ensures InItsYear(z, y) {
      assert InsideYear(z, y);
    }
  }

  /** Where all transitions fall inside their years, `in_dst` is right everywhere exactly if
      start and end come in the same order every year. */
  lemma InDstNeedsOrder(z: Zone)
    requires z.Valid() && z.hasDst && InsideYears(z)
    ensures (forall t :: InDst(z, t) <==> SinceStart(z, t)) <==> OneOrder(z)
  {
    hide StartFirst, InsideYear, SinceStart, InDst, InOrder;
    CyclesInside(z);
    CyclesOrdered(z);
    var order := StartFirst(z, 0);
    if y :| StartFirst(z, y) != order {
      var turn := SomeTurn(z, Lower(y, 0), Upper(y, 0));
      InDstWrongAtTurn(z, turn);
    } else {
      AlwaysInOrder(z, order);
      CyclesAlternate(z, order);
      CyclesStay(z);
      InDstExact(z, order);
    }
  }

  // ----- Any rules at all -----

  ghost predicate RightAt(z: Zone, t: int)
    requires z.Valid()
  {
    InDst(z, t) <==> SinceStart(z, t)
  }

  lemma SinceStartLater(z: Zone, t: int, q: int)
    requires z.Valid() && SinceStart(z, t)
    ensures SinceStart(z, t + q * CYCLE)
  {
    hide DstBegins, DstEnds;
    var u := t + q * CYCLE;
    var y :| DstBegins(z, y) <= t && NoEndSince(z, y, t);
    YearShift(z, y, q);
    forall e | DstEnds(z, e) <= u ensures EndsBefore(z, e, y + q * 400) {
      YearShift(z, e - q * 400, q);
      assert DstEnds(z, e - q * 400) <= t;
    }
    assert DstBegins(z, y + q * 400) <= u && NoEndSince(z, y + q * 400, u);
  }

  lemma RightShift(z: Zone, t: int, q: int)
    requires z.Valid()
    ensures RightAt(z, t + q * CYCLE) <==> RightAt(z, t)
  {
    hide InDst, SinceStart;
    InDstShift(z, t, q);
    if SinceStart(z, t) {
      SinceStartLater(z, t, q);
    }
    if SinceStart(z, t + q * CYCLE) {
      SinceStartLater(z, t + q * CYCLE, -q);
      assert t + q * CYCLE + -q * CYCLE == t;
    }
  }

  /** At t nothing happens: no transition, and no year begins. */
  ghost predicate Uneventful(z: Zone, t: int)
    requires z.Valid()
  {
    forall y :: DstBegins(z, y) != t && DstEnds(z, y) != t && YearBegin(y) - z.stdGmt != t
  }

  lemma NothingChanges(z: Zone, t: int)
    requires z.Valid() && Uneventful(z, t)
    ensures RightAt(z, t) <==> RightAt(z, t - 1)
  {
    hide DstBegins, DstEnds, YearBegin;
    var c := CivilYear(t + z.stdGmt);
    assert YearBegin(c) - z.stdGmt != t;
    CivilYearUnique(t - 1 + z.stdGmt, c);
    assert InDst(z, t) <==> InDst(z, t - 1);
    SinceStartSame(z, t);
  }

  lemma SinceStartSame(z: Zone, t: int)
    requires z.Valid() && Uneventful(z, t)
    ensures SinceStart(z, t) <==> SinceStart(z, t - 1)
  {
    hide DstBegins, DstEnds, YearBegin, EndsBefore;
    forall y ensures DstBegins(z, y) <= t - 1 <==> DstBegins(z, y) <= t {
    }
    forall y ensures NoEndSince(z, y, t) <==> NoEndSince(z, y, t - 1) {
    }
  }

  /** Right at both transitions of year y and as the year begins. */
  ghost predicate RightInYear(z: Zone, y: int)
    requires z.Valid()
  {
    RightAt(z, DstBegins(z, y)) && RightAt(z, DstEnds(z, y)) && RightAt(z, YearBegin(y) - z.stdGmt)
  }

  lemma RightInEveryYear(z: Zone, y: int)
    requires z.Valid() && forall c :: 0 <= c < 400 ==> RightInYear(z, c)
    ensures RightInYear(z, y)
  {
    hide RightAt, DstBegins, DstEnds, YearBegin;
    var c, q := y % 400, y / 400;
    InCycle(y);
    YearShift(z, c, q);
    assert RightInYear(z, c);
    RightShift(z, DstBegins(z, c), q);
    RightShift(z, DstEnds(z, c), q);
    RightShift(z, YearBegin(c) - z.stdGmt, q);
    assert YearBegin(c) - z.stdGmt + q * CYCLE == YearBegin(y) - z.stdGmt;
  }

  /** From the beginning of a year on, second by second. */
  lemma {:induction false} RightSince(z: Zone, c: int, t: int)
    requires z.Valid() && (forall y :: RightInYear(z, y)) && YearBegin(c) - z.stdGmt <= t
    ensures RightAt(z, t)
    decreases t - (YearBegin(c) - z.stdGmt)
  {
    hide RightAt, DstBegins, DstEnds, YearBegin;
    assert RightInYear(z, c);
    if t > YearBegin(c) - z.stdGmt {
      if Uneventful(z, t) {
        NothingChanges(z, t);
        RightSince(z, c, t - 1);
      } else {
        var y :| DstBegins(z, y) == t || DstEnds(z, y) == t || YearBegin(y) - z.stdGmt == t;
        assert RightInYear(z, y);
      }
    }
  }

  /** Whatever the rules are, `in_dst` is right everywhere exactly if it is right at the two
      transitions and the beginning of each of 400 years. */
  lemma InDstSampled(z: Zone)
    requires z.Valid()
    ensures (forall t :: RightAt(z, t)) <==> forall y :: 0 <= y < 400 ==> RightInYear(z, y)
  {
    hide RightAt, RightInYear, YearBegin, DstBegins, DstEnds;
    if forall y :: 0 <= y < 400 ==> RightInYear(z, y) {
      forall y ensures RightInYear(z, y) {
        RightInEveryYear(z, y);
      }
      forall t ensures RightAt(z, t) {
        RightSince(z, CivilYear(t + z.stdGmt), t);
      }
    }
    if forall t :: RightAt(z, t) {
      forall y ensures RightInYear(z, y) {
        AlwaysInYear(z, y);
      }
    }
  }

  lemma AlwaysInYear(z: Zone, y: int)
    requires z.Valid() && forall t :: RightAt(z, t)
    ensures RightInYear(z, y)
  {
  }

  // ----- Zones -----

  lemma MonthRuleInYear(r: Rule, y: int)
    requires r.Valid() && r.MonthRule?
    ensures DaysBeforeYear(y) <= RuleDay(r, y) < DaysBeforeYear(y + 1)
    ensures exists d :: 1 <= d <= MonthLength(y, r.month) && RuleDay(r, y) == DayNumber(y, r.month, d)
  {
    MonthRulePicks(y, r.month, r.wday, r.week);
    var d := MonthRuleDay(y, r.month, r.wday, r.week);
    DateInYear(y, r.month, d);
    YearsIncrease(y, y + 1);
    assert RuleDay(r, y) == DayNumber(y, r.month, d);
  }

  lemma MonthRulesInOrder(r1: Rule, r2: Rule, y: int)
    requires r1.Valid() && r2.Valid() && r1.MonthRule? && r2.MonthRule? && r1.month < r2.month
    ensures RuleDay(r1, y) < RuleDay(r2, y)
  {
    MonthRuleInYear(r1, y);
    MonthRuleInYear(r2, y);
    MonthsIncrease(y, r1.month, r2.month);
  }

  /** The usual zones: two month rules in different months, at times of day that neither
      offset moves to another day. Either offset may be the greater one. */
  lemma MonthRulesStayInYear(z: Zone)
    requires z.Valid() && z.hasDst && z.start.MonthRule? && z.end.MonthRule? && z.start.month != z.end.month
    requires 0 <= z.start.time < 86400 && 0 <= z.end.time - (z.dstGmt - z.stdGmt) < 86400
    ensures Alternates(z, z.start.month < z.end.month) && StaysInYear(z)
  {
    var startFirst := z.start.month < z.end.month;
    forall y ensures InOrder(z, startFirst, y) {
      MonthRulesYear(z, y);
    }
    forall y ensures InItsYear(z, y) {
      MonthRulesYear(z, y);
    }
  }

  lemma MonthRulesYear(z: Zone, y: int)
    requires z.Valid() && z.hasDst && z.start.MonthRule? && z.end.MonthRule? && z.start.month != z.end.month
    requires 0 <= z.start.time < 86400 && 0 <= z.end.time - (z.dstGmt - z.stdGmt) < 86400
    ensures InOrder(z, z.start.month < z.end.month, y) && InItsYear(z, y)
  {
    MonthRuleInYear(z.start, y);
    MonthRuleInYear(z.end, y);
    MonthRuleInYear(z.start, y + 1);
    MonthRuleInYear(z.end, y + 1);
    if z.start.month < z.end.month {
      MonthRulesInOrder(z.start, z.end, y);
      MonthRulesInOrder(z.start, z.end, y + 1);
    } else {
      MonthRulesInOrder(z.end, z.start, y);
      MonthRulesInOrder(z.end, z.start, y + 1);
    }
  }
}
