/** Civil dates, the month shift behind every deadline and expiry, and their day numbers. */
module Calendar {

  datatype Date = Date(year: int, month: int, day: int)

  predicate IsLeap(year: int) {
    year % 4 == 0 && (year % 100 != 0 || year % 400 == 0)
  }

  function MonthLength(year: int, month: int): (days: int)
    requires 1 <= month <= 12
    ensures 28 <= days <= 31
  {
    if month == 2 then (if IsLeap(year) then 29 else 28)
    else if month in {4, 6, 9, 11} then 30
    else 31
  }

  predicate IsCivil(d: Date) {
    1 <= d.month <= 12 && 1 <= d.day <= MonthLength(d.year, d.month)
  }

  type CivilDate = d: Date | IsCivil(d) witness Date(1, 1, 1)

  predicate Before(a: Date, b: Date) {
    a.year < b.year || (a.year == b.year && (a.month < b.month || (a.month == b.month && a.day < b.day)))
  }

  predicate NotAfter(a: Date, b: Date) {
    a == b || Before(a, b)
  }

  function Min(a: int, b: int): int {
    if a <= b then a else b
  }

  /** Months since year 0; together with the day it orders civil dates. */
  function MonthIndex(d: Date): int {
    12 * d.year + d.month - 1
  }

  /** Python floors `//` and `%`; with the positive divisor 12 so does Dafny. */
  function AddMonthsTo(start: CivilDate, months: int): (shifted: CivilDate)
    ensures MonthIndex(shifted) == MonthIndex(start) + months
    ensures shifted.day <= start.day
  {
    var monthIndex := start.month - 1 + months;
    var year := start.year + monthIndex / 12;
    var month := monthIndex % 12 + 1;
    Date(year, month, Min(start.day, MonthLength(year, month)))
  }

  // ---- Laws of the month shift ------------------------------------------------------

  lemma SameMonth(a: CivilDate, b: CivilDate)
    requires MonthIndex(a) == MonthIndex(b)
    ensures a.year == b.year && a.month == b.month
  {
  }

  lemma MonthIndexOrders(a: CivilDate, b: CivilDate)
    ensures Before(a, b) <==> MonthIndex(a) < MonthIndex(b) || (MonthIndex(a) == MonthIndex(b) && a.day < b.day)
  {
  }

  /** An earlier start never gives a later shifted date. */
  lemma AddMonthsMonotone(a: CivilDate, b: CivilDate, months: int)
    requires NotAfter(a, b)
    ensures NotAfter(AddMonthsTo(a, months), AddMonthsTo(b, months))
  {
    var a', b' := AddMonthsTo(a, months), AddMonthsTo(b, months);
    MonthIndexOrders(a, b);
    MonthIndexOrders(a', b');
    if MonthIndex(a) == MonthIndex(b) {
      SameMonth(a', b');
    }
  }

  /** More months is a strictly later date, negative shifts included. */
  lemma AddMonthsStrict(start: CivilDate, fewer: int, more: int)
    requires fewer < more
    ensures Before(AddMonthsTo(start, fewer), AddMonthsTo(start, more))
  {
    MonthIndexOrders(AddMonthsTo(start, fewer), AddMonthsTo(start, more));
  }

  /** Shifting in two steps lands in the right month, never later than in one step, and
      exactly there unless the intermediate month clamped the day further. */
  lemma AddMonthsInTwoSteps(start: CivilDate, first: int, second: int)
    ensures var twice, once := AddMonthsTo(AddMonthsTo(start, first), second), AddMonthsTo(start, first + second);
            && NotAfter(twice, once)
            && (twice == once <==> once.day <= AddMonthsTo(start, first).day)
  {
    var twice, once := AddMonthsTo(AddMonthsTo(start, first), second), AddMonthsTo(start, first + second);
    SameMonth(twice, once);
  }

  lemma ZeroMonths(start: CivilDate)
    ensures AddMonthsTo(start, 0) == start
  {
    SameMonth(AddMonthsTo(start, 0), start);
  }

  /** The shift back to a 28-day February, the month that clamps every later day. */
  function MonthsToShortFebruary(start: CivilDate): int {
    12 * (if start.year % 4 == 1 then 0 else 1 - start.year % 4) + 2 - start.month
  }

  lemma ShortFebruaryClamps(start: CivilDate)
    ensures AddMonthsTo(start, MonthsToShortFebruary(start)).day == Min(start.day, 28)
  {
    var n := MonthsToShortFebruary(start);
    var landed := AddMonthsTo(start, n);
    var year := if start.year % 4 == 1 then start.year else start.year + 1 - start.year % 4;
    SameMonth(landed, Date(year, 2, 1));
    assert year % 4 == 1;
  }

  /** Every shift can be undone exactly from the days 1 to 28 and from no later day. */
  lemma AddMonthsUndone(start: CivilDate)
    ensures (forall n :: AddMonthsTo(AddMonthsTo(start, n), -n) == start) <==> start.day <= 28
  {
    if start.day <= 28 {
      forall n ensures AddMonthsTo(AddMonthsTo(start, n), -n) == start {
        SameMonth(AddMonthsTo(AddMonthsTo(start, n), -n), start);
      }
    } else {
      var n := MonthsToShortFebruary(start);
      ShortFebruaryClamps(start);
      assert AddMonthsTo(AddMonthsTo(start, n), -n).day <= 28;
    }
  }

  /** Shifts compose for every pair of steps exactly on the days 1 to 28. */
  lemma AddMonthsComposes(start: CivilDate)
    ensures (forall a, b :: AddMonthsTo(AddMonthsTo(start, a), b) == AddMonthsTo(start, a + b)) <==> start.day <= 28
  {
    if start.day <= 28 {
      forall a, b ensures AddMonthsTo(AddMonthsTo(start, a), b) == AddMonthsTo(start, a + b) {
        AddMonthsInTwoSteps(start, a, b);
      }
    } else {
      var n := MonthsToShortFebruary(start);
      ShortFebruaryClamps(start);
      ZeroMonths(start);
      assert AddMonthsTo(AddMonthsTo(start, n), -n) != AddMonthsTo(start, n + -n);
    }
  }

  // ---- Day numbers ------------------------------------------------------------------

  function DaysBeforeYear(year: int): int {
    365 * (year - 1) + (year - 1) / 4 - (year - 1) / 100 + (year - 1) / 400
  }

  function DaysBeforeMonth(year: int, month: int): (days: int)
    requires 1 <= month <= 13
    ensures 0 <= days <= 31 * (month - 1)
    decreases month
  {
    if month == 1 then 0 else DaysBeforeMonth(year, month - 1) + MonthLength(year, month - 1)
  }

  /** The proleptic day number of a date: 1 January of year 1 is day 1. */
  function Ordinal(d: CivilDate): int {
    DaysBeforeYear(d.year) + DaysBeforeMonth(d.year, d.month) + d.day
  }

  function NextDay(d: CivilDate): CivilDate {
    if d.day < MonthLength(d.year, d.month) then Date(d.year, d.month, d.day + 1)
    else if d.month < 12 then Date(d.year, d.month + 1, 1)
    else Date(d.year + 1, 1, 1)
  }

  lemma DaysInYear(year: int)
    ensures DaysBeforeMonth(year, 13) == if IsLeap(year) then 366 else 365
  {
    assert DaysBeforeMonth(year, 4) == 31 + MonthLength(year, 2) + 31;
    assert DaysBeforeMonth(year, 7) == DaysBeforeMonth(year, 4) + 91;
    assert DaysBeforeMonth(year, 10) == DaysBeforeMonth(year, 7) + 92;
    assert DaysBeforeMonth(year, 13) == DaysBeforeMonth(year, 10) + 92;
  }

  lemma QuotientStep(n: int, k: int)
    requires k in {4, 100, 400}
    ensures n / k == (n - 1) / k + if n % k == 0 then 1 else 0
  {
  }

  lemma LeapByRemainders(year: int)
    ensures year % 400 == 0 ==> year % 100 == 0
    ensures year % 100 == 0 ==> year % 4 == 0
  {
  }

  lemma YearLength(year: int)
    ensures DaysBeforeYear(year + 1) == DaysBeforeYear(year) + DaysBeforeMonth(year, 13)
    ensures DaysBeforeMonth(year, 13) >= 365
  {
    DaysInYear(year);
    QuotientStep(year, 4);
    QuotientStep(year, 100);
    QuotientStep(year, 400);
    LeapByRemainders(year);
  }

  lemma NextDayOrdinal(d: CivilDate)
    ensures Ordinal(NextDay(d)) == Ordinal(d) + 1
  {
    if d.day == MonthLength(d.year, d.month) && d.month == 12 {
      YearLength(d.year);
    }
  }

  lemma {:induction false} YearStartsEarlier(year: int, later: int)
    requires year < later
    ensures DaysBeforeYear(year) + DaysBeforeMonth(year, 13) <= DaysBeforeYear(later)
    decreases later - year
  {
    YearLength(year);
    if year + 1 < later {
      YearStartsEarlier(year + 1, later);
      YearLength(year + 1);
    }
  }

  lemma {:induction false} MonthStartsEarlier(year: int, month: int, later: int)
    requires 1 <= month < later <= 13
    ensures DaysBeforeMonth(year, month) + MonthLength(year, month) <= DaysBeforeMonth(year, later)
    decreases later
  {
    if month + 1 < later {
      MonthStartsEarlier(year, month, later - 1);
    }
  }

  /** Day numbers order dates exactly as the calendar does. */
  lemma OrdinalOrders(a: CivilDate, b: CivilDate)
    ensures Before(a, b) <==> Ordinal(a) < Ordinal(b)
  {
    if Before(a, b) {
      OrdinalIncreases(a, b);
    } else if a != b {
      OrdinalIncreases(b, a);
    }
  }

  lemma OrdinalIncreases(a: CivilDate, b: CivilDate)
    requires Before(a, b)
    ensures Ordinal(a) < Ordinal(b)
  {
    if a.year < b.year {
      MonthStartsEarlier(a.year, a.month, 13);
      YearStartsEarlier(a.year, b.year);
    } else if a.month < b.month {
      MonthStartsEarlier(a.year, a.month, b.month);
    }
  }

  /** A date as the engine stores it. */
  type Day = n: int | 1 <= n witness 1

  function FromOrdinal(n: Day): (d: CivilDate)
    ensures Ordinal(d) == n
  {
    if n == 1 then Date(1, 1, 1)
    else
      var previous := FromOrdinal(n - 1);
      NextDayOrdinal(previous);
      NextDay(previous)
  }

  lemma FromOrdinalInverts(d: CivilDate)
    requires Ordinal(d) >= 1
    ensures FromOrdinal(Ordinal(d)) == d
  {
    OrdinalOrders(FromOrdinal(Ordinal(d)), d);
    OrdinalOrders(d, FromOrdinal(Ordinal(d)));
  }

  /** Where the months of a year begin. */
  lemma MonthStarts(year: int)
    ensures var leap := if year % 4 == 0 && (year % 100 != 0 || year % 400 == 0) then 1 else 0;
            && DaysBeforeMonth(year, 1) == 0 && DaysBeforeMonth(year, 2) == 31
            && DaysBeforeMonth(year, 3) == 59 + leap && DaysBeforeMonth(year, 4) == 90 + leap
            && DaysBeforeMonth(year, 5) == 120 + leap && DaysBeforeMonth(year, 6) == 151 + leap
            && DaysBeforeMonth(year, 7) == 181 + leap && DaysBeforeMonth(year, 8) == 212 + leap
            && DaysBeforeMonth(year, 9) == 243 + leap && DaysBeforeMonth(year, 10) == 273 + leap
            && DaysBeforeMonth(year, 11) == 304 + leap && DaysBeforeMonth(year, 12) == 334 + leap
  {
    assert DaysBeforeMonth(year, 3) == DaysBeforeMonth(year, 2) + MonthLength(year, 2);
    assert DaysBeforeMonth(year, 5) == DaysBeforeMonth(year, 3) + 61;
    assert DaysBeforeMonth(year, 7) == DaysBeforeMonth(year, 5) + 61;
    assert DaysBeforeMonth(year, 9) == DaysBeforeMonth(year, 7) + 62;
    assert DaysBeforeMonth(year, 11) == DaysBeforeMonth(year, 9) + 61;
  }

  /** Day numbers are those of the program's own dates: the first day is 1, and 1 January 2023 is 738521. */
  lemma DayNumbersAreGregorian()
    ensures DaysBeforeYear(1) == 0 && DaysBeforeYear(2023) == 738520
  {
  }

  /** The shift keeps the day of the month, or stops at the end of a month that has no such day. */
  lemma AddMonthsLands(start: CivilDate, months: int)
    ensures var shifted := AddMonthsTo(start, months);
            shifted.day == start.day || (shifted.day < start.day && NextDay(shifted).day == 1)
  {
  }

  /** `shifted` numbers the date `months` after the date numbered `day`. */
  ghost predicate IsShift(day: Day, months: nat, shifted: Day) {
    forall start: CivilDate :: Ordinal(start) == day ==> shifted == Ordinal(AddMonthsTo(start, months))
  }

  lemma ShiftExists(day: Day, months: nat) returns (shifted: Day)
    ensures IsShift(day, months, shifted)
    ensures shifted >= day
    ensures months > 0 ==> shifted > day
  {
    var start := FromOrdinal(day);
    var landed := AddMonthsTo(start, months);
    if months == 0 {
      ZeroMonths(start);
    } else {
      ZeroMonths(start);
      AddMonthsStrict(start, 0, months);
      OrdinalOrders(start, landed);
    }
    shifted := Ordinal(landed);
    forall d: CivilDate | Ordinal(d) == day ensures d == start {
      FromOrdinalInverts(d);
    }
  }

  /** `add_months_to` on day numbers. */
  ghost function ShiftMonths(day: Day, months: nat): (shifted: Day)
    ensures IsShift(day, months, shifted)
    ensures shifted >= day
    ensures months > 0 ==> shifted > day
  {
    assert exists r: Day :: IsShift(day, months, r) && r >= day && (months > 0 ==> r > day) by {
      var r := ShiftExists(day, months);
    }
    var r: Day :| IsShift(day, months, r) && r >= day && (months > 0 ==> r > day);
    r
  }

  method AddMonths(day: Day, months: nat) returns (shifted: Day)
    ensures shifted == ShiftMonths(day, months)
  {
    var start := FromOrdinal(day);
    ghost var expected := ShiftMonths(day, months);
    assert IsShift(day, months, expected);
    shifted := Ordinal(AddMonthsTo(start, months));
  }

  /** The laws carry over: a later start or more months never gives an earlier day. */
  lemma ShiftMonthsMonotone(day: Day, later: Day, months: nat, more: nat)
    requires day <= later && months <= more
    ensures ShiftMonths(day, months) <= ShiftMonths(later, more)
    ensures months < more ==> ShiftMonths(day, months) < ShiftMonths(later, more)
  {
    var a, b := FromOrdinal(day), FromOrdinal(later);
    assert IsShift(day, months, ShiftMonths(day, months));
    assert IsShift(later, more, ShiftMonths(later, more));
    OrdinalOrders(b, a);
    assert NotAfter(a, b) by {
      if a != b {
        OrdinalOrders(a, b);
        assert Before(a, b) || Before(b, a);
      }
    }
    AddMonthsMonotone(a, b, months);
    OrdinalOrders(AddMonthsTo(a, months), AddMonthsTo(b, months));
    if months < more {
      AddMonthsStrict(b, months, more);
      OrdinalOrders(AddMonthsTo(b, months), AddMonthsTo(b, more));
    }
  }
}
