/** The age rules, which know a volunteer's birth year and month but not the day. */
module AgeRules {
  import opened Wrappers
  import opened Calendar

  const ADULT_AGE := 18
  const TURNING_18_CRC_DEADLINE_MONTHS := 3
  const EARLIEST_BIRTH_YEAR := 1900

  datatype BirthMonth = BirthMonth(year: int, month: int)

  type Birth = b: BirthMonth | 1 <= b.month <= 12 && EARLIEST_BIRTH_YEAR <= b.year witness BirthMonth(1900, 1)

  function AgeOn(birth: Option<Birth>, on: CivilDate): Option<nat> {
    match birth
    case None => None
    case Some(b) =>
      var years := on.year - b.year - if on.month < b.month then 1 else 0;
      Some(if years >= 0 then years else 0)
  }

  predicate IsAdultOn(birth: Option<Birth>, on: CivilDate) {
    var age := AgeOn(birth, on);
    age.Some? && age.value >= ADULT_AGE
  }

  /** The first of the birth month of the eighteenth year. */
  function TriggerDate(birth: Birth): CivilDate {
    Date(birth.year + ADULT_AGE, birth.month, 1)
  }

  /** The dashboard's query for minors; a null year or month never matches it. */
  predicate CountedAsMinor(birth: Option<Birth>, asOf: CivilDate) {
    birth.Some? &&
    (birth.value.year > asOf.year - 18 || (birth.value.year == asOf.year - 18 && birth.value.month > asOf.month))
  }

  /** Age from the full date of birth, as the detail page shows it. */
  function ExactAge(born: CivilDate, today: CivilDate): int {
    var isBefore := today.month < born.month || (today.month == born.month && today.day < born.day);
    today.year - born.year - if isBefore then 1 else 0
  }

  /** The three statements of the age rule are one rule. */
  lemma AgeRulesAgree(birth: Option<Birth>, on: CivilDate)
    ensures IsAdultOn(birth, on) <==> birth.Some? && NotAfter(TriggerDate(birth.value), on)
    ensures birth.Some? ==> (IsAdultOn(birth, on) <==> !CountedAsMinor(birth, on))
  {
  }

  /** Adulthood is never recognised late, and early only within the month of the real birthday. */
  lemma AdulthoodIsNeverLate(born: CivilDate, today: CivilDate)
    requires born.year >= EARLIEST_BIRTH_YEAR
    ensures var birth := Some(BirthMonth(born.year, born.month));
            && (ExactAge(born, today) >= ADULT_AGE ==> IsAdultOn(birth, today))
            && (IsAdultOn(birth, today) && ExactAge(born, today) < ADULT_AGE ==>
                  today.year == born.year + ADULT_AGE && today.month == born.month && today.day < born.day)
  {
  }

  // ---- On day numbers ---------------------------------------------------------------

  ghost predicate IsAdult(birth: Option<Birth>, day: Day) {
    forall on: CivilDate :: Ordinal(on) == day ==> IsAdultOn(birth, on)
  }

  predicate StartsAdulthood(birth: Birth, date: CivilDate) {
    date == TriggerDate(birth)
  }

  /** `months` after the trigger date, as a day number. */
  ghost predicate IsMonthsAfterTrigger(birth: Birth, months: nat, day: Day) {
    forall trigger: CivilDate :: StartsAdulthood(birth, trigger) ==> day == Ordinal(AddMonthsTo(trigger, months))
  }

  ghost function MonthsAfterTrigger(birth: Birth, months: nat): (day: Day)
    ensures IsMonthsAfterTrigger(birth, months, day)
  {
    var trigger := TriggerDate(birth);
    assert exists r: Day :: IsMonthsAfterTrigger(birth, months, r) by {
      OrdinalOrders(Date(1, 1, 1), AddMonthsTo(trigger, months));
      var r: Day := Ordinal(AddMonthsTo(trigger, months));
      assert IsMonthsAfterTrigger(birth, months, r);
    }
    var r: Day :| IsMonthsAfterTrigger(birth, months, r);
    r
  }

  ghost function TriggerDay(birth: Birth): Day {
    MonthsAfterTrigger(birth, 0)
  }

  /** What turning 18 allows for the criminal record check. */
  ghost function Turning18Deadline(birth: Birth): Day {
    MonthsAfterTrigger(birth, TURNING_18_CRC_DEADLINE_MONTHS)
  }

  /** Adulthood starts on the trigger day and never ends. */
  lemma AdultFromTriggerDay(birth: Option<Birth>, day: Day)
    ensures IsAdult(birth, day) <==> birth.Some? && TriggerDay(birth.value) <= day
  {
    var on := FromOrdinal(day);
    AgeRulesAgree(birth, on);
    forall d: CivilDate | Ordinal(d) == day ensures d == on {
      FromOrdinalInverts(d);
    }
    if birth.Some? {
      var trigger := TriggerDate(birth.value);
      assert StartsAdulthood(birth.value, trigger);
      ZeroMonths(trigger);
      OrdinalOrders(trigger, on);
      OrdinalOrders(on, trigger);
    }
  }

  method ComputeIsAdult(birth: Option<Birth>, day: Day) returns (adult: bool)
    ensures adult <==> IsAdult(birth, day)
  {
    var on := FromOrdinal(day);
    adult := IsAdultOn(birth, on);
    forall d: CivilDate | Ordinal(d) == day ensures d == on {
      FromOrdinalInverts(d);
    }
  }

  method ComputeTurning18Deadline(birth: Birth) returns (deadline: Day)
    ensures deadline == Turning18Deadline(birth)
  {
    var trigger := TriggerDate(birth);
    assert StartsAdulthood(birth, trigger);
    ghost var expected := Turning18Deadline(birth);
    deadline := Ordinal(AddMonthsTo(trigger, TURNING_18_CRC_DEADLINE_MONTHS));
  }
}
