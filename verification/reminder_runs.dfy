/** Exactly-once reminders over nightly sweeps of the whole church. */
module ReminderRuns {
  import opened Wrappers
  import opened Calendar
  import opened Definitions
  import opened RequirementRows
  import opened Reconciliation
  import opened VolunteerFiles
  import opened NightlySweep
  import opened CompletionHistory
  import opened ReviewLedger
  import opened ChurchDesk
  import opened Reminders

  // ---- Who is reminded of what ----------------------------------------------------------

  /** The earlier of the dates that the row has. */
  predicate IsEarlierDate(row: Row, date: Option<Day>) {
    && (date.None? <==> row.expiresOn.None? && row.dueOn.None?)
    && (date.Some? ==>
          && (date == row.expiresOn || date == row.dueOn)
          && (row.expiresOn.Some? ==> date.value <= row.expiresOn.value)
          && (row.dueOn.Some? ==> date.value <= row.dueOn.value))
  }

  predicate FallsOn(date: Option<Day>, day: int) {
    date.Some? && date.value == day
  }

  /** A lead time before a completion expires or an open requirement is due. */
  predicate IsLeadNotice(row: Row, leads: seq<nat>, day: Day, e: Reminders.Entry) {
    && e.leadDays in leads
    && (e.kind == if row.dueReason == Turned18 then TurningEighteen else LeadTime)
    && (if row.status == Complete then FallsOn(row.expiresOn, day + e.leadDays)
        else row.status in {NotStarted, InProgress} && FallsOn(row.dueOn, day + e.leadDays))
  }

  /** The day after either date, unless a completion still holds. */
  predicate IsLateNotice(row: Row, day: Day, e: Reminders.Entry) {
    && e.kind == OverdueNotice && e.leadDays == 0
    && (FallsOn(row.expiresOn, day - 1) || FallsOn(row.dueOn, day - 1))
    && !(row.status == Complete && row.expiresOn.Some? && day <= row.expiresOn.value)
  }

  /** The search finds an entry exactly for a volunteer who serves, a definition in use and a row that is neither held
      nor waived, on the day that one of its two notices falls on. */
  lemma RemindersAreExact(cat: Catalogue, volunteers: map<VolunteerId, Volunteer>, listed: seq<Listed>,
                          leads: seq<nat>, day: Day, e: Reminders.Entry)
    requires FilesDefined(cat, volunteers) && Lists(cat, volunteers, listed)
    ensures e in DueReminders(listed, leads, day) <==>
              && e.instance.volunteer in volunteers && e.instance.definition in volunteers[e.instance.volunteer].rows
              && volunteers[e.instance.volunteer].isActive && cat.defs[e.instance.definition].isActive
              && var row := volunteers[e.instance.volunteer].rows[e.instance.definition];
                 && row.status !in {NotApplicable, Waived} && IsEarlierDate(row, e.dueDate)
                 && (IsLeadNotice(row, leads, day, e) || IsLateNotice(row, day, e))
  {
    if e.instance in InstanceIds(volunteers) {
      var x := ListedAs(cat, volunteers, e.instance);
      assert x in listed;
      var k :| 0 <= k < |listed| && listed[k] == x;
      EntriesOfRow(listed, leads, day, k, e);
      EarlierDateIsEffective(x.row, e.dueDate);
      OnlyOneNotice(x, leads, day, e);
    } else {
      EntriesOfOthers(listed, leads, day, e);
    }
  }

  lemma EarlierDateIsEffective(row: Row, date: Option<Day>)
    ensures IsEarlierDate(row, date) <==> date == EffectiveDueDate(row)
  {
  }

  lemma OnlyOneNotice(x: Listed, leads: seq<nat>, day: Day, e: Reminders.Entry)
    requires e.instance == x.id
    ensures ApproachingEntry(x, leads, day) == Some(e) <==>
              && x.isActive && x.row.status !in {NotApplicable, Waived} && e.dueDate == EffectiveDueDate(x.row)
              && IsLeadNotice(x.row, leads, day, e)
    ensures OverdueEntry(x, day) == Some(e) <==>
              && x.isActive && x.row.status !in {NotApplicable, Waived} && e.dueDate == EffectiveDueDate(x.row)
              && IsLateNotice(x.row, day, e)
  {
  }

  // ---- Nights ---------------------------------------------------------------------------

  /** One night: the files as the sweep finds them, the files as it leaves them, and their instances in some order. */
  datatype Night = Night(
    cat: Catalogue,
    day: Day,
    files: map<VolunteerId, Volunteer>,
    swept: map<VolunteerId, Volunteer>,
    listed: seq<Listed>)

  /** What `Desk.SweepTenant` establishes. */
  ghost predicate IsSweep(night: Night) {
    && ValidCatalogue(night.cat)
    && night.swept == Swept(night.cat, night.files, night.day)
    && FilesDefined(night.cat, night.swept)
    && Lists(night.cat, night.swept, night.listed)
  }

  ghost predicate AllSweeps(nights: seq<Night>)
    decreases |nights|
  {
    nights != [] ==> AllSweeps(nights[..|nights| - 1]) && IsSweep(nights[|nights| - 1])
  }

  lemma {:induction false} SweepAt(nights: seq<Night>, n: nat)
    requires AllSweeps(nights) && n < |nights|
    ensures IsSweep(nights[n])
    decreases |nights|
  {
    if n < |nights| - 1 {
      SweepAt(nights[..|nights| - 1], n);
    }
  }

  function Days(nights: seq<Night>): seq<Day> {
    seq(|nights|, i requires 0 <= i < |nights| => nights[i].day)
  }

  function Passes(nights: seq<Night>, leads: seq<nat>): seq<seq<Reminders.Entry>> {
    seq(|nights|, i requires 0 <= i < |nights| => DueReminders(nights[i].listed, leads, nights[i].day))
  }

  function RowIn(files: map<VolunteerId, Volunteer>, id: InstanceId): Option<Row> {
    if id.volunteer in files then Get(files[id.volunteer].rows, id.definition) else None
  }

  /** The volunteer and the definition are active on the night. */
  predicate IsChased(night: Night, id: InstanceId) {
    id.volunteer in night.files && night.files[id.volunteer].isActive && id.definition in night.cat.order
  }

  /** Every night finds the row as the night before left it. Anything else in the church may change in between:
      other rows, roles, birth dates, definitions. */
  ghost predicate NobodyTouches(nights: seq<Night>, id: InstanceId, row: Row) {
    && AllSweeps(nights) && (forall n :: 0 <= n < |nights| ==> IsChased(nights[n], id))
    && (nights != [] ==> RowIn(nights[0].files, id) == Some(row))
    && (forall n :: 0 < n < |nights| ==> RowIn(nights[n].files, id) == RowIn(nights[n - 1].swept, id))
  }

  /** The night's sync has no business with the row. */
  ghost predicate IsSpared(night: Night, id: InstanceId) {
    ValidCatalogue(night.cat) && RowIn(night.files, id).Some? &&
    var file := night.files[id.volunteer];
    SyncSpares(ContextOf(night.cat, file, night.day), file.rows, id.definition)
  }

  /** The row still reads complete when night `m` begins. */
  predicate StillHolds(nights: seq<Night>, row: Row, m: nat)
    requires m < |nights|
  {
    row.status.Complete? && (m == 0 || !Past(row.expiresOn, nights[m - 1].day))
  }

  /** No sync before night `n` has business with the row, once it does not read complete. */
  ghost predicate StaysOwed(nights: seq<Night>, id: InstanceId, row: Row, n: nat)
    requires NobodyTouches(nights, id, row) && n <= |nights|
  {
    forall m :: 0 <= m < n ==> StillHolds(nights, row, m) || IsSpared(nights[m], id)
  }

  // ---- Each night's row ---------------------------------------------------------------

  lemma RecomputedLater(row: Row, day: Day, later: Day)
    requires IsDue(row) && Coherent(row, day) && day <= later
    ensures Recomputed(Recomputed(row, day), later) == Recomputed(row, later)
    ensures row.status.Complete? && !Past(row.expiresOn, day) ==> Recomputed(row, day) == row
    ensures !Recomputed(row, day).status.NotApplicable?
  {
  }

  lemma FirstNight(night: Night, id: InstanceId, row: Row)
    requires IsSweep(night) && IsChased(night, id) && IsDue(row) && RowIn(night.files, id) == Some(row)
    requires row.status.Complete? || IsSpared(night, id)
    ensures RowIn(night.swept, id) == Some(Recomputed(row, night.day))
  {
    if row.status.Complete? {
      NightOnCompleted(night.cat, night.files[id.volunteer], id.definition, night.day);
    } else {
      NightOnSpared(night.cat, night.files[id.volunteer], id.definition, night.day);
    }
  }

  lemma NextNight(night: Night, id: InstanceId, row: Row, last: Day)
    requires IsSweep(night) && IsChased(night, id) && IsDue(row) && Coherent(row, last) && last <= night.day
    requires RowIn(night.files, id) == Some(Recomputed(row, last))
    requires (row.status.Complete? && !Past(row.expiresOn, last)) || IsSpared(night, id)
    ensures RowIn(night.swept, id) == Some(Recomputed(row, night.day))
  {
    var file := night.files[id.volunteer];
    RecomputedLater(row, last, night.day);
    if row.status.Complete? && !Past(row.expiresOn, last) {
      NightOnCompleted(night.cat, file, id.definition, night.day);
    } else {
      NightOnSpared(night.cat, file, id.definition, night.day);
    }
  }

  /** The nights come in order, nobody else writes the row, and it is dated and coherent when they begin. */
  ghost predicate IsRun(nights: seq<Night>, id: InstanceId, row: Row) {
    && NonDecreasing(Days(nights)) && NobodyTouches(nights, id, row) && IsDue(row)
    && (nights != [] ==> Coherent(row, nights[0].day))
  }

  lemma DaysOfRun(days: seq<Day>, row: Row, n: nat)
    requires NonDecreasing(days) && 0 < n < |days| && Coherent(row, days[0])
    ensures days[n - 1] <= days[n] && Coherent(row, days[n - 1])
  {
    assert days[0] <= days[n - 1];
    CoherentLater(row, days[0], days[n - 1]);
  }

  lemma SparedOrHolds(nights: seq<Night>, id: InstanceId, row: Row, n: nat)
    requires NobodyTouches(nights, id, row) && 0 < n < |nights| && StaysOwed(nights, id, row, n + 1)
    ensures (row.status.Complete? && !Past(row.expiresOn, nights[n - 1].day)) || IsSpared(nights[n], id)
  {
    assert StillHolds(nights, row, n) || IsSpared(nights[n], id);
  }

  lemma FirstOfRun(nights: seq<Night>, id: InstanceId, row: Row)
    requires IsRun(nights, id, row) && nights != [] && StaysOwed(nights, id, row, 1)
    ensures RowIn(nights[0].swept, id) == Some(Recomputed(row, nights[0].day))
  {
    assert StillHolds(nights, row, 0) || IsSpared(nights[0], id);
    SweepAt(nights, 0);
    FirstNight(nights[0], id, row);
  }

  lemma NextOfRun(nights: seq<Night>, id: InstanceId, row: Row, n: nat)
    requires IsRun(nights, id, row) && 0 < n < |nights| && StaysOwed(nights, id, row, n + 1)
    requires RowIn(nights[n - 1].swept, id) == Some(Recomputed(row, nights[n - 1].day))
    ensures RowIn(nights[n].swept, id) == Some(Recomputed(row, nights[n].day))
  {
    DaysOfRun(Days(nights), row, n);
    SparedOrHolds(nights, id, row, n);
    SweepAt(nights, n);
    NextNight(nights[n], id, row, nights[n - 1].day);
  }

  lemma StaysOwedBefore(nights: seq<Night>, id: InstanceId, row: Row, n: nat, m: nat)
    requires NobodyTouches(nights, id, row) && n <= m <= |nights| && StaysOwed(nights, id, row, m)
    ensures StaysOwed(nights, id, row, n)
  {
  }

  /** The sweeps leave the row as the recompute alone would have left it. */
  lemma {:induction false} RowOnNight(nights: seq<Night>, id: InstanceId, row: Row, n: nat)
    requires IsRun(nights, id, row) && n < |nights| && StaysOwed(nights, id, row, n + 1)
    ensures RowIn(nights[n].swept, id) == Some(Recomputed(row, nights[n].day))
    decreases n
  {
    if n == 0 {
      FirstOfRun(nights, id, row);
    } else {
      StaysOwedBefore(nights, id, row, n, n + 1);
      RowOnNight(nights, id, row, n - 1);
      NextOfRun(nights, id, row, n);
    }
  }

  lemma NightFinds(nights: seq<Night>, leads: seq<nat>, id: InstanceId, row: Row, n: nat, e: Reminders.Entry)
    requires IsRun(nights, id, row) && n < |nights| && StaysOwed(nights, id, row, n + 1)
    requires 0 !in leads && e.instance == id
    ensures e in Passes(nights, leads)[n] <==> IsOwedOn(id, row, leads, nights[n].day, e)
  {
    var night := nights[n];
    RowOnNight(nights, id, row, n);
    SweepAt(nights, n);
    assert id in InstanceIds(night.swept);
    assert ListedAs(night.cat, night.swept, id) == Listed(id, Recomputed(row, night.day), true);
    SearchFinds(night.listed, leads, night.day, id, row, e);
  }

  // ---- Exactly once -------------------------------------------------------------------

  /** Over any sweeps on non-decreasing days, repeated ones included, a dated row that nobody touches and that stays
      owed is claimed once for each lead time whose day was swept, once as overdue if a day after it was due was, and
      not otherwise. */
  lemma ExactlyOnce(log: seq<Reminders.Entry>, nights: seq<Night>, leads: seq<nat>, id: InstanceId, row: Row,
                    e: Reminders.Entry)
    requires IsRun(nights, id, row) && StaysOwed(nights, id, row, |nights|)
    requires 0 !in leads && e.instance == id && e.dueDate.Some? && e !in log
    ensures Count(ClaimedOver(log, Passes(nights, leads)), e)
         == if exists n :: 0 <= n < |nights| && IsOwedOn(id, row, leads, nights[n].day, e) then 1 else 0
  {
    var passes := Passes(nights, leads);
    RunClaimsOnce(log, passes, e);
    forall n | 0 <= n < |nights|
      ensures e in passes[n] <==> IsOwedOn(id, row, leads, nights[n].day, e)
    {
      NightFinds(nights, leads, id, row, n, e);
    }
  }

  /** The first night on a day. */
  lemma FirstOn(nights: seq<Night>, day: Day) returns (first: nat)
    requires day in Days(nights) && NonDecreasing(Days(nights))
    ensures first < |nights| && nights[first].day == day
    ensures forall m :: 0 <= m < first ==> nights[m].day < day
  {
    first :| 0 <= first < |nights| && Days(nights)[first] == day;
    while first > 0 && nights[first - 1].day == day
      invariant first < |nights| && nights[first].day == day
    {
      first := first - 1;
    }
    forall m | 0 <= m < first ensures nights[m].day < day {
      assert Days(nights)[m] <= Days(nights)[first - 1] <= Days(nights)[first];
    }
  }

  lemma ClaimedOnItsDay(log: seq<Reminders.Entry>, nights: seq<Night>, leads: seq<nat>, id: InstanceId, row: Row,
                        day: Day, e: Reminders.Entry)
    requires IsRun(nights, id, row)
    requires row.status.Complete? || StaysOwed(nights, id, row, |nights|)
    requires 0 !in leads && e.instance == id && e.dueDate.Some? && e !in log
    requires day in Days(nights) && day <= MatchedDate(row).value + 1 && IsOwedOn(id, row, leads, day, e)
    ensures Count(ClaimedOver(log, Passes(nights, leads)), e) == 1
  {
    var first := FirstOn(nights, day);
    assert row.status.Complete? ==> forall m :: 0 <= m <= first ==> StillHolds(nights, row, m);
    NightFinds(nights, leads, id, row, first, e);
    RunClaimsOnce(log, Passes(nights, leads), e);
  }

  lemma LeadClaimed(log: seq<Reminders.Entry>, nights: seq<Night>, leads: seq<nat>, id: InstanceId, row: Row, lead: nat)
    requires IsRun(nights, id, row)
    requires row.status.Complete? || StaysOwed(nights, id, row, |nights|)
    requires 0 !in leads && lead in leads && LeadReminder(id, row, lead) !in log
    requires MatchedDate(row).value - lead in Days(nights)
    ensures Count(ClaimedOver(log, Passes(nights, leads)), LeadReminder(id, row, lead)) == 1
  {
    ClaimedOnItsDay(log, nights, leads, id, row, MatchedDate(row).value - lead, LeadReminder(id, row, lead));
  }

  lemma OverdueClaimed(log: seq<Reminders.Entry>, nights: seq<Night>, leads: seq<nat>, id: InstanceId, row: Row)
    requires IsRun(nights, id, row)
    requires row.status.Complete? || StaysOwed(nights, id, row, |nights|)
    requires 0 !in leads && OverdueReminder(id, row) !in log
    requires MatchedDate(row).value + 1 in Days(nights)
    ensures Count(ClaimedOver(log, Passes(nights, leads)), OverdueReminder(id, row)) == 1
  {
    ClaimedOnItsDay(log, nights, leads, id, row, MatchedDate(row).value + 1, OverdueReminder(id, row));
  }

  /** With both days swept: one claim for the lead time and one overdue claim. For a completed row this holds whatever
      becomes of the volunteer's roles and of the requirement's gate; an open one, such as the check that turning 18
      makes due, has to stay owed. */
  lemma EveryLeadExactlyOnce(log: seq<Reminders.Entry>, nights: seq<Night>, leads: seq<nat>, id: InstanceId, row: Row,
                             lead: nat)
    requires IsRun(nights, id, row)
    requires row.status.Complete? || StaysOwed(nights, id, row, |nights|)
    requires 0 !in leads && lead in leads
    requires LeadReminder(id, row, lead) !in log && OverdueReminder(id, row) !in log
    requires MatchedDate(row).value - lead in Days(nights) && MatchedDate(row).value + 1 in Days(nights)
    ensures Count(ClaimedOver(log, Passes(nights, leads)), LeadReminder(id, row, lead)) == 1
    ensures Count(ClaimedOver(log, Passes(nights, leads)), OverdueReminder(id, row)) == 1
  {
    LeadClaimed(log, nights, leads, id, row, lead);
    OverdueClaimed(log, nights, leads, id, row);
  }

  // ---- One sweep a day ----------------------------------------------------------------

  predicate IsDaily(days: seq<Day>) {
    forall n :: 0 < n < |days| ==> days[n] == days[n - 1] + 1
  }

  lemma {:induction false} DailyDays(days: seq<Day>, n: nat)
    requires IsDaily(days) && n < |days|
    ensures days[n] == days[0] + n
  {
    if n > 0 {
      DailyDays(days, n - 1);
    }
  }

  lemma DailyIsSwept(days: seq<Day>, day: Day)
    requires IsDaily(days) && days != [] && days[0] <= day <= days[|days| - 1]
    ensures day in days
  {
    DailyDays(days, |days| - 1);
    DailyDays(days, day - days[0]);
  }

  lemma DailyIsOrdered(days: seq<Day>)
    requires IsDaily(days)
    ensures NonDecreasing(days)
  {
    forall i, j | 0 <= i < j < |days| ensures days[i] <= days[j] {
      DailyDays(days, i);
      DailyDays(days, j);
    }
  }

  lemma DailyIsBoth(nights: seq<Night>, ahead: Day, after: Day)
    requires IsDaily(Days(nights)) && nights != [] && nights[0].day <= ahead <= after <= nights[|nights| - 1].day
    ensures NonDecreasing(Days(nights)) && ahead in Days(nights) && after in Days(nights)
  {
    var days := Days(nights);
    DailyIsOrdered(days);
    DailyIsSwept(days, ahead);
    DailyIsSwept(days, after);
  }

  /** Swept daily, from the day of the lead time at the latest until after the date, the row is claimed once for the
      lead time and once as overdue. */
  lemma DailySweepsRemindOnce(log: seq<Reminders.Entry>, nights: seq<Night>, leads: seq<nat>, id: InstanceId, row: Row,
                              lead: nat)
    requires IsDaily(Days(nights)) && IsRun(nights, id, row)
    requires row.status.Complete? || StaysOwed(nights, id, row, |nights|)
    requires nights != [] && nights[0].day + lead <= MatchedDate(row).value < nights[|nights| - 1].day
    requires 0 !in leads && lead in leads
    requires LeadReminder(id, row, lead) !in log && OverdueReminder(id, row) !in log
    ensures Count(ClaimedOver(log, Passes(nights, leads)), LeadReminder(id, row, lead)) == 1
    ensures Count(ClaimedOver(log, Passes(nights, leads)), OverdueReminder(id, row)) == 1
  {
    DailyIsBoth(nights, MatchedDate(row).value - lead, MatchedDate(row).value + 1);
    EveryLeadExactlyOnce(log, nights, leads, id, row, lead);
  }
}
