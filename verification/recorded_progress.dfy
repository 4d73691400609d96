/** What recording progress on a requirement leaves behind, read off the row and the list. */
module RecordedProgress {
  import opened Wrappers
  import opened Calendar
  import opened AgeRules
  import opened Definitions
  import opened RequirementRows
  import opened Reconciliation
  import opened Settlement
  import opened VolunteerFiles
  import opened SendBacks

  // ---- The calendar behind it -------------------------------------------------------------

  /** Months that a completion lasts, by cadence; none for a one-time requirement. */
  predicate LastsFor(def: Definition, months: nat) {
    match def.cadence
    case OneTime => false
    case Annual => months == 12
    case Every3Years => months == 36
    case CustomMonths(n) => n > 0 && months == n
  }

  /** Turning 18 gives three months from the day that adulthood starts. */
  lemma Turning18GivesThreeMonths(birth: Birth)
    ensures Turning18Deadline(birth) == ShiftMonths(TriggerDay(birth), 3)
  {
    var trigger := TriggerDate(birth);
    assert StartsAdulthood(birth, trigger);
    ZeroMonths(trigger);
    assert Ordinal(trigger) == TriggerDay(birth);
    assert Ordinal(AddMonthsTo(trigger, 3)) == Turning18Deadline(birth);
    assert IsShift(TriggerDay(birth), 3, ShiftMonths(TriggerDay(birth), 3));
  }

  // ---- The row that a service writes ------------------------------------------------------

  /** Nothing in use waits behind `d`. */
  ghost predicate NothingWaits(cat: Catalogue, d: DefId)
    requires ValidCatalogue(cat)
  {
    forall k :: k in cat.order ==> !(cat.defs[k].gate && cat.defs[k].mustFollow == Some(d))
  }

  /** A completion is refused exactly when the row is missing or blocked, or the date lies ahead. The row then reads
      complete on that day, for as long as its cadence says and with no deadline left; nothing else of the file moves
      but what waits on it. */
  lemma CompletionIsRecorded(cat: Catalogue, v: Volunteer, d: DefId, on: Day, notes: string, today: Day)
    requires ValidCatalogue(cat) && d in cat.defs
    ensures var after := MarkedComplete(cat, v, d, on, notes, today);
            && (after.Refused? <==> d !in v.rows || v.rows[d].status == Blocked || today < on)
            && (after.Success? ==>
                  && d in after.value.rows
                  && var before, row := v.rows[d], after.value.rows[d];
                     && row.status == Complete && row.completedOn == Some(on)
                     && row.dueOn.None? && row.dueReason == NoDueReason
                     && (row.expiresOn.None? <==> forall months :: !LastsFor(cat.defs[d], months))
                     && (forall months :: LastsFor(cat.defs[d], months) ==>
                         row.expiresOn == Some(ShiftMonths(on, months)))
                     && row.startedOn == before.startedOn && row.waivedOn == before.waivedOn
                     && row.notes == (if |notes| > 0 then notes else before.notes))
            && (after.Success? ==> after.value == v.(rows := after.value.rows))
            && (after.Success? && NothingWaits(cat, d) ==>
                  after.value.rows.Keys == v.rows.Keys
                  && forall k :: k in v.rows && k != d ==> after.value.rows[k] == v.rows[k])
  {
    var after := MarkedComplete(cat, v, d, on, notes, today);
    if after.Success? {
      FinishedAfterRefresh(cat, v, d, Completed(v.rows[d], cat.defs[d], on, notes), today);
      assert LastsFor(cat.defs[d], IntervalMonths(cat.defs[d])) || forall months :: !LastsFor(cat.defs[d], months);
    }
  }

  /** A waiver is refused exactly when the row is missing, no reason is given, or it is a criminal record check. The row
      then reads waived as of today and owes nothing by any date; what was completed stays on record. */
  lemma WaiverIsRecorded(cat: Catalogue, v: Volunteer, d: DefId, reasonGiven: bool, today: Day)
    requires ValidCatalogue(cat) && d in cat.defs
    ensures var after := WaivedRequirement(cat, v, d, reasonGiven, today);
            && (after.Refused? <==> d !in v.rows || !reasonGiven || cat.defs[d].isCrc)
            && (after.Success? ==>
                  && d in after.value.rows
                  && var before, row := v.rows[d], after.value.rows[d];
                     && row.status == Waived && row.waivedOn == Some(today)
                     && row.dueOn.None? && row.dueReason == NoDueReason
                     && row.completedOn == before.completedOn && row.expiresOn == before.expiresOn
                     && row.startedOn == before.startedOn && row.notes == before.notes)
            && (after.Success? ==> after.value == v.(rows := after.value.rows))
  {
    var after := WaivedRequirement(cat, v, d, reasonGiven, today);
    if after.Success? {
      FinishedAfterRefresh(cat, v, d, WaivedRow(v.rows[d], today), today);
    }
  }

  /** Starting is timed once: a row not started is under way from today, an overdue one stays overdue, and any other is
      left alone. */
  lemma StartIsRecorded(v: Volunteer, d: DefId, today: Day)
    requires d in v.rows
    ensures StartedRequirement(v, d, today).Success?
    ensures var before, after := v.rows[d], StartedRequirement(v, d, today).value;
            && after == v.(rows := after.rows) && after.rows.Keys == v.rows.Keys
            && (forall k :: k in v.rows && k != d ==> after.rows[k] == v.rows[k])
            && after.rows[d] == (if before.status == NotStarted
                                 then before.(status := InProgress, startedOn := Some(today))
                                 else if before.status == Overdue then before.(startedOn := Some(today))
                                 else before)
  {
  }

  /** A reversal is refused exactly when the row does not read waived or no reason is given. What was completed before
      the waiver reads complete again, or overdue if it expired meanwhile; what was started is under way. */
  lemma ReversalIsRecorded(cat: Catalogue, v: Volunteer, d: DefId, reasonGiven: bool, today: Day)
    requires ValidCatalogue(cat) && NothingWaits(cat, d)
    ensures var after := ReversedWaiver(cat, v, d, reasonGiven, None, today);
            && (after.Refused? <==> d !in v.rows || v.rows[d].status != Waived || !reasonGiven)
            && (after.Success? ==>
                  && d in after.value.rows
                  && var before, row := v.rows[d], after.value.rows[d];
                     && row.waivedOn.None? && row == before.(status := row.status, waivedOn := None)
                     && (before.completedOn.Some? ==>
                           (row.status == Overdue <==> before.expiresOn.Some? && before.expiresOn.value < today)
                           && row.status in {Complete, Overdue})
                     && (before.completedOn.None? ==>
                           (row.status == Overdue <==> before.dueOn.Some? && before.dueOn.value < today)
                           && row.status in {Overdue, if before.startedOn.Some? then InProgress else NotStarted}))
  {
  }

  // ---- The first day that counts as late ---------------------------------------------------

  /** A completion holds through the day that it expires and has lapsed from the next; a deadline likewise. */
  lemma LateFromTheDayAfter(r: Row, today: Day)
    requires Coherent(r, today)
    ensures r.status == Complete && r.expiresOn.Some? ==>
              Recomputed(r, today).status == if r.expiresOn.value < today then Overdue else Complete
    ensures r.status == Complete && r.expiresOn.None? ==> Recomputed(r, today).status == Complete
    ensures r.status in {NotStarted, InProgress} && r.dueOn.Some? ==>
              Recomputed(r, today).status == if r.dueOn.value < today then Overdue else r.status
    ensures r.status in {NotStarted, InProgress} && r.dueOn.None? ==> Recomputed(r, today).status == r.status
    ensures r.status in {NotApplicable, Waived, Blocked} ==> Recomputed(r, today) == r
  {
  }
}
