/** What nights make of a completed requirement, and taking its completion back. */
module CompletionHistory {
  import opened Wrappers
  import opened Calendar
  import opened Definitions
  import opened RequirementRows
  import opened Reconciliation
  import opened Settlement
  import opened VolunteerFiles
  import opened NightlySweep

  // ---- A completed row ---------------------------------------------------------------

  /** A complete row goes through a night as the recompute alone would have it, whatever applies. */
  lemma NightOnCompleted(cat: Catalogue, v: Volunteer, d: DefId, t: Day)
    requires ValidCatalogue(cat) && d in v.rows && v.rows[d].status.Complete?
    ensures Get(AfterNight(cat, v, t).rows, d) == Some(Recomputed(v.rows[d], t))
  {
    var c := ContextOf(cat, v, t);
    SyncKeepsHistory(c, v.rows, d);
    AgeScanKeepsActive(c, Synced(c, v.rows), |cat.order|, d);
  }

  /** A sync would take `d` off the list of what is owed: no role asks for it, age excuses it or its gate is shut. */
  ghost predicate WouldHold(c: Context, rows: Rows, d: DefId)
    requires Valid(c)
  {
    d in c.order && (!Applies(c, d) || IsAgeExempt(c, d) || BlockedAtTurn(c, rows, d))
  }

  /** A sync has no business with the row: it would not hold it, and no earlier deadline awaits it. */
  ghost predicate SyncSpares(c: Context, rows: Rows, d: DefId)
    requires Valid(c) && d in rows
  {
    d in c.order ==>
      && !WouldHold(c, rows, d)
      && (IsGated(c.defs[d]) && rows[d].completedOn.None? && IsOutstanding(rows[d].status) ==>
            Refreshed(rows[d], PrerequisiteDeadline(c.defs, rows, d)) == rows[d])
  }

  lemma SyncSparesRow(c: Context, rows: Rows, d: DefId)
    requires Valid(c) && d in rows && !rows[d].status.NotApplicable? && SyncSpares(c, rows, d)
    ensures Get(Synced(c, rows), d) == Get(rows, d)
  {
    if d in c.order {
      var i :| 0 <= i < |c.order| && c.order[i] == d;
      RowBeforeTurn(c, rows, i, d);
      RowAfterTurn(c, rows, i, |c.order|);
      DeadlineAtTurn(c, rows, i, d);
      if IsGated(c.defs[d]) {
        GateAtTurn(c, rows, i);
      }
    } else {
      SyncKeepsHistory(c, rows, d);
    }
  }

  /** So does any row that is not held and that no sync has business with. */
  lemma NightOnSpared(cat: Catalogue, v: Volunteer, d: DefId, t: Day)
    requires ValidCatalogue(cat) && d in v.rows && !v.rows[d].status.NotApplicable?
    requires SyncSpares(ContextOf(cat, v, t), v.rows, d)
    ensures Get(AfterNight(cat, v, t).rows, d) == Some(Recomputed(v.rows[d], t))
  {
    var c := ContextOf(cat, v, t);
    SyncSparesRow(c, v.rows, d);
    AgeScanKeepsActive(c, Synced(c, v.rows), |cat.order|, d);
  }

  // ---- A completion sent back after any nights -----------------------------------------

  /** The row is as the completion left it, or it has lapsed and stays so. */
  ghost predicate KeptOrLapsed(done: Row, row: Option<Row>, t: Day) {
    && row.Some?
    && (row.value == done
        || (Past(done.expiresOn, t) && row.value.expiresOn == done.expiresOn && !row.value.status.Complete?))
  }

  lemma TurnKeepsExpiry(c: Context, d: DefId, row: Row, blocker: Option<DefId>, deadline: Option<Day>)
    requires d in c.defs
    ensures var next := Turn(c, d, Some(row), blocker, deadline);
            next.Some? && next.value.expiresOn == row.expiresOn && (next.value.status.Complete? ==> next.value == row)
  {
  }

  lemma SyncKeepsExpiry(c: Context, rows: Rows, d: DefId)
    requires Valid(c) && d in rows
    ensures var next := Get(Synced(c, rows), d);
            && next.Some? && next.value.expiresOn == rows[d].expiresOn
            && (next.value.status.Complete? ==> next.value == rows[d])
  {
    SyncKeepsHistory(c, rows, d);
    if d in c.order {
      var i :| 0 <= i < |c.order| && c.order[i] == d;
      var at := SyncTo(c, rows, i);
      RowBeforeTurn(c, rows, i, d);
      RowAfterTurn(c, rows, i, |c.order|);
      TurnKeepsExpiry(c, d, rows[d], UnmetPrerequisite(c.defs, at, d), PrerequisiteDeadline(c.defs, at, d));
    }
  }

  lemma {:induction false} AgeScanKeepsExpiry(c: Context, rows: Rows, n: nat, d: DefId)
    requires Valid(c) && n <= |c.order| && d in rows
    ensures var next := Get(ActivatedTo(c, rows, n), d);
            && next.Some? && next.value.expiresOn == rows[d].expiresOn
            && (next.value.status.Complete? ==> next.value == rows[d])
  {
    if n > 0 {
      AgeScanKeepsExpiry(c, rows, n - 1, d);
    }
  }

  lemma NightKeepsOrLapses(cat: Catalogue, v: Volunteer, d: DefId, done: Row, t: Day)
    requires ValidCatalogue(cat) && done.status.Complete? && done.completedOn.Some?
    requires KeptOrLapsed(done, Get(v.rows, d), t)
    ensures KeptOrLapsed(done, Get(AfterNight(cat, v, t).rows, d), t)
  {
    var c := ContextOf(cat, v, t);
    if v.rows[d] == done {
      NightOnCompleted(cat, v, d, t);
    } else {
      SyncKeepsExpiry(c, v.rows, d);
      AgeScanKeepsExpiry(c, Synced(c, v.rows), |cat.order|, d);
    }
  }

  lemma {:induction false} NightsKeepOrLapse(cat: Catalogue, v: Volunteer, d: DefId, nights: seq<Day>)
    requires ValidCatalogue(cat) && d in v.rows && v.rows[d].status.Complete? && v.rows[d].completedOn.Some?
    requires nights != [] && NonDecreasing(nights)
    ensures KeptOrLapsed(v.rows[d], Get(AfterNights(cat, v, nights).rows, d), nights[|nights| - 1])
    decreases |nights|
  {
    var n := |nights| - 1;
    if n == 0 {
      assert AfterNights(cat, v, nights[..0]) == v;
    } else {
      NightsKeepOrLapse(cat, v, d, nights[..n]);
      assert nights[..n][n - 1] == nights[n - 1];
    }
    NightKeepsOrLapses(cat, AfterNights(cat, v, nights[..n]), d, v.rows[d], nights[n]);
  }

  /** The file once `d` has been completed and the nights have passed. */
  ghost function CompletedThenNights(cat: Catalogue, v: Volunteer, d: DefId, on: Day, notes: string, today: Day,
                                     nights: seq<Day>): Volunteer
    requires ValidCatalogue(cat) && MarkedComplete(cat, v, d, on, notes, today).Success?
  {
    AfterNights(cat, MarkedComplete(cat, v, d, on, notes, today).value, nights)
  }

  ghost predicate RefreshSpares(cat: Catalogue, v: Volunteer, d: DefId, t: Day)
    requires ValidCatalogue(cat) && d in v.rows
  {
    HasGatedDependents(cat, d) ==> SyncSpares(ContextOf(cat, v, t), v.rows, d)
  }

  lemma CompletionStands(cat: Catalogue, v: Volunteer, d: DefId, on: Day, notes: string, today: Day, nights: seq<Day>)
    requires ValidCatalogue(cat) && MarkedComplete(cat, v, d, on, notes, today).Success? && NonDecreasing(nights)
    ensures var row := Get(CompletedThenNights(cat, v, d, on, notes, today, nights).rows, d);
            row.Some? && (row.value.status.Complete? ==> row.value == Completed(v.rows[d], cat.defs[d], on, notes))
  {
    var written := WithRow(v, d, Completed(v.rows[d], cat.defs[d], on, notes));
    SyncKeepsHistory(ContextOf(cat, v, today), written.rows, d);
    if nights != [] {
      NightsKeepOrLapse(cat, MarkedComplete(cat, v, d, on, notes, today).value, d, nights);
    }
  }

  /** Completing a requirement, letting any nights pass and sending the completion back while it still stands:
      if the row's status matched its dates, the file is as if the row had been recomputed untouched, its notes
      aside, and what waits on it then refreshed; and where that refresh spares the row, only if. */
  lemma SendBackAfterNights(cat: Catalogue, v: Volunteer, d: DefId, on: Day, notes: string, today: Day,
                            nights: seq<Day>, t: Day)
    requires ValidCatalogue(cat) && MarkedComplete(cat, v, d, on, notes, today).Success? && NonDecreasing(nights)
    requires var later := Get(CompletedThenNights(cat, v, d, on, notes, today, nights).rows, d);
             later.Some? && later.value.status.Complete?
    ensures var later := CompletedThenNights(cat, v, d, on, notes, today, nights);
            var untouched := Recomputed(v.rows[d], t).(notes := later.rows[d].notes);
            var sent := CompletionSentBack(cat, later, d, SnapshotOf(v.rows[d]), t);
            && (StatusMatchesDates(v.rows[d], t) ==>
                sent == WithDependentsRefreshed(cat, WithRow(later, d, untouched), d, t))
            && (RefreshSpares(cat, WithRow(later, d, Restored(later.rows[d], SnapshotOf(v.rows[d]), t)), d, t) ==>
                  (Get(sent.rows, d) == Some(untouched) <==> StatusMatchesDates(v.rows[d], t)))
  {
    var done := Completed(v.rows[d], cat.defs[d], on, notes);
    var later := CompletedThenNights(cat, v, d, on, notes, today, nights);
    CompletionStands(cat, v, d, on, notes, today, nights);
    RestoreUndoesCompletion(v.rows[d], cat.defs[d], on, notes, done, t);
    StatusMatchesDatesIsExact(v.rows[d], t);
    var written := WithRow(later, d, Restored(done, SnapshotOf(v.rows[d]), t));
    if RefreshSpares(cat, written, d, t) && HasGatedDependents(cat, d) {
      SyncSparesRow(ContextOf(cat, written, t), written.rows, d);
    }
  }
}
