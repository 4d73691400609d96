/** The nightly sweep over one file, and what a held age-gated check looks like after any nights. */
module NightlySweep {
  import opened Wrappers
  import opened Calendar
  import opened AgeRules
  import opened Definitions
  import opened RequirementRows
  import opened Reconciliation
  import opened Settlement
  import opened VolunteerFiles

  // ---- The age scan -----------------------------------------------------------------

  /** Where a sync has nothing left to do, neither has the scan for volunteers who turned 18. */
  lemma {:induction false} AgeScanAddsNothing(c: Context, rows: Rows, n: nat)
    requires Valid(c) && n <= |c.order| && Synced(c, rows) == rows
    ensures ActivatedTo(c, rows, n) == rows
  {
    if n > 0 {
      AgeScanAddsNothing(c, rows, n - 1);
      FixedPointIsSettled(c, rows, c.order[n - 1]);
    }
  }

  /** In particular after two syncs. */
  lemma AgeScanAfterTwoSyncs(c: Context, rows: Rows)
    requires Valid(c)
    ensures ActivatedTo(c, SyncedTwice(c, rows), |c.order|) == SyncedTwice(c, rows)
  {
    SyncConverges(c, rows);
    AgeScanAddsNothing(c, SyncedTwice(c, rows), |c.order|);
  }

  lemma {:induction false} AgeScanKeepsActive(c: Context, rows: Rows, n: nat, d: DefId)
    requires Valid(c) && n <= |c.order|
    requires d in rows && (!rows[d].status.NotApplicable? || !IsAdult(c.birth, c.today))
    ensures Get(ActivatedTo(c, rows, n), d) == Get(rows, d)
  {
    if n > 0 {
      AgeScanKeepsActive(c, rows, n - 1, d);
    }
  }

  lemma {:induction false} RowBeforeScan(c: Context, rows: Rows, n: nat, d: DefId)
    requires Valid(c) && n <= |c.order| && d !in c.order[..n]
    ensures Get(ActivatedTo(c, rows, n), d) == Get(rows, d)
  {
    if n > 0 {
      assert c.order[..n] == c.order[..n - 1] + [c.order[n - 1]];
      RowBeforeScan(c, rows, n - 1, d);
    }
  }

  lemma {:induction false} RowAfterScan(c: Context, rows: Rows, i: nat, n: nat)
    requires Valid(c) && i < n <= |c.order|
    ensures var d := c.order[i];
            Get(ActivatedTo(c, rows, n), d) == Get(ActivatedIfAdult(c, ActivatedTo(c, rows, i), d), d)
  {
    if i < n - 1 {
      RowAfterScan(c, rows, i, n - 1);
    }
  }

  // ---- A night ----------------------------------------------------------------------

  ghost function AfterNight(cat: Catalogue, v: Volunteer, today: Day): Volunteer
    requires ValidCatalogue(cat)
  {
    AllRecomputed(AfterAgeScan(cat, AfterSync(cat, v, today), today), today)
  }

  ghost function AfterNights(cat: Catalogue, v: Volunteer, nights: seq<Day>): Volunteer
    requires ValidCatalogue(cat)
  {
    if nights == [] then v
    else AfterNight(cat, AfterNights(cat, v, nights[..|nights| - 1]), nights[|nights| - 1])
  }

  // ---- A held check -------------------------------------------------------------------

  /** A criminal record check requirement for adults that nothing gates and some role asks for. */
  ghost predicate IsAdultCheck(cat: Catalogue, v: Volunteer, d: DefId)
    requires ValidCatalogue(cat)
  {
    && d in cat.order && cat.defs[d].isCrc && cat.defs[d].adultsOnly && !IsGated(cat.defs[d])
    && AppliesToRoles(cat.defs[d], ActiveRoles(v.assignments))
  }

  /** The held row on the night `t`: untouched before the trigger day, and from then on owed by the
      deadline that the trigger sets. */
  ghost function HeldCheckOn(r: Row, birth: Birth, t: Day): Row {
    if t < TriggerDay(birth) then r
    else
      var deadline := Turning18Deadline(birth);
      r.(status := if deadline < t then Overdue else NotStarted, heldReason := NotHeld,
         dueOn := Some(deadline), dueReason := Turned18)
  }

  lemma NightOnHeldCheck(cat: Catalogue, v: Volunteer, d: DefId, r: Row, earlier: Day, t: Day)
    requires ValidCatalogue(cat) && IsAdultCheck(cat, v, d) && v.birth.Some? && earlier <= t
    requires r.status.NotApplicable? && Coherent(r, earlier)
    requires d in v.rows && (v.rows[d] == r || v.rows[d] == HeldCheckOn(r, v.birth.value, earlier))
    ensures Get(AfterNight(cat, v, t).rows, d) == Some(HeldCheckOn(r, v.birth.value, t))
    ensures AfterNight(cat, v, t) == v.(rows := AfterNight(cat, v, t).rows)
  {
    var c := ContextOf(cat, v, t);
    AdultFromTriggerDay(v.birth, t);
    SelfContainedRow(c, v.rows, d);
    var synced := Synced(c, v.rows);
    AgeScanKeepsActive(c, synced, |cat.order|, d);
  }

  /** Which nights were swept never shows: after any of them the deadline is the one that turning 18
      sets, and the row depends on the last night only. */
  lemma {:induction false} DeadlineIndependentOfNight(cat: Catalogue, v: Volunteer, d: DefId, nights: seq<Day>)
    requires ValidCatalogue(cat) && IsAdultCheck(cat, v, d) && v.birth.Some?
    requires nights != [] && NonDecreasing(nights)
    requires d in v.rows && v.rows[d].status.NotApplicable? && Coherent(v.rows[d], nights[0])
    ensures Get(AfterNights(cat, v, nights).rows, d)
            == Some(HeldCheckOn(v.rows[d], v.birth.value, nights[|nights| - 1]))
    ensures AfterNights(cat, v, nights) == v.(rows := AfterNights(cat, v, nights).rows)
    decreases |nights|
  {
    var n := |nights| - 1;
    if n == 0 {
      assert AfterNights(cat, v, nights[..0]) == v;
      NightOnHeldCheck(cat, v, d, v.rows[d], nights[0], nights[0]);
    } else {
      DeadlineIndependentOfNight(cat, v, d, nights[..n]);
      assert nights[..n][n - 1] == nights[n - 1];
      CoherentLater(v.rows[d], nights[0], nights[n - 1]);
      NightOnHeldCheck(cat, AfterNights(cat, v, nights[..n]), d, v.rows[d], nights[n - 1], nights[n]);
    }
  }
}
