/** How many nightly sweeps a file takes to settle, and what a single one settles. */
module SweepSettlement {
  import opened Wrappers
  import opened Calendar
  import opened AgeRules
  import opened Definitions
  import opened RequirementRows
  import opened Reconciliation
  import opened Settlement
  import opened VolunteerFiles
  import opened NightlySweep
  import Church

  // ---- A night, row by row --------------------------------------------------------------

  /** What the age scan may do to one row. */
  ghost predicate IsScanned(c: Context, before: Option<Row>, after: Option<Row>, d: DefId) {
    || after == before
    || (&& before.Some? && after.Some? && before.value.status.NotApplicable? && after.value.status.NotStarted?
        && after.value.completedOn == before.value.completedOn
        && d in c.defs && c.defs[d].adultsOnly && Applies(c, d) && IsAdult(c.birth, c.today))
  }

  lemma {:induction false} ScanTouches(c: Context, rows: Rows, n: nat, d: DefId)
    requires Valid(c) && n <= |c.order|
    ensures IsScanned(c, Get(rows, d), Get(ActivatedTo(c, rows, n), d), d)
  {
    if n > 0 {
      ScanTouches(c, rows, n - 1, d);
    }
  }

  ghost function Scanned(c: Context, rows: Rows): Rows
    requires Valid(c)
  {
    ActivatedTo(c, Synced(c, rows), |c.order|)
  }

  lemma NightRow(cat: Catalogue, v: Volunteer, t: Day, d: DefId)
    requires ValidCatalogue(cat)
    ensures var c := ContextOf(cat, v, t);
            var scanned := Get(Scanned(c, v.rows), d);
            && IsScanned(c, Get(Synced(c, v.rows), d), scanned, d)
            && Get(AfterNight(cat, v, t).rows, d) == if scanned.Some? then Some(Recomputed(scanned.value, t)) else None
    ensures AfterNight(cat, v, t) == v.(rows := AfterNight(cat, v, t).rows)
  {
    var c := ContextOf(cat, v, t);
    ScanTouches(c, Synced(c, v.rows), |c.order|, d);
  }

  lemma NightKeepsFileSound(cat: Catalogue, v: Volunteer, t: Day)
    requires ValidCatalogue(cat) && Sound(v, cat.defs, t)
    ensures Sound(AfterSync(cat, v, t), cat.defs, t) && Sound(AfterNight(cat, v, t), cat.defs, t)
  {
    SyncKeepsSound(cat, v, t);
    Church.NightKeepsSound(cat, AfterSync(cat, v, t), t);
    Church.NightKeepsSound(cat, AfterAgeScan(cat, AfterSync(cat, v, t), t), t);
  }

  // ---- What one night settles -----------------------------------------------------------

  /** The row exists if it is due, an ungated one is held exactly when it is not owed, none waits behind a completed
      prerequisite, and none reads complete past its expiry. */
  ghost predicate NightSettledAt(c: Context, rows: Rows, d: DefId)
    requires d in c.defs
  {
    && (Applies(c, d) ==> d in rows)
    && (!IsGated(c.defs[d]) && d in rows && !IsDone(rows[d]) ==>
          (rows[d].status.NotApplicable? <==> !Applies(c, d) || IsAgeExempt(c, d)))
    && (IsGateDriven(c, d) && PrerequisiteDeadline(c.defs, rows, d).Some? ==> !rows[d].status.NotApplicable?)
    && (d in rows && rows[d].status.Complete? ==> !Past(rows[d].expiresOn, c.today))
  }

  ghost predicate NightSettled(c: Context, rows: Rows)
    requires Valid(c)
  {
    forall d :: d in c.order ==> NightSettledAt(c, rows, d)
  }

  lemma SyncedUngated(c: Context, rows: Rows, d: DefId)
    requires Valid(c) && d in c.order && !IsGated(c.defs[d]) && RowsSound(Synced(c, rows), c.defs, c.today)
    ensures Applies(c, d) ==> d in Synced(c, rows)
    ensures d in Synced(c, rows) && !IsDone(Synced(c, rows)[d]) ==>
              (Synced(c, rows)[d].status.NotApplicable? <==> !Applies(c, d) || IsAgeExempt(c, d))
  {
    SelfContainedRow(c, rows, d);
    TurnSettles(c, d, Get(rows, d), None, None);
  }

  lemma SyncedBehindCompletion(c: Context, rows: Rows, d: DefId)
    requires Valid(c) && d in c.order && IsGateDriven(c, d) && PrerequisiteDeadline(c.defs, rows, d).Some?
    ensures d in Synced(c, rows) && !Synced(c, rows)[d].status.NotApplicable?
  {
    var i :| 0 <= i < |c.order| && c.order[i] == d;
    var at := SyncTo(c, rows, i);
    RowBeforeTurn(c, rows, i, d);
    RowAfterTurn(c, rows, i, |c.order|);
    DeadlineAtTurn(c, rows, i, d);
    DeadlineMeansOpen(c.defs, at, d);
    TurnSettles(c, d, Get(rows, d), None, PrerequisiteDeadline(c.defs, at, d));
  }

  /** A night changes no completion date, so it changes no deadline. */
  lemma DeadlineAfterNight(cat: Catalogue, v: Volunteer, t: Day, d: DefId)
    requires ValidCatalogue(cat) && d in cat.defs
    ensures PrerequisiteDeadline(cat.defs, AfterNight(cat, v, t).rows, d) == PrerequisiteDeadline(cat.defs, v.rows, d)
  {
    DeadlineAfterSync(ContextOf(cat, v, t), v.rows, d);
    if cat.defs[d].mustFollow.Some? {
      NightRow(cat, v, t, cat.defs[d].mustFollow.value);
    }
  }

  lemma OneNightSettlesRow(cat: Catalogue, v: Volunteer, t: Day, d: DefId)
    requires ValidCatalogue(cat) && RowsSound(AfterSync(cat, v, t).rows, cat.defs, t) && d in cat.order
    ensures NightSettledAt(ContextOf(cat, v, t), AfterNight(cat, v, t).rows, d)
  {
    var c := ContextOf(cat, v, t);
    NightRow(cat, v, t, d);
    SyncKeepsHistory(c, v.rows, d);
    if !IsGated(c.defs[d]) {
      SyncedUngated(c, v.rows, d);
    }
    DeadlineAfterNight(cat, v, t, d);
    if IsGateDriven(c, d) && PrerequisiteDeadline(c.defs, v.rows, d).Some? {
      SyncedBehindCompletion(c, v.rows, d);
    }
  }

  lemma OneNightSettles(cat: Catalogue, v: Volunteer, t: Day)
    requires ValidCatalogue(cat) && Sound(v, cat.defs, t)
    ensures NightSettled(ContextOf(cat, v, t), AfterNight(cat, v, t).rows)
  {
    NightKeepsFileSound(cat, v, t);
    forall d | d in cat.order ensures NightSettledAt(ContextOf(cat, v, t), AfterNight(cat, v, t).rows, d) {
      OneNightSettlesRow(cat, v, t, d);
    }
  }

  // ---- From then on one sync is enough ----------------------------------------------------

  lemma SettledGate(c: Context, rows: Rows, d: DefId)
    requires Valid(c) && d in c.order && IsGated(c.defs[d]) && NightSettled(c, rows) && RowsSound(rows, c.defs, c.today)
    ensures UnmetPrerequisite(c.defs, rows, d).Some? <==> WillBlock(c, rows, d)
  {
    var p := c.defs[d].mustFollow.value;
    if p in c.order {
      assert NightSettledAt(c, rows, p);
      TurnKeepsHistory(c, p, Get(rows, p), None, None);
      TurnSettles(c, p, Get(rows, p), None, None);
      TurnNeverCompletes(c, p, Get(rows, p), None, None);
    }
  }

  lemma SecondSyncAddsNothing(c: Context, rows: Rows)
    requires Valid(c) && NightSettled(c, rows) && RowsSound(rows, c.defs, c.today)
    ensures Synced(c, Synced(c, rows)) == Synced(c, rows)
  {
    forall d | d in c.order ensures OneSyncIsEnough(c, rows, d) {
      assert NightSettledAt(c, rows, d);
      if IsGateDriven(c, d) {
        SettledGate(c, rows, d);
      }
    }
    OneSyncIsEnoughExactly(c, rows);
  }

  // ---- The recompute disturbs nothing ------------------------------------------------------

  lemma {:induction false} IdleTurns(c: Context, rows: Rows, n: nat)
    requires Valid(c) && n <= |c.order| && forall d :: d in c.order ==> TurnOn(c, rows, d) == Get(rows, d)
    ensures SyncTo(c, rows, n) == rows
  {
    if n > 0 {
      IdleTurns(c, rows, n - 1);
    }
  }

  /** A row that a turn leaves alone is left alone once recomputed, unless it has just lapsed. */
  lemma IdleOnceRecomputed(c: Context, d: DefId, r: Row, blocker: Option<DefId>, deadline: Option<Day>)
    requires d in c.defs && Coherent(r, c.today) && (r.status.Complete? ==> !Past(r.expiresOn, c.today))
    requires Turn(c, d, Some(r), blocker, deadline) == Some(r)
    ensures Turn(c, d, Some(Recomputed(r, c.today)), blocker, deadline) == Some(Recomputed(r, c.today))
  {
  }

  ghost function RecomputedRows(rows: Rows, t: Day): Rows {
    map d | d in rows :: Recomputed(rows[d], t)
  }

  lemma GatesOnceRecomputed(c: Context, rows: Rows, t: Day, d: DefId)
    requires Valid(c) && d in c.defs
    ensures UnmetPrerequisite(c.defs, RecomputedRows(rows, t), d) == UnmetPrerequisite(c.defs, rows, d)
    ensures PrerequisiteDeadline(c.defs, RecomputedRows(rows, t), d) == PrerequisiteDeadline(c.defs, rows, d)
  {
  }

  lemma FixedOnceRecomputed(c: Context, rows: Rows)
    requires Valid(c) && Synced(c, rows) == rows && RowsSound(rows, c.defs, c.today)
    requires forall d :: d in c.order && d in rows && rows[d].status.Complete? ==> !Past(rows[d].expiresOn, c.today)
    ensures Synced(c, RecomputedRows(rows, c.today)) == RecomputedRows(rows, c.today)
  {
    var later := RecomputedRows(rows, c.today);
    forall d | d in c.order ensures TurnOn(c, later, d) == Get(later, d) {
      FixedPointIsSettled(c, rows, d);
      GatesOnceRecomputed(c, rows, c.today, d);
      if d in rows {
        IdleOnceRecomputed(c, d, rows[d], UnmetPrerequisite(c.defs, rows, d), PrerequisiteDeadline(c.defs, rows, d));
      }
    }
    IdleTurns(c, later, |c.order|);
  }

  lemma RecomputedTwice(rows: Rows, t: Day)
    requires forall d :: d in rows ==> Coherent(rows[d], t)
    ensures RecomputedRows(RecomputedRows(rows, t), t) == RecomputedRows(rows, t)
  {
  }

  // ---- Two nights settle -------------------------------------------------------------------

  /** From a settled night on, the next one leaves a fixed point of the sync, recomputed. */
  lemma NextNightSettles(cat: Catalogue, w: Volunteer, t: Day)
    requires ValidCatalogue(cat) && Sound(w, cat.defs, t) && NightSettled(ContextOf(cat, w, t), w.rows)
    ensures var c := ContextOf(cat, w, t);
            && AfterNight(cat, w, t).rows == RecomputedRows(Synced(c, w.rows), t)
            && Synced(c, AfterNight(cat, w, t).rows) == AfterNight(cat, w, t).rows
  {
    var c := ContextOf(cat, w, t);
    var x := Synced(c, w.rows);
    NightKeepsFileSound(cat, w, t);
    SecondSyncAddsNothing(c, w.rows);
    AgeScanAddsNothing(c, x, |c.order|);
    forall d | d in c.order && d in x && x[d].status.Complete? ensures !Past(x[d].expiresOn, t) {
      SyncNeverCompletes(c, w.rows, d);
      assert NightSettledAt(c, w.rows, d);
    }
    FixedOnceRecomputed(c, x);
  }

  /** Two nightly sweeps on a day settle every sound file: a third one changes nothing on it. */
  lemma TwoNightsSettle(cat: Catalogue, v: Volunteer, t: Day)
    requires ValidCatalogue(cat) && Sound(v, cat.defs, t)
    ensures var twice := AfterNight(cat, AfterNight(cat, v, t), t); AfterNight(cat, twice, t) == twice
  {
    var w := AfterNight(cat, v, t);
    var c := ContextOf(cat, v, t);
    NightKeepsFileSound(cat, v, t);
    NightKeepsFileSound(cat, w, t);
    OneNightSettles(cat, v, t);
    NextNightSettles(cat, w, t);
    var twice := AfterNight(cat, w, t);
    AgeScanAddsNothing(c, twice.rows, |c.order|);
    RecomputedTwice(Synced(c, w.rows), t);
  }

  // ---- What one night leaves of a gate --------------------------------------------------------

  lemma GateUnderScan(c: Context, rows: Rows, n: nat, d: DefId)
    requires Valid(c) && n <= |c.order| && d in c.order && IsGated(c.defs[d])
    ensures UnmetPrerequisite(c.defs, ActivatedTo(c, Synced(c, rows), n), d).Some? <==> WillBlock(c, rows, d)
  {
    var p := c.defs[d].mustFollow.value;
    GateAfterSync(c, rows, d);
    ScanTouches(c, Synced(c, rows), n, p);
    if p in c.order && !IsGated(c.defs[p]) {
      SelfContainedRow(c, rows, p);
      TurnSettles(c, p, Get(rows, p), None, None);
    }
  }

  lemma GateAfterNight(cat: Catalogue, v: Volunteer, t: Day, d: DefId)
    requires ValidCatalogue(cat) && d in cat.order && IsGated(cat.defs[d])
    ensures UnmetPrerequisite(cat.defs, AfterNight(cat, v, t).rows, d).Some?
            <==> WillBlock(ContextOf(cat, v, t), v.rows, d)
  {
    var c := ContextOf(cat, v, t);
    GateUnderScan(c, v.rows, |c.order|, d);
    GatesOnceRecomputed(c, Scanned(c, v.rows), t, d);
  }

  lemma HeldAfterSync(c: Context, rows: Rows, d: DefId)
    requires Valid(c) && d in c.order && IsGateDriven(c, d)
    ensures d in Synced(c, rows)
    ensures Synced(c, rows)[d].status.NotApplicable? <==> !IsFinished(Get(rows, d)) && BlockedAtTurn(c, rows, d)
  {
    var i :| 0 <= i < |c.order| && c.order[i] == d;
    var at := SyncTo(c, rows, i);
    RowBeforeTurn(c, rows, i, d);
    RowAfterTurn(c, rows, i, |c.order|);
    GateAtTurn(c, rows, i);
    HeldTurn(c, d, Get(rows, d), UnmetPrerequisite(c.defs, at, d), PrerequisiteDeadline(c.defs, at, d));
  }

  lemma HeldAfterScan(c: Context, rows: Rows, d: DefId)
    requires Valid(c) && d in c.order && IsGateDriven(c, d) && d in Synced(c, rows)
    ensures d in Scanned(c, rows)
    ensures Scanned(c, rows)[d].status.NotApplicable? <==>
              Synced(c, rows)[d].status.NotApplicable? && (WillBlock(c, rows, d) || !c.defs[d].adultsOnly)
  {
    var i :| 0 <= i < |c.order| && c.order[i] == d;
    var synced := Synced(c, rows);
    RowBeforeScan(c, synced, i, d);
    RowAfterScan(c, synced, i, |c.order|);
    GateUnderScan(c, rows, i, d);
    if c.defs[d].adultsOnly {
      AdultHasBirthDate(c.birth, c.today);
    }
    SwitchedOnByScan(c, ActivatedTo(c, synced, i), d);
  }

  /** One step of the age scan on a row that is gate-driven. */
  lemma SwitchedOnByScan(c: Context, rows: Rows, d: DefId)
    requires d in c.defs && d in rows && IsGateDriven(c, d) && (c.defs[d].adultsOnly ==> c.birth.Some?)
    ensures var after := Get(ActivatedIfAdult(c, rows, d), d);
            && after.Some?
            && (after.value.status.NotApplicable? <==>
                  rows[d].status.NotApplicable? && (UnmetPrerequisite(c.defs, rows, d).Some? || !c.defs[d].adultsOnly))
  {
  }

  /** After one night a gate-driven row is held exactly when its gate was shut at its turn and, if it is for adults
      only, is shut still. */
  lemma HeldAfterNight(cat: Catalogue, v: Volunteer, t: Day, d: DefId)
    requires ValidCatalogue(cat) && d in cat.order && IsGateDriven(ContextOf(cat, v, t), d)
    ensures var c := ContextOf(cat, v, t);
            && d in AfterNight(cat, v, t).rows
            && (AfterNight(cat, v, t).rows[d].status.NotApplicable? <==>
                  && !IsFinished(Get(v.rows, d)) && BlockedAtTurn(c, v.rows, d)
                  && (WillBlock(c, v.rows, d) || !cat.defs[d].adultsOnly))
  {
    var c := ContextOf(cat, v, t);
    HeldAfterSync(c, v.rows, d);
    HeldAfterScan(c, v.rows, d);
    NightRow(cat, v, t, d);
  }

  /** A gate is right after one night exactly when it answered at its turn as it does after the night, or it has
      opened on a requirement for adults, which the age scan then switches on. */
  lemma NightAnswersGateExactly(cat: Catalogue, v: Volunteer, t: Day, d: DefId)
    requires ValidCatalogue(cat) && d in cat.order
    requires IsGateDriven(ContextOf(cat, v, t), d) && !IsFinished(Get(v.rows, d))
    ensures var c, after := ContextOf(cat, v, t), AfterNight(cat, v, t).rows;
            d in after && ((after[d].status.NotApplicable? <==> UnmetPrerequisite(cat.defs, after, d).Some?)
                           <==> BlockedAtTurn(c, v.rows, d) == WillBlock(c, v.rows, d)
                                || (cat.defs[d].adultsOnly && !WillBlock(c, v.rows, d)))
  {
    HeldAfterNight(cat, v, t, d);
    GateAfterNight(cat, v, t, d);
  }

  /** One night is not always enough: a requirement listed before its prerequisite stays held for another day after
      the prerequisite has been excused, because no role asks for it any more. */
  lemma GateCanLagANight(t: Day)
    ensures exists cat, v: Volunteer ::
              && ValidCatalogue(cat) && Sound(v, cat.defs, t) && 2 in cat.order
              && var one := AfterNight(cat, v, t);
                 && 2 in one.rows && one.rows[2].status.NotApplicable? && UnmetPrerequisite(cat.defs, one.rows, 2).None?
                 && AfterNight(cat, one, t) != one
  {
    var defs := map[1 := NOBODY, 2 := EVERYONE.(mustFollow := Some(1), gate := true)];
    var cat := Catalogue(defs, [2, 1]);
    var rows := map[1 := BLANK_ROW, 2 := BLANK_ROW];
    var v := Volunteer(true, None, NoBlock, [Assignment(Role(0, false), true)], rows, []);
    assert ValidCatalogue(cat);
    assert Sound(v, cat.defs, t);
    HeldANight(cat, v, t);
    var one := AfterNight(cat, v, t);
    assert 2 in one.rows && one.rows[2].status.NotApplicable? && UnmetPrerequisite(cat.defs, one.rows, 2).None?;
  }

  lemma HeldANight(cat: Catalogue, v: Volunteer, t: Day)
    requires ValidCatalogue(cat) && Sound(v, cat.defs, t) && cat.order == [2, 1]
    requires cat.defs[1] == NOBODY && cat.defs[2] == EVERYONE.(mustFollow := Some(1), gate := true)
    requires v.assignments == [Assignment(Role(0, false), true)]
    requires 1 in v.rows && 2 in v.rows && v.rows[1] == v.rows[2] == BLANK_ROW
    ensures var one := AfterNight(cat, v, t);
            && 2 in one.rows && one.rows[2].status.NotApplicable? && UnmetPrerequisite(cat.defs, one.rows, 2).None?
            && AfterNight(cat, one, t) != one
  {
    var c, one := ContextOf(cat, v, t), AfterNight(cat, v, t);
    assert ActiveRoles(v.assignments[1..]) == [];
    assert c.roles == [Role(0, false)];
    assert AppliesToRole(c.defs[2], c.roles[0]);
    assert !Precedes(c.order, 1, 2);
    HeldAfterNight(cat, v, t, 2);
    GateAfterNight(cat, v, t, 2);
    NightRow(cat, v, t, 2);
    OneNightSettles(cat, v, t);
    NightKeepsFileSound(cat, v, t);
    SettledGate(c, one.rows, 2);
    HeldAfterNight(cat, one, t, 2);
  }
}
