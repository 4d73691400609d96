/** The screening services, step by step on a volunteer's file. A service that raises leaves the file as it was. */
module ScreeningServices {
  import opened Wrappers
  import opened Calendar
  import opened AgeRules
  import opened Definitions
  import opened RequirementRows
  import opened Reconciliation
  import opened Settlement
  import opened RequirementInstances
  import opened VolunteerFiles
  import opened NightlySweep
  import opened MapChanges

  class VolunteerFile {
    var isActive: bool
    var birth: Option<Birth>
    var block: Block
    var assignments: seq<Assignment>
    var rows: Rows
    var checks: seq<Check>

    function Value(): Volunteer
      reads this
    {
      Volunteer(isActive, birth, block, assignments, rows, checks)
    }

    constructor Load(v: Volunteer)
      ensures Value() == v
    {
      isActive := v.isActive;
      birth := v.birth;
      block := v.block;
      assignments := v.assignments;
      rows := v.rows;
      checks := v.checks;
    }

    // ---- Keeping the list ------------------------------------------------------------

    method DeadlineFor(cat: Catalogue, d: DefId) returns (deadline: Option<Day>)
      requires d in cat.defs
      ensures deadline == PrerequisiteDeadline(cat.defs, rows, d)
    {
      var months := PrerequisiteOffsetMonths(cat.defs[d]);
      if months == 0 || cat.defs[d].mustFollow.None? {
        return None;
      }
      var p := cat.defs[d].mustFollow.value;
      if p !in rows || rows[p].completedOn.None? {
        return None;
      }
      var due := AddMonths(rows[p].completedOn.value, months);
      return Some(due);
    }

    /** One definition's turn in the loop. */
    method ReconcileDefinition(cat: Catalogue, d: DefId, roles: seq<Role>, adult: bool, ghost c: Context)
      returns (created: bool, updated: bool, retired: bool)
      requires d in cat.defs
      requires cat.defs == c.defs && roles == c.roles && birth == c.birth && (adult <==> IsAdult(c.birth, c.today))
      modifies this`rows
      ensures rows == Visit(c, old(rows), d)
      ensures created <==> d !in old(rows) && d in rows
      ensures updated <==> Moves(old(rows), rows, d) && Applies(c, d)
      ensures retired <==> Moves(old(rows), rows, d) && !Applies(c, d)
    {
      var definition := cat.defs[d];
      created, updated, retired := false, false, false;
      if !AppliesToRoles(definition, roles) {
        if d in rows && IsOutstanding(rows[d].status) {
          var instance := new RequirementInstance.Load(definition, rows[d]);
          instance.HoldNotApplicable(NoCurrentRole);
          rows := rows[d := instance.Value()];
          retired := true;
        }
        return;
      }
      var ageExempt := definition.adultsOnly && !adult;
      var blockedBy := if ageExempt then None else UnmetPrerequisite(cat.defs, rows, d);
      if d !in rows {
        rows := rows[d := Created(ageExempt, blockedBy)];
        created := true;
        return;
      }
      var instance := new RequirementInstance.Load(definition, rows[d]);
      var deadline := DeadlineFor(cat, d);
      updated := instance.Reconcile(birth, ageExempt, blockedBy, deadline);
      rows := rows[d := instance.Value()];
    }

    method ReconcileDefinitions(cat: Catalogue, roles: seq<Role>, adult: bool, ghost c: Context)
      returns (created: nat, updated: nat, retired: nat)
      requires Valid(c) && cat.defs == c.defs && cat.order == c.order
      requires roles == c.roles && birth == c.birth && (adult <==> IsAdult(c.birth, c.today))
      modifies this`rows
      ensures rows == Synced(c, old(rows))
      ensures created == CreatedTo(c, old(rows), |c.order|)
      ensures updated + retired == MovedTo(c, old(rows), |c.order|)
      ensures retired == RetiredTo(c, old(rows), |c.order|)
    {
      ghost var before := rows;
      created, updated, retired := 0, 0, 0;
      var n := 0;
      while n < |cat.order|
        invariant n <= |cat.order|
        invariant rows == SyncTo(c, before, n)
        invariant created == CreatedTo(c, before, n)
        invariant updated + retired == MovedTo(c, before, n)
        invariant retired == RetiredTo(c, before, n)
      {
        var isNew, isUpdated, isRetired := ReconcileDefinition(cat, cat.order[n], roles, adult, c);
        if isNew {
          created := created + 1;
        }
        if isUpdated {
          updated := updated + 1;
        }
        if isRetired {
          retired := retired + 1;
        }
        n := n + 1;
      }
    }

    /** The reconcile loop. The counts say exactly how many rows were created, how many changed that apply, and how
        many that no longer do. */
    method SyncVolunteerRequirements(cat: Catalogue, today: Day) returns (created: nat, updated: nat, retired: nat)
      requires ValidCatalogue(cat)
      modifies this`rows
      ensures Value() == AfterSync(cat, old(Value()), today)
      ensures created == |rows.Keys - old(rows).Keys|
      ensures updated == |Changed(old(rows), rows) - Inapplicable(ContextOf(cat, old(Value()), today))|
      ensures retired == |Changed(old(rows), rows) * Inapplicable(ContextOf(cat, old(Value()), today))|
    {
      ghost var c := ContextOf(cat, Value(), today);
      var adult := ComputeIsAdult(birth, today);
      created, updated, retired := ReconcileDefinitions(cat, ActiveRoles(assignments), adult, c);
      CountsAreExact(c, old(rows), rows);
    }

    /** Re-derives anything gated behind `d` and counts the rows that it moved. */
    method RefreshDependents(cat: Catalogue, d: DefId, today: Day) returns (updated: nat)
      requires ValidCatalogue(cat)
      modifies this`rows
      ensures Value() == WithDependentsRefreshed(cat, old(Value()), d, today)
      ensures updated == |Changed(old(rows), rows) - Inapplicable(ContextOf(cat, old(Value()), today))|
    {
      var hasDependents := exists i ::
        0 <= i < |cat.order| && IsGated(cat.defs[cat.order[i]]) && cat.defs[cat.order[i]].mustFollow == Some(d);
      if !hasDependents {
        NothingChanged(rows);
        return 0;
      }
      var _, refreshed, _ := SyncVolunteerRequirements(cat, today);
      return refreshed;
    }

    // ---- Recording progress ----------------------------------------------------------

    method MarkRequirementComplete(cat: Catalogue, d: DefId, on: Day, notes: string, today: Day) returns (ok: bool)
      requires ValidCatalogue(cat)
      modifies this`rows
      ensures var after := MarkedComplete(cat, old(Value()), d, on, notes, today);
              ok == after.Success? && Value() == if ok then after.value else old(Value())
    {
      if d !in rows || d !in cat.defs {
        return false;
      }
      var instance := new RequirementInstance.Load(cat.defs[d], rows[d]);
      if instance.status == Blocked {
        return false;
      }
      if on > today {
        return false;
      }
      instance.MarkComplete(on, notes);
      rows := rows[d := instance.Value()];
      var _ := RefreshDependents(cat, d, today);
      return true;
    }

    method StartRequirement(cat: Catalogue, d: DefId, today: Day) returns (ok: bool)
      requires d in rows ==> d in cat.defs
      modifies this`rows
      ensures var after := StartedRequirement(old(Value()), d, today);
              ok == after.Success? && Value() == if ok then after.value else old(Value())
    {
      if d !in rows {
        return false;
      }
      var instance := new RequirementInstance.Load(cat.defs[d], rows[d]);
      instance.Start(today);
      rows := rows[d := instance.Value()];
      return true;
    }

    method WaiveRequirement(cat: Catalogue, d: DefId, reasonGiven: bool, today: Day) returns (ok: bool)
      requires ValidCatalogue(cat)
      modifies this`rows
      ensures var after := WaivedRequirement(cat, old(Value()), d, reasonGiven, today);
              ok == after.Success? && Value() == if ok then after.value else old(Value())
    {
      if d !in rows || d !in cat.defs || !reasonGiven || cat.defs[d].isCrc {
        return false;
      }
      var instance := new RequirementInstance.Load(cat.defs[d], rows[d]);
      instance.Waive(today);
      rows := rows[d := instance.Value()];
      var _ := RefreshDependents(cat, d, today);
      return true;
    }

    method ReverseWaiver(cat: Catalogue, d: DefId, reasonGiven: bool, restoreDue: Option<(Option<Day>, DueReason)>,
                         today: Day)
      returns (ok: bool)
      requires ValidCatalogue(cat)
      requires d in rows ==> d in cat.defs
      modifies this`rows
      ensures var after := ReversedWaiver(cat, old(Value()), d, reasonGiven, restoreDue, today);
              ok == after.Success? && Value() == if ok then after.value else old(Value())
    {
      if d !in rows || rows[d].status != Waived || !reasonGiven {
        return false;
      }
      var instance := new RequirementInstance.Load(cat.defs[d], rows[d]);
      instance.ReverseWaiver(restoreDue, today);
      rows := rows[d := instance.Value()];
      var _ := RefreshDependents(cat, d, today);
      return true;
    }

    // ---- Blocks and assignments ------------------------------------------------------

    /** A disqualification is final: only another one may follow it. */
    method SetScreeningBlock(next: Block) returns (ok: bool)
      modifies this`block
      ensures ok <==> !old(block).Disqualified? || next.Disqualified?
      ensures block == if ok then next else old(block)
    {
      if block == Disqualified && next != Disqualified {
        return false;
      }
      block := next;
      return true;
    }

    method EndAllAssignments()
      modifies this`assignments
      ensures assignments == Ended(old(assignments))
    {
      var i := 0;
      while i < |assignments|
        invariant i <= |assignments| == |old(assignments)|
        invariant forall k :: 0 <= k < i ==> assignments[k] == old(assignments)[k].(isActive := false)
        invariant forall k :: i <= k < |assignments| ==> assignments[k] == old(assignments)[k]
      {
        if assignments[i].isActive {
          assignments := assignments[i := assignments[i].(isActive := false)];
        }
        i := i + 1;
      }
    }

    // ---- Criminal record checks ------------------------------------------------------

    /** What a check makes of the requirement behind it, if there is one. */
    method WriteCheckOn(cat: Catalogue, found: Option<DefId>, result: CrcResult, reportDate: Day, today: Day)
      requires ValidCatalogue(cat)
      requires found.Some? ==> found.value in rows && found.value in cat.defs
      modifies this`rows
      ensures Value() == WithCheckOn(cat, old(Value()), found, result, reportDate, today)
    {
      if found.None? {
        return;
      }
      var instance := new RequirementInstance.Load(cat.defs[found.value], rows[found.value]);
      if result == Cleared {
        instance.ClearCheck(reportDate);
      } else {
        instance.BlockOnCheck();
      }
      rows := rows[found.value := instance.Value()];
      var _ := RefreshDependents(cat, found.value, today);
    }

    method RecordCrc(cat: Catalogue, result: CrcResult, reportDate: Day, today: Day) returns (ok: bool)
      requires ValidCatalogue(cat)
      modifies this
      ensures var after := RecordedCrc(cat, old(Value()), result, reportDate, today);
              ok == after.Success? && Value() == if ok then after.value else old(Value())
    {
      if reportDate > today {
        return false;
      }
      if block == Disqualified {
        return false;
      }
      var found := CrcInstanceFor(cat, Value());
      var check := |checks|;
      var previous := CurrentCheck(checks);
      checks := checks + [NewCheck(result, reportDate)];
      if previous.Some? {
        checks := checks[previous.value := checks[previous.value].(supersededBy := Some(check))];
      }
      assert checks == Superseding(old(checks), NewCheck(result, reportDate));
      WriteCheckOn(cat, found, result, reportDate, today);
      if result == NotClear {
        var _ := SetScreeningBlock(CrcNotClear);
      } else if block == CrcNotClear {
        var _ := SetScreeningBlock(NoBlock);
      }
      return true;
    }

    /** Blocks every outstanding row. */
    method BlockOutstandingRows()
      modifies this`rows
      ensures rows == RowsBlocked(old(rows))
    {
      ghost var before := rows;
      var todo := rows.Keys;
      while todo != {}
        invariant todo <= rows.Keys == before.Keys
        invariant forall d :: d in rows ==> rows[d] == if d in todo then before[d] else RowsBlocked(before)[d]
        decreases todo
      {
        var d :| d in todo;
        if IsOutstanding(rows[d].status) {
          rows := rows[d := rows[d].(status := Blocked)];
        }
        todo := todo - {d};
      }
    }

    /** The volunteer stops serving, is blocked for good, and nothing outstanding can be finished. */
    method ApplyPermanentDisqualification()
      modifies this
      ensures Value() == PermanentlyDisqualified(old(Value()))
    {
      EndAllAssignments();
      block := Disqualified;
      BlockOutstandingRows();
    }

    method RecordConvictions(check: nat, entries: seq<Entry>) returns (ok: bool)
      modifies this
      ensures var after := RecordedConvictions(old(Value()), check, entries);
              ok == after.Success? && Value() == if ok then after.value else old(Value())
    {
      if check >= |checks| || checks[check].result != NotClear {
        return false;
      }
      var created: seq<bool> := [];
      var automatic := false;
      var i := 0;
      while i < |entries|
        invariant i <= |entries|
        invariant forall k :: 0 <= k < i ==> entries[k].hasCategory
        invariant created == Automatics(entries[..i])
        invariant automatic <==> true in created
      {
        if !entries[i].hasCategory {
          return false;
        }
        created := created + [entries[i].isAutomatic];
        automatic := automatic || entries[i].isAutomatic;
        i := i + 1;
      }
      assert entries[..i] == entries;
      checks := checks[check := checks[check].(convictions := checks[check].convictions + created)];
      if automatic {
        ApplyPermanentDisqualification();
      }
      return true;
    }

    method RecordDiscretionaryOverride(check: nat, conviction: Option<nat>, decision: Decision, documented: bool)
      returns (ok: bool)
      modifies this
      ensures var after := RecordedOverride(old(Value()), check, conviction, decision, documented);
              ok == after.Success? && Value() == if ok then after.value else old(Value())
    {
      if check >= |checks| || (conviction.Some? && conviction.value >= |checks[check].convictions|) {
        return false;
      }
      if conviction.Some? && checks[check].convictions[conviction.value] {
        return false;
      }
      if block == Disqualified {
        return false;
      }
      if !documented {
        return false;
      }
      checks := checks[check := checks[check].(overrides := checks[check].overrides + 1)];
      if decision == Declined {
        var _ := SetScreeningBlock(Withdrawn);
        EndAllAssignments();
      } else if block == CrcNotClear {
        var _ := SetScreeningBlock(NoBlock);
      }
      return true;
    }

    method ResolveNotClear(check: nat, outcome: NotClearOutcome) returns (ok: bool)
      modifies this
      ensures var after := ResolvedNotClear(old(Value()), check, outcome);
              ok == after.Success? && Value() == if ok then after.value else old(Value())
    {
      if check >= |checks| || checks[check].result != NotClear {
        return false;
      }
      if outcome == NoOutcome {
        return false;
      }
      if outcome == Withdrew {
        ok := SetScreeningBlock(Withdrawn);
        if !ok {
          return;
        }
        EndAllAssignments();
      }
      checks := checks[check := checks[check].(outcome := outcome)];
      return true;
    }

    // ---- Sending an entry back -------------------------------------------------------

    method RestoreFromSnapshot(cat: Catalogue, d: DefId, s: Snapshot, today: Day)
      requires ValidCatalogue(cat) && d in rows && d in cat.defs
      modifies this`rows
      ensures Value() == RestoredFromSnapshot(cat, old(Value()), d, s, today)
    {
      var instance := new RequirementInstance.Load(cat.defs[d], rows[d]);
      instance.RestoreFromSnapshot(s, today);
      rows := rows[d := instance.Value()];
      var _ := RefreshDependents(cat, d, today);
    }

    method SendBackCompletion(cat: Catalogue, d: DefId, s: Snapshot, today: Day) returns (reverted: bool)
      requires ValidCatalogue(cat)
      requires d in rows ==> d in cat.defs
      modifies this`rows
      ensures Value() == CompletionSentBack(cat, old(Value()), d, s, today)
      ensures reverted <==> d in old(rows) && old(rows)[d].status.Complete?
    {
      if d !in rows {
        return false;
      }
      if rows[d].status != Complete {
        return false;
      }
      RestoreFromSnapshot(cat, d, s, today);
      return true;
    }

    method SendBackCrc(cat: Catalogue, check: nat, instance: Option<DefId>, s: Snapshot, displaced: Option<nat>,
                       today: Day)
      returns (reverted: bool)
      requires ValidCatalogue(cat)
      requires instance.Some? && instance.value in rows ==> instance.value in cat.defs
      modifies this
      ensures Value() == CrcSentBack(cat, old(Value()), check, instance, s, displaced, today)
      ensures reverted <==> CanRetract(old(Value()), check)
    {
      if check >= |checks| {
        return false;
      }
      if checks[check].convictions != [] || checks[check].overrides > 0 {
        return false;
      }
      if checks[check].supersededBy.Some? {
        return false;
      }
      if instance.Some? && instance.value in rows {
        RestoreFromSnapshot(cat, instance.value, s, today);
      }
      if displaced.Some? && displaced.value < |checks| {
        checks := checks[displaced.value := checks[displaced.value].(supersededBy := None)];
      }
      if block == CrcNotClear {
        var _ := SetScreeningBlock(NoBlock);
      }
      return true;
    }

    method SendBackWaiver(cat: Catalogue, d: DefId, s: Snapshot, today: Day) returns (reverted: bool)
      requires ValidCatalogue(cat)
      requires d in rows ==> d in cat.defs
      modifies this`rows
      ensures Value() == WaiverSentBack(cat, old(Value()), d, s, today)
      ensures reverted <==> d in old(rows) && old(rows)[d].status.Waived?
    {
      if d !in rows {
        return false;
      }
      if rows[d].status != Waived {
        return false;
      }
      reverted := ReverseWaiver(cat, d, true, Some((s.dueOn, s.dueReason)), today);
    }

    // ---- Nightly work ----------------------------------------------------------------

    /** Recomputes each row for the day and counts those that moved. */
    method RecomputeAllStatuses(cat: Catalogue, today: Day) returns (changed: nat)
      requires forall d :: d in rows ==> d in cat.defs
      modifies this`rows
      ensures Value() == AllRecomputed(old(Value()), today)
      ensures changed == |Changed(old(rows), rows)|
    {
      ghost var before := rows;
      var todo := rows.Keys;
      changed := 0;
      while todo != {}
        invariant todo <= rows.Keys == before.Keys
        invariant forall d :: d in todo ==> rows[d] == before[d]
        invariant forall d :: d in rows && d !in todo ==> rows[d] == Recomputed(before[d], today)
        invariant changed == |Changed(before, rows)|
        decreases todo
      {
        var d :| d in todo;
        var instance := new RequirementInstance.Load(cat.defs[d], rows[d]);
        var moved := instance.Recompute(today);
        CountChanged(before, rows, d, instance.Value());
        rows := rows[d := instance.Value()];
        if moved {
          changed := changed + 1;
        }
        todo := todo - {d};
      }
    }

    /** One candidate of the age scan. */
    method ActivateIfAdult(cat: Catalogue, d: DefId, adult: bool, ghost c: Context) returns (activated: bool)
      requires d in cat.defs && cat.defs == c.defs && ActiveRoles(assignments) == c.roles
      requires birth == c.birth && (adult <==> IsAdult(c.birth, c.today))
      modifies this`rows
      ensures rows == ActivatedIfAdult(c, old(rows), d)
      ensures activated <==> SwitchedOn(old(rows), rows, d)
    {
      if d !in rows || rows[d].status != NotApplicable || !cat.defs[d].adultsOnly || birth.None? {
        return false;
      }
      if !adult || !AppliesToRoles(cat.defs[d], ActiveRoles(assignments))
        || UnmetPrerequisite(cat.defs, rows, d).Some? {
        return false;
      }
      var instance := new RequirementInstance.Load(cat.defs[d], rows[d]);
      var deadline := DeadlineFor(cat, d);
      instance.Activate(birth, deadline);
      rows := rows[d := instance.Value()];
      return true;
    }

    /** Switches on what the age rule alone was holding, and lists exactly the rows that it switched on. */
    method ActivateTurning18Checks(cat: Catalogue, today: Day) returns (activated: seq<DefId>)
      requires ValidCatalogue(cat)
      modifies this`rows
      ensures Value() == AfterAgeScan(cat, old(Value()), today)
      ensures forall d :: d in activated <==> SwitchedOn(old(rows), rows, d)
      ensures forall i, j :: 0 <= i < j < |activated| ==> activated[i] != activated[j]
    {
      ghost var c := ContextOf(cat, Value(), today);
      ghost var before := rows;
      var adult := ComputeIsAdult(birth, today);
      activated := [];
      var n := 0;
      while n < |cat.order|
        invariant n <= |cat.order|
        invariant rows == ActivatedTo(c, before, n)
        invariant forall d :: d in activated <==> SwitchedOn(before, rows, d)
        invariant forall d :: d in activated ==> d in cat.order[..n]
        invariant forall i, j :: 0 <= i < j < |activated| ==> activated[i] != activated[j]
      {
        var d := cat.order[n];
        ScanStep(c, before, n);
        var isOn := ActivateIfAdult(cat, d, adult, c);
        if isOn {
          activated := activated + [d];
        }
        n := n + 1;
      }
    }
  }

  /** The row was held before and is not any more. */
  ghost predicate SwitchedOn(before: Rows, after: Rows, d: DefId) {
    d in before && before[d].status.NotApplicable? && d in after && !after[d].status.NotApplicable?
  }

  /** A step of the age scan reads the row of its own definition as it was, and writes no other. */
  lemma {:induction false} ScanStep(c: Context, rows: Rows, n: nat)
    requires Valid(c) && n < |c.order|
    ensures var last, next, d := ActivatedTo(c, rows, n), ActivatedTo(c, rows, n + 1), c.order[n];
            && d !in c.order[..n] && c.order[..n + 1] == c.order[..n] + [d]
            && Get(last, d) == Get(rows, d)
            && forall k :: k != d ==> Get(next, k) == Get(last, k)
  {
    RowBeforeScan(c, rows, n, c.order[n]);
  }

  // ---- Counting -----------------------------------------------------------------------

  /** How many of the first `n` turns created a row. */
  ghost function CreatedTo(c: Context, rows: Rows, n: nat): nat
    requires Valid(c) && n <= |c.order|
  {
    if n == 0 then 0
    else
      var d := c.order[n - 1];
      CreatedTo(c, rows, n - 1) + if Creates(SyncTo(c, rows, n - 1), SyncTo(c, rows, n), d) then 1 else 0
  }

  /** How many of the first `n` turns changed a row. */
  ghost function MovedTo(c: Context, rows: Rows, n: nat): nat
    requires Valid(c) && n <= |c.order|
  {
    if n == 0 then 0
    else
      var d := c.order[n - 1];
      MovedTo(c, rows, n - 1) + if Moves(SyncTo(c, rows, n - 1), SyncTo(c, rows, n), d) then 1 else 0
  }

  /** How many of the first `n` turns changed the row of a definition that does not apply. */
  ghost function RetiredTo(c: Context, rows: Rows, n: nat): nat
    requires Valid(c) && n <= |c.order|
  {
    if n == 0 then 0
    else
      var d := c.order[n - 1];
      var isRetired := Moves(SyncTo(c, rows, n - 1), SyncTo(c, rows, n), d) && !Applies(c, d);
      RetiredTo(c, rows, n - 1) + if isRetired then 1 else 0
  }

  ghost function Inapplicable(c: Context): set<DefId> {
    set d | d in c.defs && !Applies(c, d)
  }

  ghost predicate Creates(rows: Rows, next: Rows, d: DefId) {
    d !in rows && d in next
  }

  ghost predicate Moves(rows: Rows, next: Rows, d: DefId) {
    d in rows && d in next && next[d] != rows[d]
  }

  lemma SyncStep(c: Context, rows: Rows, n: nat)
    requires Valid(c) && 0 < n <= |c.order|
    ensures var last, next, d := SyncTo(c, rows, n - 1), SyncTo(c, rows, n), c.order[n - 1];
            && Get(last, d) == Get(rows, d)
            && (d in last ==> d in next)
            && next == (if d in next then last[d := next[d]] else last)
            && next.Keys == if d in next then last.Keys + {d} else last.Keys
  {
    var last, d := SyncTo(c, rows, n - 1), c.order[n - 1];
    RowBeforeTurn(c, rows, n - 1, d);
    VisitOne(c, last, d, d);
    TurnKeepsHistory(c, d, Get(last, d), UnmetPrerequisite(c.defs, last, d), PrerequisiteDeadline(c.defs, last, d));
  }

  lemma {:induction false} CreatedIsExact(c: Context, rows: Rows, n: nat, later: Rows)
    requires Valid(c) && n <= |c.order| && later == SyncTo(c, rows, n)
    ensures CreatedTo(c, rows, n) == |later.Keys - rows.Keys|
  {
    if n == 0 {
      assert rows.Keys - rows.Keys == {};
    } else {
      var last := SyncTo(c, rows, n - 1);
      CreatedIsExact(c, rows, n - 1, last);
      SyncStep(c, rows, n);
      CountKey(rows.Keys, last.Keys, later.Keys, c.order[n - 1]);
    }
  }

  lemma {:induction false} MovedIsExact(c: Context, rows: Rows, n: nat)
    requires Valid(c) && n <= |c.order|
    ensures MovedTo(c, rows, n) == |Changed(rows, SyncTo(c, rows, n))|
  {
    if n == 0 {
      assert Changed(rows, rows) == {};
    } else {
      MovedIsExact(c, rows, n - 1);
      SyncStep(c, rows, n);
      CountWrite(rows, SyncTo(c, rows, n - 1), SyncTo(c, rows, n), c.order[n - 1]);
    }
  }

  lemma {:induction false} RetiredIsExact(c: Context, rows: Rows, n: nat, later: Rows, gone: set<DefId>)
    requires Valid(c) && n <= |c.order| && later == SyncTo(c, rows, n) && gone == Inapplicable(c)
    ensures RetiredTo(c, rows, n) == |Changed(rows, later) * gone|
  {
    if n == 0 {
      assert Changed(rows, rows) * gone == {};
    } else {
      var last, d := SyncTo(c, rows, n - 1), c.order[n - 1];
      RetiredIsExact(c, rows, n - 1, last, gone);
      SyncStep(c, rows, n);
      CountWriteAmong(rows, last, later, d, gone);
      assert d in gone <==> !Applies(c, d);
    }
  }

  lemma CountsAreExact(c: Context, rows: Rows, later: Rows)
    requires Valid(c) && later == Synced(c, rows)
    ensures CreatedTo(c, rows, |c.order|) == |later.Keys - rows.Keys|
    ensures RetiredTo(c, rows, |c.order|) == |Changed(rows, later) * Inapplicable(c)|
    ensures MovedTo(c, rows, |c.order|) == RetiredTo(c, rows, |c.order|) + |Changed(rows, later) - Inapplicable(c)|
  {
    CreatedIsExact(c, rows, |c.order|, later);
    MovedIsExact(c, rows, |c.order|);
    RetiredIsExact(c, rows, |c.order|, later, Inapplicable(c));
    SplitSize(Changed(rows, later), Inapplicable(c));
  }
}
