/** Every service that moves a prerequisite settles what waits on it before it returns. */
module GateResponse {
  import opened Wrappers
  import opened Calendar
  import opened Definitions
  import opened RequirementRows
  import opened Reconciliation
  import opened Settlement
  import opened VolunteerFiles
  import opened RecordedProgress

  /** `d` waits behind `p`, a role asks for it and age does not excuse it. */
  ghost predicate IsDependent(c: Context, p: DefId, d: DefId)
    requires Valid(c)
  {
    d in c.order && c.defs[d].mustFollow == Some(p) && IsGateDriven(c, d)
  }

  /** Every dependent of `p` follows its gate: switched on if the gate is open and not outstanding if it is shut. */
  ghost predicate GatesFollowed(c: Context, rows: Rows, p: DefId)
    requires Valid(c)
  {
    forall d :: IsDependent(c, p, d) ==> SettledAt(c, rows, d)
  }

  ghost predicate GatesAnswered(cat: Catalogue, v: Volunteer, p: DefId, today: Day)
    requires ValidCatalogue(cat)
  {
    GatesFollowed(ContextOf(cat, v, today), v.rows, p)
  }

  // ---- Exactly when ------------------------------------------------------------------

  /** Writing any row and refreshing what waits on it answers the gates exactly when each of them is seen in time. */
  lemma RefreshAnswersGatesExactly(cat: Catalogue, v: Volunteer, p: DefId, r: Row, today: Day)
    requires ValidCatalogue(cat)
    ensures var c := ContextOf(cat, v, today);
            GatesAnswered(cat, WithDependentsRefreshed(cat, WithRow(v, p, r), p, today), p, today)
            <==> forall d :: IsDependent(c, p, d) ==> GateSeenInTime(c, v.rows[p := r], d)
  {
    var c := ContextOf(cat, v, today);
    forall d | IsDependent(c, p, d)
      ensures SettledAt(c, WithDependentsRefreshed(cat, WithRow(v, p, r), p, today).rows, d)
              <==> GateSeenInTime(c, v.rows[p := r], d)
    {
      assert HasGatedDependents(cat, p);
      OneSyncSettlesExactly(c, v.rows[p := r], d);
    }
  }

  /** The prerequisite is one whose own applicability is not in question: it is gated itself, or a
      role asks for it and age does not excuse it. */
  ghost predicate IsOwed(c: Context, p: DefId)
    requires p in c.defs
  {
    IsGated(c.defs[p]) || (Applies(c, p) && !IsAgeExempt(c, p))
  }

  /** No unfinished dependent takes its turn before the prerequisite does. */
  ghost predicate DependentsComeLater(c: Context, rows: Rows, p: DefId)
    requires Valid(c)
  {
    forall d :: IsDependent(c, p, d) && !IsFinished(Get(rows, d)) ==> Precedes(c.order, p, d)
  }

  /** A prerequisite left unmet answers its gates exactly when it is owed, or no longer in use, or its
      dependents come later in the order. */
  ghost predicate AnswersUnmet(c: Context, rows: Rows, p: DefId)
    requires Valid(c) && p in c.defs
  {
    !c.defs[p].isActive || IsOwed(c, p) || DependentsComeLater(c, rows, p)
  }

  lemma SeenInTime(c: Context, rows: Rows, p: DefId, r: Row, d: DefId)
    requires Valid(c) && p in c.defs && (IsDone(r) || IsOutstanding(r.status)) && !r.status.NotApplicable?
    requires IsDependent(c, p, d)
    ensures GateSeenInTime(c, rows[p := r], d)
            <==> IsDone(r) || !c.defs[p].isActive || IsOwed(c, p) || IsFinished(Get(rows, d)) || Precedes(c.order, p, d)
  {
  }

  lemma WriteAnswersGates(cat: Catalogue, v: Volunteer, p: DefId, r: Row, today: Day)
    requires ValidCatalogue(cat) && p in cat.defs && (IsDone(r) || IsOutstanding(r.status)) && !r.status.NotApplicable?
    ensures GatesAnswered(cat, WithDependentsRefreshed(cat, WithRow(v, p, r), p, today), p, today)
            <==> IsDone(r) || AnswersUnmet(ContextOf(cat, v, today), v.rows, p)
  {
    var c := ContextOf(cat, v, today);
    RefreshAnswersGatesExactly(cat, v, p, r, today);
    forall d | IsDependent(c, p, d)
      ensures GateSeenInTime(c, v.rows[p := r], d)
              <==> IsDone(r) || !c.defs[p].isActive || IsOwed(c, p)
                   || IsFinished(Get(v.rows, d)) || Precedes(c.order, p, d)
    {
      SeenInTime(c, v.rows, p, r, d);
    }
  }

  // ---- Service by service --------------------------------------------------------------

  lemma CompletionAnswersGates(cat: Catalogue, v: Volunteer, p: DefId, on: Day, notes: string, today: Day)
    requires ValidCatalogue(cat)
    ensures var after := MarkedComplete(cat, v, p, on, notes, today);
            after.Success? ==> GatesAnswered(cat, after.value, p, today)
  {
    if MarkedComplete(cat, v, p, on, notes, today).Success? {
      WriteAnswersGates(cat, v, p, Completed(v.rows[p], cat.defs[p], on, notes), today);
    }
  }

  lemma WaiverAnswersGates(cat: Catalogue, v: Volunteer, p: DefId, reasonGiven: bool, today: Day)
    requires ValidCatalogue(cat)
    ensures var after := WaivedRequirement(cat, v, p, reasonGiven, today);
            after.Success? ==> GatesAnswered(cat, after.value, p, today)
  {
    if WaivedRequirement(cat, v, p, reasonGiven, today).Success? {
      WriteAnswersGates(cat, v, p, WaivedRow(v.rows[p], today), today);
    }
  }

  lemma ReversalAnswersGates(cat: Catalogue, v: Volunteer, p: DefId, restoreDue: Option<(Option<Day>, DueReason)>,
                             today: Day)
    requires ValidCatalogue(cat) && p in cat.defs
    ensures var after := ReversedWaiver(cat, v, p, true, restoreDue, today);
            after.Success? ==>
              (GatesAnswered(cat, after.value, p, today)
               <==> v.rows[p].completedOn.Some? || AnswersUnmet(ContextOf(cat, v, today), v.rows, p))
  {
    if ReversedWaiver(cat, v, p, true, restoreDue, today).Success? {
      WriteAnswersGates(cat, v, p, WaiverReversed(v.rows[p], restoreDue, today), today);
    }
  }

  lemma CheckAnswersGates(cat: Catalogue, v: Volunteer, p: DefId, result: CrcResult, reportDate: Day, today: Day)
    requires ValidCatalogue(cat) && CrcInstanceFor(cat, v) == Some(p)
    ensures var after := RecordedCrc(cat, v, result, reportDate, today);
            after.Success? ==> (GatesAnswered(cat, after.value, p, today)
                                <==> result.Cleared? || AnswersUnmet(ContextOf(cat, v, today), v.rows, p))
  {
    if RecordedCrc(cat, v, result, reportDate, today).Success? {
      var filed := v.(checks := Superseding(v.checks, NewCheck(result, reportDate)));
      var r := CheckedRow(v.rows[p], result, reportDate);
      WriteAnswersGates(cat, filed, p, r, today);
    }
  }

  lemma SendBackAnswersGates(cat: Catalogue, v: Volunteer, p: DefId, s: Snapshot, today: Day)
    requires ValidCatalogue(cat) && p in cat.defs && p in v.rows
    ensures GatesAnswered(cat, RestoredFromSnapshot(cat, v, p, s, today), p, today)
            <==> s.completedOn.Some? || AnswersUnmet(ContextOf(cat, v, today), v.rows, p)
  {
    WriteAnswersGates(cat, v, p, Restored(v.rows[p], s, today), today);
  }

  /** In particular, behind a prerequisite that is owed every one of these services answers the gates. */
  lemma OwedAnswersGates(cat: Catalogue, v: Volunteer, p: DefId, s: Snapshot, result: CrcResult, reportDate: Day,
                         today: Day)
    requires ValidCatalogue(cat) && p in cat.defs && p in v.rows && IsOwed(ContextOf(cat, v, today), p)
    ensures GatesAnswered(cat, RestoredFromSnapshot(cat, v, p, s, today), p, today)
    ensures var after := ReversedWaiver(cat, v, p, true, Some((s.dueOn, s.dueReason)), today);
            after.Success? ==> GatesAnswered(cat, after.value, p, today)
    ensures var after := RecordedCrc(cat, v, result, reportDate, today);
            after.Success? && CrcInstanceFor(cat, v) == Some(p) ==> GatesAnswered(cat, after.value, p, today)
  {
    SendBackAnswersGates(cat, v, p, s, today);
    ReversalAnswersGates(cat, v, p, Some((s.dueOn, s.dueReason)), today);
    if CrcInstanceFor(cat, v) == Some(p) {
      CheckAnswersGates(cat, v, p, result, reportDate, today);
    }
  }

  /** Months that a dependent has after its prerequisite: its own offset, or else what its cadence says. */
  predicate WaitsFor(def: Definition, months: nat) {
    if def.dueMonthsAfterPrerequisite > 0 then months == def.dueMonthsAfterPrerequisite else LastsFor(def, months)
  }

  /** A completion that releases a dependent dates it from the completion. */
  lemma ReleasedByCompletion(cat: Catalogue, v: Volunteer, p: DefId, on: Day, notes: string, today: Day, d: DefId,
                             months: nat)
    requires ValidCatalogue(cat) && MarkedComplete(cat, v, p, on, notes, today).Success?
    requires IsDependent(ContextOf(cat, v, today), p, d) && d != p
    requires d in v.rows && v.rows[d].status.NotApplicable?
    requires !(cat.defs[d].isCrc && cat.defs[d].adultsOnly) && WaitsFor(cat.defs[d], months)
    ensures var after := MarkedComplete(cat, v, p, on, notes, today).value.rows;
            && d in after && after[d].status == NotStarted
            && after[d].dueOn == Some(ShiftMonths(on, months)) && after[d].dueReason == AfterPrerequisite
  {
    assert HasGatedDependents(cat, p);
    ReleasedBehindCompletion(ContextOf(cat, v, today),
                             WithRow(v, p, Completed(v.rows[p], cat.defs[p], on, notes)).rows, p, d);
  }

  /** One that is open already takes the new deadline if it had none or a later one, and keeps an earlier one. */
  lemma RedatedByCompletion(cat: Catalogue, v: Volunteer, p: DefId, on: Day, notes: string, today: Day, d: DefId,
                            months: nat)
    requires ValidCatalogue(cat) && MarkedComplete(cat, v, p, on, notes, today).Success?
    requires IsDependent(ContextOf(cat, v, today), p, d) && d != p && WaitsFor(cat.defs[d], months)
    requires d in v.rows && v.rows[d].status in {NotStarted, InProgress, Overdue, Blocked}
    requires v.rows[d].completedOn.None?
    ensures var before, after := v.rows[d], MarkedComplete(cat, v, p, on, notes, today).value.rows;
            var due := ShiftMonths(on, months);
            && d in after && after[d] == before.(dueOn := after[d].dueOn, dueReason := after[d].dueReason)
            && after[d].dueOn == (if before.dueOn.Some? && before.dueOn.value < due then before.dueOn else Some(due))
            && (after[d].dueOn != before.dueOn ==> after[d].dueReason == AfterPrerequisite)
  {
    assert HasGatedDependents(cat, p);
    RedatedBehindCompletion(ContextOf(cat, v, today),
                            WithRow(v, p, Completed(v.rows[p], cat.defs[p], on, notes)).rows, p, d);
  }

  // ---- An example --------------------------------------------------------------------

  /** A send-back can return with a gate unanswered: the dependent comes first in the order, and the prerequisite,
      whose completion is sent back, is one that no role asks for any more. */
  lemma SendBackCanLeaveGate()
    ensures exists cat, v: Volunteer, today ::
              && ValidCatalogue(cat) && 1 in v.rows && v.rows[1].status.Complete?
              && !GatesAnswered(cat, CompletionSentBack(cat, v, 1, EMPTY_SNAPSHOT, today), 1, today)
  {
    var defs := map[1 := NOBODY.(cadence := OneTime), 2 := EVERYONE.(mustFollow := Some(1), gate := true)];
    var cat := Catalogue(defs, [2, 1]);
    var done := BLANK_ROW.(status := Complete, completedOn := Some(5));
    var v := Volunteer(true, None, NoBlock, [Assignment(Role(0, false), true)], map[1 := done, 2 := BLANK_ROW], []);
    assert ValidCatalogue(cat);
    LeftUnanswered(cat, v, 10);
    assert 1 in v.rows && v.rows[1].status.Complete?;
  }

  lemma LeftUnanswered(cat: Catalogue, v: Volunteer, today: Day)
    requires ValidCatalogue(cat) && cat.order == [2, 1] && cat.defs[1] == NOBODY.(cadence := OneTime)
    requires cat.defs[2] == EVERYONE.(mustFollow := Some(1), gate := true)
    requires v.assignments == [Assignment(Role(0, false), true)]
    requires 1 in v.rows && 2 in v.rows && v.rows[1].status.Complete? && v.rows[2] == BLANK_ROW
    ensures !GatesAnswered(cat, CompletionSentBack(cat, v, 1, EMPTY_SNAPSHOT, today), 1, today)
  {
    var c := ContextOf(cat, v, today);
    assert ActiveRoles(v.assignments[1..]) == [];
    assert c.roles == [Role(0, false)];
    assert AppliesToRole(c.defs[2], c.roles[0]);
    assert IsDependent(c, 1, 2) && !Precedes(c.order, 1, 2);
    SendBackAnswersGates(cat, v, 1, EMPTY_SNAPSHOT, today);
  }
}
