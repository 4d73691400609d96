/** What the roles a volunteer serves in make of the list: which requirements are kept, held or created, and why. */
module ServingRoles {
  import opened Wrappers
  import opened Calendar
  import opened AgeRules
  import opened Definitions
  import opened RequirementRows
  import opened Reconciliation
  import opened Settlement
  import opened VolunteerFiles

  /** The volunteer serves, as the file stands, in a role of the kind that the definition names. */
  ghost predicate IsAskedOf(v: Volunteer, def: Definition) {
    exists i :: 0 <= i < |v.assignments| && v.assignments[i].isActive && Names(def.appliesTo, v.assignments[i])
  }

  predicate Names(appliesTo: AppliesTo, a: Assignment) {
    || appliesTo.AllRoles?
    || (appliesTo.SpecificRoles? && a.role.pk in appliesTo.roles)
    || (appliesTo.Leadership? && a.role.isLeadership)
  }

  /** The birth date is not known to make the volunteer 18 by the day. */
  ghost predicate IsTooYoung(v: Volunteer, def: Definition, today: Day) {
    def.adultsOnly && (v.birth.Some? ==> today < TriggerDay(v.birth.value))
  }

  // ---- Roles --------------------------------------------------------------------------

  lemma {:induction false} ActiveRolesAt(assignments: seq<Assignment>, i: nat) returns (k: nat)
    requires i < |assignments| && assignments[i].isActive
    ensures k < |ActiveRoles(assignments)| && ActiveRoles(assignments)[k] == assignments[i].role
  {
    if i == 0 {
      k := 0;
    } else {
      k := ActiveRolesAt(assignments[1..], i - 1);
      k := k + if assignments[0].isActive then 1 else 0;
    }
  }

  lemma {:induction false} ActiveRoleIsServed(assignments: seq<Assignment>, k: nat) returns (i: nat)
    requires k < |ActiveRoles(assignments)|
    ensures i < |assignments| && assignments[i].isActive && assignments[i].role == ActiveRoles(assignments)[k]
  {
    if assignments[0].isActive && k == 0 {
      i := 0;
    } else {
      i := ActiveRoleIsServed(assignments[1..], k - if assignments[0].isActive then 1 else 0);
      i := i + 1;
    }
  }

  lemma AppliesWhenAsked(cat: Catalogue, v: Volunteer, d: DefId, today: Day)
    requires d in cat.defs
    ensures Applies(ContextOf(cat, v, today), d) <==> IsAskedOf(v, cat.defs[d])
  {
    var c := ContextOf(cat, v, today);
    if Applies(c, d) {
      var k :| 0 <= k < |c.roles| && AppliesToRole(c.defs[d], c.roles[k]);
      var i := ActiveRoleIsServed(v.assignments, k);
      assert Names(c.defs[d].appliesTo, v.assignments[i]);
    }
    if IsAskedOf(v, cat.defs[d]) {
      var i :| 0 <= i < |v.assignments| && v.assignments[i].isActive && Names(cat.defs[d].appliesTo, v.assignments[i]);
      var k := ActiveRolesAt(v.assignments, i);
      assert AppliesToRole(c.defs[d], c.roles[k]);
    }
  }

  lemma ExemptWhenTooYoung(cat: Catalogue, v: Volunteer, d: DefId, today: Day)
    requires d in cat.defs
    ensures IsAgeExempt(ContextOf(cat, v, today), d) <==> IsTooYoung(v, cat.defs[d], today)
  {
    AdultFromTriggerDay(v.birth, today);
  }

  // ---- What a sync makes of the list ----------------------------------------------------

  predicate IsOwing(row: Option<Row>) {
    row.Some? && row.value.status in {NotStarted, InProgress, Overdue, Blocked}
  }

  /** A held row says why, and has no deadline. */
  predicate IsHeldFor(row: Option<Row>, reason: HeldReason) {
    row.Some? && row.value.status == NotApplicable && row.value.heldReason == reason && row.value.dueOn.None?
  }

  lemma SyncedRow(cat: Catalogue, v: Volunteer, d: DefId, today: Day)
    requires ValidCatalogue(cat) && d in cat.order
    requires !IsGated(cat.defs[d]) || !IsAskedOf(v, cat.defs[d]) || IsTooYoung(v, cat.defs[d], today)
    ensures Get(AfterSync(cat, v, today).rows, d) == Turn(ContextOf(cat, v, today), d, Get(v.rows, d), None, None)
  {
    AppliesWhenAsked(cat, v, d, today);
    ExemptWhenTooYoung(cat, v, d, today);
    SelfContainedRow(ContextOf(cat, v, today), v.rows, d);
  }

  /** What nobody asks of the volunteer is not owed: no row is created for it, and one that was owed is held. */
  lemma NobodyAsks(cat: Catalogue, v: Volunteer, d: DefId, today: Day)
    requires ValidCatalogue(cat) && d in cat.order && !IsAskedOf(v, cat.defs[d])
    ensures var before, after := Get(v.rows, d), Get(AfterSync(cat, v, today).rows, d);
            && !IsOwing(after)
            && (if IsOwing(before) then IsHeldFor(after, NoCurrentRole) else after == before)
  {
    AppliesWhenAsked(cat, v, d, today);
    SyncedRow(cat, v, d, today);
  }

  /** What is asked of somebody too young is on the list and not owed. */
  lemma AskedTooYoung(cat: Catalogue, v: Volunteer, d: DefId, today: Day)
    requires ValidCatalogue(cat) && d in cat.order && IsAskedOf(v, cat.defs[d]) && IsTooYoung(v, cat.defs[d], today)
    ensures var before, after := Get(v.rows, d), Get(AfterSync(cat, v, today).rows, d);
            && after.Some? && !IsOwing(after)
            && (if before.None? || IsOwing(before) then IsHeldFor(after, AgeExempt) else after == before)
  {
    AppliesWhenAsked(cat, v, d, today);
    ExemptWhenTooYoung(cat, v, d, today);
    SyncedRow(cat, v, d, today);
  }

  /** What is asked of anybody else and waits for nothing is on the list and not held; what was owed already stays as
      it was. */
  lemma AskedAndOwed(cat: Catalogue, v: Volunteer, d: DefId, today: Day)
    requires ValidCatalogue(cat) && d in cat.order && IsAskedOf(v, cat.defs[d]) && !IsTooYoung(v, cat.defs[d], today)
    requires !(cat.defs[d].gate && cat.defs[d].mustFollow.Some?)
    ensures var before, after := Get(v.rows, d), Get(AfterSync(cat, v, today).rows, d);
            && after.Some? && after.value.status != NotApplicable
            && (before.None? ==> after.value.status == NotStarted && after.value.dueOn.None?)
            && (before.Some? && before.value.status == NotApplicable ==>
                  after.value.status == NotStarted && after.value.completedOn == before.value.completedOn)
            && (before.Some? && before.value.status != NotApplicable ==> after == before)
  {
    AppliesWhenAsked(cat, v, d, today);
    ExemptWhenTooYoung(cat, v, d, today);
    SyncedRow(cat, v, d, today);
  }

  /** A row that a sync holds behind a gate names the prerequisite, and that prerequisite had not been met. */
  lemma HeldBehindGate(cat: Catalogue, v: Volunteer, d: DefId, today: Day)
    requires ValidCatalogue(cat) && d in cat.order && IsAskedOf(v, cat.defs[d]) && !IsTooYoung(v, cat.defs[d], today)
    requires cat.defs[d].gate && cat.defs[d].mustFollow.Some?
    ensures var before, after := Get(v.rows, d), Get(AfterSync(cat, v, today).rows, d);
            && after.Some?
            && (after.value.status == NotApplicable && (before.None? || IsOwing(before)) ==>
                  && IsHeldFor(after, WaitingFor(cat.defs[d].mustFollow.value))
                  && var prior := Get(AfterSync(cat, v, today).rows, cat.defs[d].mustFollow.value);
                     prior.Some? && prior.value.completedOn.None? && prior.value.status != Waived)
  {
    AppliesWhenAsked(cat, v, d, today);
    ExemptWhenTooYoung(cat, v, d, today);
    var c, p := ContextOf(cat, v, today), cat.defs[d].mustFollow.value;
    var i :| 0 <= i < |c.order| && c.order[i] == d;
    RowBeforeTurn(c, v.rows, i, d);
    RowAfterTurn(c, v.rows, i, |c.order|);
    SyncRestKeepsHistory(c, v.rows, i, |c.order|, p);
  }

  lemma {:induction false} SyncRestKeepsHistory(c: Context, rows: Rows, i: nat, n: nat, p: DefId)
    requires Valid(c) && i <= n <= |c.order|
    ensures KeepsHistory(Get(SyncTo(c, rows, i), p), Get(SyncTo(c, rows, n), p))
    ensures p in SyncTo(c, rows, i) ==> p in SyncTo(c, rows, n)
  {
    if i < n {
      SyncRestKeepsHistory(c, rows, i, n - 1, p);
      VisitKeepsHistory(c, SyncTo(c, rows, n - 1), c.order[n - 1], p);
    }
  }

  /** A role taken up puts what it asks for on the list at the next sync; the last such role given up takes it off. */
  lemma TakingUpARole(cat: Catalogue, v: Volunteer, role: Role, d: DefId, today: Day)
    requires ValidCatalogue(cat) && d in cat.order && Names(cat.defs[d].appliesTo, Assignment(role, true))
    requires !IsTooYoung(v, cat.defs[d], today) && !(cat.defs[d].gate && cat.defs[d].mustFollow.Some?)
    ensures var taken := Assigned(v, role);
            && (taken.Refused? <==>
                  v.block == Disqualified
                  || exists i :: && 0 <= i < |v.assignments| && v.assignments[i].isActive
                                 && v.assignments[i].role.pk == role.pk)
            && (taken.Success? ==>
                  && taken.value.assignments == v.assignments + [Assignment(role, true)]
                  && var after := Get(AfterSync(cat, taken.value, today).rows, d);
                     after.Some? && after.value.status != NotApplicable)
  {
    var taken := Assigned(v, role);
    if taken.Success? {
      assert taken.value.assignments[|v.assignments|] == Assignment(role, true);
      AskedAndOwed(cat, taken.value, d, today);
    }
  }

  lemma GivingUpARole(cat: Catalogue, v: Volunteer, i: nat, d: DefId, today: Day)
    requires ValidCatalogue(cat) && d in cat.order && i < |v.assignments|
    requires forall k :: 0 <= k < |v.assignments| && k != i && v.assignments[k].isActive ==>
               !Names(cat.defs[d].appliesTo, v.assignments[k])
    ensures AssignmentEnded(v, i).Success?
    ensures !IsOwing(Get(AfterSync(cat, AssignmentEnded(v, i).value, today).rows, d))
  {
    NobodyAsks(cat, AssignmentEnded(v, i).value, d, today);
  }
}
