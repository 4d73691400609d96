/** Steps of the church that show in what later steps find. */
module ChurchSteps {
  import opened Wrappers
  import opened Calendar
  import opened AgeRules
  import opened Definitions
  import opened RequirementRows
  import opened Reconciliation
  import opened Settlement
  import opened VolunteerFiles
  import opened ServingRoles
  import opened RecordedProgress
  import opened Disqualification
  import opened NightlySweep
  import opened ReviewLedger
  import opened Church
  import opened ChurchEntries

  /** What a step that goes through makes of the church: one file replaced. */
  lemma FileReplacedBy(s: State, step: Step, file: Volunteer, after: State)
    requires ValidCatalogue(s.cat) && !IsChurchStep(step) && !step.StoreDocument? && step.v in s.volunteers
    requires FileAfter(s, step.v, step) == Success(file) && after == After(s, step)
    ensures after.volunteers == s.volunteers[step.v := file]
    ensures after.cat == s.cat && after.today == s.today
  {
    assert after == FileStep(s, step.v, step);
  }

  lemma FileRefused(s: State, step: Step, after: State)
    requires ValidCatalogue(s.cat) && !IsChurchStep(step) && !step.StoreDocument? && step.v in s.volunteers
    requires FileAfter(s, step.v, step).Refused? && after == After(s, step)
    ensures after == s
  {
    assert after == FileStep(s, step.v, step);
  }

  lemma SyncOf(s: State, v: VolunteerId, synced: State)
    requires ValidCatalogue(s.cat) && v in s.volunteers && synced == After(s, Sync(v))
    ensures v in synced.volunteers && synced.volunteers[v] == AfterSync(s.cat, s.volunteers[v], s.today)
  {
    FileReplacedBy(s, Sync(v), AfterSync(s.cat, s.volunteers[v], s.today), synced);
  }

  // ---- Roles ------------------------------------------------------------------------------

  /** A role taken up shows at the next sync: what it asks for is on the list and not held. */
  lemma RoleTakenUp(s: State, v: VolunteerId, role: Role, d: DefId, joined: State, synced: State)
    requires SoundState(s) && v in s.volunteers && d in s.cat.order
    requires s.volunteers[v].block != Disqualified && !Serves(s.volunteers[v], role)
    requires Names(s.cat.defs[d].appliesTo, Assignment(role, true))
    requires !IsTooYoung(s.volunteers[v], s.cat.defs[d], s.today)
    requires !(s.cat.defs[d].gate && s.cat.defs[d].mustFollow.Some?)
    requires joined == After(s, Assign(v, role)) && ValidCatalogue(joined.cat) && synced == After(joined, Sync(v))
    ensures RowIn(synced, v, d).Some? && RowIn(synced, v, d).value.status != NotApplicable
  {
    var file := Assigned(s.volunteers[v], role).value;
    TakingUpARole(s.cat, s.volunteers[v], role, d, s.today);
    FileReplacedBy(s, Assign(v, role), file, joined);
    SyncOf(joined, v, synced);
  }

  /** And so does one given up, if no other asks for it: nothing of it is owed. */
  lemma RoleGivenUp(s: State, v: VolunteerId, i: nat, d: DefId, ended: State, synced: State)
    requires SoundState(s) && v in s.volunteers && d in s.cat.order && i < |s.volunteers[v].assignments|
    requires forall k :: 0 <= k < |s.volunteers[v].assignments| && k != i && s.volunteers[v].assignments[k].isActive ==>
               !Names(s.cat.defs[d].appliesTo, s.volunteers[v].assignments[k])
    requires ended == After(s, EndAssignment(v, i)) && ValidCatalogue(ended.cat) && synced == After(ended, Sync(v))
    ensures !IsOwing(RowIn(synced, v, d))
  {
    var file := AssignmentEnded(s.volunteers[v], i).value;
    GivingUpARole(s.cat, s.volunteers[v], i, d, s.today);
    FileReplacedBy(s, EndAssignment(v, i), file, ended);
    SyncOf(ended, v, synced);
  }

  // ---- Time ---------------------------------------------------------------------------------

  lemma StartedFileLater(v: Volunteer, d: DefId, t: Day, later: Day)
    requires d in v.rows && v.rows[d].status == NotStarted
    ensures var before := v.rows[d];
            Get(AllRecomputed(StartedRequirement(v, d, t).value, later).rows, d)
            == Some(before.(startedOn := Some(t),
                            status := if before.dueOn.Some? && before.dueOn.value < later then Overdue else InProgress))
  {
    StartIsRecorded(v, d, t);
  }

  lemma StartStep(s: State, v: VolunteerId, d: DefId, started: State)
    requires ValidCatalogue(s.cat) && RowIn(s, v, d).Some? && started == After(s, Start(v, d))
    ensures started.cat == s.cat && started.today == s.today && v in started.volunteers
    ensures started.volunteers[v] == StartedRequirement(s.volunteers[v], d, s.today).value
  {
    FileReplacedBy(s, Start(v, d), StartedRequirement(s.volunteers[v], d, s.today).value, started);
  }

  lemma RecomputeStep(s: State, v: VolunteerId, last: State)
    requires ValidCatalogue(s.cat) && v in s.volunteers && s.volunteers[v].isActive && last == After(s, Recompute(v))
    ensures last.today == s.today && v in last.volunteers
    ensures last.volunteers[v] == AllRecomputed(s.volunteers[v], s.today)
  {
    FileReplacedBy(s, Recompute(v), AllRecomputed(s.volunteers[v], s.today), last);
  }

  lemma WaitStep(s: State, days: nat, waited: State)
    requires ValidCatalogue(s.cat) && waited == After(s, Wait(days))
    ensures waited == s.(today := s.today + days)
  {
  }

  /** A requirement started today and recomputed some days on is under way since today, or late if its deadline has
      passed by then. */
  lemma StartedThenRecomputed(s: State, v: VolunteerId, d: DefId, days: nat) returns (last: State)
    requires SoundState(s) && RowIn(s, v, d).Some? && s.volunteers[v].isActive
    requires RowIn(s, v, d).value.status == NotStarted
    ensures last == Run(s, [Start(v, d), Wait(days), Recompute(v)])
    ensures last.today == s.today + days
    ensures var before, row := RowIn(s, v, d).value, RowIn(last, v, d);
            && row.Some? && row.value.startedOn == Some(s.today) && row.value.dueOn == before.dueOn
            && row.value.status == (if before.dueOn.Some? && before.dueOn.value < s.today + days then Overdue
                                    else InProgress)
  {
    var started := After(s, Start(v, d));
    StartStep(s, v, d, started);
    var waited := After(started, Wait(days));
    WaitStep(started, days, waited);
    last := After(waited, Recompute(v));
    RecomputeStep(waited, v, last);
    StartedFileLater(s.volunteers[v], d, s.today, s.today + days);
    StepThenRun(s, [Start(v, d), Wait(days), Recompute(v)], [Wait(days), Recompute(v)], started);
    StepThenRun(started, [Wait(days), Recompute(v)], [Recompute(v)], waited);
    StepThenRun(waited, [Recompute(v)], [], last);
  }

  lemma StepThenRun(s: State, steps: seq<Step>, rest: seq<Step>, next: State)
    requires ValidCatalogue(s.cat) && ValidCatalogue(next.cat)
    requires steps != [] && rest == steps[1..] && next == After(s, steps[0])
    ensures Run(s, steps) == Run(next, rest)
  {
  }

  lemma ScanOf(s: State, v: VolunteerId, scanned: State)
    requires ValidCatalogue(s.cat) && v in s.volunteers && s.volunteers[v].isActive
    requires scanned == After(s, ActivateTurning18(v))
    ensures v in scanned.volunteers && scanned.volunteers[v] == AfterAgeScan(s.cat, s.volunteers[v], s.today)
  {
    FileReplacedBy(s, ActivateTurning18(v), AfterAgeScan(s.cat, s.volunteers[v], s.today), scanned);
  }

  /** The held check after the scan of day `t`. */
  ghost function CheckScanned(before: Row, birth: Birth, t: Day): Row {
    var trigger := TriggerDay(birth);
    if t < trigger then before
    else before.(status := NotStarted, heldReason := NotHeld, dueOn := Some(ShiftMonths(trigger, 3)),
                 dueReason := Turned18)
  }

  lemma ScannedCheck(cat: Catalogue, v: Volunteer, d: DefId, t: Day)
    requires ValidCatalogue(cat) && v.birth.Some? && d in cat.order && cat.defs[d].isCrc && cat.defs[d].adultsOnly
    requires !(cat.defs[d].gate && cat.defs[d].mustFollow.Some?) && IsAskedOf(v, cat.defs[d])
    requires d in v.rows && v.rows[d].status == NotApplicable
    ensures Get(AfterAgeScan(cat, v, t).rows, d) == Some(CheckScanned(v.rows[d], v.birth.value, t))
  {
    var c := ContextOf(cat, v, t);
    AppliesWhenAsked(cat, v, d, t);
    AdultFromTriggerDay(v.birth, t);
    Turning18GivesThreeMonths(v.birth.value);
    var i :| 0 <= i < |c.order| && c.order[i] == d;
    RowBeforeScan(c, v.rows, i, d);
    RowAfterScan(c, v.rows, i, |c.order|);
  }

  /** A criminal record check that was held for age is switched on by the scan once the clock reaches the day that
      adulthood starts, and is due three months after that day however late the scan comes. */
  lemma ClockBringsTheCheck(s: State, v: VolunteerId, d: DefId, days: nat, waited: State, scanned: State)
    requires SoundState(s) && v in s.volunteers && s.volunteers[v].isActive && s.volunteers[v].birth.Some?
    requires d in s.cat.order && s.cat.defs[d].isCrc && s.cat.defs[d].adultsOnly
    requires !(s.cat.defs[d].gate && s.cat.defs[d].mustFollow.Some?) && IsAskedOf(s.volunteers[v], s.cat.defs[d])
    requires RowIn(s, v, d).Some? && RowIn(s, v, d).value.status == NotApplicable
    requires waited == After(s, Wait(days)) && ValidCatalogue(waited.cat)
    requires scanned == After(waited, ActivateTurning18(v))
    ensures RowIn(scanned, v, d)
            == Some(CheckScanned(RowIn(s, v, d).value, s.volunteers[v].birth.value, s.today + days))
  {
    WaitStep(s, days, waited);
    ScanOf(waited, v, scanned);
    ScannedCheck(s.cat, s.volunteers[v], d, s.today + days);
  }

  // ---- Decisions -------------------------------------------------------------------------------

  /** A waiver taken back by hand, after any days, leaves what the row's own dates say: complete, late, under way or not
      started. */
  lemma WaiverTakenBack(s: State, v: VolunteerId, d: DefId, reasonGiven: bool, after: State)
    requires SoundState(s) && RowIn(s, v, d).Some? && NothingWaits(s.cat, d)
    requires after == After(s, ReverseWaiver(v, d, reasonGiven))
    ensures RowIn(s, v, d).value.status != Waived || !reasonGiven ==> after == s
    ensures RowIn(s, v, d).value.status == Waived && reasonGiven ==>
              var before, row := RowIn(s, v, d).value, RowIn(after, v, d);
              && row.Some? && row.value.waivedOn.None?
              && row.value.status == (if before.completedOn.Some? then
                                        if before.expiresOn.Some? && before.expiresOn.value < s.today then Overdue
                                        else Complete
                                      else if before.dueOn.Some? && before.dueOn.value < s.today then Overdue
                                      else if before.startedOn.Some? then InProgress else NotStarted)
  {
    var file := s.volunteers[v];
    var reversed := ReversedWaiver(s.cat, file, d, reasonGiven, None, s.today);
    ReversalIsRecorded(s.cat, file, d, reasonGiven, s.today);
    if reversed.Success? {
      FileReplacedBy(s, ReverseWaiver(v, d, reasonGiven), reversed.value, after);
    } else {
      FileRefused(s, ReverseWaiver(v, d, reasonGiven), after);
    }
  }

  predicate IsAnyAutomatic(entries: seq<Entry>) {
    exists i :: 0 <= i < |entries| && entries[i].isAutomatic
  }

  /** Convictions entered for review are filed on the check, and one automatic conviction among them bars the volunteer:
      nothing outstanding can be completed afterwards. */
  lemma ConvictionsEntered(s: State, v: VolunteerId, check: nat, entries: seq<Entry>, actor: Actor, after: State)
    requires SoundState(s) && v in s.volunteers && |entries| > 0 && actor.needsReview
    requires RecordedConvictions(s.volunteers[v], check, entries).Success?
    requires after == After(s, RecordConvictions(v, check, entries, actor))
    ensures var file := s.volunteers[v];
            && IsFiled(after.ledger, |s.ledger.items|, CrcReview, v,
                       ConvictionEntity(v, check, |file.checks[check].convictions|), actor.user)
            && v in after.volunteers && |after.volunteers[v].checks| == |file.checks|
            && |after.volunteers[v].checks[check].convictions| == |file.checks[check].convictions| + |entries|
    ensures IsAnyAutomatic(entries) ==>
              && after.volunteers[v].block == Disqualified && NoActiveAssignment(after.volunteers[v])
              && forall d :: d in s.volunteers[v].rows ==>
                   d in after.volunteers[v].rows && IsBlockedFrom(s.volunteers[v].rows[d], after.volunteers[v].rows[d])
    ensures !IsAnyAutomatic(entries) ==>
              after.volunteers[v].block == s.volunteers[v].block && after.volunteers[v].rows == s.volunteers[v].rows
  {
    var file := s.volunteers[v];
    var step := RecordConvictions(v, check, entries, actor);
    ConvictionsAreFiled(file, check, entries);
    AutomaticConvictionBlocks(file, check, entries);
    StepFiles(s, step, RecordedConvictions(file, check, entries).value, actor, ReviewOf(s, v, step).value.1, after);
  }

  /** A decision for review is filed, and settles the block and the assignments at once; sending it back later takes
      nothing of it away. */
  lemma DecisionEntered(s: State, v: VolunteerId, check: nat, conviction: Option<nat>, decision: Decision,
                        documented: bool, actor: Actor, after: State)
    requires SoundState(s) && v in s.volunteers && actor.needsReview
    requires RecordedOverride(s.volunteers[v], check, conviction, decision, documented).Success?
    requires after == After(s, RecordOverride(v, check, conviction, decision, documented, actor))
    ensures IsFiled(after.ledger, |s.ledger.items|, OverrideReview, v,
                    OverrideEntity(v, check, s.volunteers[v].checks[check].overrides), actor.user)
    ensures v in after.volunteers
    ensures decision == Declined ==> after.volunteers[v].block == Withdrawn && NoActiveAssignment(after.volunteers[v])
    ensures decision != Declined ==>
              && after.volunteers[v].assignments == s.volunteers[v].assignments
              && after.volunteers[v].block == (if s.volunteers[v].block == CrcNotClear then NoBlock
                                               else s.volunteers[v].block)
  {
    var file := s.volunteers[v];
    var step := RecordOverride(v, check, conviction, decision, documented, actor);
    DecisionSettlesFile(file, check, conviction, decision, documented);
    StepFiles(s, step, RecordedOverride(file, check, conviction, decision, documented).value, actor,
              ReviewOf(s, v, step).value.1, after);
  }

  /** Decisions and convictions stand: sending either back closes the item and touches no file and no document. */
  lemma DecisionsStand(s: State, i: nat, after: State)
    requires SoundState(s) && IsOpen(s.ledger, i) && after == After(s, SendBack(i, true))
    requires s.ledger.items[i].draft.kind == OverrideReview || s.ledger.items[i].draft.entity.ConvictionEntity?
    ensures after.volunteers == s.volunteers && after.documents == s.documents
    ensures after.ledger.items[i].status == ReviewLedger.SentBack
  {
  }

  /** A withdrawal in answer to a Not Clear check ends every assignment; any other outcome ends none. */
  lemma OutcomeEntered(s: State, v: VolunteerId, check: nat, outcome: NotClearOutcome, after: State)
    requires SoundState(s) && v in s.volunteers && ResolvedNotClear(s.volunteers[v], check, outcome).Success?
    requires after == After(s, ResolveNotClear(v, check, outcome))
    ensures v in after.volunteers && check < |after.volunteers[v].checks|
    ensures after.volunteers[v].checks[check].outcome == outcome
    ensures outcome == Withdrew ==> after.volunteers[v].block == Withdrawn && NoActiveAssignment(after.volunteers[v])
    ensures outcome != Withdrew ==>
              && after.volunteers[v].block == s.volunteers[v].block
              && after.volunteers[v].assignments == s.volunteers[v].assignments
  {
    OutcomeSettlesFile(s.volunteers[v], check, outcome);
    FileReplacedBy(s, ResolveNotClear(v, check, outcome), ResolvedNotClear(s.volunteers[v], check, outcome).value,
                   after);
  }

  // ---- People and definitions ---------------------------------------------------------------------

  /** A newcomer starts with an empty file and owes nothing until a role is taken up; details change nothing else; the
      definitions in use are replaced only by ones that keep every definition. */
  lemma NewcomerOwesNothing(s: State, v: VolunteerId, birth: Option<Birth>, registered: State, synced: State, d: DefId)
    requires SoundState(s) && v !in s.volunteers
    requires registered == After(s, Register(v, birth)) && ValidCatalogue(registered.cat)
    requires synced == After(registered, Sync(v))
    ensures v in registered.volunteers && registered.volunteers[v].birth == birth && registered.volunteers[v].isActive
    ensures registered.volunteers[v].block == NoBlock && registered.volunteers[v].checks == []
    ensures d in s.cat.order ==> RowIn(synced, v, d).None?
  {
    var file := registered.volunteers[v];
    SyncOf(registered, v, synced);
    if d in s.cat.order {
      NobodyAsks(s.cat, file, d, s.today);
    }
  }

  lemma DetailsChangeNothingElse(s: State, v: VolunteerId, birth: Option<Birth>, isActive: bool, after: State)
    requires SoundState(s) && v in s.volunteers && after == After(s, EditDetails(v, birth, isActive))
    ensures v in after.volunteers
    ensures after.volunteers[v].birth == birth && after.volunteers[v].isActive == isActive
    ensures after.volunteers[v] == s.volunteers[v].(birth := birth, isActive := isActive)
  {
    FileReplacedBy(s, EditDetails(v, birth, isActive), s.volunteers[v].(birth := birth, isActive := isActive), after);
  }

  lemma DefinitionsAreKept(s: State, cat: Catalogue, after: State)
    requires SoundState(s) && after == After(s, EditDefinitions(cat))
    ensures after == s.(cat := after.cat) && s.cat.defs.Keys <= after.cat.defs.Keys
    ensures ValidCatalogue(cat) && s.cat.defs.Keys <= cat.defs.Keys ==> after.cat == cat
  {
  }
}
