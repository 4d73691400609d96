/** One volunteer's file and what each screening service makes of it. */
module VolunteerFiles {
  import opened Wrappers
  import opened Calendar
  import opened AgeRules
  import opened Definitions
  import opened RequirementRows
  import opened Reconciliation

  datatype Block = NoBlock | CrcNotClear | Disqualified | Withdrawn

  datatype CrcResult = Cleared | NotClear

  datatype NotClearOutcome = NoOutcome | Pending | FingerprintSubmitted | Withdrew

  /** Checks are numbered by their place in the file. A conviction is kept as whether it is an
      automatic disqualifier, an override as the fact that it exists. */
  datatype Check = Check(
    result: CrcResult,
    reportDate: Day,
    outcome: NotClearOutcome,
    supersededBy: Option<nat>,
    convictions: seq<bool>,
    overrides: nat)

  datatype Assignment = Assignment(role: Role, isActive: bool)

  datatype Volunteer = Volunteer(
    isActive: bool,
    birth: Option<Birth>,
    block: Block,
    assignments: seq<Assignment>,
    rows: Rows,
    checks: seq<Check>)

  /** The church's definitions and the order in which the active ones are listed. */
  datatype Catalogue = Catalogue(defs: map<DefId, Definition>, order: seq<DefId>)

  ghost predicate ValidCatalogue(cat: Catalogue) {
    ValidDefinitions(cat.defs, cat.order)
  }

  function ActiveRoles(assignments: seq<Assignment>): seq<Role> {
    if assignments == [] then []
    else (if assignments[0].isActive then [assignments[0].role] else []) + ActiveRoles(assignments[1..])
  }

  function ContextOf(cat: Catalogue, v: Volunteer, today: Day): Context {
    Context(cat.defs, cat.order, ActiveRoles(v.assignments), v.birth, today)
  }

  // ---- Keeping the list -------------------------------------------------------------

  ghost function AfterSync(cat: Catalogue, v: Volunteer, today: Day): Volunteer
    requires ValidCatalogue(cat)
  {
    v.(rows := Synced(ContextOf(cat, v, today), v.rows))
  }

  ghost predicate HasGatedDependents(cat: Catalogue, d: DefId) {
    exists k :: k in cat.order && k in cat.defs && IsGated(cat.defs[k]) && cat.defs[k].mustFollow == Some(d)
  }

  ghost function WithDependentsRefreshed(cat: Catalogue, v: Volunteer, d: DefId, today: Day): Volunteer
    requires ValidCatalogue(cat)
  {
    if HasGatedDependents(cat, d) then AfterSync(cat, v, today) else v
  }

  function WithRow(v: Volunteer, d: DefId, r: Row): Volunteer {
    v.(rows := v.rows[d := r])
  }

  function AllRecomputed(v: Volunteer, today: Day): Volunteer {
    v.(rows := map d | d in v.rows :: Recomputed(v.rows[d], today))
  }

  /** One candidate of the nightly scan for volunteers who have turned 18. */
  ghost function ActivatedIfAdult(c: Context, rows: Rows, d: DefId): Rows
    requires d in c.defs
  {
    if && d in rows && rows[d].status.NotApplicable? && c.defs[d].adultsOnly && c.birth.Some?
       && IsAdult(c.birth, c.today) && Applies(c, d) && UnmetPrerequisite(c.defs, rows, d).None?
    then rows[d := Activated(c.defs[d], c.birth, rows[d], PrerequisiteDeadline(c.defs, rows, d))]
    else rows
  }

  ghost function ActivatedTo(c: Context, rows: Rows, n: nat): Rows
    requires Valid(c) && n <= |c.order|
  {
    if n == 0 then rows else ActivatedIfAdult(c, ActivatedTo(c, rows, n - 1), c.order[n - 1])
  }

  ghost function AfterAgeScan(cat: Catalogue, v: Volunteer, today: Day): Volunteer
    requires ValidCatalogue(cat)
  {
    v.(rows := ActivatedTo(ContextOf(cat, v, today), v.rows, |cat.order|))
  }

  // ---- Recording progress -----------------------------------------------------------

  ghost function MarkedComplete(cat: Catalogue, v: Volunteer, d: DefId, on: Day, notes: string,
                                today: Day): Result<Volunteer>
    requires ValidCatalogue(cat)
  {
    if d !in v.rows || d !in cat.defs || v.rows[d].status.Blocked? || on > today then Refused
    else Success(WithDependentsRefreshed(cat, WithRow(v, d, Completed(v.rows[d], cat.defs[d], on, notes)), d, today))
  }

  function StartedRequirement(v: Volunteer, d: DefId, today: Day): Result<Volunteer> {
    if d !in v.rows then Refused else Success(WithRow(v, d, Started(v.rows[d], today)))
  }

  ghost function WaivedRequirement(cat: Catalogue, v: Volunteer, d: DefId, reasonGiven: bool,
                                   today: Day): Result<Volunteer>
    requires ValidCatalogue(cat)
  {
    if d !in v.rows || d !in cat.defs || !reasonGiven || cat.defs[d].isCrc then Refused
    else Success(WithDependentsRefreshed(cat, WithRow(v, d, WaivedRow(v.rows[d], today)), d, today))
  }

  ghost function ReversedWaiver(cat: Catalogue, v: Volunteer, d: DefId, reasonGiven: bool,
                                restoreDue: Option<(Option<Day>, DueReason)>, today: Day): Result<Volunteer>
    requires ValidCatalogue(cat)
  {
    if d !in v.rows || !v.rows[d].status.Waived? || !reasonGiven then Refused
    else Success(WithDependentsRefreshed(cat, WithRow(v, d, WaiverReversed(v.rows[d], restoreDue, today)), d, today))
  }

  // ---- Criminal record checks -------------------------------------------------------

  /** The row a new check writes: the first active check requirement on the list. */
  function CrcInstanceIn(cat: Catalogue, rows: Rows, order: seq<DefId>): (found: Option<DefId>)
    ensures found.Some? ==>
              found.value in rows && found.value in order && found.value in cat.defs && cat.defs[found.value].isCrc
  {
    if order == [] then None
    else if order[0] in cat.defs && cat.defs[order[0]].isCrc && order[0] in rows then Some(order[0])
    else CrcInstanceIn(cat, rows, order[1..])
  }

  function CrcInstanceFor(cat: Catalogue, v: Volunteer): Option<DefId> {
    CrcInstanceIn(cat, v.rows, cat.order)
  }

  /** The current check a new one displaces: the latest report among the un-superseded, the
      first recorded of equal dates. */
  function CurrentCheck(checks: seq<Check>): (current: Option<nat>)
    ensures current.None? ==> forall i :: 0 <= i < |checks| ==> checks[i].supersededBy.Some?
    ensures current.Some? ==>
              && current.value < |checks| && checks[current.value].supersededBy.None?
              && forall i :: 0 <= i < |checks| && checks[i].supersededBy.None? ==>
                   checks[i].reportDate <= checks[current.value].reportDate
  {
    if checks == [] then None
    else
      var last := |checks| - 1;
      var earlier := CurrentCheck(checks[..last]);
      if checks[last].supersededBy.Some? then earlier
      else if earlier.Some? && checks[last].reportDate <= checks[earlier.value].reportDate then earlier
      else Some(last)
  }

  function Superseding(checks: seq<Check>, filed: Check): seq<Check> {
    var current := CurrentCheck(checks);
    (if current.Some? then checks[current.value := checks[current.value].(supersededBy := Some(|checks|))]
     else checks) + [filed]
  }

  function NewCheck(result: CrcResult, reportDate: Day): Check {
    Check(result, reportDate, if result.NotClear? then Pending else NoOutcome, None, [], 0)
  }

  /** The row that a check writes. */
  ghost function CheckedRow(r: Row, result: CrcResult, reportDate: Day): Row {
    if result.Cleared? then CheckCleared(r, reportDate) else CheckNotClear(r)
  }

  ghost function WithCheckOn(cat: Catalogue, v: Volunteer, instance: Option<DefId>, result: CrcResult,
                             reportDate: Day, today: Day): Volunteer
    requires ValidCatalogue(cat) && (instance.Some? ==> instance.value in v.rows)
  {
    if instance.None? then v
    else
      var d := instance.value;
      WithDependentsRefreshed(cat, WithRow(v, d, CheckedRow(v.rows[d], result, reportDate)), d, today)
  }

  ghost function RecordedCrc(cat: Catalogue, v: Volunteer, result: CrcResult, reportDate: Day,
                             today: Day): Result<Volunteer>
    requires ValidCatalogue(cat)
  {
    if reportDate > today || v.block.Disqualified? then Refused
    else
      var filed := v.(checks := Superseding(v.checks, NewCheck(result, reportDate)));
      var moved := WithCheckOn(cat, filed, CrcInstanceFor(cat, v), result, reportDate, today);
      Success(moved.(block := if result.NotClear? then CrcNotClear
                              else if v.block.CrcNotClear? then NoBlock else v.block))
  }

  function Ended(assignments: seq<Assignment>): seq<Assignment> {
    seq(|assignments|, i requires 0 <= i < |assignments| => assignments[i].(isActive := false))
  }

  function RowsBlocked(rows: Rows): Rows {
    map d | d in rows :: if IsOutstanding(rows[d].status) then rows[d].(status := Blocked) else rows[d]
  }

  function PermanentlyDisqualified(v: Volunteer): Volunteer {
    v.(block := Disqualified, assignments := Ended(v.assignments), rows := RowsBlocked(v.rows))
  }

  /** A conviction as entered: whether its policy category was given and whether it disqualifies. */
  datatype Entry = Entry(hasCategory: bool, isAutomatic: bool)

  function Automatics(entries: seq<Entry>): seq<bool> {
    seq(|entries|, i requires 0 <= i < |entries| => entries[i].isAutomatic)
  }

  function RecordedConvictions(v: Volunteer, check: nat, entries: seq<Entry>): Result<Volunteer> {
    if check >= |v.checks| || !v.checks[check].result.NotClear? then Refused
    else if exists i :: 0 <= i < |entries| && !entries[i].hasCategory then Refused
    else
      var convicted := v.checks[check].(convictions := v.checks[check].convictions + Automatics(entries));
      var v' := v.(checks := v.checks[check := convicted]);
      Success(if true in Automatics(entries) then PermanentlyDisqualified(v') else v')
  }

  datatype Decision = Approved | ApprovedWithConditions | Declined

  /** `documented` says that the reasoning, the mitigation and the decider were all given. */
  function RecordedOverride(v: Volunteer, check: nat, conviction: Option<nat>, decision: Decision,
                            documented: bool): Result<Volunteer> {
    if check >= |v.checks| || (conviction.Some? && conviction.value >= |v.checks[check].convictions|) then Refused
    else if conviction.Some? && v.checks[check].convictions[conviction.value] then Refused
    else if v.block.Disqualified? || !documented then Refused
    else
      var v' := v.(checks := v.checks[check := v.checks[check].(overrides := v.checks[check].overrides + 1)]);
      Success(
        if decision.Declined? then v'.(block := Withdrawn, assignments := Ended(v.assignments))
        else v'.(block := if v.block.CrcNotClear? then NoBlock else v.block))
  }

  function ResolvedNotClear(v: Volunteer, check: nat, outcome: NotClearOutcome): Result<Volunteer> {
    if check >= |v.checks| || !v.checks[check].result.NotClear? || outcome.NoOutcome? then Refused
    else if outcome.Withdrew? && v.block.Disqualified? then Refused
    else
      var v' := v.(checks := v.checks[check := v.checks[check].(outcome := outcome)]);
      Success(if outcome.Withdrew? then v'.(block := Withdrawn, assignments := Ended(v.assignments)) else v')
  }

  // ---- Assignments and details ------------------------------------------------------

  predicate Serves(v: Volunteer, role: Role) {
    exists i :: 0 <= i < |v.assignments| && v.assignments[i].isActive && v.assignments[i].role.pk == role.pk
  }

  function Assigned(v: Volunteer, role: Role): Result<Volunteer> {
    if v.block.Disqualified? then Refused
    else if Serves(v, role) then Refused
    else Success(v.(assignments := v.assignments + [Assignment(role, true)]))
  }

  function AssignmentEnded(v: Volunteer, i: nat): Result<Volunteer> {
    if i >= |v.assignments| then Refused
    else Success(v.(assignments := v.assignments[i := v.assignments[i].(isActive := false)]))
  }

  // ---- Sending an entry back --------------------------------------------------------

  ghost function RestoredFromSnapshot(cat: Catalogue, v: Volunteer, d: DefId, s: Snapshot, today: Day): Volunteer
    requires ValidCatalogue(cat) && d in v.rows
  {
    WithDependentsRefreshed(cat, WithRow(v, d, Restored(v.rows[d], s, today)), d, today)
  }

  ghost function CompletionSentBack(cat: Catalogue, v: Volunteer, d: DefId, s: Snapshot, today: Day): Volunteer
    requires ValidCatalogue(cat)
  {
    if d !in v.rows || !v.rows[d].status.Complete? then v else RestoredFromSnapshot(cat, v, d, s, today)
  }

  /** The document's own snapshot holds no dates, and no staleness check guards the row. */
  ghost function DocumentSentBack(cat: Catalogue, v: Volunteer, instance: Option<DefId>, today: Day): Volunteer
    requires ValidCatalogue(cat)
  {
    if instance.None? || instance.value !in v.rows then v
    else RestoredFromSnapshot(cat, v, instance.value, EMPTY_SNAPSHOT, today)
  }

  predicate CanRetract(v: Volunteer, check: nat) {
    check < |v.checks| && v.checks[check].convictions == [] && v.checks[check].overrides == 0
    && v.checks[check].supersededBy.None?
  }

  function Reinstated(checks: seq<Check>, displaced: Option<nat>): seq<Check> {
    if displaced.Some? && displaced.value < |checks|
    then checks[displaced.value := checks[displaced.value].(supersededBy := None)]
    else checks
  }

  ghost function CrcSentBack(cat: Catalogue, v: Volunteer, check: nat, instance: Option<DefId>, s: Snapshot,
                             displaced: Option<nat>, today: Day): Volunteer
    requires ValidCatalogue(cat)
  {
    if !CanRetract(v, check) then v
    else
      var restored := if instance.None? || instance.value !in v.rows then v
                      else RestoredFromSnapshot(cat, v, instance.value, s, today);
      var reinstated := restored.(checks := Reinstated(v.checks, displaced));
      reinstated.(block := if v.block.CrcNotClear? then NoBlock else v.block)
  }

  ghost function WaiverSentBack(cat: Catalogue, v: Volunteer, d: DefId, s: Snapshot, today: Day): Volunteer
    requires ValidCatalogue(cat)
  {
    var reversed := ReversedWaiver(cat, v, d, true, Some((s.dueOn, s.dueReason)), today);
    if reversed.Success? then reversed.value else v
  }

  // ---- What every service keeps -----------------------------------------------------

  ghost predicate HasAutomaticConviction(v: Volunteer) {
    exists i :: 0 <= i < |v.checks| && true in v.checks[i].convictions
  }

  ghost predicate NoActiveAssignment(v: Volunteer) {
    forall i :: 0 <= i < |v.assignments| ==> !v.assignments[i].isActive
  }

  ghost predicate RowsSound(rows: Rows, defs: map<DefId, Definition>, today: Day) {
    forall d :: d in rows ==> d in defs && Coherent(rows[d], today)
  }

  /** The invariant of a file: every row coherent; disqualified exactly when an automatic conviction
      is on file, and then serving nowhere. */
  ghost predicate Sound(v: Volunteer, defs: map<DefId, Definition>, today: Day) {
    && RowsSound(v.rows, defs, today)
    && (v.block.Disqualified? <==> HasAutomaticConviction(v))
    && (v.block.Disqualified? ==> NoActiveAssignment(v))
  }

  /** A later version of the file: checks and their convictions are only ever added. */
  ghost predicate Extends(v: Volunteer, later: Volunteer) {
    && |v.checks| <= |later.checks|
    && forall i :: 0 <= i < |v.checks| ==> v.checks[i].convictions <= later.checks[i].convictions
  }

  lemma ConvictionsStay(v: Volunteer, later: Volunteer)
    requires Extends(v, later) && HasAutomaticConviction(v)
    ensures HasAutomaticConviction(later)
  {
    var i :| 0 <= i < |v.checks| && true in v.checks[i].convictions;
    assert true in later.checks[i].convictions;
  }

  lemma SameConvictions(v: Volunteer, later: Volunteer)
    requires |v.checks| <= |later.checks|
    requires forall i :: 0 <= i < |v.checks| ==> v.checks[i].convictions == later.checks[i].convictions
    requires forall i :: |v.checks| <= i < |later.checks| ==> later.checks[i].convictions == []
    ensures HasAutomaticConviction(v) <==> HasAutomaticConviction(later)
    ensures Extends(v, later)
  {
    if HasAutomaticConviction(later) {
      var i :| 0 <= i < |later.checks| && true in later.checks[i].convictions;
      assert true in v.checks[i].convictions;
    }
    if HasAutomaticConviction(v) {
      ConvictionsStay(v, later);
    }
  }

  lemma TurnKeepsCoherent(c: Context, d: DefId, row: Option<Row>, blocker: Option<DefId>, deadline: Option<Day>)
    requires d in c.defs && (row.Some? ==> Coherent(row.value, c.today))
    ensures var next := Turn(c, d, row, blocker, deadline);
            next.Some? ==> Coherent(next.value, c.today)
  {
  }

  lemma {:induction false} SyncKeepsCoherent(c: Context, rows: Rows, n: nat)
    requires Valid(c) && n <= |c.order| && RowsSound(rows, c.defs, c.today)
    ensures RowsSound(SyncTo(c, rows, n), c.defs, c.today)
  {
    if n > 0 {
      var before, e := SyncTo(c, rows, n - 1), c.order[n - 1];
      SyncKeepsCoherent(c, rows, n - 1);
      TurnKeepsCoherent(c, e, Get(before, e), UnmetPrerequisite(c.defs, before, e),
                        PrerequisiteDeadline(c.defs, before, e));
    }
  }

  lemma SyncKeepsSound(cat: Catalogue, v: Volunteer, today: Day)
    requires ValidCatalogue(cat) && Sound(v, cat.defs, today)
    ensures Sound(AfterSync(cat, v, today), cat.defs, today)
  {
    SyncKeepsCoherent(ContextOf(cat, v, today), v.rows, |cat.order|);
  }

  /** Writing one coherent row and refreshing what waits on it keeps the file sound. */
  lemma RowWriteKeepsSound(cat: Catalogue, v: Volunteer, d: DefId, r: Row, today: Day)
    requires ValidCatalogue(cat) && Sound(v, cat.defs, today)
    requires d in cat.defs && Coherent(r, today)
    ensures Sound(WithDependentsRefreshed(cat, WithRow(v, d, r), d, today), cat.defs, today)
    ensures WithDependentsRefreshed(cat, WithRow(v, d, r), d, today)
         == v.(rows := WithDependentsRefreshed(cat, WithRow(v, d, r), d, today).rows)
  {
    var v' := WithRow(v, d, r);
    assert Sound(v', cat.defs, today);
    SyncKeepsSound(cat, v', today);
  }

  ghost predicate CoherentSnapshot(s: Snapshot) {
    s.expiresOn.Some? ==> s.completedOn.Some?
  }

  lemma RestoredIsCoherent(r: Row, s: Snapshot, today: Day)
    requires CoherentSnapshot(s)
    ensures Coherent(Restored(r, s, today), today)
  {
  }

  lemma ReversalIsCoherent(r: Row, restoreDue: Option<(Option<Day>, DueReason)>, today: Day)
    requires Coherent(r, today) && r.status.Waived?
    ensures Coherent(WaiverReversed(r, restoreDue, today), today)
  {
  }

  lemma CheckKeepsCoherent(r: Row, reportDate: Day, today: Day)
    requires Coherent(r, today)
    ensures Coherent(CheckCleared(r, reportDate), today) && Coherent(CheckNotClear(r), today)
  {
  }

  lemma RecordingKeepsSound(cat: Catalogue, v: Volunteer, result: CrcResult, reportDate: Day, today: Day)
    requires ValidCatalogue(cat) && Sound(v, cat.defs, today)
    ensures var after := RecordedCrc(cat, v, result, reportDate, today);
            after.Success? ==> Sound(after.value, cat.defs, today) && Extends(v, after.value)
  {
    var after := RecordedCrc(cat, v, result, reportDate, today);
    if after.Success? {
      var filed := v.(checks := Superseding(v.checks, NewCheck(result, reportDate)));
      SameConvictions(v, filed);
      var instance := CrcInstanceFor(cat, v);
      if instance.Some? {
        CheckKeepsCoherent(v.rows[instance.value], reportDate, today);
        var r := CheckedRow(v.rows[instance.value], result, reportDate);
        RowWriteKeepsSound(cat, filed, instance.value, r, today);
      }
      SameConvictions(filed, after.value);
    }
  }

  lemma ConvictingKeepsSound(v: Volunteer, check: nat, entries: seq<Entry>, defs: map<DefId, Definition>, today: Day)
    requires Sound(v, defs, today)
    ensures var after := RecordedConvictions(v, check, entries);
            after.Success? ==> Sound(after.value, defs, today) && Extends(v, after.value)
  {
    var after := RecordedConvictions(v, check, entries);
    if after.Success? {
      assert Extends(v, after.value);
      if HasAutomaticConviction(v) {
        ConvictionsStay(v, after.value);
      }
      if true in Automatics(entries) {
        assert true in after.value.checks[check].convictions;
      } else if HasAutomaticConviction(after.value) {
        var i :| 0 <= i < |after.value.checks| && true in after.value.checks[i].convictions;
        assert true in v.checks[i].convictions;
      }
    }
  }

  lemma DecidingKeepsSound(v: Volunteer, check: nat, conviction: Option<nat>, decision: Decision, documented: bool,
                           defs: map<DefId, Definition>, today: Day)
    requires Sound(v, defs, today)
    ensures var after := RecordedOverride(v, check, conviction, decision, documented);
            after.Success? ==> Sound(after.value, defs, today) && Extends(v, after.value)
  {
    var after := RecordedOverride(v, check, conviction, decision, documented);
    if after.Success? {
      SameConvictions(v, after.value);
    }
  }

  lemma ResolvingKeepsSound(v: Volunteer, check: nat, outcome: NotClearOutcome, defs: map<DefId, Definition>,
                            today: Day)
    requires Sound(v, defs, today)
    ensures var after := ResolvedNotClear(v, check, outcome);
            after.Success? ==> Sound(after.value, defs, today) && Extends(v, after.value)
  {
    var after := ResolvedNotClear(v, check, outcome);
    if after.Success? {
      SameConvictions(v, after.value);
    }
  }

  lemma RetractingKeepsSound(cat: Catalogue, v: Volunteer, check: nat, instance: Option<DefId>, s: Snapshot,
                             displaced: Option<nat>, today: Day)
    requires ValidCatalogue(cat) && Sound(v, cat.defs, today) && CoherentSnapshot(s)
    ensures var after := CrcSentBack(cat, v, check, instance, s, displaced, today);
            Sound(after, cat.defs, today) && Extends(v, after)
  {
    var after := CrcSentBack(cat, v, check, instance, s, displaced, today);
    if CanRetract(v, check) {
      if instance.Some? && instance.value in v.rows {
        RestoredIsCoherent(v.rows[instance.value], s, today);
        RowWriteKeepsSound(cat, v, instance.value, Restored(v.rows[instance.value], s, today), today);
      }
      SameConvictions(v, after);
    }
  }

  lemma {:induction false} AgeScanKeepsCoherent(c: Context, rows: Rows, n: nat)
    requires Valid(c) && n <= |c.order| && RowsSound(rows, c.defs, c.today)
    ensures RowsSound(ActivatedTo(c, rows, n), c.defs, c.today)
  {
    if n > 0 {
      AgeScanKeepsCoherent(c, rows, n - 1);
    }
  }
}
