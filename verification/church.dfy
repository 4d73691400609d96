/** One church as a state machine: every service is one atomic step, and the clock never goes back. */
module Church {
  import opened Wrappers
  import opened Calendar
  import opened AgeRules
  import opened Definitions
  import opened RequirementRows
  import opened Reconciliation
  import opened VolunteerFiles
  import opened ReviewLedger

  /** `documents` keeps of each document whether it is current. */
  datatype State = State(
    cat: Catalogue,
    volunteers: map<VolunteerId, Volunteer>,
    documents: seq<bool>,
    ledger: Ledger,
    today: Day)

  datatype Actor = Actor(user: nat, needsReview: bool)

  datatype Step =
    | Wait(days: nat)
    | EditDefinitions(cat: Catalogue)
    | Register(v: VolunteerId, birth: Option<Birth>)
    | EditDetails(v: VolunteerId, birth: Option<Birth>, isActive: bool)
    | Assign(v: VolunteerId, role: Role)
    | EndAssignment(v: VolunteerId, assignment: nat)
    | Sync(v: VolunteerId)
    | ActivateTurning18(v: VolunteerId)
    | Recompute(v: VolunteerId)
    | MarkComplete(v: VolunteerId, d: DefId, on: Day, notes: string, actor: Actor)
    | Start(v: VolunteerId, d: DefId)
    | Waive(v: VolunteerId, d: DefId, reasonGiven: bool, actor: Actor)
    | ReverseWaiver(v: VolunteerId, d: DefId, reasonGiven: bool)
    | RecordCheck(v: VolunteerId, result: CrcResult, reportDate: Day, actor: Actor)
    | RecordConvictions(v: VolunteerId, check: nat, entries: seq<Entry>, actor: Actor)
    | RecordOverride(v: VolunteerId, check: nat, conviction: Option<nat>, decision: Decision, documented: bool,
                     actor: Actor)
    | ResolveNotClear(v: VolunteerId, check: nat, outcome: NotClearOutcome)
    | StoreDocument(v: VolunteerId, backs: Option<DefId>, documentDate: Option<Day>, supersedes: Option<nat>,
                    actor: Actor)
    | Affirm(item: nat)
    | SendBack(item: nat, reasonGiven: bool)

  // ---- The pieces of a step -----------------------------------------------------------

  function WithFile(s: State, v: VolunteerId, file: Volunteer): State {
    s.(volunteers := s.volunteers[v := file])
  }

  function RowBefore(v: Volunteer, d: DefId): Snapshot {
    if d in v.rows then SnapshotOf(v.rows[d]) else EMPTY_SNAPSHOT
  }

  function RequirementDraft(s: State, v: VolunteerId, d: DefId, kind: Kind, actor: Actor): Draft
    requires v in s.volunteers
  {
    Draft(kind, v, RequirementEntity(v, d), None, Before(RowBefore(s.volunteers[v], d), None), actor.user)
  }

  function CheckDraft(s: State, v: VolunteerId, actor: Actor): Draft
    requires v in s.volunteers
  {
    var file := s.volunteers[v];
    var instance := CrcInstanceFor(s.cat, file);
    Draft(CrcReview, v, CheckEntity(v, |file.checks|),
          if instance.Some? then Some(RequirementEntity(v, instance.value)) else None,
          Before(if instance.Some? then RowBefore(file, instance.value) else EMPTY_SNAPSHOT,
                 CurrentCheck(file.checks)),
          actor.user)
  }

  /** Whether recording a document completes the requirement behind it. */
  predicate DocumentCompletes(s: State, file: Volunteer, d: Option<DefId>, on: Day) {
    && d.Some? && d.value in file.rows && d.value in s.cat.defs && !s.cat.defs[d.value].isCrc
    && file.rows[d.value].status !in {Waived, NotApplicable, Blocked}
    && on <= s.today
  }

  function WithDocument(documents: seq<bool>, supersedes: Option<nat>): seq<bool> {
    (if supersedes.Some? && supersedes.value < |documents| then documents[supersedes.value := false]
     else documents) + [true]
  }

  ghost function AfterDocument(s: State, v: VolunteerId, d: Option<DefId>, documentDate: Option<Day>,
                               supersedes: Option<nat>, actor: Actor): State
    requires ValidCatalogue(s.cat) && v in s.volunteers
  {
    var file := s.volunteers[v];
    var on := if documentDate.Some? then documentDate.value else s.today;
    var n := |s.documents|;
    var completes := DocumentCompletes(s, file, d, on);
    var stored := s.(documents := WithDocument(s.documents, supersedes));
    var affected := if completes then Some(RequirementEntity(v, d.value)) else None;
    var result := if completes then MarkedComplete(s.cat, file, d.value, on, "", s.today) else Success(file);
    (if result.Success? then WithFile(stored, v, result.value) else stored)
    .(ledger := OpenedIfUnverified(s.ledger, actor.needsReview,
                  Draft(DocumentReview, v, DocumentEntity(n), affected, Before(EMPTY_SNAPSHOT, None), actor.user),
                  s.today))
  }

  function RequirementOf(e: Option<Entity>): Option<DefId> {
    if e.Some? && e.value.RequirementEntity? then Some(e.value.definition) else None
  }

  /** What sending an entry back undoes, by kind. */
  ghost function Undone(s: State, item: Draft): State
    requires ValidCatalogue(s.cat)
  {
    if item.volunteer !in s.volunteers then s
    else
      var v, file := item.volunteer, s.volunteers[item.volunteer];
      match (item.kind, item.entity)
      case (CompletionReview, RequirementEntity(_, d)) =>
        WithFile(s, v, CompletionSentBack(s.cat, file, d, item.before.row, s.today))
      case (DocumentReview, DocumentEntity(n)) =>
        var marked := if n < |s.documents| then s.(documents := s.documents[n := false]) else s;
        WithFile(marked, v, DocumentSentBack(s.cat, file, RequirementOf(item.affected), s.today))
      case (CrcReview, CheckEntity(_, check)) =>
        WithFile(s, v, CrcSentBack(s.cat, file, check, RequirementOf(item.affected), item.before.row,
                                   item.before.displaced, s.today))
      case (WaiverReview, RequirementEntity(_, d)) =>
        WithFile(s, v, WaiverSentBack(s.cat, file, d, item.before.row, s.today))
      case _ => s
  }

  ghost predicate AcceptsCatalogue(s: State, cat: Catalogue) {
    ValidCatalogue(cat) && s.cat.defs.Keys <= cat.defs.Keys
  }

  // ---- One step -----------------------------------------------------------------------

  /** What a step makes of the volunteer's file; a refused step rolls back. */
  ghost function FileAfter(s: State, v: VolunteerId, step: Step): Result<Volunteer>
    requires ValidCatalogue(s.cat) && v in s.volunteers
  {
    var file := s.volunteers[v];
    match step
    case EditDetails(_, birth, isActive) => Success(file.(birth := birth, isActive := isActive))
    case Assign(_, role) => Assigned(file, role)
    case EndAssignment(_, i) => AssignmentEnded(file, i)
    case Sync(_) => Success(AfterSync(s.cat, file, s.today))
    case ActivateTurning18(_) => if file.isActive then Success(AfterAgeScan(s.cat, file, s.today)) else Refused
    case Recompute(_) => if file.isActive then Success(AllRecomputed(file, s.today)) else Refused
    case MarkComplete(_, d, on, notes, _) => MarkedComplete(s.cat, file, d, on, notes, s.today)
    case Start(_, d) => StartedRequirement(file, d, s.today)
    case Waive(_, d, reasonGiven, _) => WaivedRequirement(s.cat, file, d, reasonGiven, s.today)
    case ReverseWaiver(_, d, reasonGiven) => ReversedWaiver(s.cat, file, d, reasonGiven, None, s.today)
    case RecordCheck(_, result, reportDate, _) => RecordedCrc(s.cat, file, result, reportDate, s.today)
    case RecordConvictions(_, check, entries, _) => RecordedConvictions(file, check, entries)
    case RecordOverride(_, check, conviction, decision, documented, _) =>
      RecordedOverride(file, check, conviction, decision, documented)
    case ResolveNotClear(_, check, outcome) => ResolvedNotClear(file, check, outcome)
    case _ => Refused
  }

  /** The review item that covers the step, for the steps that ask for one. */
  function ReviewOf(s: State, v: VolunteerId, step: Step): Option<(Actor, Draft)>
    requires v in s.volunteers
  {
    var file := s.volunteers[v];
    match step
    case MarkComplete(_, d, _, _, actor) => Some((actor, RequirementDraft(s, v, d, CompletionReview, actor)))
    case Waive(_, d, _, actor) => Some((actor, RequirementDraft(s, v, d, WaiverReview, actor)))
    case RecordCheck(_, _, _, actor) => Some((actor, CheckDraft(s, v, actor)))
    case RecordConvictions(_, check, entries, actor) =>
      if entries == [] then None
      else
        var first := if check < |file.checks| then |file.checks[check].convictions| else 0;
        Some((actor, Draft(CrcReview, v, ConvictionEntity(v, check, first), Some(CheckEntity(v, check)),
                           Before(EMPTY_SNAPSHOT, None), actor.user)))
    case RecordOverride(_, check, _, _, _, actor) =>
      var number := if check < |file.checks| then file.checks[check].overrides else 0;
      Some((actor, Draft(OverrideReview, v, OverrideEntity(v, check, number), Some(CheckEntity(v, check)),
                         Before(EMPTY_SNAPSHOT, None), actor.user)))
    case _ => None
  }

  function Reviewed(s: State, review: Option<(Actor, Draft)>): Ledger {
    if review.Some? then OpenedIfUnverified(s.ledger, review.value.0.needsReview, review.value.1, s.today) else s.ledger
  }

  ghost function FileStep(s: State, v: VolunteerId, step: Step): State
    requires ValidCatalogue(s.cat) && v in s.volunteers
  {
    if step.StoreDocument? then
      AfterDocument(s, v, step.backs, step.documentDate, step.supersedes, step.actor)
    else
      var result := FileAfter(s, v, step);
      if result.Success? then WithFile(s, v, result.value).(ledger := Reviewed(s, ReviewOf(s, v, step))) else s
  }

  predicate IsChurchStep(step: Step) {
    step.Wait? || step.EditDefinitions? || step.Register? || step.Affirm? || step.SendBack?
  }

  ghost function ChurchStep(s: State, step: Step): State
    requires ValidCatalogue(s.cat) && IsChurchStep(step)
  {
    match step
    case Wait(days) => s.(today := s.today + days)
    case EditDefinitions(cat) => if AcceptsCatalogue(s, cat) then s.(cat := cat) else s
    case Register(v, birth) =>
      if v in s.volunteers then s else WithFile(s, v, Volunteer(true, birth, NoBlock, [], map[], []))
    case Affirm(i) => s.(ledger := AfterStep(s.ledger, AffirmStep(i), s.today))
    case SendBack(i, reasonGiven) =>
      if IsOpen(s.ledger, i) && reasonGiven
      then Undone(s, s.ledger.items[i].draft).(ledger := AfterStep(s.ledger, SendBackStep(i, true), s.today))
      else s
  }

  ghost function After(s: State, step: Step): State
    requires ValidCatalogue(s.cat)
  {
    if IsChurchStep(step) then ChurchStep(s, step)
    else if step.v in s.volunteers then FileStep(s, step.v, step)
    else s
  }

  // ---- The invariant ------------------------------------------------------------------

  ghost predicate FilesSound(s: State) {
    forall v :: v in s.volunteers ==> Sound(s.volunteers[v], s.cat.defs, s.today)
  }

  ghost predicate SnapshotsCoherent(items: seq<Item>) {
    forall i :: 0 <= i < |items| ==> CoherentSnapshot(items[i].draft.before.row)
  }

  ghost predicate SoundState(s: State) {
    && ValidCatalogue(s.cat)
    && FilesSound(s)
    && Consistent(s.ledger)
    && SnapshotsCoherent(s.ledger.items)
  }

  ghost predicate Initial(s: State) {
    ValidCatalogue(s.cat) && s.volunteers == map[] && s.documents == [] && s.ledger == Ledger([], [])
  }

  /** What a later state keeps of an earlier one. */
  ghost predicate Follows(s: State, later: State) {
    && s.today <= later.today
    && Continues(s.ledger, later.ledger)
    && forall v :: v in s.volunteers ==> v in later.volunteers && Extends(s.volunteers[v], later.volunteers[v])
  }

  lemma FollowsTransitive(a: State, b: State, c: State)
    requires Follows(a, b) && Follows(b, c)
    ensures Follows(a, c)
  {
    ContinuesTransitive(a.ledger, b.ledger, c.ledger);
    forall v | v in a.volunteers ensures v in c.volunteers && Extends(a.volunteers[v], c.volunteers[v]) {
      assert Extends(a.volunteers[v], b.volunteers[v]) && Extends(b.volunteers[v], c.volunteers[v]);
      forall i | 0 <= i < |a.volunteers[v].checks|
        ensures a.volunteers[v].checks[i].convictions <= c.volunteers[v].checks[i].convictions
      {
        assert a.volunteers[v].checks[i].convictions <= b.volunteers[v].checks[i].convictions;
      }
    }
  }

  lemma SoundLater(v: Volunteer, defs: map<DefId, Definition>, more: map<DefId, Definition>, today: Day, later: Day)
    requires Sound(v, defs, today) && defs.Keys <= more.Keys && today <= later
    ensures Sound(v, more, later)
  {
    forall d | d in v.rows ensures d in more && Coherent(v.rows[d], later) {
      CoherentLater(v.rows[d], today, later);
    }
  }

  /** A step that replaces one file by a sound extension of it, and the ledger by a consistent continuation. */
  lemma FileReplaced(s: State, v: VolunteerId, file: Volunteer, s': State)
    requires SoundState(s) && v in s.volunteers
    requires Sound(file, s.cat.defs, s.today) && Extends(s.volunteers[v], file)
    requires s' == s.(volunteers := s.volunteers[v := file], documents := s'.documents, ledger := s'.ledger)
    requires Consistent(s'.ledger) && SnapshotsCoherent(s'.ledger.items) && Continues(s.ledger, s'.ledger)
    ensures SoundState(s') && Follows(s, s')
  {
  }

  lemma ItemOpened(l: Ledger, needsReview: bool, draft: Draft, today: Day)
    requires Consistent(l) && SnapshotsCoherent(l.items) && CoherentSnapshot(draft.before.row)
    ensures var l' := OpenedIfUnverified(l, needsReview, draft, today);
            Consistent(l') && SnapshotsCoherent(l'.items) && Continues(l, l')
  {
    StepKeepsConsistent(l, OpenStep(needsReview, draft), today);
  }

  lemma SnapshotOfSoundRow(file: Volunteer, defs: map<DefId, Definition>, today: Day, d: DefId)
    requires Sound(file, defs, today)
    ensures CoherentSnapshot(RowBefore(file, d))
  {
  }

  // ---- Every service keeps its file sound -----------------------------------------------

  lemma CompletingKeepsSound(cat: Catalogue, v: Volunteer, d: DefId, on: Day, notes: string, today: Day)
    requires ValidCatalogue(cat) && Sound(v, cat.defs, today)
    ensures var after := MarkedComplete(cat, v, d, on, notes, today);
            after.Success? ==> Sound(after.value, cat.defs, today) && Extends(v, after.value)
  {
    if MarkedComplete(cat, v, d, on, notes, today).Success? {
      RowWriteKeepsSound(cat, v, d, Completed(v.rows[d], cat.defs[d], on, notes), today);
    }
  }

  lemma WaivingKeepsSound(cat: Catalogue, v: Volunteer, d: DefId, reasonGiven: bool, today: Day)
    requires ValidCatalogue(cat) && Sound(v, cat.defs, today)
    ensures var after := WaivedRequirement(cat, v, d, reasonGiven, today);
            after.Success? ==> Sound(after.value, cat.defs, today) && Extends(v, after.value)
  {
    if WaivedRequirement(cat, v, d, reasonGiven, today).Success? {
      RowWriteKeepsSound(cat, v, d, WaivedRow(v.rows[d], today), today);
    }
  }

  lemma ReversingKeepsSound(cat: Catalogue, v: Volunteer, d: DefId, reasonGiven: bool,
                            restoreDue: Option<(Option<Day>, DueReason)>, today: Day)
    requires ValidCatalogue(cat) && Sound(v, cat.defs, today)
    ensures var after := ReversedWaiver(cat, v, d, reasonGiven, restoreDue, today);
            after.Success? ==> Sound(after.value, cat.defs, today) && Extends(v, after.value)
  {
    if ReversedWaiver(cat, v, d, reasonGiven, restoreDue, today).Success? {
      ReversalIsCoherent(v.rows[d], restoreDue, today);
      RowWriteKeepsSound(cat, v, d, WaiverReversed(v.rows[d], restoreDue, today), today);
    }
  }

  lemma RestoringKeepsSound(cat: Catalogue, v: Volunteer, d: DefId, snapshot: Snapshot, today: Day)
    requires ValidCatalogue(cat) && Sound(v, cat.defs, today) && d in v.rows && CoherentSnapshot(snapshot)
    ensures var after := RestoredFromSnapshot(cat, v, d, snapshot, today);
            Sound(after, cat.defs, today) && Extends(v, after)
  {
    RestoredIsCoherent(v.rows[d], snapshot, today);
    RowWriteKeepsSound(cat, v, d, Restored(v.rows[d], snapshot, today), today);
  }

  lemma SendingDocumentBackKeepsSound(cat: Catalogue, v: Volunteer, instance: Option<DefId>, today: Day)
    requires ValidCatalogue(cat) && Sound(v, cat.defs, today)
    ensures var after := DocumentSentBack(cat, v, instance, today);
            Sound(after, cat.defs, today) && Extends(v, after)
  {
    if instance.Some? && instance.value in v.rows {
      RestoringKeepsSound(cat, v, instance.value, EMPTY_SNAPSHOT, today);
    }
  }

  lemma NightKeepsSound(cat: Catalogue, v: Volunteer, today: Day)
    requires ValidCatalogue(cat) && Sound(v, cat.defs, today)
    ensures Sound(AfterAgeScan(cat, v, today), cat.defs, today) && Extends(v, AfterAgeScan(cat, v, today))
    ensures Sound(AllRecomputed(v, today), cat.defs, today) && Extends(v, AllRecomputed(v, today))
  {
    AgeScanKeepsCoherent(ContextOf(cat, v, today), v.rows, |cat.order|);
    forall d | d in v.rows ensures Coherent(Recomputed(v.rows[d], today), today) {
      RecomputeKeepsCoherent(v.rows[d], today);
    }
  }

  /** A sound state later on that differs in its files and documents at most. */
  ghost predicate KeepsAllButFiles(s: State, later: State) {
    && later == s.(volunteers := later.volunteers, documents := later.documents)
    && SoundState(later) && Follows(s, later)
  }

  lemma UndoingCheckKeepsSound(s: State, item: Draft)
    requires SoundState(s) && CoherentSnapshot(item.before.row)
    requires item.kind.CrcReview? && item.entity.CheckEntity? && item.volunteer in s.volunteers
    ensures KeepsAllButFiles(s, Undone(s, item))
  {
    var v, file, snapshot := item.volunteer, s.volunteers[item.volunteer], item.before.row;
    var check, instance := item.entity.check, RequirementOf(item.affected);
    RetractingKeepsSound(s.cat, file, check, instance, snapshot, item.before.displaced, s.today);
    FileReplaced(s, v, CrcSentBack(s.cat, file, check, instance, snapshot, item.before.displaced, s.today),
                 Undone(s, item));
  }

  lemma UndoingCompletionKeepsSound(s: State, item: Draft)
    requires SoundState(s) && CoherentSnapshot(item.before.row)
    requires item.kind.CompletionReview? && item.entity.RequirementEntity? && item.volunteer in s.volunteers
    ensures KeepsAllButFiles(s, Undone(s, item))
  {
    var v, file, snapshot := item.volunteer, s.volunteers[item.volunteer], item.before.row;
    var d := item.entity.definition;
    if d in file.rows {
      RestoringKeepsSound(s.cat, file, d, snapshot, s.today);
    }
    FileReplaced(s, v, CompletionSentBack(s.cat, file, d, snapshot, s.today), Undone(s, item));
  }

  lemma UndoingDocumentKeepsSound(s: State, item: Draft)
    requires SoundState(s) && CoherentSnapshot(item.before.row)
    requires item.kind.DocumentReview? && item.entity.DocumentEntity? && item.volunteer in s.volunteers
    ensures KeepsAllButFiles(s, Undone(s, item))
  {
    var v, file := item.volunteer, s.volunteers[item.volunteer];
    var instance := RequirementOf(item.affected);
    SendingDocumentBackKeepsSound(s.cat, file, instance, s.today);
    FileReplaced(s, v, DocumentSentBack(s.cat, file, instance, s.today), Undone(s, item));
  }

  lemma UndoingWaiverKeepsSound(s: State, item: Draft)
    requires SoundState(s) && CoherentSnapshot(item.before.row)
    requires item.kind.WaiverReview? && item.entity.RequirementEntity? && item.volunteer in s.volunteers
    ensures KeepsAllButFiles(s, Undone(s, item))
  {
    var v, file, snapshot := item.volunteer, s.volunteers[item.volunteer], item.before.row;
    var d := item.entity.definition;
    ReversingKeepsSound(s.cat, file, d, true, Some((snapshot.dueOn, snapshot.dueReason)), s.today);
    FileReplaced(s, v, WaiverSentBack(s.cat, file, d, snapshot, s.today), Undone(s, item));
  }

  lemma UndoingKeepsSound(s: State, item: Draft)
    requires SoundState(s) && CoherentSnapshot(item.before.row)
    ensures KeepsAllButFiles(s, Undone(s, item))
  {
    if item.volunteer in s.volunteers {
      match (item.kind, item.entity)
      case (CompletionReview, RequirementEntity(_, _)) => UndoingCompletionKeepsSound(s, item);
      case (DocumentReview, DocumentEntity(_)) => UndoingDocumentKeepsSound(s, item);
      case (CrcReview, CheckEntity(_, _)) => UndoingCheckKeepsSound(s, item);
      case (WaiverReview, RequirementEntity(_, _)) => UndoingWaiverKeepsSound(s, item);
      case _ =>
    }
  }

  // ---- Every step keeps the state sound -------------------------------------------------

  lemma DocumentKeepsSound(s: State, v: VolunteerId, d: Option<DefId>, documentDate: Option<Day>,
                           supersedes: Option<nat>, actor: Actor)
    requires SoundState(s) && v in s.volunteers
    ensures var s' := AfterDocument(s, v, d, documentDate, supersedes, actor); SoundState(s') && Follows(s, s')
  {
    var file := s.volunteers[v];
    var on := if documentDate.Some? then documentDate.value else s.today;
    var completes := DocumentCompletes(s, file, d, on);
    var affected := if completes then Some(RequirementEntity(v, d.value)) else None;
    var draft := Draft(DocumentReview, v, DocumentEntity(|s.documents|), affected, Before(EMPTY_SNAPSHOT, None),
                       actor.user);
    ItemOpened(s.ledger, actor.needsReview, draft, s.today);
    var after := if completes then MarkedComplete(s.cat, file, d.value, on, "", s.today) else Success(file);
    if completes {
      CompletingKeepsSound(s.cat, file, d.value, on, "", s.today);
    }
    var s' := AfterDocument(s, v, d, documentDate, supersedes, actor);
    assert s.volunteers[v := file] == s.volunteers;
    FileReplaced(s, v, if after.Success? then after.value else file, s');
  }

  predicate IsCheckStep(step: Step) {
    step.RecordCheck? || step.RecordConvictions? || step.RecordOverride? || step.ResolveNotClear?
  }

  lemma CheckStepKeepsSound(s: State, v: VolunteerId, step: Step)
    requires SoundState(s) && v in s.volunteers && IsCheckStep(step)
    ensures var result := FileAfter(s, v, step);
            result.Success? ==> Sound(result.value, s.cat.defs, s.today) && Extends(s.volunteers[v], result.value)
  {
    var file := s.volunteers[v];
    match step
    case RecordCheck(_, result, reportDate, _) =>
      RecordingKeepsSound(s.cat, file, result, reportDate, s.today);
    case RecordConvictions(_, check, entries, _) =>
      ConvictingKeepsSound(file, check, entries, s.cat.defs, s.today);
    case RecordOverride(_, check, conviction, decision, documented, _) =>
      DecidingKeepsSound(file, check, conviction, decision, documented, s.cat.defs, s.today);
    case ResolveNotClear(_, check, outcome) =>
      ResolvingKeepsSound(file, check, outcome, s.cat.defs, s.today);
  }

  lemma FileAfterKeepsSound(s: State, v: VolunteerId, step: Step)
    requires SoundState(s) && v in s.volunteers
    ensures var result := FileAfter(s, v, step);
            result.Success? ==> Sound(result.value, s.cat.defs, s.today) && Extends(s.volunteers[v], result.value)
  {
    var file := s.volunteers[v];
    match step
    case EditDetails(_, birth, isActive) =>
      EditingDetailsKeepsSound(file, birth, isActive, s.cat.defs, s.today);
    case Assign(_, role) =>
      AssigningKeepsSound(file, role, s.cat.defs, s.today);
    case EndAssignment(_, i) =>
      EndingKeepsSound(file, i, s.cat.defs, s.today);
    case Start(_, d) =>
      StartingKeepsSound(file, d, s.cat.defs, s.today);
    case Sync(_) =>
      SyncKeepsSound(s.cat, file, s.today);
    case ActivateTurning18(_) =>
      NightKeepsSound(s.cat, file, s.today);
    case Recompute(_) =>
      NightKeepsSound(s.cat, file, s.today);
    case MarkComplete(_, d, on, notes, _) =>
      CompletingKeepsSound(s.cat, file, d, on, notes, s.today);
    case Waive(_, d, reasonGiven, _) =>
      WaivingKeepsSound(s.cat, file, d, reasonGiven, s.today);
    case ReverseWaiver(_, d, reasonGiven) =>
      ReversingKeepsSound(s.cat, file, d, reasonGiven, None, s.today);
    case _ =>
      if IsCheckStep(step) {
        CheckStepKeepsSound(s, v, step);
      }
  }

  lemma EditingDetailsKeepsSound(v: Volunteer, birth: Option<Birth>, isActive: bool, defs: map<DefId, Definition>,
                                 today: Day)
    requires Sound(v, defs, today)
    ensures var after := v.(birth := birth, isActive := isActive); Sound(after, defs, today) && Extends(v, after)
  {
    SameConvictions(v, v.(birth := birth, isActive := isActive));
  }

  lemma AssigningKeepsSound(v: Volunteer, role: Role, defs: map<DefId, Definition>, today: Day)
    requires Sound(v, defs, today)
    ensures var after := Assigned(v, role);
            after.Success? ==> Sound(after.value, defs, today) && Extends(v, after.value)
  {
    if Assigned(v, role).Success? {
      SameConvictions(v, Assigned(v, role).value);
    }
  }

  lemma EndingKeepsSound(v: Volunteer, i: nat, defs: map<DefId, Definition>, today: Day)
    requires Sound(v, defs, today)
    ensures var after := AssignmentEnded(v, i);
            after.Success? ==> Sound(after.value, defs, today) && Extends(v, after.value)
  {
    if AssignmentEnded(v, i).Success? {
      SameConvictions(v, AssignmentEnded(v, i).value);
    }
  }

  lemma StartingKeepsSound(v: Volunteer, d: DefId, defs: map<DefId, Definition>, today: Day)
    requires Sound(v, defs, today)
    ensures var after := StartedRequirement(v, d, today);
            after.Success? ==> Sound(after.value, defs, today) && Extends(v, after.value)
  {
    if d in v.rows {
      assert Coherent(Started(v.rows[d], today), today);
      SameConvictions(v, WithRow(v, d, Started(v.rows[d], today)));
    }
  }

  lemma ReviewOfIsCoherent(s: State, v: VolunteerId, step: Step)
    requires SoundState(s) && v in s.volunteers
    ensures ReviewOf(s, v, step).Some? ==> CoherentSnapshot(ReviewOf(s, v, step).value.1.before.row)
  {
    forall d ensures CoherentSnapshot(RowBefore(s.volunteers[v], d)) {
      SnapshotOfSoundRow(s.volunteers[v], s.cat.defs, s.today, d);
    }
  }

  lemma FileStepKeepsSound(s: State, v: VolunteerId, step: Step)
    requires SoundState(s) && v in s.volunteers
    ensures SoundState(FileStep(s, v, step)) && Follows(s, FileStep(s, v, step))
  {
    if step.StoreDocument? {
      DocumentKeepsSound(s, v, step.backs, step.documentDate, step.supersedes, step.actor);
    } else {
      var result, review := FileAfter(s, v, step), ReviewOf(s, v, step);
      FileAfterKeepsSound(s, v, step);
      ReviewOfIsCoherent(s, v, step);
      if review.Some? {
        ItemOpened(s.ledger, review.value.0.needsReview, review.value.1, s.today);
      }
      if result.Success? {
        FileReplaced(s, v, result.value, FileStep(s, v, step));
      }
    }
  }

  lemma WaitingKeepsSound(s: State, days: nat)
    requires SoundState(s)
    ensures SoundState(s.(today := s.today + days)) && Follows(s, s.(today := s.today + days))
  {
    forall v | v in s.volunteers ensures Sound(s.volunteers[v], s.cat.defs, s.today + days) {
      SoundLater(s.volunteers[v], s.cat.defs, s.cat.defs, s.today, s.today + days);
    }
  }

  lemma EditingKeepsSound(s: State, cat: Catalogue)
    requires SoundState(s) && AcceptsCatalogue(s, cat)
    ensures SoundState(s.(cat := cat)) && Follows(s, s.(cat := cat))
  {
    forall v | v in s.volunteers ensures Sound(s.volunteers[v], cat.defs, s.today) {
      SoundLater(s.volunteers[v], s.cat.defs, cat.defs, s.today, s.today);
    }
  }

  lemma SendingBackKeepsSound(s: State, i: nat)
    requires SoundState(s) && IsOpen(s.ledger, i)
    ensures SoundState(ChurchStep(s, SendBack(i, true))) && Follows(s, ChurchStep(s, SendBack(i, true)))
  {
    StepKeepsConsistent(s.ledger, SendBackStep(i, true), s.today);
    UndoingKeepsSound(s, s.ledger.items[i].draft);
  }

  lemma RegisteringKeepsSound(s: State, v: VolunteerId, birth: Option<Birth>)
    requires SoundState(s) && v !in s.volunteers
    ensures var s' := WithFile(s, v, Volunteer(true, birth, NoBlock, [], map[], [])); SoundState(s') && Follows(s, s')
  {
  }

  lemma AffirmingKeepsSound(s: State, i: nat)
    requires SoundState(s)
    ensures var s' := s.(ledger := AfterStep(s.ledger, AffirmStep(i), s.today)); SoundState(s') && Follows(s, s')
  {
    StepKeepsConsistent(s.ledger, AffirmStep(i), s.today);
  }

  lemma ChurchStepKeepsSound(s: State, step: Step)
    requires SoundState(s) && IsChurchStep(step)
    ensures SoundState(ChurchStep(s, step)) && Follows(s, ChurchStep(s, step))
  {
    match step
    case Wait(days) =>
      WaitingKeepsSound(s, days);
    case EditDefinitions(cat) =>
      if AcceptsCatalogue(s, cat) {
        EditingKeepsSound(s, cat);
      }
    case Register(v, birth) =>
      if v !in s.volunteers {
        RegisteringKeepsSound(s, v, birth);
      }
    case Affirm(i) =>
      AffirmingKeepsSound(s, i);
    case SendBack(i, reasonGiven) =>
      if IsOpen(s.ledger, i) && reasonGiven {
        SendingBackKeepsSound(s, i);
      }
  }

  lemma StepKeepsSound(s: State, step: Step)
    requires SoundState(s)
    ensures SoundState(After(s, step)) && Follows(s, After(s, step))
  {
    if IsChurchStep(step) {
      ChurchStepKeepsSound(s, step);
    } else if step.v in s.volunteers {
      FileStepKeepsSound(s, step.v, step);
    }
  }

  // ---- Whole runs ---------------------------------------------------------------------

  /** The state after a run; what a service refuses leaves the state as it was. */
  ghost function Run(s: State, steps: seq<Step>): State
    requires ValidCatalogue(s.cat)
    decreases |steps|
  {
    if steps == [] then s else Run(After(s, steps[0]), steps[1..])
  }

  /** Every run from a sound state is sound, forgets no conviction and reopens no review. */
  lemma {:induction false} RunKeepsSound(s: State, steps: seq<Step>)
    requires SoundState(s)
    ensures SoundState(Run(s, steps)) && Follows(s, Run(s, steps))
    decreases |steps|
  {
    if steps != [] {
      var next := After(s, steps[0]);
      StepKeepsSound(s, steps[0]);
      RunKeepsSound(next, steps[1..]);
      FollowsTransitive(s, next, Run(next, steps[1..]));
    }
  }

  /** In every run each row's status and dates agree, and recompute never brings an overdue row back. */
  lemma RowsStayCoherent(s: State, steps: seq<Step>, v: VolunteerId, d: DefId)
    requires Initial(s) && v in Run(s, steps).volunteers && d in Run(s, steps).volunteers[v].rows
    ensures var row := Run(s, steps).volunteers[v].rows[d];
            && Coherent(row, Run(s, steps).today)
            && (row.status.Overdue? ==> Recomputed(row, Run(s, steps).today) == row)
  {
    RunKeepsSound(s, steps);
    var end := Run(s, steps);
    assert Sound(end.volunteers[v], end.cat.defs, end.today);
    RecomputeKeepsCoherent(end.volunteers[v].rows[d], end.today);
  }

  /** On every reachable row the nights that were swept do not matter, only the last one. */
  lemma MissedNightsNeverShow(s: State, steps: seq<Step>, v: VolunteerId, d: DefId, nights: seq<Day>)
    requires Initial(s) && v in Run(s, steps).volunteers && d in Run(s, steps).volunteers[v].rows
    requires nights != [] && NonDecreasing(nights) && Run(s, steps).today <= nights[0]
    ensures var row := Run(s, steps).volunteers[v].rows[d];
            RecomputedOn(row, nights) == Recomputed(row, nights[|nights| - 1])
  {
    var row, today := Run(s, steps).volunteers[v].rows[d], Run(s, steps).today;
    RowsStayCoherent(s, steps, v, d);
    CoherentLater(row, today, nights[0]);
    OnlyTheLastNightMatters(row, nights);
  }

  /** In every run a volunteer is disqualified exactly when an automatic conviction is on file; whatever
      follows, send-backs included, the disqualification stands and no assignment is active. */
  lemma DisqualificationIsPermanent(s: State, steps: seq<Step>, more: seq<Step>, v: VolunteerId)
    requires Initial(s) && v in Run(s, steps).volunteers
    ensures ValidCatalogue(Run(s, steps).cat)
    ensures var now, later := Run(s, steps), Run(Run(s, steps), more);
            && (now.volunteers[v].block.Disqualified? <==> HasAutomaticConviction(now.volunteers[v]))
            && v in later.volunteers
            && (now.volunteers[v].block.Disqualified? ==>
                  later.volunteers[v].block.Disqualified? && NoActiveAssignment(later.volunteers[v]))
  {
    var now := Run(s, steps);
    RunKeepsSound(s, steps);
    var later := Run(now, more);
    RunKeepsSound(now, more);
    assert Sound(now.volunteers[v], now.cat.defs, now.today);
    assert Sound(later.volunteers[v], later.cat.defs, later.today);
    if HasAutomaticConviction(now.volunteers[v]) {
      ConvictionsStay(now.volunteers[v], later.volunteers[v]);
    }
  }

  /** In every run the review queue is consistent with itself and with the audit trail, and what is
      closed stays as it was closed. */
  lemma ReviewsStayConsistent(s: State, steps: seq<Step>, more: seq<Step>)
    requires Initial(s)
    ensures ValidCatalogue(Run(s, steps).cat)
    ensures var now, later := Run(s, steps).ledger, Run(Run(s, steps), more).ledger;
            && Consistent(now) && |now.items| <= |later.items|
            && CountAction(now.audit, ReviewOpened)
               == CountStatus(now.items, PendingReview) + CountStatus(now.items, Affirmed)
                + CountStatus(now.items, ReviewLedger.SentBack) + CountStatus(now.items, ReviewLedger.Superseded)
            && (forall i :: 0 <= i < |now.items| && !now.items[i].status.PendingReview? ==>
                later.items[i] == now.items[i])
  {
    RunKeepsSound(s, steps);
    RunKeepsSound(Run(s, steps), more);
    StatusesPartition(Run(s, steps).ledger.items);
  }
}
