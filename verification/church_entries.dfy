/** An entry's way through the church: what recording it files for review, and what sending it back then undoes. */
module ChurchEntries {
  import opened Wrappers
  import opened Calendar
  import opened Definitions
  import opened RequirementRows
  import opened Reconciliation
  import opened Settlement
  import opened VolunteerFiles
  import opened NightlySweep
  import opened CompletionHistory
  import opened CheckHistory
  import opened SendBacks
  import opened RecordedProgress
  import opened ReviewLedger
  import opened Church

  function RowIn(s: State, v: VolunteerId, d: DefId): Option<Row> {
    if v in s.volunteers then Get(s.volunteers[v].rows, d) else None
  }

  /** The refresh that ends a restore has no business with the restored row. */
  ghost predicate RestoreIsSpared(s: State, v: VolunteerId, d: DefId, before: Snapshot)
    requires ValidCatalogue(s.cat) && RowIn(s, v, d).Some?
  {
    var file := s.volunteers[v];
    RefreshSpares(s.cat, WithRow(file, d, Restored(file.rows[d], before, s.today)), d, s.today)
  }

  // ---- Filing an entry ------------------------------------------------------------------

  /** Item `i` is the newest, open, and about this entity of this volunteer. */
  predicate IsFiled(l: Ledger, i: nat, kind: Kind, v: VolunteerId, e: Entity, user: nat) {
    && i == |l.items| - 1 && l.items[i].status == PendingReview
    && l.items[i].draft.kind == kind && l.items[i].draft.volunteer == v && l.items[i].draft.entity == e
    && l.items[i].draft.recordedBy == user
  }

  lemma NewestIsFiled(l: Ledger, draft: Draft, today: Day)
    ensures var later := OpenedIfUnverified(l, true, draft, today);
            && |later.items| == |l.items| + 1 && later.items[|l.items|] == Item(draft, PendingReview, None, None)
            && forall i :: 0 <= i < |l.items| ==> later.items[i].draft == l.items[i].draft
  {
  }

  /** What a step on one volunteer's file leaves alone. */
  ghost predicate IsLocal(s: State, after: State, v: VolunteerId) {
    && after.cat == s.cat && after.today == s.today
    && after.volunteers.Keys == s.volunteers.Keys
    && forall other :: other in s.volunteers && other != v ==> after.volunteers[other] == s.volunteers[other]
  }

  lemma StoringIsLocal(s: State, step: Step)
    requires SoundState(s) && step.StoreDocument? && step.v in s.volunteers
    ensures IsLocal(s, After(s, step), step.v)
    ensures !step.actor.needsReview ==> After(s, step).ledger == s.ledger
  {
  }

  lemma FileStepIsLocal(s: State, step: Step)
    requires SoundState(s) && !IsChurchStep(step) && !step.StoreDocument? && step.v in s.volunteers
    ensures IsLocal(s, After(s, step), step.v)
    ensures After(s, step).documents == s.documents
    ensures !NeedsReview(step) ==> After(s, step).ledger == s.ledger
  {
    assert After(s, step) == FileStep(s, step.v, step);
    if !NeedsReview(step) {
      UnreviewedFilesNothing(s, step);
    }
  }

  lemma UnreviewedFilesNothing(s: State, step: Step)
    requires !IsChurchStep(step) && !step.StoreDocument? && step.v in s.volunteers && !NeedsReview(step)
    ensures Reviewed(s, ReviewOf(s, step.v, step)) == s.ledger
  {
  }

  /** A step on one volunteer's file moves nobody else's, nor the definitions or the clock; the documents only if it
      stores one; and without need of review nothing is filed. */
  lemma StepsAreLocal(s: State, step: Step)
    requires SoundState(s) && !IsChurchStep(step)
    ensures IsLocal(s, After(s, step), step.v)
    ensures !step.StoreDocument? ==> After(s, step).documents == s.documents
    ensures !NeedsReview(step) ==> After(s, step).ledger == s.ledger
  {
    if step.v !in s.volunteers {
      assert After(s, step) == s;
    } else if step.StoreDocument? {
      StoringIsLocal(s, step);
    } else {
      FileStepIsLocal(s, step);
    }
  }

  predicate NeedsReview(step: Step) {
    match step
    case MarkComplete(_, _, _, _, actor) => actor.needsReview
    case Waive(_, _, _, actor) => actor.needsReview
    case RecordCheck(_, _, _, actor) => actor.needsReview
    case RecordConvictions(_, _, entries, actor) => |entries| > 0 && actor.needsReview
    case RecordOverride(_, _, _, _, _, actor) => actor.needsReview
    case StoreDocument(_, _, _, _, actor) => actor.needsReview
    case _ => false
  }

  /** Nor does anybody else's with a send-back: it closes its item, and moves one file and the documents at most. */
  lemma SendBackIsLocal(s: State, i: nat, reasonGiven: bool, other: VolunteerId)
    requires SoundState(s)
    ensures var after := After(s, SendBack(i, reasonGiven));
            if i < |s.ledger.items| && s.ledger.items[i].status == PendingReview && reasonGiven then
              && after.ledger.items == s.ledger.items[i := s.ledger.items[i].(status := ReviewLedger.SentBack,
                                                                              reviewedOn := Some(s.today))]
              && after.cat == s.cat && after.today == s.today
              && (other in s.volunteers && other != s.ledger.items[i].draft.volunteer ==>
                    other in after.volunteers && after.volunteers[other] == s.volunteers[other])
            else after == s
  {
  }

  /** Affirming an open item closes it and leaves everything else as recorded. */
  lemma AffirmingLetsStand(s: State, i: nat)
    requires SoundState(s)
    ensures var after := After(s, Affirm(i));
            if i < |s.ledger.items| && s.ledger.items[i].status == PendingReview then
              && after == s.(ledger := after.ledger)
              && after.ledger.items == s.ledger.items[i := s.ledger.items[i].(status := Affirmed,
                                                                              reviewedOn := Some(s.today))]
            else after == s
  {
  }

  lemma StepKeepsDocuments(s: State, step: Step)
    requires SoundState(s)
    ensures |s.documents| <= |After(s, step).documents|
  {
    if !IsChurchStep(step) {
      if step.StoreDocument? && step.v in s.volunteers {
        assert After(s, step) == AfterDocument(s, step.v, step.backs, step.documentDate, step.supersedes, step.actor);
      } else {
        StepsAreLocal(s, step);
      }
    }
  }

  /** No run loses a document. */
  lemma {:induction false} RunKeepsDocuments(s: State, steps: seq<Step>)
    requires SoundState(s)
    ensures SoundState(Run(s, steps)) && |s.documents| <= |Run(s, steps).documents|
    decreases |steps|
  {
    RunKeepsSound(s, steps);
    if steps != [] {
      StepKeepsSound(s, steps[0]);
      StepKeepsDocuments(s, steps[0]);
      RunKeepsDocuments(After(s, steps[0]), steps[1..]);
    }
  }

  /** A step on a file that asks for review, unfolded. */
  lemma StepFiles(s: State, step: Step, file: Volunteer, actor: Actor, draft: Draft, filed: State)
    requires ValidCatalogue(s.cat) && !IsChurchStep(step) && !step.StoreDocument? && step.v in s.volunteers
    requires FileAfter(s, step.v, step) == Success(file) && ReviewOf(s, step.v, step) == Some((actor, draft))
    requires actor.needsReview && filed == After(s, step)
    ensures filed == WithFile(s, step.v, file).(ledger := OpenedIfUnverified(s.ledger, true, draft, s.today))
    ensures |filed.ledger.items| == |s.ledger.items| + 1
    ensures filed.ledger.items[|s.ledger.items|] == Item(draft, PendingReview, None, None)
  {
    assert filed == FileStep(s, step.v, step);
    NewestIsFiled(s.ledger, draft, s.today);
  }

  // ---- Any later state -------------------------------------------------------------------

  /** A later state in which the item is still open and the volunteer still on file. */
  ghost predicate IsStillOpen(filed: State, later: State, i: nat) {
    && SoundState(later) && Continues(filed.ledger, later.ledger)
    && IsOpen(later.ledger, i)
    && i < |filed.ledger.items| && filed.ledger.items[i].draft.volunteer in later.volunteers
  }

  /** Every run that does not close the item leads to such a state. */
  lemma RunsKeepItOpen(filed: State, steps: seq<Step>, i: nat)
    requires SoundState(filed) && IsOpen(filed.ledger, i) && filed.ledger.items[i].draft.volunteer in filed.volunteers
    requires IsOpen(Run(filed, steps).ledger, i)
    ensures IsStillOpen(filed, Run(filed, steps), i)
  {
    RunKeepsSound(filed, steps);
  }

  /** Sending an open entry back undoes it on the file, by kind. */
  lemma SendBackUndoes(s: State, i: nat, draft: Draft)
    requires SoundState(s) && IsOpen(s.ledger, i) && s.ledger.items[i].draft == draft && draft.volunteer in s.volunteers
    ensures var sent, file := After(s, SendBack(i, true)), s.volunteers[draft.volunteer];
            && draft.volunteer in sent.volunteers
            && var back := sent.volunteers[draft.volunteer];
               && (draft.kind.CompletionReview? && draft.entity.RequirementEntity? ==>
                     back == CompletionSentBack(s.cat, file, draft.entity.definition, draft.before.row, s.today))
               && (draft.kind.WaiverReview? && draft.entity.RequirementEntity? ==>
                     back == WaiverSentBack(s.cat, file, draft.entity.definition, draft.before.row, s.today))
               && (draft.kind.CrcReview? && draft.entity.CheckEntity? ==>
                     back == CrcSentBack(s.cat, file, draft.entity.check, RequirementOf(draft.affected),
                                         draft.before.row, draft.before.displaced, s.today))
  {
  }

  lemma SendBackUndoesDocument(s: State, i: nat, draft: Draft, d: DefId)
    requires SoundState(s) && IsOpen(s.ledger, i) && s.ledger.items[i].draft == draft && draft.volunteer in s.volunteers
    requires draft.kind.DocumentReview? && draft.entity.DocumentEntity? && draft.entity.document < |s.documents|
    requires draft.affected == Some(RequirementEntity(draft.volunteer, d))
    ensures var sent := After(s, SendBack(i, true));
            && sent.documents == s.documents[draft.entity.document := false]
            && draft.volunteer in sent.volunteers
            && sent.volunteers[draft.volunteer]
                == DocumentSentBack(s.cat, s.volunteers[draft.volunteer], Some(d), s.today)
  {
  }

  // ---- Completions -------------------------------------------------------------------------

  /** A completion files an item with the row as it was before. */
  lemma CompletionIsFiled(s: State, v: VolunteerId, d: DefId, on: Day, notes: string, actor: Actor, filed: State)
    requires SoundState(s) && v in s.volunteers && actor.needsReview
    requires MarkedComplete(s.cat, s.volunteers[v], d, on, notes, s.today).Success?
    requires filed == After(s, MarkComplete(v, d, on, notes, actor))
    ensures IsFiled(filed.ledger, |s.ledger.items|, CompletionReview, v, RequirementEntity(v, d), actor.user)
    ensures filed.ledger.items[|s.ledger.items|].draft.before.row == SnapshotOf(s.volunteers[v].rows[d])
    ensures RowIn(filed, v, d) == Some(Completed(s.volunteers[v].rows[d], s.cat.defs[d], on, notes))
  {
    var file := s.volunteers[v];
    StepFiles(s, MarkComplete(v, d, on, notes, actor), MarkedComplete(s.cat, file, d, on, notes, s.today).value,
              actor, RequirementDraft(s, v, d, CompletionReview, actor), filed);
    FinishedAfterRefresh(s.cat, file, d, Completed(file.rows[d], s.cat.defs[d], on, notes), s.today);
  }

  lemma CompletionRestores(cat: Catalogue, v: Volunteer, d: DefId, before: Row, def: Definition, on: Day,
                           notes: string, t: Day)
    requires ValidCatalogue(cat) && Get(v.rows, d) == Some(Completed(before, def, on, notes))
    requires RefreshSpares(cat, WithRow(v, d, Restored(v.rows[d], SnapshotOf(before), t)), d, t)
    ensures Get(CompletionSentBack(cat, v, d, SnapshotOf(before), t).rows, d)
            == Some(Recomputed(before, t).(notes := v.rows[d].notes))
            <==> StatusMatchesDates(before, t)
  {
    RestoredAfterRefresh(cat, v, d, SnapshotOf(before), t);
    RestoreUndoesCompletion(before, def, on, notes, v.rows[d], t);
    StatusMatchesDatesIsExact(before, t);
  }

  /** Sent back in any later state in which the completion still stands, it leaves the row recomputed as if it had never
      been completed, its notes aside, exactly when the row's status had matched its dates. */
  lemma CompletionComesBack(s: State, v: VolunteerId, d: DefId, on: Day, notes: string, actor: Actor, filed: State,
                            later: State)
    requires SoundState(s) && v in s.volunteers && actor.needsReview
    requires MarkedComplete(s.cat, s.volunteers[v], d, on, notes, s.today).Success?
    requires filed == After(s, MarkComplete(v, d, on, notes, actor)) && IsStillOpen(filed, later, |s.ledger.items|)
    requires RowIn(later, v, d) == Some(Completed(s.volunteers[v].rows[d], s.cat.defs[d], on, notes))
    requires RestoreIsSpared(later, v, d, SnapshotOf(s.volunteers[v].rows[d]))
    ensures var before := s.volunteers[v].rows[d];
            RowIn(After(later, SendBack(|s.ledger.items|, true)), v, d)
              == Some(Recomputed(before, later.today).(notes := later.volunteers[v].rows[d].notes))
            <==> StatusMatchesDates(before, later.today)
  {
    var i := |s.ledger.items|;
    CompletionIsFiled(s, v, d, on, notes, actor, filed);
    SendBackUndoes(later, i, later.ledger.items[i].draft);
    CompletionRestores(later.cat, later.volunteers[v], d, s.volunteers[v].rows[d], s.cat.defs[d], on, notes,
                       later.today);
  }

  lemma NothingToRefresh(cat: Catalogue, d: DefId)
    requires ValidCatalogue(cat) && NothingWaits(cat, d)
    ensures !HasGatedDependents(cat, d)
  {
  }

  /** A filed entry is open at once. */
  lemma OpenAtOnce(filed: State, i: nat)
    requires SoundState(filed) && IsOpen(filed.ledger, i) && filed.ledger.items[i].draft.volunteer in filed.volunteers
    ensures IsStillOpen(filed, filed, i)
  {
  }

  lemma CompletionStandsAtOnce(s: State, v: VolunteerId, d: DefId, on: Day, notes: string, actor: Actor, filed: State)
    requires SoundState(s) && RowIn(s, v, d).Some? && d in s.cat.defs && NothingWaits(s.cat, d)
    requires MarkedComplete(s.cat, s.volunteers[v], d, on, notes, s.today).Success? && actor.needsReview
    requires filed == After(s, MarkComplete(v, d, on, notes, actor))
    ensures SoundState(filed) && IsStillOpen(filed, filed, |s.ledger.items|) && filed.today == s.today
    ensures RowIn(filed, v, d) == Some(Completed(s.volunteers[v].rows[d], s.cat.defs[d], on, notes))
    ensures RestoreIsSpared(filed, v, d, SnapshotOf(s.volunteers[v].rows[d]))
  {
    StepKeepsSound(s, MarkComplete(v, d, on, notes, actor));
    FileStepIsLocal(s, MarkComplete(v, d, on, notes, actor));
    CompletionIsFiled(s, v, d, on, notes, actor, filed);
    OpenAtOnce(filed, |s.ledger.items|);
    NothingToRefresh(s.cat, d);
  }

  /** In particular at once, where nothing waits on the requirement. */
  lemma CompletionComesBackAtOnce(s: State, v: VolunteerId, d: DefId, on: Day, notes: string, actor: Actor)
    returns (filed: State)
    requires SoundState(s) && RowIn(s, v, d).Some? && d in s.cat.defs && NothingWaits(s.cat, d)
    requires MarkedComplete(s.cat, s.volunteers[v], d, on, notes, s.today).Success? && actor.needsReview
    ensures filed == After(s, MarkComplete(v, d, on, notes, actor)) && SoundState(filed) && v in filed.volunteers
    ensures d in filed.volunteers[v].rows
    ensures var before := s.volunteers[v].rows[d];
            RowIn(After(filed, SendBack(|s.ledger.items|, true)), v, d)
              == Some(Recomputed(before, filed.today).(notes := filed.volunteers[v].rows[d].notes))
            <==> StatusMatchesDates(before, filed.today)
  {
    filed := After(s, MarkComplete(v, d, on, notes, actor));
    CompletionStandsAtOnce(s, v, d, on, notes, actor, filed);
    CompletionComesBack(s, v, d, on, notes, actor, filed, filed);
  }

  // ---- Waivers -------------------------------------------------------------------------------

  lemma WaiverIsFiled(s: State, v: VolunteerId, d: DefId, actor: Actor, filed: State)
    requires SoundState(s) && v in s.volunteers && actor.needsReview
    requires WaivedRequirement(s.cat, s.volunteers[v], d, true, s.today).Success?
    requires filed == After(s, Waive(v, d, true, actor))
    ensures IsFiled(filed.ledger, |s.ledger.items|, WaiverReview, v, RequirementEntity(v, d), actor.user)
    ensures filed.ledger.items[|s.ledger.items|].draft.before.row == SnapshotOf(s.volunteers[v].rows[d])
    ensures RowIn(filed, v, d) == Some(WaivedRow(s.volunteers[v].rows[d], s.today))
  {
    var file := s.volunteers[v];
    StepFiles(s, Waive(v, d, true, actor), WaivedRequirement(s.cat, file, d, true, s.today).value,
              actor, RequirementDraft(s, v, d, WaiverReview, actor), filed);
    FinishedAfterRefresh(s.cat, file, d, WaivedRow(file.rows[d], s.today), s.today);
  }

  ghost function WaiverUndone(before: Row, waived: Day, t: Day): Row {
    WaiverReversed(WaivedRow(before, waived), Some((before.dueOn, before.dueReason)), t)
  }

  lemma WaiverRestores(cat: Catalogue, v: Volunteer, d: DefId, before: Row, waived: Day, t: Day)
    requires ValidCatalogue(cat) && Get(v.rows, d) == Some(WaivedRow(before, waived))
    requires RefreshSpares(cat, WithRow(v, d, WaiverUndone(before, waived, t)), d, t)
    ensures Get(WaiverSentBack(cat, v, d, SnapshotOf(before), t).rows, d) == Some(Recomputed(before, t))
            <==> before.waivedOn.None? && StatusMatchesDates(before, t)
  {
    SparedAfterRefresh(cat, v, d, WaiverUndone(before, waived, t), t);
    WaiverSendBackCommutes(before, waived, t);
  }

  ghost predicate ReversalIsSpared(s: State, v: VolunteerId, d: DefId, before: Row, waived: Day)
    requires ValidCatalogue(s.cat) && v in s.volunteers
  {
    RefreshSpares(s.cat, WithRow(s.volunteers[v], d, WaiverUndone(before, waived, s.today)), d, s.today)
  }

  /** Sent back while it stands, a waiver leaves the row recomputed as if it had never been waived exactly when the
      row's status had matched its dates and no earlier waiver had left its date. */
  lemma WaiverComesBack(s: State, v: VolunteerId, d: DefId, actor: Actor, filed: State, later: State)
    requires SoundState(s) && v in s.volunteers && actor.needsReview
    requires WaivedRequirement(s.cat, s.volunteers[v], d, true, s.today).Success?
    requires filed == After(s, Waive(v, d, true, actor)) && IsStillOpen(filed, later, |s.ledger.items|)
    requires RowIn(later, v, d) == Some(WaivedRow(s.volunteers[v].rows[d], s.today))
    requires ReversalIsSpared(later, v, d, s.volunteers[v].rows[d], s.today)
    ensures var before := s.volunteers[v].rows[d];
            RowIn(After(later, SendBack(|s.ledger.items|, true)), v, d) == Some(Recomputed(before, later.today))
            <==> before.waivedOn.None? && StatusMatchesDates(before, later.today)
  {
    var i := |s.ledger.items|;
    WaiverIsFiled(s, v, d, actor, filed);
    SendBackUndoes(later, i, later.ledger.items[i].draft);
    WaiverRestores(later.cat, later.volunteers[v], d, s.volunteers[v].rows[d], s.today, later.today);
  }

  /** In particular at once, where nothing waits on the requirement. */
  lemma WaiverComesBackAtOnce(s: State, v: VolunteerId, d: DefId, actor: Actor)
    requires SoundState(s) && RowIn(s, v, d).Some? && d in s.cat.defs && NothingWaits(s.cat, d)
    requires !s.cat.defs[d].isCrc && actor.needsReview
    ensures var before := RowIn(s, v, d).value;
            var filed := After(s, Waive(v, d, true, actor));
            && SoundState(filed)
            && (RowIn(After(filed, SendBack(|s.ledger.items|, true)), v, d) == Some(Recomputed(before, s.today))
                <==> before.waivedOn.None? && StatusMatchesDates(before, s.today))
  {
    var filed := After(s, Waive(v, d, true, actor));
    StepKeepsSound(s, Waive(v, d, true, actor));
    FileStepIsLocal(s, Waive(v, d, true, actor));
    WaiverIsFiled(s, v, d, actor, filed);
    NothingToRefresh(s.cat, d);
    WaiverComesBack(s, v, d, actor, filed, filed);
  }

  lemma SparedAfterRefresh(cat: Catalogue, v: Volunteer, d: DefId, r: Row, t: Day)
    requires ValidCatalogue(cat) && !r.status.NotApplicable? && RefreshSpares(cat, WithRow(v, d, r), d, t)
    ensures Get(WithDependentsRefreshed(cat, WithRow(v, d, r), d, t).rows, d) == Some(r)
  {
    if HasGatedDependents(cat, d) {
      SyncSparesRow(ContextOf(cat, v, t), WithRow(v, d, r).rows, d);
    }
  }

  // ---- Checks ----------------------------------------------------------------------------------

  lemma CheckIsFiled(s: State, v: VolunteerId, result: CrcResult, reportDate: Day, actor: Actor, filed: State)
    requires SoundState(s) && v in s.volunteers && actor.needsReview
    requires RecordedCrc(s.cat, s.volunteers[v], result, reportDate, s.today).Success?
    requires filed == After(s, RecordCheck(v, result, reportDate, actor))
    ensures var file := s.volunteers[v];
            && v in filed.volunteers
            && filed.volunteers[v] == RecordedCrc(s.cat, file, result, reportDate, s.today).value
            && IsFiled(filed.ledger, |s.ledger.items|, CrcReview, v, CheckEntity(v, |file.checks|), actor.user)
    ensures filed.ledger.items[|s.ledger.items|].draft == CheckDraft(s, v, actor)
  {
    StepFiles(s, RecordCheck(v, result, reportDate, actor),
              RecordedCrc(s.cat, s.volunteers[v], result, reportDate, s.today).value,
              actor, CheckDraft(s, v, actor), filed);
  }

  /** The item remembers the row as it was and the check that was current. */
  lemma CheckDraftRemembers(s: State, v: VolunteerId, actor: Actor, d: DefId)
    requires v in s.volunteers && CrcInstanceFor(s.cat, s.volunteers[v]) == Some(d)
    ensures var draft := CheckDraft(s, v, actor);
            && draft.affected == Some(RequirementEntity(v, d))
            && draft.before == Before(SnapshotOf(s.volunteers[v].rows[d]), CurrentCheck(s.volunteers[v].checks))
  {
  }

  /** As it was before the check: the block in the given cases, the checks, and the row recomputed. */
  ghost predicate IsCheckUndone(file: Volunteer, back: Volunteer, result: CrcResult, d: DefId, t: Day)
    requires d in file.rows
  {
    && (back.block == file.block <==> file.block == NoBlock || (file.block == Withdrawn && result == Cleared))
    && |back.checks| == |file.checks| + 1 && back.checks[..|file.checks|] == file.checks
    && (Get(back.rows, d) == Some(Recomputed(file.rows[d], t)) <==> StatusMatchesDates(file.rows[d], t))
  }

  /** Sent back while only time has passed on the file, a check gives way to the one that it had displaced; the row is
      recomputed as if it had not been written exactly when its status had matched its dates; and the block is as before
      unless the check had lifted or replaced one. */
  lemma CheckComesBack(s: State, v: VolunteerId, result: CrcResult, reportDate: Day, actor: Actor, d: DefId,
                       filed: State, later: State)
    requires SoundState(s) && v in s.volunteers && actor.needsReview
    requires CrcInstanceFor(s.cat, s.volunteers[v]) == Some(d)
    requires PlainlyOwed(ContextOf(s.cat, s.volunteers[v], s.today), d)
    requires RecordedCrc(s.cat, s.volunteers[v], result, reportDate, s.today).Success?
    requires filed == After(s, RecordCheck(v, result, reportDate, actor)) && IsStillOpen(filed, later, |s.ledger.items|)
    requires v in filed.volunteers && v in later.volunteers && later.cat == s.cat
    requires OnlyTimePassed(filed.volunteers[v], later.volunteers[v], d)
    requires PlainlyOwed(ContextOf(s.cat, later.volunteers[v], later.today), d)
    ensures var sent := After(later, SendBack(|s.ledger.items|, true));
            v in sent.volunteers && IsCheckUndone(s.volunteers[v], sent.volunteers[v], result, d, later.today)
  {
    var i := |s.ledger.items|;
    CheckIsFiled(s, v, result, reportDate, actor, filed);
    CheckDraftRemembers(s, v, actor, d);
    SendBackUndoes(later, i, later.ledger.items[i].draft);
    RetractionUndoesRecording(s.cat, s.volunteers[v], result, reportDate, s.today, d, later.volunteers[v], later.today);
  }

  lemma CheckStandsAtOnce(s: State, v: VolunteerId, result: CrcResult, reportDate: Day, actor: Actor, d: DefId,
                          filed: State)
    requires SoundState(s) && v in s.volunteers && actor.needsReview
    requires CrcInstanceFor(s.cat, s.volunteers[v]) == Some(d)
    requires PlainlyOwed(ContextOf(s.cat, s.volunteers[v], s.today), d)
    requires RecordedCrc(s.cat, s.volunteers[v], result, reportDate, s.today).Success?
    requires filed == After(s, RecordCheck(v, result, reportDate, actor))
    ensures SoundState(filed) && IsStillOpen(filed, filed, |s.ledger.items|)
    ensures filed.cat == s.cat && filed.today == s.today && v in filed.volunteers
    ensures OnlyTimePassed(filed.volunteers[v], filed.volunteers[v], d)
    ensures PlainlyOwed(ContextOf(s.cat, filed.volunteers[v], filed.today), d)
  {
    StepKeepsSound(s, RecordCheck(v, result, reportDate, actor));
    FileStepIsLocal(s, RecordCheck(v, result, reportDate, actor));
    CheckIsFiled(s, v, result, reportDate, actor, filed);
    RecordedRow(s.cat, s.volunteers[v], result, reportDate, s.today, d);
    OpenAtOnce(filed, |s.ledger.items|);
  }

  /** In particular at once. */
  lemma CheckComesBackAtOnce(s: State, v: VolunteerId, result: CrcResult, reportDate: Day, actor: Actor, d: DefId)
    returns (filed: State)
    requires SoundState(s) && v in s.volunteers && actor.needsReview
    requires CrcInstanceFor(s.cat, s.volunteers[v]) == Some(d)
    requires PlainlyOwed(ContextOf(s.cat, s.volunteers[v], s.today), d)
    requires RecordedCrc(s.cat, s.volunteers[v], result, reportDate, s.today).Success?
    ensures filed == After(s, RecordCheck(v, result, reportDate, actor)) && SoundState(filed)
    ensures var sent := After(filed, SendBack(|s.ledger.items|, true));
            v in sent.volunteers && IsCheckUndone(s.volunteers[v], sent.volunteers[v], result, d, filed.today)
  {
    filed := After(s, RecordCheck(v, result, reportDate, actor));
    CheckStandsAtOnce(s, v, result, reportDate, actor, d, filed);
    CheckComesBack(s, v, result, reportDate, actor, d, filed, filed);
  }

  // ---- Documents -------------------------------------------------------------------------------

  /** The document completes the requirement behind it unless there is none, it is a criminal record check, a decision
      on it stands, or the document's date lies ahead. */
  predicate IsCompletedBy(s: State, file: Volunteer, backs: Option<DefId>, documentDate: Option<Day>) {
    && backs.Some? && backs.value in file.rows && backs.value in s.cat.defs
    && !s.cat.defs[backs.value].isCrc
    && file.rows[backs.value].status in {NotStarted, InProgress, Complete, Overdue}
    && (documentDate.Some? ==> documentDate.value <= s.today)
  }

  lemma CompletedByIsExact(s: State, file: Volunteer, backs: Option<DefId>, documentDate: Option<Day>)
    ensures IsCompletedBy(s, file, backs, documentDate)
            <==> DocumentCompletes(s, file, backs, if documentDate.Some? then documentDate.value else s.today)
  {
    if backs.Some? && backs.value in file.rows {
      StatusIsOneOf(file.rows[backs.value].status);
    }
  }

  lemma StatusIsOneOf(status: Status)
    ensures status in {NotStarted, InProgress, Complete, Overdue} <==> status !in {Waived, NotApplicable, Blocked}
  {
    match status
    case NotStarted | InProgress | Complete | Overdue =>
    case Waived | NotApplicable | Blocked =>
  }

  /** A stored document is current and the one that it replaces is not; it completes its requirement on its own date, or
      today, or leaves the file alone. */
  lemma DocumentIsStored(s: State, v: VolunteerId, backs: Option<DefId>, documentDate: Option<Day>,
                         supersedes: Option<nat>, actor: Actor, filed: State)
    requires SoundState(s) && v in s.volunteers
    requires filed == After(s, StoreDocument(v, backs, documentDate, supersedes, actor))
    ensures |filed.documents| == |s.documents| + 1 && filed.documents[|s.documents|]
    ensures forall n :: 0 <= n < |s.documents| ==> filed.documents[n] == (s.documents[n] && supersedes != Some(n))
    ensures v in filed.volunteers
    ensures if IsCompletedBy(s, s.volunteers[v], backs, documentDate) then
              RowIn(filed, v, backs.value)
              == Some(Completed(s.volunteers[v].rows[backs.value], s.cat.defs[backs.value],
                                if documentDate.Some? then documentDate.value else s.today, ""))
            else filed.volunteers[v] == s.volunteers[v]
  {
    var file := s.volunteers[v];
    var on := if documentDate.Some? then documentDate.value else s.today;
    CompletedByIsExact(s, file, backs, documentDate);
    assert filed == AfterDocument(s, v, backs, documentDate, supersedes, actor);
    if IsCompletedBy(s, file, backs, documentDate) {
      FinishedAfterRefresh(s.cat, file, backs.value,
                           Completed(file.rows[backs.value], s.cat.defs[backs.value], on, ""), s.today);
    }
  }

  /** One item covers the document and the requirement that it completed. */
  lemma DocumentIsFiled(s: State, v: VolunteerId, backs: Option<DefId>, documentDate: Option<Day>,
                        supersedes: Option<nat>, actor: Actor, filed: State)
    requires SoundState(s) && v in s.volunteers && actor.needsReview
    requires filed == After(s, StoreDocument(v, backs, documentDate, supersedes, actor))
    ensures IsFiled(filed.ledger, |s.ledger.items|, DocumentReview, v, DocumentEntity(|s.documents|), actor.user)
    ensures filed.ledger.items[|s.ledger.items|].draft.affected
            == if IsCompletedBy(s, s.volunteers[v], backs, documentDate) then Some(RequirementEntity(v, backs.value))
               else None
  {
    CompletedByIsExact(s, s.volunteers[v], backs, documentDate);
  }

  /** Sent back, the document is not current any more, and the requirement that it had completed bears no completion,
      whatever became of it since. */
  lemma DocumentComesBack(s: State, v: VolunteerId, d: DefId, documentDate: Option<Day>, supersedes: Option<nat>,
                          actor: Actor, filed: State, later: State)
    requires SoundState(s) && v in s.volunteers && actor.needsReview
    requires IsCompletedBy(s, s.volunteers[v], Some(d), documentDate)
    requires filed == After(s, StoreDocument(v, Some(d), documentDate, supersedes, actor))
    requires IsStillOpen(filed, later, |s.ledger.items|)
    requires |s.documents| < |later.documents| && RowIn(later, v, d).Some?
    ensures After(later, SendBack(|s.ledger.items|, true)).documents == later.documents[|s.documents| := false]
    ensures var row := RowIn(After(later, SendBack(|s.ledger.items|, true)), v, d);
            row.Some? && row.value.completedOn.None? && row.value.status in {NotStarted, InProgress, NotApplicable}
  {
    var i := |s.ledger.items|;
    DocumentIsFiled(s, v, Some(d), documentDate, supersedes, actor, filed);
    SendBackUndoesDocument(later, i, later.ledger.items[i].draft, d);
    DocumentForgetsWhatCameLater(later.cat, later.volunteers[v], d, later.today);
  }

  /** In particular at once. */
  lemma DocumentComesBackAtOnce(s: State, v: VolunteerId, d: DefId, documentDate: Option<Day>, supersedes: Option<nat>,
                                actor: Actor)
    requires SoundState(s) && v in s.volunteers && actor.needsReview
    requires IsCompletedBy(s, s.volunteers[v], Some(d), documentDate)
    ensures var filed := After(s, StoreDocument(v, Some(d), documentDate, supersedes, actor));
            && SoundState(filed) && |filed.documents| == |s.documents| + 1 && filed.documents[|s.documents|]
            && var sent := After(filed, SendBack(|s.ledger.items|, true));
               && sent.documents == filed.documents[|s.documents| := false]
               && RowIn(sent, v, d).Some? && RowIn(sent, v, d).value.completedOn.None?
  {
    var filed := After(s, StoreDocument(v, Some(d), documentDate, supersedes, actor));
    StepKeepsSound(s, StoreDocument(v, Some(d), documentDate, supersedes, actor));
    DocumentIsStored(s, v, Some(d), documentDate, supersedes, actor, filed);
    DocumentIsFiled(s, v, Some(d), documentDate, supersedes, actor, filed);
    DocumentComesBack(s, v, d, documentDate, supersedes, actor, filed, filed);
  }
}
