/** The services that reach across a church: the nightly sweep, recording a document, and sending an entry back. */
module ChurchDesk {
  import opened Wrappers
  import opened Calendar
  import opened Definitions
  import opened RequirementRows
  import opened Reconciliation
  import opened VolunteerFiles
  import opened ScreeningServices
  import opened NightlySweep
  import opened ReviewLedger
  import opened Church
  import Reminders

  /** A night over every active volunteer. */
  ghost function Swept(cat: Catalogue, volunteers: map<VolunteerId, Volunteer>, today: Day): map<VolunteerId, Volunteer>
    requires ValidCatalogue(cat)
  {
    map v | v in volunteers :: if volunteers[v].isActive then AfterNight(cat, volunteers[v], today) else volunteers[v]
  }

  /** A sweep passes over everybody who does not serve. */
  lemma SweepPassesOverInactive(cat: Catalogue, volunteers: map<VolunteerId, Volunteer>, today: Day, v: VolunteerId)
    requires ValidCatalogue(cat)
    ensures v in Swept(cat, volunteers, today) <==> v in volunteers
    ensures v in volunteers && !volunteers[v].isActive ==> Swept(cat, volunteers, today)[v] == volunteers[v]
    ensures v in volunteers && volunteers[v].isActive ==>
              Swept(cat, volunteers, today)[v] == AfterNight(cat, volunteers[v], today)
  {
  }

  /** A sweep keeps every file sound. */
  lemma SweepKeepsSound(s: State)
    requires SoundState(s)
    ensures SoundState(s.(volunteers := Swept(s.cat, s.volunteers, s.today)))
    ensures Follows(s, s.(volunteers := Swept(s.cat, s.volunteers, s.today)))
  {
    forall v | v in s.volunteers
      ensures Sound(Swept(s.cat, s.volunteers, s.today)[v], s.cat.defs, s.today)
      ensures Extends(s.volunteers[v], Swept(s.cat, s.volunteers, s.today)[v])
    {
      var file := s.volunteers[v];
      SyncKeepsSound(s.cat, file, s.today);
      NightKeepsSound(s.cat, AfterSync(s.cat, file, s.today), s.today);
      NightKeepsSound(s.cat, AfterAgeScan(s.cat, AfterSync(s.cat, file, s.today), s.today), s.today);
    }
  }

  /** The rows a file may hold are those of definitions that exist. */
  predicate RowsDefined(cat: Catalogue, v: Volunteer) {
    forall d :: d in v.rows ==> d in cat.defs
  }

  lemma NightKeepsDefined(cat: Catalogue, v: Volunteer, today: Day)
    requires ValidCatalogue(cat) && RowsDefined(cat, v)
    ensures RowsDefined(cat, AfterSync(cat, v, today)) && RowsDefined(cat, AfterAgeScan(cat, v, today))
  {
    SyncKeepsDefined(ContextOf(cat, v, today), v.rows, |cat.order|);
    ScanKeepsKeys(ContextOf(cat, v, today), v.rows, |cat.order|);
  }

  lemma {:induction false} SyncKeepsDefined(c: Context, rows: Rows, n: nat)
    requires Valid(c) && n <= |c.order| && forall d :: d in rows ==> d in c.defs
    ensures forall d :: d in SyncTo(c, rows, n) ==> d in c.defs
  {
    if n > 0 {
      SyncKeepsDefined(c, rows, n - 1);
      forall d | d in SyncTo(c, rows, n) ensures d in c.defs {
        VisitKeepsHistory(c, SyncTo(c, rows, n - 1), c.order[n - 1], d);
      }
    }
  }

  lemma {:induction false} ScanKeepsKeys(c: Context, rows: Rows, n: nat)
    requires Valid(c) && n <= |c.order|
    ensures ActivatedTo(c, rows, n).Keys == rows.Keys
  {
    if n > 0 {
      ScanKeepsKeys(c, rows, n - 1);
    }
  }

  // ---- The rows that the reminder search reads -----------------------------------------

  function InstanceIds(volunteers: map<VolunteerId, Volunteer>): set<Reminders.InstanceId> {
    set v, d | v in volunteers && d in volunteers[v].rows :: Reminders.InstanceId(v, d)
  }

  predicate FilesDefined(cat: Catalogue, volunteers: map<VolunteerId, Volunteer>) {
    forall v :: v in volunteers ==> RowsDefined(cat, volunteers[v])
  }

  function ListedAs(cat: Catalogue, volunteers: map<VolunteerId, Volunteer>, id: Reminders.InstanceId): Reminders.Listed
    requires id in InstanceIds(volunteers) && FilesDefined(cat, volunteers)
  {
    var file := volunteers[id.volunteer];
    Reminders.Listed(id, file.rows[id.definition], file.isActive && cat.defs[id.definition].isActive)
  }

  /** `listed` holds every instance of the church once. */
  ghost predicate Lists(cat: Catalogue, volunteers: map<VolunteerId, Volunteer>, listed: seq<Reminders.Listed>)
    requires FilesDefined(cat, volunteers)
  {
    && Reminders.DistinctIds(listed)
    && forall x :: x in listed <==> x.id in InstanceIds(volunteers) && x == ListedAs(cat, volunteers, x.id)
  }

  lemma SweptDefined(cat: Catalogue, volunteers: map<VolunteerId, Volunteer>, today: Day)
    requires ValidCatalogue(cat) && FilesDefined(cat, volunteers)
    ensures FilesDefined(cat, Swept(cat, volunteers, today))
  {
    forall v | v in volunteers ensures RowsDefined(cat, Swept(cat, volunteers, today)[v]) {
      NightKeepsDefined(cat, volunteers[v], today);
      NightKeepsDefined(cat, AfterSync(cat, volunteers[v], today), today);
    }
  }

  class Desk {
    var volunteers: map<VolunteerId, Volunteer>
    var documents: seq<bool>
    var items: seq<Item>
    var audit: seq<AuditEntry>
    var reminders: seq<Reminders.Entry>

    function Value(cat: Catalogue, today: Day): State
      reads this
    {
      State(cat, volunteers, documents, Ledger(items, audit), today)
    }

    /** The nightly sweep: the files first, then the reminders that the swept rows are owed. */
    method SweepTenant(cat: Catalogue, leads: seq<nat>, today: Day)
      returns (ghost listed: seq<Reminders.Listed>, claimed: seq<Reminders.Entry>)
      requires ValidCatalogue(cat) && FilesDefined(cat, volunteers)
      modifies this`volunteers, this`reminders
      ensures volunteers == Swept(cat, old(volunteers), today)
      ensures FilesDefined(cat, volunteers) && Lists(cat, volunteers, listed)
      ensures claimed == Reminders.Claimed(old(reminders), Reminders.DueReminders(listed, leads, today))
      ensures reminders == old(reminders) + claimed
    {
      SweptDefined(cat, volunteers, today);
      SweepFiles(cat, today);
      listed, claimed := ClaimReminders(cat, leads, today);
    }

    /** Every active file is synced, then scanned for volunteers who turned 18, then recomputed. */
    method SweepFiles(cat: Catalogue, today: Day)
      requires ValidCatalogue(cat) && FilesDefined(cat, volunteers)
      modifies this`volunteers
      ensures volunteers == Swept(cat, old(volunteers), today)
    {
      SyncAll(cat, today);
      ActivateAll(cat, today);
      RecomputeAll(cat, today);
    }

    method ClaimReminders(cat: Catalogue, leads: seq<nat>, today: Day)
      returns (ghost listed: seq<Reminders.Listed>, claimed: seq<Reminders.Entry>)
      requires FilesDefined(cat, volunteers)
      modifies this`reminders
      ensures Lists(cat, volunteers, listed)
      ensures claimed == Reminders.Claimed(old(reminders), Reminders.DueReminders(listed, leads, today))
      ensures reminders == old(reminders) + claimed
    {
      var rows := ListInstances(cat);
      var log := new Reminders.ReminderLog.Load(reminders);
      claimed := log.ProcessReminders(rows, leads, today);
      reminders := log.rows;
      listed := rows;
    }

    method ListInstances(cat: Catalogue) returns (listed: seq<Reminders.Listed>)
      requires FilesDefined(cat, volunteers)
      ensures Lists(cat, volunteers, listed)
    {
      listed := [];
      var ids := InstanceIds(volunteers);
      var todo := ids;
      while todo != {}
        invariant todo <= ids
        invariant Reminders.DistinctIds(listed)
        invariant forall x :: x in listed <==> x.id in ids - todo && x == ListedAs(cat, volunteers, x.id)
        decreases todo
      {
        var id :| id in todo;
        listed := listed + [ListedAs(cat, volunteers, id)];
        todo := todo - {id};
      }
    }

    method SyncOne(cat: Catalogue, v: VolunteerId, today: Day)
      requires ValidCatalogue(cat) && v in volunteers
      modifies this`volunteers
      ensures volunteers == old(volunteers)[v := AfterSync(cat, old(volunteers)[v], today)]
    {
      var file := new VolunteerFile.Load(volunteers[v]);
      var _, _, _ := file.SyncVolunteerRequirements(cat, today);
      volunteers := volunteers[v := file.Value()];
    }

    method SyncAll(cat: Catalogue, today: Day)
      requires ValidCatalogue(cat)
      requires FilesDefined(cat, volunteers)
      modifies this`volunteers
      ensures volunteers.Keys == old(volunteers).Keys
      ensures FilesDefined(cat, volunteers)
      ensures forall v :: v in volunteers ==>
                volunteers[v] ==
                  if old(volunteers)[v].isActive then AfterSync(cat, old(volunteers)[v], today) else old(volunteers)[v]
    {
      ghost var before := volunteers;
      var todo := set v | v in volunteers && volunteers[v].isActive;
      ghost var active := todo;
      while todo != {}
        invariant volunteers.Keys == before.Keys && todo <= active
        invariant FilesDefined(cat, volunteers)
        invariant forall v :: v in before ==>
                    volunteers[v] == if v in active - todo then AfterSync(cat, before[v], today) else before[v]
        decreases todo
      {
        var v :| v in todo;
        NightKeepsDefined(cat, before[v], today);
        SyncOne(cat, v, today);
        todo := todo - {v};
      }
    }

    method ActivateOne(cat: Catalogue, v: VolunteerId, today: Day)
      requires ValidCatalogue(cat) && v in volunteers
      modifies this`volunteers
      ensures volunteers == old(volunteers)[v := AfterAgeScan(cat, old(volunteers)[v], today)]
    {
      var file := new VolunteerFile.Load(volunteers[v]);
      var _ := file.ActivateTurning18Checks(cat, today);
      volunteers := volunteers[v := file.Value()];
    }

    method ActivateAll(cat: Catalogue, today: Day)
      requires ValidCatalogue(cat)
      requires FilesDefined(cat, volunteers)
      modifies this`volunteers
      ensures volunteers.Keys == old(volunteers).Keys
      ensures FilesDefined(cat, volunteers)
      ensures forall v :: v in volunteers ==>
                volunteers[v] ==
                  if old(volunteers)[v].isActive then AfterAgeScan(cat, old(volunteers)[v], today)
                  else old(volunteers)[v]
    {
      ghost var before := volunteers;
      var todo := set v | v in volunteers && volunteers[v].isActive;
      ghost var active := todo;
      while todo != {}
        invariant volunteers.Keys == before.Keys && todo <= active
        invariant FilesDefined(cat, volunteers)
        invariant forall v :: v in before ==>
                    volunteers[v] == if v in active - todo then AfterAgeScan(cat, before[v], today) else before[v]
        decreases todo
      {
        var v :| v in todo;
        NightKeepsDefined(cat, before[v], today);
        ActivateOne(cat, v, today);
        todo := todo - {v};
      }
    }

    method RecomputeAll(cat: Catalogue, today: Day)
      requires FilesDefined(cat, volunteers)
      modifies this`volunteers
      ensures volunteers.Keys == old(volunteers).Keys
      ensures forall v :: v in volunteers ==>
                volunteers[v] ==
                  if old(volunteers)[v].isActive then AllRecomputed(old(volunteers)[v], today) else old(volunteers)[v]
    {
      ghost var before := volunteers;
      var todo := set v | v in volunteers && volunteers[v].isActive;
      ghost var active := todo;
      while todo != {}
        invariant volunteers.Keys == before.Keys && todo <= active
        invariant forall v :: v in before ==>
                    volunteers[v] == if v in active - todo then AllRecomputed(before[v], today) else before[v]
        decreases todo
      {
        var v :| v in todo;
        var file := new VolunteerFile.Load(volunteers[v]);
        var _ := file.RecomputeAllStatuses(cat, today);
        volunteers := volunteers[v := file.Value()];
        todo := todo - {v};
      }
    }

    /** Recording the paperwork completes the requirement, unless the requirement has its own flow or a decision
        on it stands. */
    method CompleteBackingRequirement(cat: Catalogue, v: VolunteerId, backs: Option<DefId>, on: Day, today: Day)
      returns (completed: bool)
      requires ValidCatalogue(cat) && v in volunteers
      modifies this`volunteers
      ensures completed <==> DocumentCompletes(old(Value(cat, today)), old(volunteers)[v], backs, on)
      ensures completed ==>
                var after := MarkedComplete(cat, old(volunteers)[v], backs.value, on, "", today);
                after.Success? && volunteers == old(volunteers)[v := after.value]
      ensures !completed ==> volunteers == old(volunteers)
    {
      if backs.None? || backs.value !in volunteers[v].rows || backs.value !in cat.defs || cat.defs[backs.value].isCrc {
        return false;
      }
      if volunteers[v].rows[backs.value].status in {Waived, NotApplicable, Blocked} {
        return false;
      }
      var file := new VolunteerFile.Load(volunteers[v]);
      completed := file.MarkRequirementComplete(cat, backs.value, on, "", today);
      if completed {
        volunteers := volunteers[v := file.Value()];
      }
    }

    /** One review item covers the document and the requirement that it completes. */
    method RecordDocument(cat: Catalogue, v: VolunteerId, backs: Option<DefId>, documentDate: Option<Day>,
                          supersedes: Option<nat>, actor: Actor, today: Day)
      requires ValidCatalogue(cat) && v in volunteers
      modifies this
      ensures Value(cat, today) == AfterDocument(old(Value(cat, today)), v, backs, documentDate, supersedes, actor)
    {
      var n := |documents|;
      FileDocument(supersedes);
      var on := if documentDate.Some? then documentDate.value else today;
      var completed := CompleteBackingRequirement(cat, v, backs, on, today);
      var affected := if completed then Some(RequirementEntity(v, backs.value)) else None;
      OpenReview(actor, Draft(DocumentReview, v, DocumentEntity(n), affected, Before(EMPTY_SNAPSHOT, None),
                              actor.user), today);
    }

    /** The new document is current, and the one that it replaces is not any more. */
    method FileDocument(supersedes: Option<nat>)
      modifies this`documents
      ensures documents == WithDocument(old(documents), supersedes)
    {
      var n := |documents|;
      documents := documents + [true];
      if supersedes.Some? && supersedes.value < n {
        documents := documents[supersedes.value := false];
      }
    }

    method OpenReview(actor: Actor, draft: Draft, today: Day)
      modifies this`items, this`audit
      ensures Ledger(items, audit)
              == OpenedIfUnverified(Ledger(old(items), old(audit)), actor.needsReview, draft, today)
    {
      var queue := new ReviewQueue.Load(Ledger(items, audit));
      var _ := queue.OpenIfUnverified(actor.needsReview, draft, today);
      items, audit := queue.items, queue.audit;
    }

    /** Refused unless the item is open and a reason is given; otherwise undone by kind, then closed. */
    method SendBackEntry(cat: Catalogue, i: nat, reasonGiven: bool, today: Day) returns (ok: bool)
      requires ValidCatalogue(cat)
      requires FilesDefined(cat, volunteers)
      modifies this
      ensures Value(cat, today) == After(old(Value(cat, today)), SendBack(i, reasonGiven))
      ensures ok <==> IsOpen(old(Ledger(items, audit)), i) && reasonGiven
    {
      if i >= |items| || items[i].status != PendingReview {
        return false;
      }
      if !reasonGiven {
        return false;
      }
      Undo(cat, items[i].draft, today);
      var queue := new ReviewQueue.Load(Ledger(items, audit));
      ok := queue.SendBack(i, reasonGiven, today);
      items, audit := queue.items, queue.audit;
    }

    /** One branch per kind of entry; a decision on a conviction is left for people to revisit. */
    method Undo(cat: Catalogue, item: Draft, today: Day)
      requires ValidCatalogue(cat)
      requires FilesDefined(cat, volunteers)
      modifies this`volunteers, this`documents
      ensures Value(cat, today) == Undone(old(Value(cat, today)), item)
    {
      var v := item.volunteer;
      if v !in volunteers {
        return;
      }
      var file := new VolunteerFile.Load(volunteers[v]);
      match item.kind
      case CompletionReview =>
        if item.entity.RequirementEntity? {
          var _ := file.SendBackCompletion(cat, item.entity.definition, item.before.row, today);
          volunteers := volunteers[v := file.Value()];
        }
      case DocumentReview =>
        if item.entity.DocumentEntity? {
          if item.entity.document < |documents| {
            documents := documents[item.entity.document := false];
          }
          var instance := RequirementOf(item.affected);
          if instance.Some? && instance.value in file.rows {
            file.RestoreFromSnapshot(cat, instance.value, EMPTY_SNAPSHOT, today);
          }
          volunteers := volunteers[v := file.Value()];
        }
      case CrcReview =>
        if item.entity.CheckEntity? {
          var _ := file.SendBackCrc(cat, item.entity.check, RequirementOf(item.affected), item.before.row,
                                    item.before.displaced, today);
          volunteers := volunteers[v := file.Value()];
        }
      case WaiverReview =>
        if item.entity.RequirementEntity? {
          var _ := file.SendBackWaiver(cat, item.entity.definition, item.before.row, today);
          volunteers := volunteers[v := file.Value()];
        }
      case OverrideReview =>
    }
  }
}
