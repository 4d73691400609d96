/** The review queue: what opens an item, what closes it, and what the audit trail says of it. */
module ReviewLedger {
  import opened Wrappers
  import opened Calendar
  import opened Definitions
  import opened RequirementRows

  type VolunteerId = nat

  datatype Kind = CompletionReview | DocumentReview | CrcReview | WaiverReview | OverrideReview

  /** The reviewed row. Checks, convictions and overrides are numbered within the file, documents church-wide. */
  datatype Entity =
    | RequirementEntity(volunteer: VolunteerId, definition: DefId)
    | CheckEntity(volunteer: VolunteerId, check: nat)
    | ConvictionEntity(volunteer: VolunteerId, check: nat, conviction: nat)
    | OverrideEntity(volunteer: VolunteerId, check: nat, number: nat)
    | DocumentEntity(document: nat)

  datatype ReviewStatus = PendingReview | Affirmed | SentBack | Superseded

  /** What the row looked like before, and which check a new check displaced. */
  datatype Before = Before(row: Snapshot, displaced: Option<nat>)

  datatype Draft = Draft(kind: Kind, volunteer: VolunteerId, entity: Entity, affected: Option<Entity>,
                         before: Before, recordedBy: nat)

  datatype Item = Item(draft: Draft, status: ReviewStatus, reviewedOn: Option<Day>, supersededBy: Option<nat>)

  datatype Action = ReviewOpened | ReviewAffirmed | ReviewSentBack | ReviewSuperseded

  datatype AuditEntry = AuditEntry(action: Action, entity: Entity)

  datatype Ledger = Ledger(items: seq<Item>, audit: seq<AuditEntry>)

  // ---- Steps ------------------------------------------------------------------------

  function PendingOn(items: seq<Item>, e: Entity): (found: Option<nat>)
    ensures found.Some? ==>
              && found.value < |items|
              && items[found.value].draft.entity == e && items[found.value].status.PendingReview?
    ensures found.None? ==>
              forall i :: 0 <= i < |items| && items[i].draft.entity == e ==> !items[i].status.PendingReview?
  {
    if items == [] then None
    else
      var last := |items| - 1;
      var earlier := PendingOn(items[..last], e);
      if earlier.Some? then earlier
      else if items[last].draft.entity == e && items[last].status.PendingReview? then Some(last)
      else None
  }

  /** Re-recording an entry before its review closes the earlier item and lets the new one stand. */
  function Opened(l: Ledger, draft: Draft, today: Day): Ledger {
    var e := draft.entity;
    var earlier := PendingOn(l.items, e);
    var item := Item(draft, PendingReview, None, None);
    match earlier
    case None =>
      Ledger(l.items + [item], l.audit + [AuditEntry(ReviewOpened, e)])
    case Some(i) =>
      Ledger(l.items[i := l.items[i].(status := Superseded, reviewedOn := Some(today),
                                      supersededBy := Some(|l.items|))] + [item],
             l.audit + [AuditEntry(ReviewSuperseded, e), AuditEntry(ReviewOpened, e)])
  }

  function OpenedIfUnverified(l: Ledger, needsReview: bool, draft: Draft, today: Day): Ledger {
    if needsReview then Opened(l, draft, today) else l
  }

  predicate IsOpen(l: Ledger, i: nat) {
    i < |l.items| && l.items[i].status.PendingReview?
  }

  function AffirmedAt(l: Ledger, i: nat, today: Day): Ledger
    requires IsOpen(l, i)
  {
    Ledger(l.items[i := l.items[i].(status := Affirmed, reviewedOn := Some(today))],
           l.audit + [AuditEntry(ReviewAffirmed, l.items[i].draft.entity)])
  }

  function SentBackAt(l: Ledger, i: nat, today: Day): Ledger
    requires IsOpen(l, i)
  {
    Ledger(l.items[i := l.items[i].(status := SentBack, reviewedOn := Some(today))],
           l.audit + [AuditEntry(ReviewSentBack, l.items[i].draft.entity)])
  }

  // ---- The invariant ----------------------------------------------------------------

  function CountStatus(items: seq<Item>, s: ReviewStatus): nat {
    if items == [] then 0
    else CountStatus(items[..|items| - 1], s) + if items[|items| - 1].status == s then 1 else 0
  }

  function CountAction(audit: seq<AuditEntry>, a: Action): nat {
    if audit == [] then 0
    else CountAction(audit[..|audit| - 1], a) + if audit[|audit| - 1].action == a then 1 else 0
  }

  /** The next item on the same entity. */
  ghost predicate IsNextOnEntity(items: seq<Item>, i: nat, j: nat) {
    i < j < |items| && items[j].draft.entity == items[i].draft.entity
    && forall k :: i < k < j ==> items[k].draft.entity != items[i].draft.entity
  }

  /** Only an entity's newest item can be open, so at most one is. */
  ghost predicate OneOpenPerEntity(items: seq<Item>) {
    forall i, j :: 0 <= i < j < |items| && items[i].draft.entity == items[j].draft.entity ==>
      !items[i].status.PendingReview?
  }

  ghost predicate WellLinked(items: seq<Item>) {
    forall i :: 0 <= i < |items| ==>
      && (items[i].supersededBy.Some? <==> items[i].status.Superseded?)
      && (items[i].supersededBy.Some? ==> IsNextOnEntity(items, i, items[i].supersededBy.value))
      && (items[i].reviewedOn.Some? <==> !items[i].status.PendingReview?)
  }

  ghost predicate WellCounted(l: Ledger) {
    && CountAction(l.audit, ReviewOpened) == |l.items|
    && CountAction(l.audit, ReviewAffirmed) == CountStatus(l.items, Affirmed)
    && CountAction(l.audit, ReviewSentBack) == CountStatus(l.items, SentBack)
    && CountAction(l.audit, ReviewSuperseded) == CountStatus(l.items, Superseded)
  }

  ghost predicate Consistent(l: Ledger) {
    OneOpenPerEntity(l.items) && WellLinked(l.items) && WellCounted(l)
  }

  // ---- Counting ---------------------------------------------------------------------

  lemma CountAppended(items: seq<Item>, item: Item, s: ReviewStatus)
    ensures CountStatus(items + [item], s) == CountStatus(items, s) + if item.status == s then 1 else 0
  {
    assert (items + [item])[..|items|] == items;
  }

  lemma AuditAppended(audit: seq<AuditEntry>, entry: AuditEntry, a: Action)
    ensures CountAction(audit + [entry], a) == CountAction(audit, a) + if entry.action == a then 1 else 0
  {
    assert (audit + [entry])[..|audit|] == audit;
  }

  lemma {:induction false} CountReplaced(items: seq<Item>, i: nat, item: Item, s: ReviewStatus)
    requires i < |items|
    ensures CountStatus(items[i := item], s)
         == CountStatus(items, s) - (if items[i].status == s then 1 else 0) + (if item.status == s then 1 else 0)
  {
    var last := |items| - 1;
    if i == last {
      assert items[i := item][..last] == items[..last];
    } else {
      assert items[i := item][..last] == items[..last][i := item];
      CountReplaced(items[..last], i, item, s);
    }
  }

  /** Opened is pending plus the three ways of closing. */
  lemma {:induction false} StatusesPartition(items: seq<Item>)
    ensures |items| == CountStatus(items, PendingReview) + CountStatus(items, Affirmed)
                     + CountStatus(items, SentBack) + CountStatus(items, Superseded)
  {
    if items != [] {
      StatusesPartition(items[..|items| - 1]);
    }
  }

  // ---- Preservation -----------------------------------------------------------------

  lemma OpeningKeepsConsistent(l: Ledger, draft: Draft, today: Day)
    requires Consistent(l)
    ensures Consistent(Opened(l, draft, today))
  {
    var e := draft.entity;
    var found := PendingOn(l.items, e);
    var l' := Opened(l, draft, today);
    var item := Item(draft, PendingReview, None, None);
    var base := if found.Some?
      then l.items[found.value := l.items[found.value].(status := Superseded, reviewedOn := Some(today),
                                                        supersededBy := Some(|l.items|))]
      else l.items;
    assert l'.items == base + [item];
    forall s: ReviewStatus
      ensures CountStatus(l'.items, s) == CountStatus(l.items, s) + (if s.PendingReview? && found.None? then 1 else 0)
                                        + (if s.Superseded? && found.Some? then 1 else 0)
    {
      CountAppended(base, item, s);
      if found.Some? {
        CountReplaced(l.items, found.value, base[found.value], s);
      }
    }
    OpeningCountsActions(l, draft, today);
    OpeningKeepsLinks(l, draft, today);
  }

  lemma OpeningCountsActions(l: Ledger, draft: Draft, today: Day)
    ensures var l', found := Opened(l, draft, today), PendingOn(l.items, draft.entity);
            forall a: Action :: CountAction(l'.audit, a) == CountAction(l.audit, a) + (if a.ReviewOpened? then 1 else 0)
                                                           + (if a.ReviewSuperseded? && found.Some? then 1 else 0)
  {
    var l', found := Opened(l, draft, today), PendingOn(l.items, draft.entity);
    var first, second := AuditEntry(ReviewSuperseded, draft.entity), AuditEntry(ReviewOpened, draft.entity);
    forall a: Action
      ensures CountAction(l'.audit, a) == CountAction(l.audit, a) + (if a.ReviewOpened? then 1 else 0)
                                        + (if a.ReviewSuperseded? && found.Some? then 1 else 0)
    {
      if found.Some? {
        assert l'.audit == (l.audit + [first]) + [second];
        AuditAppended(l.audit, first, a);
        AuditAppended(l.audit + [first], second, a);
      } else {
        AuditAppended(l.audit, second, a);
      }
    }
  }

  lemma OpeningKeepsLinks(l: Ledger, draft: Draft, today: Day)
    requires OneOpenPerEntity(l.items) && WellLinked(l.items)
    ensures OneOpenPerEntity(Opened(l, draft, today).items) && WellLinked(Opened(l, draft, today).items)
  {
    var items, items' := l.items, Opened(l, draft, today).items;
    var found := PendingOn(items, draft.entity);
    assert forall i :: 0 <= i < |items| ==> items'[i].draft == items[i].draft;
    forall i | 0 <= i < |items'|
      ensures items'[i].supersededBy.Some? <==> items'[i].status.Superseded?
      ensures items'[i].supersededBy.Some? ==> IsNextOnEntity(items', i, items'[i].supersededBy.value)
      ensures items'[i].reviewedOn.Some? <==> !items'[i].status.PendingReview?
    {
      if i < |items| && items'[i] == items[i] && items[i].supersededBy.Some? {
        assert IsNextOnEntity(items, i, items[i].supersededBy.value);
      }
    }
  }

  lemma ClosingKeepsConsistent(l: Ledger, i: nat, today: Day)
    requires Consistent(l) && IsOpen(l, i)
    ensures Consistent(AffirmedAt(l, i, today)) && Consistent(SentBackAt(l, i, today))
  {
    ClosingKeeps(l, i, AffirmedAt(l, i, today), Affirmed, ReviewAffirmed, today);
    ClosingKeeps(l, i, SentBackAt(l, i, today), SentBack, ReviewSentBack, today);
  }

  lemma ClosingKeeps(l: Ledger, i: nat, l': Ledger, status: ReviewStatus, action: Action, today: Day)
    requires Consistent(l) && IsOpen(l, i)
    requires (status.Affirmed? && action.ReviewAffirmed?) || (status.SentBack? && action.ReviewSentBack?)
    requires l'.items == l.items[i := l.items[i].(status := status, reviewedOn := Some(today))]
    requires l'.audit == l.audit + [AuditEntry(action, l.items[i].draft.entity)]
    ensures Consistent(l')
  {
    forall s: ReviewStatus
      ensures CountStatus(l'.items, s)
           == CountStatus(l.items, s) - (if s.PendingReview? then 1 else 0) + (if s == status then 1 else 0)
    {
      CountReplaced(l.items, i, l'.items[i], s);
    }
    forall a: Action
      ensures CountAction(l'.audit, a) == CountAction(l.audit, a) + if a == action then 1 else 0
    {
      AuditAppended(l.audit, AuditEntry(action, l.items[i].draft.entity), a);
    }
    forall k | 0 <= k < |l'.items| && l'.items[k].supersededBy.Some?
      ensures IsNextOnEntity(l'.items, k, l'.items[k].supersededBy.value)
    {
      assert IsNextOnEntity(l.items, k, l.items[k].supersededBy.value);
    }
  }

  // ---- Whole runs -------------------------------------------------------------------

  /** A later ledger: items and audit entries are only added, and a closed item is final. */
  ghost predicate Continues(l: Ledger, later: Ledger) {
    && |l.items| <= |later.items| && l.audit <= later.audit
    && forall i :: 0 <= i < |l.items| ==>
         && later.items[i].draft == l.items[i].draft
         && (!l.items[i].status.PendingReview? ==> later.items[i] == l.items[i])
  }

  lemma ContinuesTransitive(a: Ledger, b: Ledger, c: Ledger)
    requires Continues(a, b) && Continues(b, c)
    ensures Continues(a, c)
  {
  }

  datatype LedgerStep =
    | OpenStep(needsReview: bool, draft: Draft)
    | AffirmStep(item: nat)
    | SendBackStep(item: nat, reasonGiven: bool)

  /** One step; a refused one changes nothing. */
  function AfterStep(l: Ledger, step: LedgerStep, today: Day): Ledger {
    match step
    case OpenStep(needsReview, draft) => OpenedIfUnverified(l, needsReview, draft, today)
    case AffirmStep(i) => if IsOpen(l, i) then AffirmedAt(l, i, today) else l
    case SendBackStep(i, reasonGiven) => if IsOpen(l, i) && reasonGiven then SentBackAt(l, i, today) else l
  }

  lemma StepKeepsConsistent(l: Ledger, step: LedgerStep, today: Day)
    requires Consistent(l)
    ensures Consistent(AfterStep(l, step, today)) && Continues(l, AfterStep(l, step, today))
  {
    match step
    case OpenStep(needsReview, draft) =>
      if needsReview {
        OpeningKeepsConsistent(l, draft, today);
      }
    case AffirmStep(i) =>
      if IsOpen(l, i) {
        ClosingKeepsConsistent(l, i, today);
      }
    case SendBackStep(i, reasonGiven) =>
      if IsOpen(l, i) && reasonGiven {
        ClosingKeepsConsistent(l, i, today);
      }
  }

  // ---- The queue itself --------------------------------------------------------------

  class ReviewQueue {
    var items: seq<Item>
    var audit: seq<AuditEntry>

    function Value(): Ledger
      reads this
    {
      Ledger(items, audit)
    }

    constructor Load(l: Ledger)
      ensures Value() == l
    {
      items := l.items;
      audit := l.audit;
    }

    method Record(action: Action, e: Entity)
      modifies this`audit
      ensures audit == old(audit) + [AuditEntry(action, e)]
    {
      audit := audit + [AuditEntry(action, e)];
    }

    /** Moves an item to a terminal state; there is no way back to pending. */
    method Close(i: nat, status: ReviewStatus, today: Day) returns (ok: bool)
      modifies this`items
      ensures ok <==> IsOpen(old(Value()), i)
      ensures items == if ok then old(items)[i := old(items)[i].(status := status, reviewedOn := Some(today))]
              else old(items)
    {
      if i >= |items| || items[i].status != PendingReview {
        return false;
      }
      items := items[i := items[i].(status := status, reviewedOn := Some(today))];
      return true;
    }

    method OpenIfUnverified(needsReview: bool, draft: Draft, today: Day) returns (created: Option<nat>)
      modifies this
      ensures Value() == OpenedIfUnverified(old(Value()), needsReview, draft, today)
      ensures created == if needsReview then Some(|old(items)|) else None
    {
      if !needsReview {
        return None;
      }
      var superseded := PendingOn(items, draft.entity);
      if superseded.Some? {
        var _ := Close(superseded.value, Superseded, today);
      }
      var index := |items|;
      items := items + [Item(draft, PendingReview, None, None)];
      if superseded.Some? {
        items := items[superseded.value := items[superseded.value].(supersededBy := Some(index))];
        Record(ReviewSuperseded, draft.entity);
      }
      Record(ReviewOpened, draft.entity);
      return Some(index);
    }

    method Affirm(i: nat, today: Day) returns (ok: bool)
      modifies this
      ensures ok <==> IsOpen(old(Value()), i)
      ensures Value() == AfterStep(old(Value()), AffirmStep(i), today)
    {
      ok := Close(i, Affirmed, today);
      if ok {
        Record(ReviewAffirmed, items[i].draft.entity);
      }
    }

    method SendBack(i: nat, reasonGiven: bool, today: Day) returns (ok: bool)
      modifies this
      ensures ok <==> IsOpen(old(Value()), i) && reasonGiven
      ensures Value() == AfterStep(old(Value()), SendBackStep(i, reasonGiven), today)
    {
      if !reasonGiven {
        return false;
      }
      ok := Close(i, SentBack, today);
      if ok {
        Record(ReviewSentBack, items[i].draft.entity);
      }
    }
  }
}
