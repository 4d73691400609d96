/** One volunteer's standing on one requirement: its status and its four dates. */
module RequirementRows {
  import opened Wrappers
  import opened Calendar
  import opened Definitions

  datatype Status = NotStarted | InProgress | Complete | Overdue | NotApplicable | Waived | Blocked

  predicate IsOutstanding(s: Status) {
    s in {NotStarted, InProgress, Overdue, Blocked}
  }

  /** All that the engine reads of the deadline's wording is whether it marks turning 18. */
  datatype DueReason = NoDueReason | Turned18 | AfterPrerequisite

  datatype HeldReason = NotHeld | NoCurrentRole | AgeExempt | WaitingFor(prerequisite: DefId)

  datatype Row = Row(
    status: Status,
    startedOn: Option<Day>,
    completedOn: Option<Day>,
    expiresOn: Option<Day>,
    dueOn: Option<Day>,
    dueReason: DueReason,
    waivedOn: Option<Day>,
    heldReason: HeldReason,
    notes: string)

  /** The part of a review snapshot that a send-back reads from a requirement. */
  datatype Snapshot = Snapshot(
    startedOn: Option<Day>,
    completedOn: Option<Day>,
    expiresOn: Option<Day>,
    dueOn: Option<Day>,
    dueReason: DueReason)

  /** What reading a snapshot without those keys gives. */
  const EMPTY_SNAPSHOT := Snapshot(None, None, None, None, NoDueReason)

  function SnapshotOf(r: Row): Snapshot {
    Snapshot(r.startedOn, r.completedOn, r.expiresOn, r.dueOn, r.dueReason)
  }

  predicate Past(date: Option<Day>, asOf: Day) {
    date.Some? && date.value < asOf
  }

  // ---- What each writer leaves behind -----------------------------------------------

  function StatusAt(r: Row, asOf: Day): Status {
    match r.status
    case Complete =>
      if Past(r.expiresOn, asOf) || (Past(r.dueOn, asOf) && r.completedOn.None?) then Overdue else Complete
    case Overdue =>
      if r.completedOn.Some? && !Past(r.expiresOn, asOf) then Complete else Overdue
    case NotStarted =>
      if Past(r.dueOn, asOf) then Overdue else NotStarted
    case InProgress =>
      if Past(r.dueOn, asOf) then Overdue else InProgress
    case _ =>
      r.status
  }

  function Recomputed(r: Row, asOf: Day): Row {
    r.(status := StatusAt(r, asOf))
  }

  ghost function Completed(r: Row, def: Definition, on: Day, notes: string): Row {
    r.(status := Complete, completedOn := Some(on), expiresOn := ExpiryFor(def, on),
       dueOn := None, dueReason := NoDueReason, notes := if notes == "" then r.notes else notes)
  }

  function Started(r: Row, today: Day): Row {
    if r.status in {NotStarted, Overdue}
    then r.(startedOn := Some(today), status := if r.status.NotStarted? then InProgress else Overdue)
    else r
  }

  function WaivedRow(r: Row, today: Day): Row {
    r.(status := Waived, waivedOn := Some(today), dueOn := None, dueReason := NoDueReason)
  }

  /** The status that the surviving dates speak for. */
  function StatusAfterReversal(r: Row): Status {
    if r.completedOn.Some? then Complete
    else if r.startedOn.Some? then InProgress
    else NotStarted
  }

  function WaiverReversed(r: Row, restoreDue: Option<(Option<Day>, DueReason)>, today: Day): Row {
    var base := r.(status := StatusAfterReversal(r), waivedOn := None);
    Recomputed(
      match restoreDue
      case Some((due, reason)) => base.(dueOn := due, dueReason := reason)
      case None => base,
      today)
  }

  function Restored(r: Row, s: Snapshot, today: Day): Row {
    var dated := r.(completedOn := s.completedOn, expiresOn := s.expiresOn, dueOn := s.dueOn,
                    dueReason := s.dueReason, startedOn := if s.startedOn.Some? then s.startedOn else r.startedOn);
    Recomputed(dated.(status := StatusAfterReversal(dated)), today)
  }

  const CRC_VALID_MONTHS := 36

  ghost function CheckCleared(r: Row, reportDate: Day): Row {
    r.(status := Complete, completedOn := Some(reportDate),
       expiresOn := Some(ShiftMonths(reportDate, CRC_VALID_MONTHS)), dueOn := None, dueReason := NoDueReason)
  }

  function CheckNotClear(r: Row): Row {
    r.(status := Blocked, completedOn := None, expiresOn := None)
  }

  function Held(r: Row, reason: HeldReason): Row {
    r.(status := NotApplicable, heldReason := reason, dueOn := None, dueReason := NoDueReason)
  }

  // ---- Recompute --------------------------------------------------------------------

  /** What every reachable row satisfies on the day `today`. */
  ghost predicate Coherent(r: Row, today: Day) {
    && (r.status.Complete? ==> r.completedOn.Some?)
    && (r.status.NotApplicable? || r.status.Waived? ==> r.dueOn.None?)
    && (r.expiresOn.Some? ==> r.completedOn.Some?)
    && (r.completedOn.Some? && !r.status.Complete? && !r.status.Waived? ==> Past(r.expiresOn, today))
    && (r.status.Overdue? && r.completedOn.None? ==> Past(r.dueOn, today))
  }

  lemma CoherentLater(r: Row, today: Day, later: Day)
    requires Coherent(r, today) && today <= later
    ensures Coherent(r, later)
  {
  }

  /** Recompute keeps the row coherent and never brings an overdue row back. */
  lemma RecomputeKeepsCoherent(r: Row, today: Day)
    requires Coherent(r, today)
    ensures Coherent(Recomputed(r, today), today)
    ensures r.status.Overdue? ==> Recomputed(r, today) == r
  {
  }

  function RecomputedOn(r: Row, nights: seq<Day>): Row
    decreases |nights|
  {
    if nights == [] then r
    else RecomputedOn(Recomputed(r, nights[0]), nights[1..])
  }

  ghost predicate NonDecreasing(days: seq<Day>) {
    forall i, j :: 0 <= i < j < |days| ==> days[i] <= days[j]
  }

  /** Missed or repeated nights never change a final status. */
  lemma {:induction false} OnlyTheLastNightMatters(r: Row, nights: seq<Day>)
    requires nights != [] && NonDecreasing(nights)
    requires Coherent(r, nights[0])
    ensures RecomputedOn(r, nights) == Recomputed(r, nights[|nights| - 1])
    decreases |nights|
  {
    if |nights| > 1 {
      var next := Recomputed(r, nights[0]);
      RecomputeKeepsCoherent(r, nights[0]);
      CoherentLater(next, nights[0], nights[1]);
      OnlyTheLastNightMatters(next, nights[1..]);
    }
  }

  /** Off the reachable rows it fails: a row that says not started but holds a lasting completion. */
  lemma RecomputeOrderMattersOffCourse()
    ensures exists r, t: Day, u: Day :: t < u && Recomputed(Recomputed(r, t), u) != Recomputed(r, u)
  {
    var r := Row(NotStarted, None, Some(1), None, Some(1), NoDueReason, None, NotHeld, "");
    assert Recomputed(Recomputed(r, 2), 3) != Recomputed(r, 3);
  }

  // ---- Completing and sending back --------------------------------------------------

  /** The row's status is the one its dates speak for, or a deadline past on day `t` overrides both. */
  predicate StatusMatchesDates(r: Row, t: Day) {
    if r.completedOn.Some? then
      r.status in {Complete, Overdue}
        || (r.status in {NotStarted, InProgress} && Past(r.dueOn, t) && Past(r.expiresOn, t))
    else if r.status == Overdue then
      Past(r.dueOn, t)
    else
      r.status == StatusAfterReversal(r) || (r.status in {NotStarted, InProgress, Complete} && Past(r.dueOn, t))
  }

  /** A night touches nothing but the status. */
  lemma {:induction false} NightsKeepDates(r: Row, nights: seq<Day>)
    ensures RecomputedOn(r, nights) == r.(status := RecomputedOn(r, nights).status)
    decreases |nights|
  {
    if nights != [] {
      NightsKeepDates(Recomputed(r, nights[0]), nights[1..]);
    }
  }

  lemma RestoreUndoesCompletion(r: Row, def: Definition, on: Day, notes: string, done: Row, t: Day)
    requires done == Completed(r, def, on, notes).(status := done.status)
    ensures Restored(done, SnapshotOf(r), t)
         == r.(status := StatusAt(r.(status := StatusAfterReversal(r)), t), notes := done.notes)
  {
  }

  lemma StatusMatchesDatesIsExact(r: Row, t: Day)
    ensures StatusAt(r.(status := StatusAfterReversal(r)), t) == StatusAt(r, t) <==> StatusMatchesDates(r, t)
  {
  }

  /** Completing a row, letting any nights pass and sending the completion back on day `t` gives the
      untouched row recomputed on `t` (its notes aside) exactly when its status matched its dates. */
  lemma SendBackCommutesWithTime(r: Row, def: Definition, on: Day, notes: string, nights: seq<Day>, t: Day)
    ensures var done := RecomputedOn(Completed(r, def, on, notes), nights);
            Restored(done, SnapshotOf(r), t) == Recomputed(r, t).(notes := done.notes) <==> StatusMatchesDates(r, t)
  {
    var completed := Completed(r, def, on, notes);
    var done := RecomputedOn(completed, nights);
    NightsKeepDates(completed, nights);
    RestoreUndoesCompletion(r, def, on, notes, done, t);
    StatusMatchesDatesIsExact(r, t);
  }

  // ---- Waiving and documents --------------------------------------------------------

  /** Waiving a row and sending the waiver back on day `t` with its snapshot gives the unwaived row
      recomputed on `t` exactly when its status matched its dates and it bore no trace of an earlier waiver. */
  lemma WaiverSendBackCommutes(r: Row, waived: Day, t: Day)
    ensures WaiverReversed(WaivedRow(r, waived), Some((r.dueOn, r.dueReason)), t) == Recomputed(r, t)
            <==> r.waivedOn.None? && StatusMatchesDates(r, t)
  {
    StatusMatchesDatesIsExact(r, t);
    var reversed := WaiverReversed(WaivedRow(r, waived), Some((r.dueOn, r.dueReason)), t);
    assert reversed == r.(waivedOn := None, status := StatusAt(r.(status := StatusAfterReversal(r)), t));
  }

  /** A waiver reversed without a snapshot has lost the deadline, so the round trip also needs that there was none. */
  lemma PlainReversalLosesDeadline(r: Row, waived: Day, t: Day)
    ensures WaiverReversed(WaivedRow(r, waived), None, t) == Recomputed(r, t)
            <==> r.dueOn.None? && r.dueReason.NoDueReason? && r.waivedOn.None? && StatusMatchesDates(r, t)
  {
    StatusMatchesDatesIsExact(r, t);
    var reversed := WaiverReversed(WaivedRow(r, waived), None, t);
    assert reversed.dueOn.None? && reversed.dueReason.NoDueReason? && reversed.waivedOn.None?;
    if r.dueOn.None? && r.dueReason.NoDueReason? {
      assert reversed == r.(waivedOn := None, status := StatusAt(r.(status := StatusAfterReversal(r)), t));
    }
  }

  /** A document's snapshot holds no dates, so sending a document back restores the row that its
      completion overwrote exactly when that row had no completion, expiry or deadline to lose. */
  lemma DocumentSendBackLosesDates(r: Row, def: Definition, on: Day, nights: seq<Day>, t: Day)
    ensures var done := RecomputedOn(Completed(r, def, on, ""), nights);
            Restored(done, EMPTY_SNAPSHOT, t) == Recomputed(r, t)
            <==> && r.completedOn.None? && r.expiresOn.None? && r.dueOn.None? && r.dueReason.NoDueReason?
                 && StatusMatchesDates(r, t)
  {
    var done := RecomputedOn(Completed(r, def, on, ""), nights);
    NightsKeepDates(Completed(r, def, on, ""), nights);
    var blank := r.(completedOn := None, expiresOn := None, dueOn := None, dueReason := NoDueReason);
    assert Restored(done, EMPTY_SNAPSHOT, t)
            == blank.(status := StatusAt(blank.(status := StatusAfterReversal(blank)), t));
    StatusMatchesDatesIsExact(r, t);
  }

  /** Dates can be lost: a requirement not started and due on a day comes back without its deadline. */
  lemma DocumentCanLoseDeadline(def: Definition, on: Day, due: Day, t: Day)
    ensures var r := Row(NotStarted, None, None, None, Some(due), AfterPrerequisite, None, NotHeld, "");
            && StatusMatchesDates(r, t)
            && Restored(Completed(r, def, on, ""), EMPTY_SNAPSHOT, t).dueOn.None?
            && Restored(Completed(r, def, on, ""), EMPTY_SNAPSHOT, t) != Recomputed(r, t)
  {
    var r := Row(NotStarted, None, None, None, Some(due), AfterPrerequisite, None, NotHeld, "");
    assert RecomputedOn(Completed(r, def, on, ""), []) == Completed(r, def, on, "");
    DocumentSendBackLosesDates(r, def, on, [], t);
  }

  /** A waiver's date can be lost: a document completes the row, the row is waived, the document is sent back. The
      row then bears the date and no waiver, and the reversal of a second waiver takes the date with it. */
  lemma WaiverDateCanBeLost(r: Row, def: Definition, on: Day, first: Day, back: Day, second: Day, t: Day)
    ensures var left := Restored(WaivedRow(Completed(r, def, on, ""), first), EMPTY_SNAPSHOT, back);
            && left.status in {NotStarted, InProgress} && left.waivedOn == Some(first)
            && StatusMatchesDates(left, t)
            && WaiverReversed(WaivedRow(left, second), Some((left.dueOn, left.dueReason)), t) != Recomputed(left, t)
  {
    var left := Restored(WaivedRow(Completed(r, def, on, ""), first), EMPTY_SNAPSHOT, back);
    WaiverSendBackCommutes(left, second, t);
  }
}
