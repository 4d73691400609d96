/** The history of criminal record checks, and taking one back. */
module CheckHistory {
  import opened Wrappers
  import opened Calendar
  import opened Definitions
  import opened RequirementRows
  import opened Reconciliation
  import opened Settlement
  import opened VolunteerFiles
  import opened NightlySweep

  // ---- The chain --------------------------------------------------------------------

  /** Each check is superseded by the next one recorded; only the last is current. */
  ghost predicate Chained(checks: seq<Check>) {
    forall i :: 0 <= i < |checks| ==>
      checks[i].supersededBy == if i + 1 < |checks| then Some(i + 1) else None
  }

  lemma RecordingKeepsChain(cat: Catalogue, v: Volunteer, result: CrcResult, reportDate: Day, today: Day)
    requires ValidCatalogue(cat) && Chained(v.checks)
    ensures var after := RecordedCrc(cat, v, result, reportDate, today);
            after.Success? ==> Chained(after.value.checks) && |after.value.checks| == |v.checks| + 1
  {
  }

  datatype Recording = Recording(result: CrcResult, reportDate: Day, today: Day)

  ghost function AfterRecordings(cat: Catalogue, v: Volunteer, run: seq<Recording>): Volunteer
    requires ValidCatalogue(cat)
  {
    if run == [] then v
    else
      var step := run[|run| - 1];
      var before := AfterRecordings(cat, v, run[..|run| - 1]);
      match RecordedCrc(cat, before, step.result, step.reportDate, step.today)
      case Success(after) => after
      case Refused => before
  }

  /** Over any run of recorded checks exactly one is current, and every pointer goes to a later record. */
  lemma {:induction false} OneCurrentCheck(cat: Catalogue, v: Volunteer, run: seq<Recording>)
    requires ValidCatalogue(cat) && v.checks == []
    ensures var checks := AfterRecordings(cat, v, run).checks;
            && Chained(checks)
            && (checks != [] ==> checks[|checks| - 1].supersededBy.None?)
            && (forall i :: 0 <= i < |checks| && checks[i].supersededBy.None? ==> i == |checks| - 1)
            && (forall i :: 0 <= i < |checks| && checks[i].supersededBy.Some? ==>
                i < checks[i].supersededBy.value < |checks|)
  {
    if run != [] {
      var step := run[|run| - 1];
      OneCurrentCheck(cat, v, run[..|run| - 1]);
      RecordingKeepsChain(cat, AfterRecordings(cat, v, run[..|run| - 1]), step.result, step.reportDate, step.today);
    }
  }

  // ---- What a recorded check decides -----------------------------------------------------

  /** A check is refused exactly when its report lies ahead or the volunteer is disqualified. It is filed last and
      un-superseded, with its outcome pending if it is Not Clear; a Not Clear result blocks the volunteer, and a
      clearance lifts that block and no other. */
  lemma CheckSettlesBlock(cat: Catalogue, v: Volunteer, result: CrcResult, reportDate: Day, today: Day)
    requires ValidCatalogue(cat)
    ensures var after := RecordedCrc(cat, v, result, reportDate, today);
            && (after.Refused? <==> reportDate > today || v.block == Disqualified)
            && (after.Success? ==>
                  && (result == NotClear ==> after.value.block == CrcNotClear)
                  && (result == Cleared && v.block == CrcNotClear ==> after.value.block == NoBlock)
                  && (result == Cleared && v.block != CrcNotClear ==> after.value.block == v.block)
                  && after.value.assignments == v.assignments
                  && |after.value.checks| == |v.checks| + 1
                  && var filed := after.value.checks[|v.checks|];
                     && filed.result == result && filed.reportDate == reportDate && filed.supersededBy.None?
                     && filed.convictions == [] && filed.overrides == 0
                     && (filed.outcome == Pending <==> result == NotClear))
  {
  }

  /** Over any run of recordings from a clean file the volunteer is blocked exactly while the last check is Not
      Clear. */
  lemma {:induction false} BlockFollowsLastCheck(cat: Catalogue, v: Volunteer, run: seq<Recording>)
    requires ValidCatalogue(cat) && v.checks == [] && v.block == NoBlock
    ensures var after := AfterRecordings(cat, v, run);
            after.block == if after.checks != [] && after.checks[|after.checks| - 1].result == NotClear then CrcNotClear
                           else NoBlock
  {
    if run != [] {
      var step, rest := run[|run| - 1], run[..|run| - 1];
      BlockFollowsLastCheck(cat, v, rest);
      CheckSettlesBlock(cat, AfterRecordings(cat, v, rest), step.result, step.reportDate, step.today);
    }
  }

  /** The requirement that a check is recorded on is the first one on the list that the volunteer has. */
  lemma {:induction false} FirstCheckOnList(cat: Catalogue, rows: Rows, order: seq<DefId>)
    requires forall d :: d in order ==> d in cat.defs
    ensures match CrcInstanceIn(cat, rows, order)
            case None => forall i :: 0 <= i < |order| ==> order[i] !in rows || !cat.defs[order[i]].isCrc
            case Some(d) => exists k :: 0 <= k < |order| && order[k] == d && d in rows && cat.defs[d].isCrc
                              && forall i :: 0 <= i < k ==> order[i] !in rows || !cat.defs[order[i]].isCrc
  {
    if order != [] && !(cat.defs[order[0]].isCrc && order[0] in rows) {
      FirstCheckOnList(cat, rows, order[1..]);
      var found := CrcInstanceIn(cat, rows, order[1..]);
      if found.Some? {
        var k :| 0 <= k < |order[1..]| && order[1..][k] == found.value
                 && forall i :: 0 <= i < k ==> order[1..][i] !in rows || !cat.defs[order[1..][i]].isCrc;
        assert order[k + 1] == found.value;
        forall i | 0 <= i < k + 1 ensures order[i] !in rows || !cat.defs[order[i]].isCrc {
          assert i > 0 ==> order[1..][i - 1] == order[i];
        }
      } else {
        forall i | 0 <= i < |order| ensures order[i] !in rows || !cat.defs[order[i]].isCrc {
          assert i > 0 ==> order[1..][i - 1] == order[i];
        }
      }
    }
  }

  // ---- Recording and retracting ------------------------------------------------------

  /** A requirement that a role asks for, that age does not excuse and that nothing gates. */
  ghost predicate PlainlyOwed(c: Context, d: DefId)
    requires Valid(c)
  {
    d in c.order && !IsGated(c.defs[d]) && Applies(c, d) && !IsAgeExempt(c, d)
  }

  /** Such a row, once switched on, is none of the sync's business. */
  lemma SyncLeavesPlainRow(c: Context, rows: Rows, d: DefId)
    requires Valid(c) && PlainlyOwed(c, d) && d in rows && !rows[d].status.NotApplicable?
    ensures Get(Synced(c, rows), d) == Get(rows, d)
  {
    SelfContainedRow(c, rows, d);
  }

  lemma RefreshLeavesPlainRow(cat: Catalogue, v: Volunteer, d: DefId, r: Row, today: Day)
    requires ValidCatalogue(cat) && PlainlyOwed(ContextOf(cat, v, today), d) && !r.status.NotApplicable?
    ensures Get(WithDependentsRefreshed(cat, WithRow(v, d, r), d, today).rows, d) == Some(r)
    ensures WithDependentsRefreshed(cat, WithRow(v, d, r), d, today)
         == v.(rows := WithDependentsRefreshed(cat, WithRow(v, d, r), d, today).rows)
  {
    SyncLeavesPlainRow(ContextOf(cat, v, today), WithRow(v, d, r).rows, d);
  }

  /** What nights and syncs may do to a file between a check and its retraction. */
  ghost predicate OnlyTimePassed(recorded: Volunteer, later: Volunteer, d: DefId) {
    && later.checks == recorded.checks && later.block == recorded.block
    && d in recorded.rows && d in later.rows
    && later.rows[d] == recorded.rows[d].(status := later.rows[d].status)
  }

  /** A night is such a step: it leaves the file as recorded but for the row's status. */
  lemma NightKeepsCheck(cat: Catalogue, recorded: Volunteer, later: Volunteer, d: DefId, today: Day)
    requires ValidCatalogue(cat) && OnlyTimePassed(recorded, later, d)
    requires PlainlyOwed(ContextOf(cat, later, today), d) && !later.rows[d].status.NotApplicable?
    ensures OnlyTimePassed(recorded, AfterNight(cat, later, today), d)
    ensures !AfterNight(cat, later, today).rows[d].status.NotApplicable?
  {
    var c := ContextOf(cat, later, today);
    SyncLeavesPlainRow(c, later.rows, d);
    AgeScanKeepsActive(c, Synced(c, later.rows), |cat.order|, d);
  }

  /** The requirement is owed on every one of the nights. */
  ghost predicate OwedOnNights(cat: Catalogue, v: Volunteer, d: DefId, nights: seq<Day>)
    requires ValidCatalogue(cat)
  {
    forall n :: 0 <= n < |nights| ==> PlainlyOwed(ContextOf(cat, v, nights[n]), d)
  }

  /** So are any nights. */
  lemma {:induction false} NightsKeepCheck(cat: Catalogue, recorded: Volunteer, d: DefId, nights: seq<Day>)
    requires ValidCatalogue(cat) && OwedOnNights(cat, recorded, d, nights)
    requires d in recorded.rows && !recorded.rows[d].status.NotApplicable?
    ensures var later := AfterNights(cat, recorded, nights);
            && OnlyTimePassed(recorded, later, d) && !later.rows[d].status.NotApplicable?
            && later == recorded.(rows := later.rows)
    decreases |nights|
  {
    if nights != [] {
      var n := |nights| - 1;
      NightsKeepCheck(cat, recorded, d, nights[..n]);
      assert PlainlyOwed(ContextOf(cat, recorded, nights[n]), d);
      NightKeepsCheck(cat, recorded, AfterNights(cat, recorded, nights[..n]), d, nights[n]);
    }
  }

  lemma RecordedRow(cat: Catalogue, v: Volunteer, result: CrcResult, reportDate: Day, today: Day, d: DefId)
    requires ValidCatalogue(cat) && RecordedCrc(cat, v, result, reportDate, today).Success?
    requires CrcInstanceFor(cat, v) == Some(d) && PlainlyOwed(ContextOf(cat, v, today), d)
    ensures var after := RecordedCrc(cat, v, result, reportDate, today).value;
            && Get(after.rows, d) == Some(CheckedRow(v.rows[d], result, reportDate))
            && after == v.(rows := after.rows, block := after.block,
                           checks := Superseding(v.checks, NewCheck(result, reportDate)))
  {
    var filed := v.(checks := Superseding(v.checks, NewCheck(result, reportDate)));
    var r := CheckedRow(v.rows[d], result, reportDate);
    RefreshLeavesPlainRow(cat, filed, d, r, today);
  }

  /** On the requirement, a clearance counts for three years from its report, and a Not Clear result takes the
      completion away and blocks it. */
  lemma CheckSettlesRow(cat: Catalogue, v: Volunteer, result: CrcResult, reportDate: Day, today: Day, d: DefId)
    requires ValidCatalogue(cat) && RecordedCrc(cat, v, result, reportDate, today).Success?
    requires CrcInstanceFor(cat, v) == Some(d) && PlainlyOwed(ContextOf(cat, v, today), d)
    ensures var row := Get(RecordedCrc(cat, v, result, reportDate, today).value.rows, d);
            && row.Some?
            && (result == Cleared ==>
                  && row.value.status == Complete && row.value.completedOn == Some(reportDate)
                  && row.value.expiresOn == Some(ShiftMonths(reportDate, 36))
                  && row.value.dueOn.None? && row.value.dueReason == NoDueReason)
            && (result == NotClear ==>
                  && row.value.status == Blocked && row.value.completedOn.None? && row.value.expiresOn.None?
                  && row.value.dueOn == v.rows[d].dueOn)
  {
    RecordedRow(cat, v, result, reportDate, today, d);
  }

  /** Over any run of recordings only the last check can be taken back. */
  lemma OnlyLastIsRetracted(cat: Catalogue, v: Volunteer, run: seq<Recording>, check: nat, instance: Option<DefId>,
                            s: Snapshot, displaced: Option<nat>, t: Day)
    requires ValidCatalogue(cat) && v.checks == []
    ensures var after := AfterRecordings(cat, v, run);
            check != |after.checks| - 1 ==> CrcSentBack(cat, after, check, instance, s, displaced, t) == after
  {
    OneCurrentCheck(cat, v, run);
  }

  /** Taking a check back restores the check that it displaced; the row, recomputed on day `t`, exactly when its
      status matched its dates; and the block exactly when the check had not lifted or replaced one. */
  lemma RetractionUndoesRecording(cat: Catalogue, v: Volunteer, result: CrcResult, reportDate: Day, today: Day,
                                  d: DefId, later: Volunteer, t: Day)
    requires ValidCatalogue(cat)
    requires CrcInstanceFor(cat, v) == Some(d) && PlainlyOwed(ContextOf(cat, v, today), d)
    requires RecordedCrc(cat, v, result, reportDate, today).Success?
    requires OnlyTimePassed(RecordedCrc(cat, v, result, reportDate, today).value, later, d)
    requires PlainlyOwed(ContextOf(cat, later, t), d)
    ensures var retracted := CrcSentBack(cat, later, |v.checks|, Some(d), SnapshotOf(v.rows[d]),
                                         CurrentCheck(v.checks), t);
            && (retracted.block == v.block <==> v.block.NoBlock? || (v.block.Withdrawn? && result.Cleared?))
            && |retracted.checks| == |v.checks| + 1 && retracted.checks[..|v.checks|] == v.checks
            && d in retracted.rows && retracted.rows[d] == Restored(later.rows[d], SnapshotOf(v.rows[d]), t)
            && (retracted.rows[d] == Recomputed(v.rows[d], t) <==> StatusMatchesDates(v.rows[d], t))
  {
    var check := |v.checks|;
    RecordedRow(cat, v, result, reportDate, today, d);
    assert CanRetract(later, check);
    var restored := Restored(later.rows[d], SnapshotOf(v.rows[d]), t);
    RestoredRow(v.rows[d], later.rows[d], t);
    StatusMatchesDatesIsExact(v.rows[d], t);
    RefreshLeavesPlainRow(cat, later, d, restored, t);
    var current := CurrentCheck(v.checks);
    if current.Some? {
      assert later.checks[current.value := later.checks[current.value].(supersededBy := None)][current.value]
              == v.checks[current.value];
    }
  }

  /** The round trip with any nights between the recording and its retraction. */
  lemma RetractionAfterNights(cat: Catalogue, v: Volunteer, result: CrcResult, reportDate: Day, today: Day, d: DefId,
                              nights: seq<Day>, t: Day)
    requires ValidCatalogue(cat)
    requires CrcInstanceFor(cat, v) == Some(d) && PlainlyOwed(ContextOf(cat, v, today), d)
    requires RecordedCrc(cat, v, result, reportDate, today).Success?
    requires OwedOnNights(cat, v, d, nights) && PlainlyOwed(ContextOf(cat, v, t), d)
    ensures var later := AfterNights(cat, RecordedCrc(cat, v, result, reportDate, today).value, nights);
            var retracted := CrcSentBack(cat, later, |v.checks|, Some(d), SnapshotOf(v.rows[d]),
                                         CurrentCheck(v.checks), t);
            && (retracted.block == v.block <==> v.block.NoBlock? || (v.block.Withdrawn? && result.Cleared?))
            && |retracted.checks| == |v.checks| + 1 && retracted.checks[..|v.checks|] == v.checks
            && d in retracted.rows
            && (retracted.rows[d] == Recomputed(v.rows[d], t) <==> StatusMatchesDates(v.rows[d], t))
  {
    var recorded := RecordedCrc(cat, v, result, reportDate, today).value;
    RecordedRow(cat, v, result, reportDate, today, d);
    assert OwedOnNights(cat, recorded, d, nights);
    NightsKeepCheck(cat, recorded, d, nights);
    RetractionUndoesRecording(cat, v, result, reportDate, today, d, AfterNights(cat, recorded, nights), t);
  }

  lemma RestoredRow(r: Row, later: Row, t: Day)
    requires later.startedOn == r.startedOn && later.waivedOn == r.waivedOn
    requires later.heldReason == r.heldReason && later.notes == r.notes
    ensures Restored(later, SnapshotOf(r), t) == r.(status := StatusAt(r.(status := StatusAfterReversal(r)), t))
    ensures !Restored(later, SnapshotOf(r), t).status.NotApplicable?
  {
  }

  // ---- A clearance recorded by mistake -------------------------------------------------

  /** The church asks for one kind of check. */
  ghost predicate IsOnlyCheck(cat: Catalogue, d: DefId)
    requires ValidCatalogue(cat)
  {
    d in cat.order && forall k :: k in cat.order ==> (cat.defs[k].isCrc <==> k == d)
  }

  lemma {:induction false} OnlyCheckIn(cat: Catalogue, rows: Rows, order: seq<DefId>, d: DefId)
    requires d in rows && d in order
    requires forall k :: k in order ==> k in cat.defs && (cat.defs[k].isCrc <==> k == d)
    ensures CrcInstanceIn(cat, rows, order) == Some(d)
  {
    if order[0] != d {
      OnlyCheckIn(cat, rows, order[1..], d);
    }
  }

  /** Recording Not Clear, then a clearance, then retracting the clearance. */
  ghost function ClearanceRetracted(cat: Catalogue, v: Volunteer, d: DefId, reported: Day, cleared: Day,
                                    today: Day): Volunteer
    requires ValidCatalogue(cat) && RecordedCrc(cat, v, NotClear, reported, today).Success?
  {
    var first := RecordedCrc(cat, v, NotClear, reported, today).value;
    var second := RecordedCrc(cat, first, Cleared, cleared, today);
    if second.Refused? || d !in first.rows then first
    else CrcSentBack(cat, second.value, |first.checks|, Some(d), SnapshotOf(first.rows[d]),
                     CurrentCheck(first.checks), today)
  }

  /** Whatever the file: the Not Clear check is current again, but the block that it had set is gone and its row
      is no longer blocked. */
  lemma RetractionForgetsNotClear(cat: Catalogue, v: Volunteer, d: DefId, reported: Day, cleared: Day, today: Day)
    requires ValidCatalogue(cat) && IsOnlyCheck(cat, d) && PlainlyOwed(ContextOf(cat, v, today), d) && d in v.rows
    requires !v.block.Disqualified? && reported <= today && cleared <= today
    ensures RecordedCrc(cat, v, NotClear, reported, today).Success?
    ensures var first := RecordedCrc(cat, v, NotClear, reported, today).value;
            var last := ClearanceRetracted(cat, v, d, reported, cleared, today);
            && first.block == CrcNotClear && last.block == NoBlock
            && d in first.rows && first.rows[d].status == Blocked
            && d in last.rows && last.rows[d].status != Blocked
            && |first.checks| < |last.checks| && last.checks[..|first.checks|] == first.checks
            && first.checks != [] && first.checks[|first.checks| - 1] == NewCheck(NotClear, reported)
  {
    var first := RecordedCrc(cat, v, NotClear, reported, today).value;
    OnlyCheckIn(cat, v.rows, cat.order, d);
    RecordedRow(cat, v, NotClear, reported, today, d);
    OnlyCheckIn(cat, first.rows, cat.order, d);
    var second := RecordedCrc(cat, first, Cleared, cleared, today).value;
    RecordedRow(cat, first, Cleared, cleared, today, d);
    RetractionUndoesRecording(cat, first, Cleared, cleared, today, d, second, today);
  }

  const CHECK_OF_EVERYONE := EVERYONE.(isCrc := true)

  /** An instance: a new volunteer on whose list the sync has just put the one requirement there is. */
  lemma RetractionCanLoseBlock(cat: Catalogue, v: Volunteer, today: Day)
    requires ValidCatalogue(cat) && cat.order == [1] && cat.defs[1] == CHECK_OF_EVERYONE
    requires v == Volunteer(true, None, NoBlock, [Assignment(Role(0, false), true)], map[1 := BLANK_ROW], [])
    ensures RecordedCrc(cat, v, NotClear, today, today).Success?
    ensures RecordedCrc(cat, v, NotClear, today, today).value.block.CrcNotClear?
    ensures ClearanceRetracted(cat, v, 1, today, today, today).block.NoBlock?
  {
    var c := ContextOf(cat, v, today);
    assert ActiveRoles(v.assignments[1..]) == [];
    assert c.roles == [Role(0, false)];
    assert AppliesToRole(c.defs[1], c.roles[0]);
    RetractionForgetsNotClear(cat, v, 1, today, today, today);
  }
}
