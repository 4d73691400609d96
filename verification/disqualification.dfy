/** What convictions and leadership decisions do to a file, and what a disqualified file refuses. */
module Disqualification {
  import opened Wrappers
  import opened Calendar
  import opened Definitions
  import opened RequirementRows
  import opened Reconciliation
  import opened VolunteerFiles

  // ---- Convictions --------------------------------------------------------------------

  /** Convictions go on a Not Clear check, all of them or none: they are refused exactly when the check is not one or
      an entry names no category. The check then carries the earlier ones and each new one as it was entered. */
  lemma ConvictionsAreFiled(v: Volunteer, check: nat, entries: seq<Entry>)
    ensures var after := RecordedConvictions(v, check, entries);
            && (after.Refused? <==>
                  || check >= |v.checks| || v.checks[check].result != NotClear
                  || exists i :: 0 <= i < |entries| && !entries[i].hasCategory)
            && (after.Success? ==>
                  && |after.value.checks| == |v.checks|
                  && (forall k :: 0 <= k < |v.checks| && k != check ==> after.value.checks[k] == v.checks[k])
                  && var before, filed := v.checks[check].convictions, after.value.checks[check].convictions;
                     && |filed| == |before| + |entries| && before <= filed
                     && forall i :: 0 <= i < |entries| ==> filed[|before| + i] == entries[i].isAutomatic)
  {
  }

  /** What an automatic conviction makes of a row: outstanding ones are blocked and keep their dates. */
  predicate IsBlockedFrom(before: Row, after: Row) {
    if before.status in {NotStarted, InProgress, Overdue, Blocked} then after == before.(status := Blocked)
    else after == before
  }

  /** One automatic conviction disqualifies: the volunteer serves nowhere and no outstanding requirement can be
      completed any more, and nothing else on the list changes. Without one the list, the block and the assignments
      are as before. */
  lemma AutomaticConvictionBlocks(v: Volunteer, check: nat, entries: seq<Entry>)
    requires RecordedConvictions(v, check, entries).Success?
    ensures var after := RecordedConvictions(v, check, entries).value;
            if exists i :: 0 <= i < |entries| && entries[i].isAutomatic then
              && after.block == Disqualified
              && |after.assignments| == |v.assignments|
              && (forall i :: 0 <= i < |after.assignments| ==>
                    after.assignments[i] == Assignment(v.assignments[i].role, false))
              && after.rows.Keys == v.rows.Keys
              && forall d :: d in v.rows ==> IsBlockedFrom(v.rows[d], after.rows[d])
            else
              after.block == v.block && after.assignments == v.assignments && after.rows == v.rows
  {
    var flags := Automatics(entries);
    if i :| 0 <= i < |entries| && entries[i].isAutomatic {
      assert flags[i];
    }
  }

  /** On a disqualified file nothing can be put right: no check, no decision and no assignment is accepted, no
      withdrawal either, and what was blocked cannot be completed. */
  lemma DisqualifiedFileRefuses(cat: Catalogue, v: Volunteer, check: nat, entries: seq<Entry>, d: DefId, on: Day,
                                notes: string, today: Day)
    requires ValidCatalogue(cat) && RecordedConvictions(v, check, entries).Success?
    requires exists i :: 0 <= i < |entries| && entries[i].isAutomatic
    ensures var after := RecordedConvictions(v, check, entries).value;
            && (d in v.rows && v.rows[d].status in {NotStarted, InProgress, Overdue, Blocked} ==>
                  MarkedComplete(cat, after, d, on, notes, today).Refused?)
            && (forall result :: RecordedCrc(cat, after, result, on, today).Refused?)
            && (forall conviction, decision, documented ::
                  RecordedOverride(after, check, conviction, decision, documented).Refused?)
            && (forall role :: Assigned(after, role).Refused?)
            && ResolvedNotClear(after, check, Withdrew).Refused?
  {
    AutomaticConvictionBlocks(v, check, entries);
  }

  // ---- Decisions ------------------------------------------------------------------------

  /** A decision needs its check, a conviction that is no automatic one, a file that is not disqualified and its
      documentation. Declining withdraws the volunteer from every role; approving, with conditions or without, lifts a
      Not Clear block and no other, and ends nothing. The list is as before, and the check carries one decision more. */
  lemma DecisionSettlesFile(v: Volunteer, check: nat, conviction: Option<nat>, decision: Decision, documented: bool)
    ensures var after := RecordedOverride(v, check, conviction, decision, documented);
            && (after.Success? <==>
                  && check < |v.checks| && documented && v.block != Disqualified
                  && (conviction.Some? ==>
                        conviction.value < |v.checks[check].convictions|
                          && !v.checks[check].convictions[conviction.value]))
            && (after.Success? ==>
                  && after.value.rows == v.rows
                  && after.value.checks
                      == v.checks[check := v.checks[check].(overrides := v.checks[check].overrides + 1)]
                  && (if decision == Declined then
                        && after.value.block == Withdrawn
                        && forall i :: 0 <= i < |after.value.assignments| ==> !after.value.assignments[i].isActive
                      else
                        && after.value.assignments == v.assignments
                        && after.value.block == if v.block == CrcNotClear then NoBlock else v.block))
  {
  }

  /** The outcome of a Not Clear check is recorded on that check; only a withdrawal does more, and it is refused on a
      disqualified file. */
  lemma OutcomeSettlesFile(v: Volunteer, check: nat, outcome: NotClearOutcome)
    ensures var after := ResolvedNotClear(v, check, outcome);
            && (after.Success? <==>
                  && check < |v.checks| && v.checks[check].result == NotClear && outcome != NoOutcome
                  && !(outcome == Withdrew && v.block == Disqualified))
            && (after.Success? ==>
                  && after.value.rows == v.rows
                  && after.value.checks == v.checks[check := v.checks[check].(outcome := outcome)]
                  && (if outcome == Withdrew then
                        && after.value.block == Withdrawn
                        && forall i :: 0 <= i < |after.value.assignments| ==> !after.value.assignments[i].isActive
                      else after.value.block == v.block && after.value.assignments == v.assignments))
  {
  }
}
