/** What a settled list of requirements looks like, when one sync is enough to reach it, and how
    little of it depends on the order of the definitions. */
module Settlement {
  import opened Wrappers
  import opened Calendar
  import opened AgeRules
  import opened Definitions
  import opened RequirementRows
  import opened Reconciliation

  ghost function SyncedTwice(c: Context, rows: Rows): Rows
    requires Valid(c)
  {
    Synced(c, Synced(c, rows))
  }

  // ---- The settled list, declared ---------------------------------------------------

  /** Row by row: owed exactly when a role asks for it, age does not excuse it and the gate is open. */
  ghost predicate SettledAt(c: Context, rows: Rows, d: DefId)
    requires d in c.defs
  {
    if !Applies(c, d) then
      d in rows ==> !IsOutstanding(rows[d].status)
    else
      && d in rows
      && if IsAgeExempt(c, d) || UnmetPrerequisite(c.defs, rows, d).Some?
         then !IsOutstanding(rows[d].status)
         else rows[d].status != NotApplicable
  }

  lemma TurnSettles(c: Context, d: DefId, row: Option<Row>, blocker: Option<DefId>, deadline: Option<Day>)
    requires d in c.defs
    ensures var next := Turn(c, d, row, blocker, deadline);
            if !Applies(c, d) then
              next.Some? ==> !IsOutstanding(next.value.status)
            else
              && next.Some?
              && if IsAgeExempt(c, d) || blocker.Some?
                 then !IsOutstanding(next.value.status)
                 else next.value.status != NotApplicable
  {
  }

  /** Two syncs settle every list of requirements. */
  lemma TwoSyncsSettle(c: Context, rows: Rows, d: DefId)
    requires Valid(c) && d in c.order
    ensures SettledAt(c, SyncedTwice(c, rows), d)
  {
    var one := Synced(c, rows);
    SyncMakesSteady(c, rows);
    SteadySyncIsSimultaneous(c, one);
    assert Get(Synced(c, one), d) == TurnOn(c, one, d);
    TurnSettles(c, d, Get(one, d), UnmetPrerequisite(c.defs, one, d), PrerequisiteDeadline(c.defs, one, d));
  }

  /** Where a sync changes nothing, no single turn would, and the list is settled. */
  lemma FixedPointIsSettled(c: Context, rows: Rows, d: DefId)
    requires Valid(c) && d in c.order && Synced(c, rows) == rows
    ensures TurnOn(c, rows, d) == Get(rows, d)
    ensures SettledAt(c, rows, d)
  {
    SyncMakesSteady(c, rows);
    SteadySyncIsSimultaneous(c, rows);
    TurnSettles(c, d, Get(rows, d), UnmetPrerequisite(c.defs, rows, d), PrerequisiteDeadline(c.defs, rows, d));
  }

  // ---- What a sync keeps of each row -------------------------------------------------

  lemma SyncKeepsHistory(c: Context, rows: Rows, d: DefId)
    requires Valid(c)
    ensures KeepsHistory(Get(rows, d), Get(Synced(c, rows), d))
    ensures d in Synced(c, rows) <==> d in rows || (d in c.order && Applies(c, d))
    ensures d !in c.order ==> Get(Synced(c, rows), d) == Get(rows, d)
  {
    var i := if d in c.order then (var i :| 0 <= i < |c.order| && c.order[i] == d; i) else |c.order|;
    RowBeforeTurn(c, rows, i, d);
    if d in c.order {
      var at := SyncTo(c, rows, i);
      RowAfterTurn(c, rows, i, |c.order|);
      TurnKeepsHistory(c, d, Get(at, d), UnmetPrerequisite(c.defs, at, d), PrerequisiteDeadline(c.defs, at, d));
    }
  }

  lemma TurnIgnoresGate(c: Context, d: DefId, row: Option<Row>, blocker: Option<DefId>, deadline: Option<Day>)
    requires d in c.defs
    requires (!IsGated(c.defs[d]) && blocker.None?) || !Applies(c, d) || IsAgeExempt(c, d)
    ensures Turn(c, d, row, blocker, deadline) == Turn(c, d, row, None, None)
  {
  }

  /** The row of an ungated, inapplicable or age-exempt definition after a sync is its turn on the input rows. */
  lemma SelfContainedRow(c: Context, rows: Rows, d: DefId)
    requires Valid(c) && d in c.order
    requires !IsGated(c.defs[d]) || !Applies(c, d) || IsAgeExempt(c, d)
    ensures Get(Synced(c, rows), d) == Turn(c, d, Get(rows, d), None, None)
  {
    var i :| 0 <= i < |c.order| && c.order[i] == d;
    var at := SyncTo(c, rows, i);
    RowBeforeTurn(c, rows, i, d);
    RowAfterTurn(c, rows, i, |c.order|);
    TurnIgnoresGate(c, d, Get(rows, d), UnmetPrerequisite(c.defs, at, d), PrerequisiteDeadline(c.defs, at, d));
  }

  /** Whether `d` is held back once the sync has visited its prerequisite, read off the input rows. */
  ghost predicate WillBlock(c: Context, rows: Rows, d: DefId)
    requires d in c.defs
  {
    IsGated(c.defs[d]) &&
    var p := c.defs[d].mustFollow.value;
    p in c.defs && c.defs[p].isActive &&
    var after := Turn(c, p, Get(rows, p), None, None);
    after.Some? && !IsDone(after.value) && (IsGated(c.defs[p]) || after.value.status != NotApplicable)
  }

  lemma GateAfterSync(c: Context, rows: Rows, d: DefId)
    requires Valid(c) && d in c.defs
    ensures UnmetPrerequisite(c.defs, Synced(c, rows), d).Some? <==> WillBlock(c, rows, d)
  {
    if IsGated(c.defs[d]) && c.defs[d].mustFollow.value in c.order {
      var p := c.defs[d].mustFollow.value;
      SyncKeepsHistory(c, rows, p);
      TurnKeepsHistory(c, p, Get(rows, p), None, None);
      if !IsGated(c.defs[p]) {
        SelfContainedRow(c, rows, p);
      }
    }
  }

  lemma DeadlineAfterSync(c: Context, rows: Rows, d: DefId)
    requires Valid(c) && d in c.defs
    ensures PrerequisiteDeadline(c.defs, Synced(c, rows), d) == PrerequisiteDeadline(c.defs, rows, d)
  {
    if c.defs[d].mustFollow.Some? {
      SyncKeepsHistory(c, rows, c.defs[d].mustFollow.value);
    }
  }

  // ---- Definition order --------------------------------------------------------------

  lemma TurnNeverCompletes(c: Context, d: DefId, row: Option<Row>, blocker: Option<DefId>, deadline: Option<Day>)
    requires d in c.defs
    ensures var next := Turn(c, d, row, blocker, deadline);
            next.Some? && next.value.status in {Complete, Waived} ==> next == row
  {
  }

  lemma SyncNeverCompletes(c: Context, rows: Rows, d: DefId)
    requires Valid(c)
    ensures var next := Get(Synced(c, rows), d);
            next.Some? && next.value.status in {Complete, Waived} ==> next == Get(rows, d)
  {
    SyncKeepsHistory(c, rows, d);
    if d in c.order {
      var i :| 0 <= i < |c.order| && c.order[i] == d;
      var at := SyncTo(c, rows, i);
      RowBeforeTurn(c, rows, i, d);
      RowAfterTurn(c, rows, i, |c.order|);
      TurnNeverCompletes(c, d, Get(at, d), UnmetPrerequisite(c.defs, at, d), PrerequisiteDeadline(c.defs, at, d));
    }
  }

  /** Which requirements are held after two syncs, read off the input rows alone. */
  ghost predicate HeldAtRest(c: Context, rows: Rows, d: DefId)
    requires d in c.defs
  {
    var row := Get(rows, d);
    if row.Some? && row.value.status in {Complete, Waived} then false
    else if !Applies(c, d) || IsAgeExempt(c, d) then Turn(c, d, row, None, None).Some?
    else WillBlock(c, rows, d)
  }

  /** The row after two syncs: its turn on the rows that one sync left, both gates answering alike. */
  lemma SecondSync(c: Context, rows: Rows, d: DefId)
    requires Valid(c) && d in c.order
    ensures var one := Synced(c, rows);
            && Get(SyncedTwice(c, rows), d) == TurnOn(c, one, d)
            && (UnmetPrerequisite(c.defs, one, d).Some? <==> WillBlock(c, rows, d))
            && (d in one <==> d in rows || Applies(c, d))
            && (d in rows && rows[d].status in {Complete, Waived} ==> Get(one, d) == Get(rows, d))
            && (d in one && one[d].status in {Complete, Waived} ==> Get(one, d) == Get(rows, d))
  {
    SyncMakesSteady(c, rows);
    SteadySyncIsSimultaneous(c, Synced(c, rows));
    SyncKeepsHistory(c, rows, d);
    SyncNeverCompletes(c, rows, d);
    GateAfterSync(c, rows, d);
  }

  lemma HeldAtRestIsExact(c: Context, rows: Rows, d: DefId)
    requires Valid(c) && d in c.order
    ensures var final := Get(SyncedTwice(c, rows), d);
            final.Some? && final.value.status.NotApplicable? <==> HeldAtRest(c, rows, d)
  {
    var one := Synced(c, rows);
    var blocker, deadline := UnmetPrerequisite(c.defs, one, d), PrerequisiteDeadline(c.defs, one, d);
    SecondSync(c, rows, d);
    TurnKeepsHistory(c, d, Get(rows, d), None, None);
    HeldTurn(c, d, Get(one, d), blocker, deadline);
  }

  /** Which rows a turn leaves held. */
  lemma HeldTurn(c: Context, d: DefId, row: Option<Row>, blocker: Option<DefId>, deadline: Option<Day>)
    requires d in c.defs
    ensures var next := Turn(c, d, row, blocker, deadline);
            next.Some? && next.value.status.NotApplicable? <==>
              if row.Some? && row.value.status in {Complete, Waived} then false
              else if !Applies(c, d) then row.Some?
              else IsAgeExempt(c, d) || blocker.Some?
  {
  }

  /** The definition order never decides which requirements end up held, only how. */
  lemma HeldInAnyOrder(c: Context, order: seq<DefId>, rows: Rows, d: DefId)
    requires Valid(c) && Valid(c.(order := order)) && d in c.order
    ensures var here, there := Get(SyncedTwice(c, rows), d), Get(SyncedTwice(c.(order := order), rows), d);
            && here.Some? == there.Some?
            && (here.Some? ==> here.value.status.NotApplicable? == there.value.status.NotApplicable?)
  {
    var c' := c.(order := order);
    assert d in order;
    HeldAtRestIsExact(c, rows, d);
    HeldAtRestIsExact(c', rows, d);
    assert HeldAtRest(c, rows, d) == HeldAtRest(c', rows, d) by {
      SameTurn(c, order, d, Get(rows, d));
      if IsGated(c.defs[d]) {
        SameTurn(c, order, c.defs[d].mustFollow.value, Get(rows, c.defs[d].mustFollow.value));
      }
    }
    SyncKeepsHistory(c, rows, d);
    SyncKeepsHistory(c, Synced(c, rows), d);
    SyncKeepsHistory(c', rows, d);
    SyncKeepsHistory(c', Synced(c', rows), d);
  }

  lemma SameTurn(c: Context, order: seq<DefId>, d: DefId, row: Option<Row>)
    requires d in c.defs
    ensures Turn(c, d, row, None, None) == Turn(c.(order := order), d, row, None, None)
  {
  }

  // ---- When one sync is enough --------------------------------------------------------

  predicate Precedes(order: seq<DefId>, p: DefId, d: DefId) {
    exists i, j :: 0 <= i < j < |order| && order[i] == p && order[j] == d
  }

  /** Whether the gate holds `d` back at `d`'s own turn in a sync, read off the input rows. */
  ghost predicate BlockedAtTurn(c: Context, rows: Rows, d: DefId)
    requires d in c.defs
  {
    if c.defs[d].mustFollow.Some? && Precedes(c.order, c.defs[d].mustFollow.value, d)
    then WillBlock(c, rows, d)
    else UnmetPrerequisite(c.defs, rows, d).Some?
  }

  /** A requirement whose row its gate decides: a role asks for it and age does not excuse it. */
  ghost predicate IsGateDriven(c: Context, d: DefId)
    requires d in c.defs
  {
    Applies(c, d) && !IsAgeExempt(c, d) && IsGated(c.defs[d])
  }

  predicate IsFinished(row: Option<Row>) {
    row.Some? && row.value.status in {Complete, Waived}
  }

  /** The gate answers at `d`'s own turn as it will after the sync, or the row is past caring. */
  ghost predicate GateSeenInTime(c: Context, rows: Rows, d: DefId)
    requires d in c.defs
  {
    IsGateDriven(c, d) && !IsFinished(Get(rows, d)) ==> BlockedAtTurn(c, rows, d) == WillBlock(c, rows, d)
  }

  /** The two ways a second sync still moves `d`: its prerequisite's turn comes after its own and changes
      the gate's answer, or a deadline is due to a row that its first turn creates or switches on for age. */
  ghost predicate OneSyncIsEnough(c: Context, rows: Rows, d: DefId)
    requires d in c.defs
  {
    && GateSeenInTime(c, rows, d)
    && (IsGateDriven(c, d) && !IsFinished(Get(rows, d)) ==>
          var deadline := PrerequisiteDeadline(c.defs, rows, d);
          deadline.Some? ==>
            && d in rows
            && (rows[d].status.NotApplicable? && rows[d].completedOn.None?
                && AgeTriggeredDeadline(c.defs[d], c.birth).Some? ==>
                  AgeTriggeredDeadline(c.defs[d], c.birth).value <= deadline.value))
  }

  lemma AdultHasBirthDate(birth: Option<Birth>, day: Day)
    requires IsAdult(birth, day)
    ensures birth.Some?
  {
    AdultFromTriggerDay(birth, day);
  }

  lemma GateAfterPrerequisite(c: Context, rows: Rows, k: nat, i: nat)
    requires Valid(c) && k < i < |c.order| && c.defs[c.order[i]].mustFollow == Some(c.order[k])
    ensures UnmetPrerequisite(c.defs, SyncTo(c, rows, i), c.order[i]).Some? <==> WillBlock(c, rows, c.order[i])
  {
    var d, p := c.order[i], c.order[k];
    RowAfterTurn(c, rows, k, i);
    RowAfterTurn(c, rows, k, |c.order|);
    assert Get(SyncTo(c, rows, i), p) == Get(Synced(c, rows), p);
    GateAfterSync(c, rows, d);
  }

  lemma GateBeforePrerequisite(c: Context, rows: Rows, i: nat)
    requires Valid(c) && i < |c.order| && c.defs[c.order[i]].mustFollow.Some?
    requires c.defs[c.order[i]].mustFollow.value !in c.order[..i]
    ensures UnmetPrerequisite(c.defs, SyncTo(c, rows, i), c.order[i]) == UnmetPrerequisite(c.defs, rows, c.order[i])
  {
    var p := c.defs[c.order[i]].mustFollow.value;
    RowBeforeTurn(c, rows, i, p);
    assert Get(SyncTo(c, rows, i), p) == Get(rows, p);
  }

  /** The gate's answer at `d`'s own turn. */
  lemma GateAtTurn(c: Context, rows: Rows, i: nat)
    requires Valid(c) && i < |c.order| && IsGated(c.defs[c.order[i]])
    ensures UnmetPrerequisite(c.defs, SyncTo(c, rows, i), c.order[i]).Some? <==> BlockedAtTurn(c, rows, c.order[i])
  {
    var d, p := c.order[i], c.defs[c.order[i]].mustFollow.value;
    if Precedes(c.order, p, d) {
      var k, j :| 0 <= k < j < |c.order| && c.order[k] == p && c.order[j] == d;
      assert j == i;
      GateAfterPrerequisite(c, rows, k, i);
    } else {
      assert p !in c.order[..i];
      GateBeforePrerequisite(c, rows, i);
    }
  }

  lemma DeadlineAtTurn(c: Context, rows: Rows, n: nat, d: DefId)
    requires Valid(c) && n <= |c.order| && d in c.defs
    ensures PrerequisiteDeadline(c.defs, SyncTo(c, rows, n), d) == PrerequisiteDeadline(c.defs, rows, d)
  {
    if n > 0 {
      DeadlineAtTurn(c, rows, n - 1, d);
      VisitKeepsDeadlines(c, SyncTo(c, rows, n - 1), c.order[n - 1], d);
    }
  }

  /** One gated definition's second turn, after the gate answered `first` and then `second`. */
  lemma SecondTurn(c: Context, d: DefId, row: Option<Row>, first: Option<DefId>, second: Option<DefId>,
                   deadline: Option<Day>)
    requires d in c.defs && Applies(c, d) && !IsAgeExempt(c, d) && IsGated(c.defs[d])
    requires c.birth.Some? || !c.defs[d].adultsOnly
    requires deadline.Some? ==> first.None? && second.None?
    requires !(row.Some? && row.value.status in {Complete, Waived})
    ensures var once := Turn(c, d, row, first, deadline);
            Turn(c, d, once, second, deadline) == once <==>
              && first.Some? == second.Some?
              && (deadline.Some? ==>
                    && row.Some?
                    && (row.value.status.NotApplicable? && row.value.completedOn.None?
                        && AgeTriggeredDeadline(c.defs[d], c.birth).Some? ==>
                          AgeTriggeredDeadline(c.defs[d], c.birth).value <= deadline.value))
  {
  }

  /** A second sync leaves the rows alone exactly when every definition needed only one turn. */
  lemma OneSyncIsEnoughExactly(c: Context, rows: Rows)
    requires Valid(c)
    ensures Synced(c, Synced(c, rows)) == Synced(c, rows) <==> forall d :: d in c.order ==> OneSyncIsEnough(c, rows, d)
  {
    var one := Synced(c, rows);
    SyncMakesSteady(c, rows);
    SteadySyncIsSimultaneous(c, one);
    forall d | d in c.order
      ensures Get(Synced(c, one), d) == Get(one, d) <==> OneSyncIsEnough(c, rows, d)
    {
      SecondTurnInSync(c, rows, d);
    }
    if forall d :: d in c.order ==> OneSyncIsEnough(c, rows, d) {
      SameRows(Synced(c, one), one);
    }
  }

  lemma SecondTurnInSync(c: Context, rows: Rows, d: DefId)
    requires Valid(c) && d in c.order
    ensures TurnOn(c, Synced(c, rows), d) == Get(Synced(c, rows), d) <==> OneSyncIsEnough(c, rows, d)
  {
    var one := Synced(c, rows);
    var i :| 0 <= i < |c.order| && c.order[i] == d;
    var at := SyncTo(c, rows, i);
    var deadline := PrerequisiteDeadline(c.defs, rows, d);
    RowBeforeTurn(c, rows, i, d);
    RowAfterTurn(c, rows, i, |c.order|);
    DeadlineAtTurn(c, rows, i, d);
    DeadlineAfterSync(c, rows, d);
    if !IsGated(c.defs[d]) || !Applies(c, d) || IsAgeExempt(c, d) {
      SyncMakesSteady(c, rows);
      SelfContainedTwice(c, rows, d);
    } else if d in rows && rows[d].status in {Complete, Waived} {
      TurnKeepsHistory(c, d, Get(rows, d), UnmetPrerequisite(c.defs, at, d), deadline);
      TurnKeepsHistory(c, d, Get(one, d), UnmetPrerequisite(c.defs, one, d), deadline);
    } else {
      GateAtTurn(c, rows, i);
      GateAfterSync(c, rows, d);
      if c.defs[d].adultsOnly {
        AdultHasBirthDate(c.birth, c.today);
      }
      if deadline.Some? {
        DeadlineMeansOpen(c.defs, at, d);
        DeadlineMeansOpen(c.defs, one, d);
      }
      SecondTurn(c, d, Get(rows, d), UnmetPrerequisite(c.defs, at, d), UnmetPrerequisite(c.defs, one, d), deadline);
    }
  }

  lemma SelfContainedTwice(c: Context, rows: Rows, d: DefId)
    requires Valid(c) && d in c.order
    requires !IsGated(c.defs[d]) || !Applies(c, d) || IsAgeExempt(c, d)
    ensures TurnOn(c, Synced(c, rows), d) == Get(Synced(c, rows), d)
  {
    var one := Synced(c, rows);
    SelfContainedRow(c, rows, d);
    TurnIgnoresGate(c, d, Get(one, d), UnmetPrerequisite(c.defs, one, d), PrerequisiteDeadline(c.defs, one, d));
    SelfContainedTurnTwice(c, d, Get(rows, d));
  }

  lemma SelfContainedTurnTwice(c: Context, d: DefId, row: Option<Row>)
    requires d in c.defs
    requires !IsGated(c.defs[d]) || !Applies(c, d) || IsAgeExempt(c, d)
    ensures Turn(c, d, Turn(c, d, row, None, None), None, None) == Turn(c, d, row, None, None)
  {
  }

  // ---- The gate answers in the same call ----------------------------------------------

  /** One sync settles `d` exactly when the gate was seen in time. */
  lemma OneSyncSettlesExactly(c: Context, rows: Rows, d: DefId)
    requires Valid(c) && d in c.order
    ensures SettledAt(c, Synced(c, rows), d) <==> GateSeenInTime(c, rows, d)
  {
    var i :| 0 <= i < |c.order| && c.order[i] == d;
    var at, after := SyncTo(c, rows, i), Synced(c, rows);
    RowBeforeTurn(c, rows, i, d);
    RowAfterTurn(c, rows, i, |c.order|);
    if IsGated(c.defs[d]) {
      GateAtTurn(c, rows, i);
      GateAfterSync(c, rows, d);
    }
    var blocker, deadline := UnmetPrerequisite(c.defs, at, d), PrerequisiteDeadline(c.defs, at, d);
    TurnSettles(c, d, Get(rows, d), blocker, deadline);
    HeldTurn(c, d, Get(rows, d), blocker, deadline);
    FinishedTurn(c, d, Get(rows, d), blocker, deadline);
  }

  /** A turn leaves no row finished that was not. */
  lemma FinishedTurn(c: Context, d: DefId, row: Option<Row>, blocker: Option<DefId>, deadline: Option<Day>)
    requires d in c.defs
    ensures var next := Turn(c, d, row, blocker, deadline);
            && IsFinished(next) == IsFinished(row)
            && (IsFinished(row) ==> next == row)
  {
  }

  /** A dependent that a sync switches on behind a completed prerequisite is due its offset after the
      completion, unless turning 18 sets its deadline. */
  lemma ReleasedBehindCompletion(c: Context, rows: Rows, p: DefId, d: DefId)
    requires Valid(c) && d in c.order && IsGateDriven(c, d) && c.defs[d].mustFollow == Some(p)
    requires p in rows && rows[p].completedOn.Some? && d in rows && rows[d].status.NotApplicable?
    requires !(c.defs[d].isCrc && c.defs[d].adultsOnly) && PrerequisiteOffsetMonths(c.defs[d]) > 0
    ensures var after := Synced(c, rows);
            && d in after && after[d].status == NotStarted && after[d].dueReason == AfterPrerequisite
            && after[d].dueOn == Some(ShiftMonths(rows[p].completedOn.value, PrerequisiteOffsetMonths(c.defs[d])))
  {
    var i :| 0 <= i < |c.order| && c.order[i] == d;
    RowBeforeTurn(c, rows, i, d);
    RowAfterTurn(c, rows, i, |c.order|);
    DeadlineAtTurn(c, rows, i, d);
    DeadlineMeansOpen(c.defs, SyncTo(c, rows, i), d);
  }

  /** One that is open and not completed before takes that deadline unless its own is earlier. */
  lemma RedatedBehindCompletion(c: Context, rows: Rows, p: DefId, d: DefId)
    requires Valid(c) && d in c.order && IsGateDriven(c, d) && c.defs[d].mustFollow == Some(p)
    requires p in rows && rows[p].completedOn.Some? && PrerequisiteOffsetMonths(c.defs[d]) > 0
    requires d in rows && IsOutstanding(rows[d].status) && rows[d].completedOn.None?
    ensures var due := Some(ShiftMonths(rows[p].completedOn.value, PrerequisiteOffsetMonths(c.defs[d])));
            Get(Synced(c, rows), d) == Some(Refreshed(rows[d], due))
  {
    var i :| 0 <= i < |c.order| && c.order[i] == d;
    RowBeforeTurn(c, rows, i, d);
    RowAfterTurn(c, rows, i, |c.order|);
    DeadlineAtTurn(c, rows, i, d);
    DeadlineMeansOpen(c.defs, SyncTo(c, rows, i), d);
  }

  // ---- When the order shows -----------------------------------------------------------

  /** Two turns of a gate-driven row that no deadline awaits, held at the first or not, end alike:
      nothing of the row tells whether it was held in between. */
  ghost predicate HoldLeavesNoTrace(c: Context, rows: Rows, d: DefId)
    requires d in c.defs && IsGated(c.defs[d])
  {
    var waiting := WaitingFor(c.defs[d].mustFollow.value);
    match Get(rows, d)
    case None => WillBlock(c, rows, d) || !(c.defs[d].isCrc && c.defs[d].adultsOnly)
    case Some(r) =>
      if r.status in {Complete, Waived} then true
      else if r.status.NotApplicable? then WillBlock(c, rows, d) ==> r == Held(r, waiting)
      else WillBlock(c, rows, d) || r == Activated(c.defs[d], c.birth, Held(r, waiting), None)
  }

  /** Two orders agree on `d`: its gate answers alike at its turn in both, or it makes no difference. */
  ghost predicate OrdersAgreeOn(c: Context, order: seq<DefId>, rows: Rows, d: DefId)
    requires d in c.defs
  {
    IsGateDriven(c, d) ==>
      BlockedAtTurn(c, rows, d) == BlockedAtTurn(c.(order := order), rows, d) || HoldLeavesNoTrace(c, rows, d)
  }

  /** The row after two turns, by the gate's two answers. */
  ghost function TwoTurns(c: Context, d: DefId, row: Option<Row>, first: bool, second: bool,
                          deadline: Option<Day>): Option<Row>
    requires d in c.defs && IsGated(c.defs[d])
  {
    var p := c.defs[d].mustFollow;
    Turn(c, d, Turn(c, d, row, if first then p else None, deadline), if second then p else None, deadline)
  }

  lemma TwoTurnsAgree(c: Context, rows: Rows, d: DefId)
    requires d in c.defs && IsGateDriven(c, d) && (c.birth.Some? || !c.defs[d].adultsOnly)
    ensures var row, second := Get(rows, d), WillBlock(c, rows, d);
            TwoTurns(c, d, row, true, second, None) == TwoTurns(c, d, row, false, second, None)
            <==> HoldLeavesNoTrace(c, rows, d)
  {
  }

  lemma RowAfterTwoSyncs(c: Context, rows: Rows, d: DefId)
    requires Valid(c) && d in c.order && IsGated(c.defs[d])
    ensures Get(SyncedTwice(c, rows), d)
         == TwoTurns(c, d, Get(rows, d), BlockedAtTurn(c, rows, d), WillBlock(c, rows, d),
                     PrerequisiteDeadline(c.defs, rows, d))
    ensures PrerequisiteDeadline(c.defs, rows, d).Some? ==> !BlockedAtTurn(c, rows, d)
  {
    var i :| 0 <= i < |c.order| && c.order[i] == d;
    var at := SyncTo(c, rows, i);
    RowBeforeTurn(c, rows, i, d);
    RowAfterTurn(c, rows, i, |c.order|);
    GateAtTurn(c, rows, i);
    DeadlineAtTurn(c, rows, i, d);
    DeadlineAfterSync(c, rows, d);
    SecondSync(c, rows, d);
    if PrerequisiteDeadline(c.defs, rows, d).Some? {
      DeadlineMeansOpen(c.defs, at, d);
    }
  }

  /** What the definition order cannot change about `d`. */
  lemma SameInAnyOrder(c: Context, order: seq<DefId>, rows: Rows, d: DefId)
    requires Valid(c) && d in c.defs
    ensures WillBlock(c.(order := order), rows, d) == WillBlock(c, rows, d)
    ensures forall row, first, second, deadline :: IsGated(c.defs[d]) ==>
              TwoTurns(c.(order := order), d, row, first, second, deadline)
              == TwoTurns(c, d, row, first, second, deadline)
  {
    if IsGated(c.defs[d]) {
      SameTurn(c, order, c.defs[d].mustFollow.value, Get(rows, c.defs[d].mustFollow.value));
    }
  }

  lemma OrdersAgreeOnRow(c: Context, order: seq<DefId>, rows: Rows, d: DefId)
    requires Valid(c) && Valid(c.(order := order)) && d in c.order
    ensures Get(SyncedTwice(c, rows), d) == Get(SyncedTwice(c.(order := order), rows), d)
            <==> OrdersAgreeOn(c, order, rows, d)
  {
    var c' := c.(order := order);
    assert d in order;
    if IsGateDriven(c, d) {
      RowAfterTwoSyncs(c, rows, d);
      RowAfterTwoSyncs(c', rows, d);
      SameInAnyOrder(c, order, rows, d);
      if c.defs[d].adultsOnly {
        AdultHasBirthDate(c.birth, c.today);
      }
      TwoTurnsAgree(c, rows, d);
    } else {
      SelfContainedRow(c, rows, d);
      SelfContainedRow(c, Synced(c, rows), d);
      SelfContainedRow(c', rows, d);
      SelfContainedRow(c', Synced(c', rows), d);
    }
  }

  /** Two orders settle in the same rows exactly when they agree on every definition. */
  lemma OrdersAgreeExactly(c: Context, order: seq<DefId>, rows: Rows)
    requires Valid(c) && Valid(c.(order := order))
    ensures SyncedTwice(c, rows) == SyncedTwice(c.(order := order), rows)
            <==> forall d :: d in c.order ==> OrdersAgreeOn(c, order, rows, d)
  {
    var c' := c.(order := order);
    var here, there := SyncedTwice(c, rows), SyncedTwice(c', rows);
    forall d ensures d in c.order ==> (Get(here, d) == Get(there, d) <==> OrdersAgreeOn(c, order, rows, d))
             ensures d !in c.order ==> Get(here, d) == Get(there, d)
    {
      if d in c.order {
        OrdersAgreeOnRow(c, order, rows, d);
      } else {
        assert d !in order;
        SyncKeepsHistory(c, rows, d);
        SyncKeepsHistory(c, Synced(c, rows), d);
        SyncKeepsHistory(c', rows, d);
        SyncKeepsHistory(c', Synced(c', rows), d);
      }
    }
    if forall d :: d in c.order ==> OrdersAgreeOn(c, order, rows, d) {
      SameRows(here, there);
    }
  }

  // ---- Three examples ------------------------------------------------------------------

  const EVERYONE := Definition(false, Annual, AllRoles, false, None, false, 0, 100, true)
  const NOBODY := EVERYONE.(appliesTo := SpecificRoles({}))
  const BLANK_ROW := Row(NotStarted, None, None, None, None, NoDueReason, None, NotHeld, "")

  /** A sync run twice is not a sync run once: a row created behind a completed prerequisite gets its
      deadline from the second run. */
  lemma OneSyncCanFallShort()
    ensures exists c, rows :: Valid(c) && Synced(c, Synced(c, rows)) != Synced(c, rows)
  {
    var defs := map[1 := EVERYONE.(cadence := OneTime), 2 := EVERYONE.(mustFollow := Some(1), gate := true)];
    var c := Context(defs, [1, 2], [Role(0, false)], None, 10);
    var rows := map[1 := BLANK_ROW.(status := Complete, completedOn := Some(5))];
    assert Valid(c);
    assert AppliesToRole(defs[2], c.roles[0]);
    assert 2 in c.order && !OneSyncIsEnough(c, rows, 2);
    OneSyncIsEnoughExactly(c, rows);
  }

  /** The order can show in the rows: a requirement under way is kept in one order and restarted in the other. */
  lemma OrderCanShow()
    ensures exists c, order, rows ::
              Valid(c) && Valid(c.(order := order)) && SyncedTwice(c, rows) != SyncedTwice(c.(order := order), rows)
  {
    var defs := map[1 := NOBODY, 2 := EVERYONE.(mustFollow := Some(1), gate := true)];
    var c := Context(defs, [1, 2], [Role(0, false)], None, 10);
    var rows := map[1 := BLANK_ROW, 2 := BLANK_ROW.(status := InProgress, startedOn := Some(9))];
    assert Valid(c) && Valid(c.(order := [2, 1]));
    assert AppliesToRole(defs[2], c.roles[0]);
    assert Precedes([1, 2], 1, 2) by {
      assert [1, 2][0] == 1 && [1, 2][1] == 2;
    }
    assert 2 in c.order && !OrdersAgreeOn(c, [2, 1], rows, 2);
    OrdersAgreeExactly(c, [2, 1], rows);
  }

  ghost predicate LagsBehindAge(c: Context, rows: Rows, p: DefId, d: DefId)
    requires Valid(c)
  {
    && p in c.order && d in c.order && c.defs[d].mustFollow == Some(p)
    && IsAgeExempt(c, p) && IsGateDriven(c, d) && !SettledAt(c, Synced(c, rows), d)
  }

  /** A gate can lag behind an age exemption: the dependent's turn comes first and still sees the prerequisite
      as owed, which its own turn then excuses. */
  lemma GateCanLagBehindAge()
    ensures exists c, rows, p, d :: Valid(c) && LagsBehindAge(c, rows, p, d)
  {
    var defs := map[1 := EVERYONE.(adultsOnly := true), 2 := EVERYONE.(mustFollow := Some(1), gate := true)];
    var c := Context(defs, [2, 1], [Role(0, false)], None, 10);
    var rows := map[1 := BLANK_ROW, 2 := BLANK_ROW];
    assert Valid(c);
    SeenTooEarly(c, rows);
  }

  lemma SeenTooEarly(c: Context, rows: Rows)
    requires Valid(c) && c.order == [2, 1] && 1 in rows && 2 in rows && rows[1] == rows[2] == BLANK_ROW
    requires c.defs[1] == EVERYONE.(adultsOnly := true) && c.defs[2] == EVERYONE.(mustFollow := Some(1), gate := true)
    requires c.birth.None? && c.roles == [Role(0, false)]
    ensures LagsBehindAge(c, rows, 1, 2)
  {
    AdultFromTriggerDay(c.birth, c.today);
    assert AppliesToRole(c.defs[2], c.roles[0]);
    assert 1 in c.order && 2 in c.order;
    OneSyncSettlesExactly(c, rows, 2);
  }
}
