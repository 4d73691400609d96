/** The requirement instance as the services hold it: loaded from its row, changed field by field, saved back. */
module RequirementInstances {
  import opened Wrappers
  import opened Calendar
  import opened AgeRules
  import opened Definitions
  import opened RequirementRows
  import opened Reconciliation

  class RequirementInstance {
    const definition: Definition
    var status: Status
    var startedOn: Option<Day>
    var completedOn: Option<Day>
    var expiresOn: Option<Day>
    var dueOn: Option<Day>
    var dueReason: DueReason
    var waivedOn: Option<Day>
    var heldReason: HeldReason
    var notes: string

    /** The row that saving the instance writes. */
    function Value(): Row
      reads this
    {
      Row(status, startedOn, completedOn, expiresOn, dueOn, dueReason, waivedOn, heldReason, notes)
    }

    constructor Load(definition: Definition, row: Row)
      ensures Value() == row && this.definition == definition
    {
      this.definition := definition;
      status := row.status;
      startedOn := row.startedOn;
      completedOn := row.completedOn;
      expiresOn := row.expiresOn;
      dueOn := row.dueOn;
      dueReason := row.dueReason;
      waivedOn := row.waivedOn;
      heldReason := row.heldReason;
      notes := row.notes;
    }

    /** Lets the calendar decide the status, and says whether it moved. */
    method Recompute(asOf: Day) returns (changed: bool)
      modifies this
      ensures Value() == Recomputed(old(Value()), asOf)
      ensures changed <==> Value() != old(Value())
    {
      var original := status;
      if status == Complete {
        var pastExpiry := expiresOn.Some? && expiresOn.value < asOf;
        var pastDeadline := dueOn.Some? && dueOn.value < asOf && completedOn.None?;
        if pastExpiry || pastDeadline {
          status := Overdue;
        }
      } else if status == Overdue {
        var stillExpired := expiresOn.Some? && expiresOn.value < asOf;
        if completedOn.Some? && !stillExpired {
          status := Complete;
        }
      } else if status == NotStarted || status == InProgress {
        if dueOn.Some? && dueOn.value < asOf {
          status := Overdue;
        }
      }
      changed := status != original;
    }

    /** The completion date sets the next expiry and settles any deadline. */
    method MarkComplete(on: Day, newNotes: string)
      modifies this
      ensures Value() == Completed(old(Value()), definition, on, newNotes)
    {
      completedOn := Some(on);
      var months := IntervalMonths(definition);
      if months > 0 {
        var expiry := AddMonths(on, months);
        expiresOn := Some(expiry);
      } else {
        expiresOn := None;
      }
      status := Complete;
      if newNotes != "" {
        notes := newNotes;
      }
      dueOn := None;
      dueReason := NoDueReason;
    }

    method Start(today: Day)
      modifies this
      ensures Value() == Started(old(Value()), today)
    {
      if status != NotStarted && status != Overdue {
        return;
      }
      startedOn := Some(today);
      if status == NotStarted {
        status := InProgress;
      }
    }

    method Waive(today: Day)
      modifies this
      ensures Value() == WaivedRow(old(Value()), today)
    {
      status := Waived;
      waivedOn := Some(today);
      dueOn := None;
      dueReason := NoDueReason;
    }

    /** The status that the surviving dates speak for. */
    method StatusFromDates() returns (s: Status)
      ensures s == StatusAfterReversal(Value())
    {
      if completedOn.Some? {
        return Complete;
      }
      if startedOn.Some? {
        return InProgress;
      }
      return NotStarted;
    }

    method ReverseWaiver(restoreDue: Option<(Option<Day>, DueReason)>, today: Day)
      modifies this
      ensures Value() == WaiverReversed(old(Value()), restoreDue, today)
    {
      status := StatusFromDates();
      waivedOn := None;
      if restoreDue.Some? {
        dueOn, dueReason := restoreDue.value.0, restoreDue.value.1;
      }
      var _ := Recompute(today);
    }

    /** The snapshot gives the dates and the dates give the status. */
    method RestoreFromSnapshot(s: Snapshot, today: Day)
      modifies this
      ensures Value() == Restored(old(Value()), s, today)
    {
      completedOn := s.completedOn;
      expiresOn := s.expiresOn;
      dueOn := s.dueOn;
      dueReason := s.dueReason;
      if s.startedOn.Some? {
        startedOn := s.startedOn;
      }
      status := StatusFromDates();
      var _ := Recompute(today);
    }

    method ClearCheck(reportDate: Day)
      modifies this
      ensures Value() == CheckCleared(old(Value()), reportDate)
    {
      completedOn := Some(reportDate);
      var expiry := AddMonths(reportDate, CRC_VALID_MONTHS);
      expiresOn := Some(expiry);
      status := Complete;
      dueOn := None;
      dueReason := NoDueReason;
    }

    method BlockOnCheck()
      modifies this
      ensures Value() == CheckNotClear(old(Value()))
    {
      status := Blocked;
      completedOn := None;
      expiresOn := None;
    }

    /** A held row carries a reason and no deadline. */
    method HoldNotApplicable(reason: HeldReason)
      modifies this
      ensures Value() == Held(old(Value()), reason)
    {
      status := NotApplicable;
      heldReason := reason;
      dueOn := None;
      dueReason := NoDueReason;
    }

    /** A row that is owed again starts over, due when its age rule or its gate says. */
    method Activate(birth: Option<Birth>, deadline: Option<Day>)
      modifies this
      ensures Value() == Activated(definition, birth, old(Value()), deadline)
    {
      status := NotStarted;
      heldReason := NotHeld;
      if definition.isCrc && definition.adultsOnly {
        if birth.Some? {
          var due := ComputeTurning18Deadline(birth.value);
          dueOn := Some(due);
          dueReason := Turned18;
        }
      } else if IsGated(definition) {
        if deadline.Some? {
          dueOn := deadline;
          dueReason := AfterPrerequisite;
        }
      }
    }

    /** An earlier date replaces a missing or later deadline; nothing ever postpones one. */
    method RefreshPrerequisiteDeadline(deadline: Option<Day>) returns (changed: bool)
      modifies this
      ensures Value() == Refreshed(old(Value()), deadline)
      ensures changed <==> Value() != old(Value())
    {
      if deadline.None? || deadline == dueOn {
        return false;
      }
      if dueOn.Some? && dueOn.value < deadline.value {
        return false;
      }
      dueOn := deadline;
      dueReason := AfterPrerequisite;
      return true;
    }

    /** One reconcile decision: hold the row, switch it on, adjust its deadline, or leave it. */
    method Reconcile(birth: Option<Birth>, ageExempt: bool, blockedBy: Option<DefId>, deadline: Option<Day>)
      returns (changed: bool)
      requires ageExempt ==> blockedBy.None?
      modifies this
      ensures Value() == Reconciled(definition, birth, ageExempt, old(Value()), blockedBy, deadline)
      ensures changed <==> Value() != old(Value())
    {
      if ageExempt && IsOutstanding(status) {
        HoldNotApplicable(AgeExempt);
        return true;
      }
      if blockedBy.Some? && IsOutstanding(status) {
        HoldNotApplicable(WaitingFor(blockedBy.value));
        return true;
      }
      if blockedBy.Some? {
        return false;
      }
      if !ageExempt && status == NotApplicable {
        Activate(birth, deadline);
        return true;
      }
      if IsGated(definition) && completedOn.None? && IsOutstanding(status) {
        changed := RefreshPrerequisiteDeadline(deadline);
        return;
      }
      return false;
    }
  }
}
