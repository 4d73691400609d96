/** Sending an entry back after its record has moved on: which kinds leave the record alone, and when. */
module SendBacks {
  import opened Wrappers
  import opened Calendar
  import opened Definitions
  import opened RequirementRows
  import opened Reconciliation
  import opened Settlement
  import opened VolunteerFiles
  import opened NightlySweep
  import opened CompletionHistory

  // ---- On one row ---------------------------------------------------------------------

  /** The snapshot says of the row what the row says, and its status is the one its dates speak for. */
  predicate NothingToRestore(r: Row, s: Snapshot, t: Day) {
    && s.(startedOn := r.startedOn) == SnapshotOf(r)
    && (s.startedOn.Some? ==> s.startedOn == r.startedOn)
    && r.status == StatusAt(r.(status := StatusAfterReversal(r)), t)
  }

  lemma RestoreSparesExactly(r: Row, s: Snapshot, t: Day)
    ensures Restored(r, s, t) == r <==> NothingToRestore(r, s, t)
  {
  }

  lemma RestoredAfterRefresh(cat: Catalogue, v: Volunteer, d: DefId, s: Snapshot, t: Day)
    requires ValidCatalogue(cat) && d in v.rows
    requires RefreshSpares(cat, WithRow(v, d, Restored(v.rows[d], s, t)), d, t)
    ensures Get(RestoredFromSnapshot(cat, v, d, s, t).rows, d) == Some(Restored(v.rows[d], s, t))
  {
    var written := WithRow(v, d, Restored(v.rows[d], s, t));
    if HasGatedDependents(cat, d) {
      SyncSparesRow(ContextOf(cat, written, t), written.rows, d);
    }
  }

  // ---- Kind by kind -------------------------------------------------------------------

  /** A completion's send-back leaves the row alone exactly when it does not read complete, or has nothing to
      restore. */
  lemma CompletionSparesExactly(cat: Catalogue, v: Volunteer, d: DefId, s: Snapshot, t: Day)
    requires ValidCatalogue(cat) && d in v.rows
    requires RefreshSpares(cat, WithRow(v, d, Restored(v.rows[d], s, t)), d, t)
    ensures !v.rows[d].status.Complete? ==> CompletionSentBack(cat, v, d, s, t) == v
    ensures Get(CompletionSentBack(cat, v, d, s, t).rows, d) == Some(v.rows[d])
            <==> !v.rows[d].status.Complete? || NothingToRestore(v.rows[d], s, t)
  {
    RestoredAfterRefresh(cat, v, d, s, t);
    RestoreSparesExactly(v.rows[d], s, t);
  }

  /** A waiver's send-back leaves the row alone exactly when it does not read waived. */
  lemma WaiverSparesExactly(cat: Catalogue, v: Volunteer, d: DefId, s: Snapshot, t: Day)
    requires ValidCatalogue(cat) && d in v.rows
    ensures !v.rows[d].status.Waived? ==> WaiverSentBack(cat, v, d, s, t) == v
    ensures Get(WaiverSentBack(cat, v, d, s, t).rows, d) == Some(v.rows[d]) <==> !v.rows[d].status.Waived?
  {
    if v.rows[d].status.Waived? {
      var reversed := WaiverReversed(v.rows[d], Some((s.dueOn, s.dueReason)), t);
      SyncNeverCompletes(ContextOf(cat, v, t), WithRow(v, d, reversed).rows, d);
    }
  }

  /** The check is not on file, or another replaced it, or convictions or decisions were recorded on it. */
  predicate HasMovedOn(v: Volunteer, check: nat) {
    || check >= |v.checks|
    || v.checks[check].supersededBy.Some?
    || |v.checks[check].convictions| > 0
    || v.checks[check].overrides > 0
  }

  /** A check's send-back leaves the row alone exactly when the check was superseded or convictions or decisions
      were recorded on it, or the row has nothing to restore. */
  lemma CheckSparesExactly(cat: Catalogue, v: Volunteer, check: nat, d: DefId, s: Snapshot, displaced: Option<nat>,
                           t: Day)
    requires ValidCatalogue(cat) && d in v.rows
    requires RefreshSpares(cat, WithRow(v, d, Restored(v.rows[d], s, t)), d, t)
    ensures var sent := CrcSentBack(cat, v, check, Some(d), s, displaced, t);
            && (HasMovedOn(v, check) ==> sent == v)
            && (Get(sent.rows, d) == Some(v.rows[d]) <==> HasMovedOn(v, check) || NothingToRestore(v.rows[d], s, t))
  {
    RestoredAfterRefresh(cat, v, d, s, t);
    RestoreSparesExactly(v.rows[d], s, t);
  }

  /** A document's send-back makes no such check: it leaves the row alone exactly when there is nothing on it, neither
      a date nor a status, that the document or anything later put there. */
  lemma DocumentSparesExactly(cat: Catalogue, v: Volunteer, d: DefId, t: Day)
    requires ValidCatalogue(cat) && d in v.rows
    requires RefreshSpares(cat, WithRow(v, d, Restored(v.rows[d], EMPTY_SNAPSHOT, t)), d, t)
    ensures var r := v.rows[d];
            Get(DocumentSentBack(cat, v, Some(d), t).rows, d) == Some(r)
            <==> && r.completedOn.None? && r.expiresOn.None? && r.dueOn.None? && r.dueReason.NoDueReason?
                 && r.status == (if r.startedOn.Some? then InProgress else NotStarted)
  {
    RestoredAfterRefresh(cat, v, d, EMPTY_SNAPSHOT, t);
    RestoreSparesExactly(v.rows[d], EMPTY_SNAPSHOT, t);
  }

  /** Whatever became of the row since: sending the document back takes a completion, a waiver and a block away. */
  lemma DocumentForgetsWhatCameLater(cat: Catalogue, v: Volunteer, d: DefId, t: Day)
    requires ValidCatalogue(cat) && d in v.rows
    ensures var sent := Get(DocumentSentBack(cat, v, Some(d), t).rows, d);
            sent.Some? && sent.value.completedOn.None? && sent.value.status in {NotStarted, InProgress, NotApplicable}
  {
    var r := Restored(v.rows[d], EMPTY_SNAPSHOT, t);
    assert r.status in {NotStarted, InProgress} && r.dueOn.None?;
    var written := WithRow(v, d, r);
    SyncSettlesUndated(ContextOf(cat, written, t), written.rows, d);
  }

  lemma SyncSettlesUndated(c: Context, rows: Rows, d: DefId)
    requires Valid(c) && d in rows && rows[d].status in {NotStarted, InProgress} && rows[d].completedOn.None?
    ensures var next := Get(Synced(c, rows), d);
            next.Some? && next.value.completedOn.None? && next.value.status in {NotStarted, InProgress, NotApplicable}
  {
    SyncKeepsHistory(c, rows, d);
    if d in c.order {
      var i :| 0 <= i < |c.order| && c.order[i] == d;
      RowBeforeTurn(c, rows, i, d);
      RowAfterTurn(c, rows, i, |c.order|);
    }
  }

  /** In particular a waiver granted after the document was recorded. */
  lemma WaiverLostToDocument(cat: Catalogue, v: Volunteer, d: DefId, on: Day, waived: Day, t: Day)
    requires ValidCatalogue(cat) && MarkedComplete(cat, v, d, on, "", waived).Success?
    requires var completed := MarkedComplete(cat, v, d, on, "", waived).value;
             WaivedRequirement(cat, completed, d, true, waived).Success?
    ensures var completed := MarkedComplete(cat, v, d, on, "", waived).value;
            var later := WaivedRequirement(cat, completed, d, true, waived).value;
            && d in later.rows && later.rows[d].status.Waived?
            && d in DocumentSentBack(cat, later, Some(d), t).rows
            && !DocumentSentBack(cat, later, Some(d), t).rows[d].status.Waived?
  {
    var completed := MarkedComplete(cat, v, d, on, "", waived).value;
    var later := WaivedRequirement(cat, completed, d, true, waived).value;
    FinishedAfterRefresh(cat, completed, d, WaivedRow(completed.rows[d], waived), waived);
    DocumentForgetsWhatCameLater(cat, later, d, t);
  }

  lemma FinishedAfterRefresh(cat: Catalogue, v: Volunteer, d: DefId, r: Row, today: Day)
    requires ValidCatalogue(cat) && r.status in {Complete, Waived}
    ensures Get(WithDependentsRefreshed(cat, WithRow(v, d, r), d, today).rows, d) == Some(r)
  {
    SyncKeepsHistory(ContextOf(cat, v, today), WithRow(v, d, r).rows, d);
  }

  /** And the completion by a newer document that replaced the one sent back. */
  lemma NewerCompletionLost(cat: Catalogue, v: Volunteer, d: DefId, first: Day, second: Day, today: Day, t: Day)
    requires ValidCatalogue(cat) && MarkedComplete(cat, v, d, first, "", today).Success?
    requires MarkedComplete(cat, MarkedComplete(cat, v, d, first, "", today).value, d, second, "", today).Success?
    ensures var once := MarkedComplete(cat, v, d, first, "", today).value;
            var later := MarkedComplete(cat, once, d, second, "", today).value;
            && d in later.rows && later.rows[d].completedOn == Some(second)
            && d in DocumentSentBack(cat, later, Some(d), t).rows
            && DocumentSentBack(cat, later, Some(d), t).rows[d].completedOn.None?
  {
    var once := MarkedComplete(cat, v, d, first, "", today).value;
    var later := MarkedComplete(cat, once, d, second, "", today).value;
    FinishedAfterRefresh(cat, once, d, Completed(once.rows[d], cat.defs[d], second, ""), today);
    DocumentForgetsWhatCameLater(cat, later, d, t);
  }
}
