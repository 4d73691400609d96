/** Reconciling one volunteer's requirement rows with what currently applies, definition by definition. */
module Reconciliation {
  import opened Wrappers
  import opened Calendar
  import opened AgeRules
  import opened Definitions
  import opened RequirementRows

  type Rows = map<DefId, Row>

  /** Everything a sync reads apart from the rows: it stays fixed while the sync runs.
      `order` lists the active definitions as the query returns them. */
  datatype Context = Context(
    defs: map<DefId, Definition>,
    order: seq<DefId>,
    roles: seq<Role>,
    birth: Option<Birth>,
    today: Day)

  ghost predicate ValidDefinitions(defs: map<DefId, Definition>, order: seq<DefId>) {
    && (forall d :: d in order <==> d in defs && defs[d].isActive)
    && (forall i, j :: 0 <= i < j < |order| ==> order[i] != order[j])
    && (forall d :: d in defs && defs[d].mustFollow.Some? ==> defs[d].mustFollow.value in defs)
  }

  ghost predicate Valid(c: Context) {
    ValidDefinitions(c.defs, c.order)
  }

  predicate Applies(c: Context, d: DefId)
    requires d in c.defs
  {
    AppliesToRoles(c.defs[d], c.roles)
  }

  ghost predicate IsAgeExempt(c: Context, d: DefId)
    requires d in c.defs
  {
    c.defs[d].adultsOnly && !IsAdult(c.birth, c.today)
  }

  // ---- The gate ---------------------------------------------------------------------

  /** A row that opens any gate behind it for good: completed at some time, or waived. */
  predicate IsDone(r: Row) {
    r.completedOn.Some? || r.status.Waived?
  }

  /** The prerequisite that holds `d` back, if one does. */
  function UnmetPrerequisite(defs: map<DefId, Definition>, rows: Rows, d: DefId): (blocker: Option<DefId>)
    requires d in defs
    ensures blocker.Some? ==> defs[d].mustFollow == blocker && IsGated(defs[d])
  {
    var def := defs[d];
    if !IsGated(def) then None
    else
      var p := def.mustFollow.value;
      if p !in defs || !defs[p].isActive then None
      else if p !in rows then None
      else if rows[p].completedOn.Some? then None
      else if rows[p].status == Waived then None
      else if rows[p].status == NotApplicable && !IsGated(defs[p]) then None
      else Some(p)
  }

  /** The deadline that a completed prerequisite gives `d`: its offset later. */
  ghost function PrerequisiteDeadline(defs: map<DefId, Definition>, rows: Rows, d: DefId): Option<Day>
    requires d in defs
  {
    var months := PrerequisiteOffsetMonths(defs[d]);
    if months == 0 || defs[d].mustFollow.None? then None
    else
      var p := defs[d].mustFollow.value;
      if p !in rows || rows[p].completedOn.None? then None
      else Some(ShiftMonths(rows[p].completedOn.value, months))
  }

  // ---- One definition ---------------------------------------------------------------

  ghost function AgeTriggeredDeadline(def: Definition, birth: Option<Birth>): Option<Day> {
    if def.isCrc && def.adultsOnly && birth.Some? then Some(Turning18Deadline(birth.value)) else None
  }

  ghost function Activated(def: Definition, birth: Option<Birth>, r: Row, deadline: Option<Day>): Row {
    var on := r.(status := NotStarted, heldReason := NotHeld);
    if def.isCrc && def.adultsOnly then
      match AgeTriggeredDeadline(def, birth)
      case Some(due) => on.(dueOn := Some(due), dueReason := Turned18)
      case None => on
    else if IsGated(def) && deadline.Some? then
      on.(dueOn := deadline, dueReason := AfterPrerequisite)
    else
      on
  }

  function Refreshed(r: Row, deadline: Option<Day>): Row {
    if deadline.None? || deadline == r.dueOn || (r.dueOn.Some? && r.dueOn.value < deadline.value) then r
    else r.(dueOn := deadline, dueReason := AfterPrerequisite)
  }

  function Created(exempt: bool, blocker: Option<DefId>): Row {
    var blank := Row(NotStarted, None, None, None, None, NoDueReason, None, NotHeld, "");
    if exempt then blank.(status := NotApplicable, heldReason := AgeExempt)
    else if blocker.Some? then blank.(status := NotApplicable, heldReason := WaitingFor(blocker.value))
    else blank
  }

  /** An applicable definition's existing row after the reconcile, given the gate's answer. */
  ghost function Reconciled(def: Definition, birth: Option<Birth>, exempt: bool, r: Row, blocker: Option<DefId>,
                            deadline: Option<Day>): Row
  {
    if exempt then
      if IsOutstanding(r.status) then Held(r, AgeExempt) else r
    else if blocker.Some? then
      if IsOutstanding(r.status) then Held(r, WaitingFor(blocker.value)) else r
    else if r.status == NotApplicable then
      Activated(def, birth, r, deadline)
    else if IsGated(def) && r.completedOn.None? && IsOutstanding(r.status) then
      Refreshed(r, deadline)
    else
      r
  }

  /** Definition `d`'s row after its turn in the loop. */
  ghost function Turn(c: Context, d: DefId, row: Option<Row>, blocker: Option<DefId>,
                      deadline: Option<Day>): Option<Row>
    requires d in c.defs
  {
    if !Applies(c, d) then
      if row.Some? && IsOutstanding(row.value.status) then Some(Held(row.value, NoCurrentRole)) else row
    else
      match row
      case None => Some(Created(IsAgeExempt(c, d), blocker))
      case Some(r) => Some(Reconciled(c.defs[d], c.birth, IsAgeExempt(c, d), r, blocker, deadline))
  }

  // ---- The whole loop ---------------------------------------------------------------

  function Get(rows: Rows, d: DefId): Option<Row> {
    if d in rows then Some(rows[d]) else None
  }

  function Put(rows: Rows, d: DefId, row: Option<Row>): Rows {
    if row.Some? then rows[d := row.value] else rows
  }

  /** Definition `d`'s turn, reading `rows`. */
  ghost function TurnOn(c: Context, rows: Rows, d: DefId): Option<Row>
    requires d in c.defs
  {
    Turn(c, d, Get(rows, d), UnmetPrerequisite(c.defs, rows, d), PrerequisiteDeadline(c.defs, rows, d))
  }

  ghost function Visit(c: Context, rows: Rows, d: DefId): Rows
    requires d in c.defs
  {
    Put(rows, d, TurnOn(c, rows, d))
  }

  /** The rows after the first `n` definitions; each turn reads what earlier turns wrote. */
  ghost function SyncTo(c: Context, rows: Rows, n: nat): Rows
    requires Valid(c) && n <= |c.order|
  {
    if n == 0 then rows else Visit(c, SyncTo(c, rows, n - 1), c.order[n - 1])
  }

  ghost function Synced(c: Context, rows: Rows): Rows
    requires Valid(c)
  {
    SyncTo(c, rows, |c.order|)
  }

  // ---- What a turn keeps ------------------------------------------------------------

  /** `next` is a later version of `row`, as far as gates and deadlines can tell. */
  ghost predicate KeepsHistory(row: Option<Row>, next: Option<Row>) {
    match row
    case None =>
      next.Some? ==> next.value.completedOn.None? && !IsDone(next.value)
    case Some(r) =>
      && next.Some?
      && next.value.completedOn == r.completedOn
      && IsDone(next.value) == IsDone(r)
      && (r.status in {Complete, Waived} ==> next.value == r)
  }

  lemma TurnKeepsHistory(c: Context, d: DefId, row: Option<Row>, blocker: Option<DefId>, deadline: Option<Day>)
    requires d in c.defs
    ensures KeepsHistory(row, Turn(c, d, row, blocker, deadline))
    ensures Turn(c, d, row, blocker, deadline).Some? <==> row.Some? || Applies(c, d)
  {
  }

  lemma VisitOne(c: Context, rows: Rows, e: DefId, d: DefId)
    requires e in c.defs
    ensures Get(Visit(c, rows, e), d) == if d == e then TurnOn(c, rows, e) else Get(rows, d)
  {
    TurnKeepsHistory(c, e, Get(rows, e), UnmetPrerequisite(c.defs, rows, e), PrerequisiteDeadline(c.defs, rows, e));
  }

  lemma VisitKeepsHistory(c: Context, rows: Rows, e: DefId, d: DefId)
    requires e in c.defs
    ensures KeepsHistory(Get(rows, d), Get(Visit(c, rows, e), d))
    ensures d in Visit(c, rows, e) <==> d in rows || (d == e && Applies(c, e))
    ensures d != e ==> Get(Visit(c, rows, e), d) == Get(rows, d)
  {
    VisitOne(c, rows, e, d);
    TurnKeepsHistory(c, e, Get(rows, e), UnmetPrerequisite(c.defs, rows, e), PrerequisiteDeadline(c.defs, rows, e));
  }

  /** Deadlines read completion dates only, and a sync writes none. */
  lemma VisitKeepsDeadlines(c: Context, rows: Rows, e: DefId, d: DefId)
    requires e in c.defs && d in c.defs
    ensures PrerequisiteDeadline(c.defs, Visit(c, rows, e), d) == PrerequisiteDeadline(c.defs, rows, d)
  {
    if c.defs[d].mustFollow.Some? {
      VisitKeepsHistory(c, rows, e, c.defs[d].mustFollow.value);
    }
  }

  /** A prerequisite with a completion date gates nothing. */
  lemma DeadlineMeansOpen(defs: map<DefId, Definition>, rows: Rows, d: DefId)
    requires d in defs && PrerequisiteDeadline(defs, rows, d).Some?
    ensures UnmetPrerequisite(defs, rows, d).None?
  {
  }

  lemma TurnTwice(c: Context, d: DefId, r: Row, blocker: Option<DefId>, deadline: Option<Day>)
    requires d in c.defs
    requires blocker.None? || deadline.None?
    requires Applies(c, d) && !IsAgeExempt(c, d) && IsGated(c.defs[d]) && deadline.Some? ==> r.status != NotApplicable
    ensures var once := Turn(c, d, Some(r), blocker, deadline);
            Turn(c, d, once, blocker, deadline) == once
  {
  }

  // ---- Steady rows: after one sync only gated rows can still move ---------------------

  /** What one turn settles for good about definition `d`. */
  ghost predicate SteadyAt(c: Context, rows: Rows, d: DefId)
    requires d in c.defs
  {
    && (Applies(c, d) ==> d in rows)
    && (!IsGated(c.defs[d]) ==> TurnOn(c, rows, d) == Get(rows, d))
    && (Applies(c, d) && !IsAgeExempt(c, d) && IsGated(c.defs[d]) && PrerequisiteDeadline(c.defs, rows, d).Some? ==>
          rows[d].status != NotApplicable)
  }

  ghost predicate Steady(c: Context, rows: Rows)
    requires Valid(c)
  {
    forall d :: d in c.order ==> SteadyAt(c, rows, d)
  }

  lemma UngatedTurn(c: Context, d: DefId, row: Option<Row>, deadline: Option<Day>, other: Option<Day>)
    requires d in c.defs && !IsGated(c.defs[d])
    ensures Turn(c, d, row, None, deadline) == Turn(c, d, row, None, other)
    ensures Turn(c, d, Turn(c, d, row, None, deadline), None, deadline) == Turn(c, d, row, None, deadline)
  {
  }

  lemma VisitMakesSteady(c: Context, rows: Rows, d: DefId)
    requires d in c.defs
    ensures SteadyAt(c, Visit(c, rows, d), d)
  {
    var next := Visit(c, rows, d);
    var deadline := PrerequisiteDeadline(c.defs, rows, d);
    VisitKeepsDeadlines(c, rows, d, d);
    VisitKeepsHistory(c, rows, d, d);
    VisitOne(c, rows, d, d);
    if IsGated(c.defs[d]) {
      if deadline.Some? {
        DeadlineMeansOpen(c.defs, rows, d);
      }
    } else {
      UngatedTurn(c, d, Get(rows, d), deadline, deadline);
    }
  }

  lemma VisitKeepsOthersSteady(c: Context, rows: Rows, e: DefId, d: DefId)
    requires e in c.defs && d in c.defs && d != e && SteadyAt(c, rows, d)
    ensures SteadyAt(c, Visit(c, rows, e), d)
  {
    VisitKeepsDeadlines(c, rows, e, d);
    VisitKeepsHistory(c, rows, e, d);
  }

  lemma {:induction false} SyncToMakesSteady(c: Context, rows: Rows, n: nat, d: DefId)
    requires Valid(c) && n <= |c.order| && d in c.order[..n]
    ensures SteadyAt(c, SyncTo(c, rows, n), d)
  {
    var e := c.order[n - 1];
    if d == e {
      VisitMakesSteady(c, SyncTo(c, rows, n - 1), d);
    } else {
      SyncToMakesSteady(c, rows, n - 1, d);
      VisitKeepsOthersSteady(c, SyncTo(c, rows, n - 1), e, d);
    }
  }

  /** One sync makes any rows steady, whatever the definition order and the gate graph. */
  lemma SyncMakesSteady(c: Context, rows: Rows)
    requires Valid(c)
    ensures Steady(c, Synced(c, rows))
  {
    forall d | d in c.order ensures SteadyAt(c, Synced(c, rows), d) {
      assert c.order[..|c.order|] == c.order;
      SyncToMakesSteady(c, rows, |c.order|, d);
    }
  }

  // ---- From steady rows a sync is one simultaneous step ------------------------------

  /** What every gate and every deadline answers is the same on both. */
  ghost predicate SameGates(c: Context, rows: Rows, later: Rows) {
    forall d :: d in c.defs ==>
      && UnmetPrerequisite(c.defs, later, d) == UnmetPrerequisite(c.defs, rows, d)
      && PrerequisiteDeadline(c.defs, later, d) == PrerequisiteDeadline(c.defs, rows, d)
  }

  /** On steady rows no turn changes what any gate answers. */
  lemma SteadyGates(c: Context, rows: Rows, e: DefId, d: DefId)
    requires Valid(c) && Steady(c, rows) && e in c.order && d in c.defs
    ensures UnmetPrerequisite(c.defs, Visit(c, rows, e), d) == UnmetPrerequisite(c.defs, rows, d)
  {
    if IsGated(c.defs[d]) {
      var p := c.defs[d].mustFollow.value;
      VisitKeepsHistory(c, rows, e, p);
      assert SteadyAt(c, rows, e);
    }
  }

  lemma SteadyStays(c: Context, rows: Rows, e: DefId)
    requires Valid(c) && Steady(c, rows) && e in c.order
    ensures Steady(c, Visit(c, rows, e))
  {
    forall d | d in c.order ensures SteadyAt(c, Visit(c, rows, e), d) {
      assert SteadyAt(c, rows, d);
      if d == e {
        VisitMakesSteady(c, rows, e);
      } else {
        VisitKeepsOthersSteady(c, rows, e, d);
      }
    }
  }

  lemma SteadyVisitKeepsGates(c: Context, rows: Rows, e: DefId)
    requires Valid(c) && Steady(c, rows) && e in c.order
    ensures SameGates(c, rows, Visit(c, rows, e))
  {
    forall d | d in c.defs
      ensures UnmetPrerequisite(c.defs, Visit(c, rows, e), d) == UnmetPrerequisite(c.defs, rows, d)
      ensures PrerequisiteDeadline(c.defs, Visit(c, rows, e), d) == PrerequisiteDeadline(c.defs, rows, d)
    {
      SteadyGates(c, rows, e, d);
      VisitKeepsDeadlines(c, rows, e, d);
    }
  }

  /** `later` is steady and its gates answer as those of `rows` do. */
  ghost predicate SteadyAlike(c: Context, rows: Rows, later: Rows)
    requires Valid(c)
  {
    Steady(c, later) && SameGates(c, rows, later)
  }

  lemma SteadyVisit(c: Context, rows: Rows, before: Rows, e: DefId, after: Rows)
    requires Valid(c) && e in c.order && SteadyAlike(c, rows, before) && after == Visit(c, before, e)
    ensures SteadyAlike(c, rows, after)
  {
    SteadyStays(c, before, e);
    SteadyVisitKeepsGates(c, before, e);
  }

  lemma {:induction false} SteadySyncTo(c: Context, rows: Rows, n: nat, later: Rows)
    requires Valid(c) && Steady(c, rows) && n <= |c.order| && later == SyncTo(c, rows, n)
    ensures SteadyAlike(c, rows, later)
  {
    if n > 0 {
      var before := SyncTo(c, rows, n - 1);
      SteadySyncTo(c, rows, n - 1, before);
      SteadyVisit(c, rows, before, c.order[n - 1], later);
    }
  }

  lemma {:induction false} RowBeforeTurn(c: Context, rows: Rows, n: nat, d: DefId)
    requires Valid(c) && n <= |c.order| && d !in c.order[..n]
    ensures Get(SyncTo(c, rows, n), d) == Get(rows, d)
  {
    if n > 0 {
      assert c.order[..n] == c.order[..n - 1] + [c.order[n - 1]];
      RowBeforeTurn(c, rows, n - 1, d);
      VisitOne(c, SyncTo(c, rows, n - 1), c.order[n - 1], d);
    }
  }

  /** A definition's row is written in its own turn only. */
  lemma {:induction false} RowAfterTurn(c: Context, rows: Rows, i: nat, n: nat)
    requires Valid(c) && i < n <= |c.order|
    ensures Get(SyncTo(c, rows, n), c.order[i]) == TurnOn(c, SyncTo(c, rows, i), c.order[i])
  {
    VisitOne(c, SyncTo(c, rows, n - 1), c.order[n - 1], c.order[i]);
    if i < n - 1 {
      RowAfterTurn(c, rows, i, n - 1);
    }
  }

  /** On steady rows the definition order does not matter: a sync is one simultaneous step. */
  lemma SteadySyncIsSimultaneous(c: Context, rows: Rows)
    requires Valid(c) && Steady(c, rows)
    ensures Steady(c, Synced(c, rows)) && SameGates(c, rows, Synced(c, rows))
    ensures forall d :: Get(Synced(c, rows), d) == if d in c.order then TurnOn(c, rows, d) else Get(rows, d)
  {
    SteadySyncTo(c, rows, |c.order|, Synced(c, rows));
    forall d ensures Get(Synced(c, rows), d) == if d in c.order then TurnOn(c, rows, d) else Get(rows, d) {
      if d in c.order {
        var i :| 0 <= i < |c.order| && c.order[i] == d;
        RowAfterTurn(c, rows, i, |c.order|);
        RowBeforeTurn(c, rows, i, d);
        SteadySyncTo(c, rows, i, SyncTo(c, rows, i));
      } else {
        RowBeforeTurn(c, rows, |c.order|, d);
      }
    }
  }

  // ---- Convergence ------------------------------------------------------------------

  /** Whatever the rows, the definition order and the gate graph, cycles included: two syncs settle
      every column of every row, and a third changes nothing. */
  lemma SyncConverges(c: Context, rows: Rows)
    requires Valid(c)
    ensures Synced(c, Synced(c, Synced(c, rows))) == Synced(c, Synced(c, rows))
  {
    var one := Synced(c, rows);
    var two := Synced(c, one);
    var three := Synced(c, two);
    SyncMakesSteady(c, rows);
    SteadySyncIsSimultaneous(c, one);
    SteadySyncIsSimultaneous(c, two);
    forall d ensures Get(three, d) == Get(two, d) {
      if d in c.order {
        assert SteadyAt(c, one, d);
        if PrerequisiteDeadline(c.defs, one, d).Some? {
          DeadlineMeansOpen(c.defs, one, d);
        }
        if d in one {
          TurnTwice(c, d, one[d], UnmetPrerequisite(c.defs, one, d), PrerequisiteDeadline(c.defs, one, d));
        }
      }
    }
    SameRows(three, two);
  }

  lemma SameRows(a: Rows, b: Rows)
    requires forall d :: Get(a, d) == Get(b, d)
    ensures a == b
  {
    forall d ensures d in a <==> d in b {
      assert Get(a, d) == Get(b, d);
    }
    forall d | d in a ensures a[d] == b[d] {
      assert Get(a, d) == Get(b, d);
    }
  }
}
