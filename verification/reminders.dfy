/** Which reminders are owed on a day, and how the claim log keeps each of them to one. */
module Reminders {
  import opened Wrappers
  import opened Calendar
  import opened Definitions
  import opened RequirementRows

  /** A volunteer has at most one instance of a definition. */
  datatype InstanceId = InstanceId(volunteer: nat, definition: DefId)

  /** An instance as the search reads it; `isActive` says that its volunteer and its definition both are. */
  datatype Listed = Listed(id: InstanceId, row: Row, isActive: bool)

  datatype ReminderKind = LeadTime | OverdueNotice | TurningEighteen

  datatype Entry = Entry(instance: InstanceId, kind: ReminderKind, leadDays: nat, dueDate: Option<Day>)

  /** The earlier of the renewal expiry and the one-off deadline. */
  function EffectiveDueDate(r: Row): Option<Day> {
    if r.expiresOn.None? then r.dueOn
    else if r.dueOn.None? || r.expiresOn.value <= r.dueOn.value then r.expiresOn
    else r.dueOn
  }

  predicate IsSearched(x: Listed) {
    x.isActive && x.row.status !in {NotApplicable, Waived}
  }

  // ---- Approaching ------------------------------------------------------------------

  /** The date the search compares with its targets. */
  function MatchedDate(r: Row): Option<Day> {
    if r.status == Complete then r.expiresOn
    else if r.status in {NotStarted, InProgress} then r.dueOn
    else None
  }

  /** Each target date leads back to the lead time that produced it. */
  function Targets(leads: seq<nat>, asOf: Day): (targets: map<Day, nat>)
    ensures forall d :: d in targets <==> d - asOf in leads
    ensures forall d :: d in targets ==> targets[d] == d - asOf
  {
    if leads == [] then map[]
    else
      var last := leads[|leads| - 1];
      assert forall k :: k in leads <==> k in leads[..|leads| - 1] || k == last;
      Targets(leads[..|leads| - 1], asOf)[asOf + last := last]
  }

  function KindOf(r: Row): ReminderKind {
    if r.dueReason == Turned18 then TurningEighteen else LeadTime
  }

  /** The one-query search on one row. */
  function ApproachingEntry(x: Listed, leads: seq<nat>, asOf: Day): Option<Entry> {
    var date := MatchedDate(x.row);
    var targets := Targets(leads, asOf);
    if IsSearched(x) && date.Some? && date.value in targets
    then Some(Entry(x.id, KindOf(x.row), targets[date.value], EffectiveDueDate(x.row)))
    else None
  }

  /** The naive search on one row: the query for a single lead time. */
  function LeadEntry(x: Listed, lead: nat, asOf: Day): Option<Entry> {
    var target := asOf + lead;
    if && IsSearched(x)
       && ((x.row.status == Complete && x.row.expiresOn == Some(target))
           || (x.row.status in {NotStarted, InProgress} && x.row.dueOn == Some(target)))
    then Some(Entry(x.id, KindOf(x.row), lead, EffectiveDueDate(x.row)))
    else None
  }

  // ---- Just gone overdue ------------------------------------------------------------

  function OverdueEntry(x: Listed, asOf: Day): Option<Entry> {
    var r := x.row;
    var yesterday := asOf - 1;
    if && IsSearched(x)
       && ((r.expiresOn.Some? && r.expiresOn.value == yesterday) || (r.dueOn.Some? && r.dueOn.value == yesterday))
       && !(r.status == Complete && r.expiresOn.Some? && r.expiresOn.value >= asOf)
    then Some(Entry(x.id, OverdueNotice, 0, EffectiveDueDate(r)))
    else None
  }

  // ---- The search -------------------------------------------------------------------

  function AsSeq(e: Option<Entry>): seq<Entry> {
    if e.Some? then [e.value] else []
  }

  function Approaching(listed: seq<Listed>, leads: seq<nat>, asOf: Day): seq<Entry> {
    if listed == [] then []
    else Approaching(listed[..|listed| - 1], leads, asOf) + AsSeq(ApproachingEntry(listed[|listed| - 1], leads, asOf))
  }

  function NewlyOverdue(listed: seq<Listed>, asOf: Day): seq<Entry> {
    if listed == [] then []
    else NewlyOverdue(listed[..|listed| - 1], asOf) + AsSeq(OverdueEntry(listed[|listed| - 1], asOf))
  }

  function DueReminders(listed: seq<Listed>, leads: seq<nat>, asOf: Day): seq<Entry> {
    Approaching(listed, leads, asOf) + NewlyOverdue(listed, asOf)
  }

  method FindApproaching(listed: seq<Listed>, leads: seq<nat>, asOf: Day) returns (found: seq<Entry>)
    ensures found == Approaching(listed, leads, asOf)
  {
    found := [];
    var targets := Targets(leads, asOf);
    for i := 0 to |listed|
      invariant found == Approaching(listed[..i], leads, asOf)
    {
      var x := listed[i];
      assert listed[..i + 1][..i] == listed[..i];
      if IsSearched(x) {
        var matched := if x.row.status == Complete then x.row.expiresOn else x.row.dueOn;
        if x.row.status in {Complete, NotStarted, InProgress} && matched.Some? && matched.value in targets {
          found := found + [Entry(x.id, KindOf(x.row), targets[matched.value], EffectiveDueDate(x.row))];
        }
      }
    }
    assert listed[..|listed|] == listed;
  }

  method FindNewlyOverdue(listed: seq<Listed>, asOf: Day) returns (found: seq<Entry>)
    ensures found == NewlyOverdue(listed, asOf)
  {
    found := [];
    var yesterday := asOf - 1;
    for i := 0 to |listed|
      invariant found == NewlyOverdue(listed[..i], asOf)
    {
      var x := listed[i];
      assert listed[..i + 1][..i] == listed[..i];
      if IsSearched(x) && ((x.row.expiresOn.Some? && x.row.expiresOn.value == yesterday)
                           || (x.row.dueOn.Some? && x.row.dueOn.value == yesterday)) {
        if !(x.row.status == Complete && x.row.expiresOn.Some? && x.row.expiresOn.value >= asOf) {
          found := found + [Entry(x.id, OverdueNotice, 0, EffectiveDueDate(x.row))];
        }
      }
    }
    assert listed[..|listed|] == listed;
  }

  method FindDueReminders(listed: seq<Listed>, leads: seq<nat>, asOf: Day) returns (found: seq<Entry>)
    ensures found == DueReminders(listed, leads, asOf)
  {
    found := FindApproaching(listed, leads, asOf);
    var overdue := FindNewlyOverdue(listed, asOf);
    found := found + overdue;
  }

  // ---- One query or one query per lead time -------------------------------------------

  function LeadEntries(listed: seq<Listed>, lead: nat, asOf: Day): multiset<Entry> {
    if listed == [] then multiset{}
    else LeadEntries(listed[..|listed| - 1], lead, asOf) + multiset(AsSeq(LeadEntry(listed[|listed| - 1], lead, asOf)))
  }

  /** Every lead time's own query, taken together. */
  function AllLeadEntries(listed: seq<Listed>, leads: seq<nat>, asOf: Day): multiset<Entry> {
    if leads == [] then multiset{}
    else AllLeadEntries(listed, leads[..|leads| - 1], asOf) + LeadEntries(listed, leads[|leads| - 1], asOf)
  }

  function RowOverLeads(x: Listed, leads: seq<nat>, asOf: Day): multiset<Entry> {
    if leads == [] then multiset{}
    else RowOverLeads(x, leads[..|leads| - 1], asOf) + multiset(AsSeq(LeadEntry(x, leads[|leads| - 1], asOf)))
  }

  ghost predicate Distinct(leads: seq<nat>) {
    forall i, j :: 0 <= i < j < |leads| ==> leads[i] != leads[j]
  }

  function EntryFor(x: Listed, lead: nat): Entry {
    Entry(x.id, KindOf(x.row), lead, EffectiveDueDate(x.row))
  }

  /** A row matches a lead time when its date lies that far ahead. */
  predicate LiesAhead(x: Listed, lead: int, asOf: Day) {
    IsSearched(x) && MatchedDate(x.row).Some? && MatchedDate(x.row).value - asOf == lead
  }

  lemma EntryIsForItsLead(x: Listed, leads: seq<nat>, lead: nat, asOf: Day)
    ensures LeadEntry(x, lead, asOf) == if LiesAhead(x, lead, asOf) then Some(EntryFor(x, lead)) else None
    ensures LiesAhead(x, lead, asOf) ==>
              ApproachingEntry(x, leads, asOf) == if lead in leads then Some(EntryFor(x, lead)) else None
    ensures (forall k :: k in leads ==> !LiesAhead(x, k, asOf)) ==> ApproachingEntry(x, leads, asOf).None?
  {
    if ApproachingEntry(x, leads, asOf).Some? {
      assert LiesAhead(x, MatchedDate(x.row).value - asOf, asOf);
    }
  }

  /** A row lands on one target at most. */
  lemma {:induction false} RowHitsOneLead(x: Listed, leads: seq<nat>, asOf: Day)
    requires Distinct(leads)
    ensures RowOverLeads(x, leads, asOf) == multiset(AsSeq(ApproachingEntry(x, leads, asOf)))
  {
    if leads == [] {
      EntryIsForItsLead(x, leads, 0, asOf);
    } else {
      var rest, last := leads[..|leads| - 1], leads[|leads| - 1];
      RowHitsOneLead(x, rest, asOf);
      EntryIsForItsLead(x, rest, last, asOf);
      EntryIsForItsLead(x, leads, last, asOf);
      if !LiesAhead(x, last, asOf) {
        LastLeadMisses(x, leads, asOf);
      }
    }
  }

  lemma LastLeadMisses(x: Listed, leads: seq<nat>, asOf: Day)
    requires leads != [] && !LiesAhead(x, leads[|leads| - 1], asOf)
    ensures ApproachingEntry(x, leads, asOf) == ApproachingEntry(x, leads[..|leads| - 1], asOf)
  {
    var rest, last := leads[..|leads| - 1], leads[|leads| - 1];
    assert forall k :: k in leads <==> k in rest || k == last;
  }

  lemma {:induction false} AllLeadsOfOneMore(listed: seq<Listed>, x: Listed, leads: seq<nat>, asOf: Day)
    ensures AllLeadEntries(listed + [x], leads, asOf)
         == AllLeadEntries(listed, leads, asOf) + RowOverLeads(x, leads, asOf)
  {
    if leads != [] {
      AllLeadsOfOneMore(listed, x, leads[..|leads| - 1], asOf);
      assert (listed + [x])[..|listed|] == listed;
    }
  }

  /** The single query finds exactly what one query per lead time would, each entry as often. */
  ghost predicate OneQueryFindsAll(listed: seq<Listed>, leads: seq<nat>, asOf: Day) {
    multiset(Approaching(listed, leads, asOf)) == AllLeadEntries(listed, leads, asOf)
  }

  /** One more row adds the same entries to both searches. */
  lemma QueryOneMore(rest: seq<Listed>, x: Listed, listed: seq<Listed>, leads: seq<nat>, asOf: Day)
    requires Distinct(leads) && listed == rest + [x]
    requires OneQueryFindsAll(rest, leads, asOf)
    ensures OneQueryFindsAll(listed, leads, asOf)
  {
    AllLeadsOfOneMore(rest, x, leads, asOf);
    RowHitsOneLead(x, leads, asOf);
    assert (rest + [x])[..|rest|] == rest;
  }

  lemma {:induction false} NothingListed(leads: seq<nat>, asOf: Day)
    ensures AllLeadEntries([], leads, asOf) == multiset{}
  {
    if leads != [] {
      NothingListed(leads[..|leads| - 1], asOf);
    }
  }

  lemma {:induction false} OneQueryIsEnough(listed: seq<Listed>, leads: seq<nat>, asOf: Day)
    requires Distinct(leads)
    ensures OneQueryFindsAll(listed, leads, asOf)
  {
    if listed == [] {
      NothingListed(leads, asOf);
    } else {
      var rest, x := listed[..|listed| - 1], listed[|listed| - 1];
      OneQueryIsEnough(rest, leads, asOf);
      QueryOneMore(rest, x, listed, leads, asOf);
    }
  }

  // ---- What the search says of one row ------------------------------------------------

  ghost predicate DistinctIds(listed: seq<Listed>) {
    forall i, j :: 0 <= i < j < |listed| ==> listed[i].id != listed[j].id
  }

  /** What one more row adds to what is found. */
  lemma FoundInOneMore(rest: seq<Listed>, x: Listed, listed: seq<Listed>, leads: seq<nat>, asOf: Day, e: Entry)
    requires listed == rest + [x]
    ensures e in Approaching(listed, leads, asOf) <==>
              e in Approaching(rest, leads, asOf) || ApproachingEntry(x, leads, asOf) == Some(e)
    ensures e in NewlyOverdue(listed, asOf) <==> e in NewlyOverdue(rest, asOf) || OverdueEntry(x, asOf) == Some(e)
  {
    assert listed[..|listed| - 1] == rest;
  }

  lemma {:induction false} EntriesOfRow(listed: seq<Listed>, leads: seq<nat>, asOf: Day, k: nat, e: Entry)
    requires DistinctIds(listed) && k < |listed| && e.instance == listed[k].id
    ensures e in Approaching(listed, leads, asOf) <==> ApproachingEntry(listed[k], leads, asOf) == Some(e)
    ensures e in NewlyOverdue(listed, asOf) <==> OverdueEntry(listed[k], asOf) == Some(e)
  {
    var rest, x := listed[..|listed| - 1], listed[|listed| - 1];
    FoundInOneMore(rest, x, listed, leads, asOf, e);
    if k < |rest| {
      EntriesOfRow(rest, leads, asOf, k, e);
    } else {
      EntriesOfOthers(rest, leads, asOf, e);
    }
  }

  lemma {:induction false} EntriesOfOthers(listed: seq<Listed>, leads: seq<nat>, asOf: Day, e: Entry)
    requires forall i :: 0 <= i < |listed| ==> listed[i].id != e.instance
    ensures e !in Approaching(listed, leads, asOf) && e !in NewlyOverdue(listed, asOf)
  {
    if listed != [] {
      var rest, x := listed[..|listed| - 1], listed[|listed| - 1];
      EntriesOfOthers(rest, leads, asOf, e);
      FoundInOneMore(rest, x, listed, leads, asOf, e);
    }
  }

  /** Every entry carries a date, so the uniqueness key is never null. */
  lemma {:induction false} EntriesAreDated(listed: seq<Listed>, leads: seq<nat>, asOf: Day)
    ensures forall e :: e in DueReminders(listed, leads, asOf) ==> e.dueDate.Some?
  {
    if listed != [] {
      EntriesAreDated(listed[..|listed| - 1], leads, asOf);
    }
  }

  // ---- Claiming -----------------------------------------------------------------------

  /** The log holds one row per claim; its unique constraint covers all four columns, and a null date
      never conflicts. */
  function Claimable(log: seq<Entry>, e: Entry): bool {
    e.dueDate.None? || e !in log
  }

  /** What processing the entries in turn newly claims. */
  function Claimed(log: seq<Entry>, entries: seq<Entry>): seq<Entry> {
    if entries == [] then []
    else
      var earlier := Claimed(log, entries[..|entries| - 1]);
      var e := entries[|entries| - 1];
      earlier + if Claimable(log + earlier, e) then [e] else []
  }

  class ReminderLog {
    var rows: seq<Entry>

    constructor Load(log: seq<Entry>)
      ensures rows == log
    {
      rows := log;
    }

    method RaiseReminder(e: Entry) returns (ok: bool)
      modifies this
      ensures ok == Claimable(old(rows), e)
      ensures rows == old(rows) + if ok then [e] else []
    {
      if e.dueDate.Some? && e in rows {
        return false;
      }
      rows := rows + [e];
      return true;
    }

    /** The nightly reminder pass, up to the claimed list. */
    method ProcessReminders(listed: seq<Listed>, leads: seq<nat>, asOf: Day) returns (claimed: seq<Entry>)
      modifies this
      ensures claimed == Claimed(old(rows), DueReminders(listed, leads, asOf))
      ensures rows == old(rows) + claimed
    {
      var candidates := FindDueReminders(listed, leads, asOf);
      claimed := [];
      var i := 0;
      while i < |candidates|
        invariant i <= |candidates|
        invariant claimed == Claimed(old(rows), candidates[..i])
        invariant rows == old(rows) + claimed
      {
        assert candidates[..i + 1][..i] == candidates[..i];
        var ok := RaiseReminder(candidates[i]);
        if ok {
          claimed := claimed + [candidates[i]];
        }
        i := i + 1;
      }
      assert candidates[..i] == candidates;
    }
  }

  function Count(entries: seq<Entry>, e: Entry): nat {
    multiset(entries)[e]
  }

  ghost predicate AllDated(entries: seq<Entry>) {
    forall e :: e in entries ==> e.dueDate.Some?
  }

  /** One pass claims each dated entry once if it was not claimed before. */
  lemma {:induction false} PassClaimsOnce(log: seq<Entry>, entries: seq<Entry>, e: Entry)
    requires e.dueDate.Some?
    ensures Count(Claimed(log, entries), e) == if e in entries && e !in log then 1 else 0
  {
    if entries != [] {
      var rest, last := entries[..|entries| - 1], entries[|entries| - 1];
      PassClaimsOnce(log, rest, e);
      assert e in entries <==> e in rest || e == last;
    }
  }

  /** Running a pass again claims nothing. */
  lemma RerunClaimsNothing(log: seq<Entry>, entries: seq<Entry>)
    requires AllDated(entries)
    ensures Claimed(log + Claimed(log, entries), entries) == []
  {
    var log' := log + Claimed(log, entries);
    forall e | e in entries ensures e in log' {
      PassClaimsOnce(log, entries, e);
    }
    NothingLeftToClaim(log', entries);
  }

  lemma {:induction false} NothingLeftToClaim(log: seq<Entry>, entries: seq<Entry>)
    requires AllDated(entries) && forall e :: e in entries ==> e in log
    ensures Claimed(log, entries) == []
  {
    if entries != [] {
      NothingLeftToClaim(log, entries[..|entries| - 1]);
    }
  }

  // ---- A run of nightly passes --------------------------------------------------------

  /** Everything a run of passes claims, in order; each pass is given by what it finds. */
  function ClaimedOver(log: seq<Entry>, passes: seq<seq<Entry>>): seq<Entry> {
    if passes == [] then []
    else
      var earlier := ClaimedOver(log, passes[..|passes| - 1]);
      earlier + Claimed(log + earlier, passes[|passes| - 1])
  }

  ghost predicate IsFound(passes: seq<seq<Entry>>, e: Entry) {
    exists n :: 0 <= n < |passes| && e in passes[n]
  }

  lemma RunOneMore(log: seq<Entry>, rest: seq<seq<Entry>>, found: seq<Entry>, passes: seq<seq<Entry>>, e: Entry)
    requires passes == rest + [found]
    ensures ClaimedOver(log, passes) == ClaimedOver(log, rest) + Claimed(log + ClaimedOver(log, rest), found)
    ensures IsFound(passes, e) <==> IsFound(rest, e) || e in found
  {
    assert passes[..|passes| - 1] == rest;
    if IsFound(rest, e) {
      var n :| 0 <= n < |rest| && e in rest[n];
      assert e in passes[n];
    }
    if e in found {
      assert e in passes[|rest|];
    }
  }

  /** Over any passes, repeated ones included, an entry is claimed once if it was ever found and never before. */
  lemma {:induction false} RunClaimsOnce(log: seq<Entry>, passes: seq<seq<Entry>>, e: Entry)
    requires e.dueDate.Some?
    ensures Count(ClaimedOver(log, passes), e) == if IsFound(passes, e) && e !in log then 1 else 0
  {
    if passes != [] {
      var rest, found := passes[..|passes| - 1], passes[|passes| - 1];
      RunClaimsOnce(log, rest, e);
      RunOneMore(log, rest, found, passes, e);
      NextPass(log, ClaimedOver(log, rest), found, e);
    }
  }

  lemma NextPass(log: seq<Entry>, earlier: seq<Entry>, found: seq<Entry>, e: Entry)
    requires e.dueDate.Some?
    ensures Count(earlier + Claimed(log + earlier, found), e)
         == Count(earlier, e) + if e in found && e !in log && Count(earlier, e) == 0 then 1 else 0
  {
    PassClaimsOnce(log + earlier, found, e);
    assert e in earlier <==> e in multiset(earlier);
    var claimed := Claimed(log + earlier, found);
    assert multiset(earlier + claimed) == multiset(earlier) + multiset(claimed);
  }

  // ---- A dated row that nobody touches ------------------------------------------------

  /** Completed with an expiry, or still open with a deadline. */
  predicate IsDue(row: Row) {
    MatchedDate(row).Some? && (row.status.Complete? ==> row.completedOn.Some?)
  }

  /** The day after the expiry or the deadline, unless a completion still holds. */
  predicate IsOverdueDay(row: Row, day: Day) {
    && ((row.expiresOn.Some? && day == row.expiresOn.value + 1) || (row.dueOn.Some? && day == row.dueOn.value + 1))
    && !(row.status.Complete? && row.expiresOn.Some? && day <= row.expiresOn.value)
  }

  function LeadReminder(id: InstanceId, row: Row, lead: nat): Entry {
    Entry(id, KindOf(row), lead, EffectiveDueDate(row))
  }

  function OverdueReminder(id: InstanceId, row: Row): Entry {
    Entry(id, OverdueNotice, 0, EffectiveDueDate(row))
  }

  /** What an untouched dated row is owed on a day. */
  predicate IsOwedOn(id: InstanceId, row: Row, leads: seq<nat>, day: Day, e: Entry)
    requires IsDue(row)
  {
    || (e.leadDays in leads && e == LeadReminder(id, row, e.leadDays) && day + e.leadDays == MatchedDate(row).value)
    || (e == OverdueReminder(id, row) && IsOverdueDay(row, day))
  }

  /** What a night's search finds of a dated row that is recomputed first. */
  lemma SearchFinds(listed: seq<Listed>, leads: seq<nat>, day: Day, id: InstanceId, row: Row, e: Entry)
    requires DistinctIds(listed) && Listed(id, Recomputed(row, day), true) in listed
    requires IsDue(row) && e.instance == id && 0 !in leads
    ensures e in DueReminders(listed, leads, day) <==> IsOwedOn(id, row, leads, day, e)
  {
    var x := Listed(id, Recomputed(row, day), true);
    var k :| 0 <= k < |listed| && listed[k] == x;
    EntriesOfRow(listed, leads, day, k, e);
    LeadFound(x, id, row, leads, day, e);
    OverdueFound(x, id, row, day, e);
  }

  lemma LeadFound(x: Listed, id: InstanceId, row: Row, leads: seq<nat>, day: Day, e: Entry)
    requires IsDue(row) && 0 !in leads
    requires x == Listed(id, Recomputed(row, day), true) && e.instance == id
    ensures ApproachingEntry(x, leads, day) == Some(e) <==>
              && e.leadDays in leads && e == LeadReminder(id, row, e.leadDays)
              && day + e.leadDays == MatchedDate(row).value
  {
  }

  lemma OverdueFound(x: Listed, id: InstanceId, row: Row, day: Day, e: Entry)
    requires IsDue(row)
    requires x == Listed(id, Recomputed(row, day), true) && e.instance == id
    ensures OverdueEntry(x, day) == Some(e) <==> e == OverdueReminder(id, row) && IsOverdueDay(row, day)
  {
  }
}
