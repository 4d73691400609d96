/** The dashboard's roll-up: the buckets of a list of requirements, and one pass over fanned-out join rows. */
module DepartmentSummary {
  import opened Wrappers
  import opened Calendar
  import opened RequirementRows
  import opened Reminders

  const DUE_SOON_DAYS := 60

  datatype Bucket = OverdueBucket | DueSoon | Outstanding | Satisfied

  /** Which dashboard column a requirement belongs in. */
  function BucketOf(r: Row, today: Day): Bucket {
    if r.status in {NotApplicable, Waived} then Satisfied
    else if r.status == Blocked then OverdueBucket
    else if r.status == Overdue || Past(r.expiresOn, today) || Past(r.dueOn, today) then OverdueBucket
    else if r.status == Complete then
      var due := EffectiveDueDate(r);
      if due.Some? && due.value - today <= DUE_SOON_DAYS then DueSoon else Satisfied
    else Outstanding
  }

  function InBucket(rows: seq<Row>, b: Bucket, today: Day): nat {
    if rows == [] then 0
    else InBucket(rows[..|rows| - 1], b, today) + if BucketOf(rows[|rows| - 1], today) == b then 1 else 0
  }

  /** The four counts are the four buckets, and together they are everything. */
  method BucketCounts(rows: seq<Row>, today: Day) returns (counts: map<Bucket, nat>)
    ensures counts.Keys == {OverdueBucket, DueSoon, Outstanding, Satisfied}
    ensures forall b :: b in counts ==> counts[b] == InBucket(rows, b, today)
    ensures counts[OverdueBucket] + counts[DueSoon] + counts[Outstanding] + counts[Satisfied] == |rows|
  {
    counts := map[OverdueBucket := 0, DueSoon := 0, Outstanding := 0, Satisfied := 0];
    var i := 0;
    while i < |rows|
      invariant i <= |rows|
      invariant counts.Keys == {OverdueBucket, DueSoon, Outstanding, Satisfied}
      invariant forall b :: b in counts ==> counts[b] == InBucket(rows[..i], b, today)
      invariant counts[OverdueBucket] + counts[DueSoon] + counts[Outstanding] + counts[Satisfied] == i
    {
      assert rows[..i + 1][..i] == rows[..i];
      var b := BucketOf(rows[i], today);
      counts := counts[b := counts[b] + 1];
      i := i + 1;
    }
    assert rows[..i] == rows;
  }

  /** Nothing that is owed ever shows as satisfied: only a held, a waived or a current completed row does. */
  lemma SatisfiedIsEarned(r: Row, today: Day)
    requires Coherent(r, today)
    ensures BucketOf(r, today).Satisfied? ==>
              r.status in {NotApplicable, Waived} || (r.completedOn.Some? && !Past(r.expiresOn, today))
    ensures BucketOf(Recomputed(r, today), today) == BucketOf(r, today)
  {
  }

  /** The column of a completed row, read off its expiry: late once that has passed, due soon for its last sixty days
      and satisfied before. */
  lemma CompletedColumn(r: Row, today: Day)
    requires Coherent(r, today) && r.status == Complete && r.dueOn.None?
    ensures BucketOf(r, today) == if r.expiresOn.None? then Satisfied
                                  else if r.expiresOn.value < today then OverdueBucket
                                  else if r.expiresOn.value <= today + 60 then DueSoon
                                  else Satisfied
  {
  }

  /** The column of any other row: nothing held or waived is owed, a blocked row counts as late, and an open one is late
      from the day after its deadline. */
  lemma OpenColumn(r: Row, today: Day)
    requires Coherent(r, today) && r.completedOn.None?
    ensures r.status in {NotApplicable, Waived} ==> BucketOf(r, today) == Satisfied
    ensures r.status in {Overdue, Blocked} ==> BucketOf(r, today) == OverdueBucket
    ensures r.status in {NotStarted, InProgress} ==>
              BucketOf(r, today) == if r.dueOn.Some? && r.dueOn.value < today then OverdueBucket else Outstanding
  {
  }

  // ---- Grouping by department ---------------------------------------------------------

  /** One row of the join through active assignments. */
  datatype JoinRow = JoinRow(department: nat, instance: nat)

  function InstancesIn(grouped: map<nat, seq<nat>>, department: nat): seq<nat> {
    if department in grouped then grouped[department] else []
  }

  ghost predicate NoRepeats(s: seq<nat>) {
    forall i, j :: 0 <= i < j < |s| ==> s[i] != s[j]
  }

  /** One pass, whatever the fan-out: each department gets each of its instances exactly once. */
  method GroupByDepartment(rows: seq<JoinRow>) returns (grouped: map<nat, seq<nat>>)
    ensures forall d :: NoRepeats(InstancesIn(grouped, d))
    ensures forall d, i :: i in InstancesIn(grouped, d) <==> JoinRow(d, i) in rows
  {
    grouped := map[];
    var seen: set<JoinRow> := {};
    var n := 0;
    while n < |rows|
      invariant n <= |rows|
      invariant forall r :: r in seen <==> r in rows[..n]
      invariant forall d, i :: i in InstancesIn(grouped, d) <==> JoinRow(d, i) in seen
      invariant forall d :: NoRepeats(InstancesIn(grouped, d))
    {
      var key := rows[n];
      assert rows[..n + 1] == rows[..n] + [key];
      if key !in seen {
        assert key.instance !in InstancesIn(grouped, key.department) by {
          assert JoinRow(key.department, key.instance) == key;
        }
        ghost var last := grouped;
        seen := seen + {key};
        grouped := grouped[key.department := InstancesIn(grouped, key.department) + [key.instance]];
        forall d ensures NoRepeats(InstancesIn(grouped, d)) {
          assert NoRepeats(InstancesIn(last, d));
        }
      }
      n := n + 1;
    }
    assert rows[..n] == rows;
  }

  datatype Served = Served(volunteer: nat, department: nat)

  /** The join: an instance once for every active assignment of its volunteer. */
  function Fanned(instances: seq<nat>, owner: map<nat, nat>, served: seq<Served>): seq<JoinRow>
    requires forall i :: i in instances ==> i in owner
  {
    if instances == [] then []
    else Fanned(instances[..|instances| - 1], owner, served) + FannedOne(instances[|instances| - 1], owner, served)
  }

  function FannedOne(instance: nat, owner: map<nat, nat>, served: seq<Served>): seq<JoinRow>
    requires instance in owner
  {
    if served == [] then []
    else
      var last := served[|served| - 1];
      FannedOne(instance, owner, served[..|served| - 1])
      + if last.volunteer == owner[instance] then [JoinRow(last.department, instance)] else []
  }

  lemma {:induction false} FannedOneSelects(instance: nat, owner: map<nat, nat>, served: seq<Served>, r: JoinRow)
    requires instance in owner
    ensures r in FannedOne(instance, owner, served) <==>
              r.instance == instance && Served(owner[instance], r.department) in served
  {
    if served != [] {
      var rest, last := served[..|served| - 1], served[|served| - 1];
      FannedOneSelects(instance, owner, rest, r);
      assert forall s :: s in served <==> s in rest || s == last;
    }
  }

  /** The join holds an instance under a department exactly when its volunteer serves there, in one role or several. */
  lemma {:induction false} FannedSelects(instances: seq<nat>, owner: map<nat, nat>, served: seq<Served>, r: JoinRow)
    requires forall i :: i in instances ==> i in owner
    ensures r in Fanned(instances, owner, served) <==>
              r.instance in instances && Served(owner[r.instance], r.department) in served
  {
    if instances != [] {
      var rest, last := instances[..|instances| - 1], instances[|instances| - 1];
      FannedSelects(rest, owner, served, r);
      FannedOneSelects(last, owner, served, r);
      assert forall i :: i in instances <==> i in rest || i == last;
    }
  }

  /** The grouping of the join is the per-department distinct selection. */
  method GroupServed(instances: seq<nat>, owner: map<nat, nat>, served: seq<Served>)
    returns (grouped: map<nat, seq<nat>>)
    requires forall i :: i in instances ==> i in owner
    ensures forall d :: NoRepeats(InstancesIn(grouped, d))
    ensures forall d, i :: i in InstancesIn(grouped, d) <==> i in instances && Served(owner[i], d) in served
  {
    grouped := GroupByDepartment(Fanned(instances, owner, served));
    forall d, i ensures i in InstancesIn(grouped, d) <==> i in instances && Served(owner[i], d) in served {
      FannedSelects(instances, owner, served, JoinRow(d, i));
    }
  }
}
