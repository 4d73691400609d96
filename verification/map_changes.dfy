/** Counting what one table has that another, earlier version of it had not, or had differently. */
module MapChanges {
  import opened Wrappers

  ghost function Changed<V>(before: map<nat, V>, after: map<nat, V>): set<nat> {
    set d | d in before && d in after && after[d] != before[d]
  }

  lemma KeyAdded(before: set<nat>, last: set<nat>, d: nat)
    requires d !in before && d !in last
    ensures |(last + {d}) - before| == |last - before| + 1
  {
    assert (last + {d}) - before == (last - before) + {d};
  }

  /** Adding a key adds it to the new ones. */
  lemma CountKey(before: set<nat>, last: set<nat>, next: set<nat>, d: nat)
    requires d in last <==> d in before
    requires next == if d in next then last + {d} else last
    ensures |next - before| == |last - before| + if d !in last && d in next then 1 else 0
  {
    if d in last {
      assert next == last;
    } else if d in next {
      KeyAdded(before, last, d);
    }
  }

  lemma CountChanged<V>(before: map<nat, V>, last: map<nat, V>, d: nat, r: V)
    requires d in before && d in last && last[d] == before[d]
    ensures |Changed(before, last[d := r])| == |Changed(before, last)| + if r != before[d] then 1 else 0
    ensures last[d := r].Keys == last.Keys
  {
    var next := last[d := r];
    assert d !in Changed(before, last);
    assert Changed(before, next) == Changed(before, last) + if r != before[d] then {d} else {};
  }

  /** Writing an entry that was still as before adds it to the changed ones among some keys or not. */
  lemma CountWriteAmong<V>(before: map<nat, V>, last: map<nat, V>, next: map<nat, V>, d: nat, among: set<nat>)
    requires d in last <==> d in before
    requires d in last ==> last[d] == before[d]
    requires next == if d in next then last[d := next[d]] else last
    ensures |Changed(before, next) * among|
         == |Changed(before, last) * among| + if d in among && d in last && next[d] != last[d] then 1 else 0
  {
    if d in among && d in last && next[d] != last[d] {
      assert d !in Changed(before, last);
      assert Changed(before, next) * among == Changed(before, last) * among + {d};
    } else {
      assert Changed(before, next) * among == Changed(before, last) * among;
    }
  }

  /** Likewise among all keys. */
  lemma CountWrite<V>(before: map<nat, V>, last: map<nat, V>, next: map<nat, V>, d: nat)
    requires d in last <==> d in before
    requires d in last ==> last[d] == before[d]
    requires next == if d in next then last[d := next[d]] else last
    ensures |Changed(before, next)| == |Changed(before, last)| + if d in last && next[d] != last[d] then 1 else 0
  {
    if d in before {
      CountChanged(before, last, d, next[d]);
    } else {
      assert Changed(before, next) == Changed(before, last);
    }
  }

  lemma NothingChanged<V>(rows: map<nat, V>)
    ensures Changed(rows, rows) == {}
  {
  }

  lemma SplitSize(a: set<nat>, b: set<nat>)
    ensures |a| == |a - b| + |a * b|
  {
    assert a == (a - b) + (a * b);
  }
}
