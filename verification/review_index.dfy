/** The index of open review items by the row they cover and the row they affect. */
module ReviewIndexes {
  import opened Wrappers
  import opened ReviewLedger

  datatype OpenItem = OpenItem(id: nat, entity: Entity, affected: Option<Entity>)

  type Index = map<Entity, OpenItem>

  function WithItem(index: Index, item: OpenItem): Index {
    var direct := index[item.entity := item];
    if item.affected.Some? && item.affected.value !in direct then direct[item.affected.value := item] else direct
  }

  function IndexOf(items: seq<OpenItem>): Index {
    if items == [] then map[] else WithItem(IndexOf(items[..|items| - 1]), items[|items| - 1])
  }

  // ---- The plain scan ---------------------------------------------------------------

  function FirstDirect(items: seq<OpenItem>, e: Entity): Option<OpenItem> {
    if items == [] then None
    else if items[0].entity == e then Some(items[0])
    else FirstDirect(items[1..], e)
  }

  function FirstAffecting(items: seq<OpenItem>, e: Entity): Option<OpenItem> {
    if items == [] then None
    else if items[0].affected == Some(e) then Some(items[0])
    else FirstAffecting(items[1..], e)
  }

  /** The item on the row itself if there is one, otherwise the first that affects the row. */
  function Scan(items: seq<OpenItem>, e: Entity): Option<OpenItem> {
    var direct := FirstDirect(items, e);
    if direct.Some? then direct else FirstAffecting(items, e)
  }

  /** What the queue guarantees of its open items. */
  ghost predicate OnePerEntity(items: seq<OpenItem>) {
    forall i, j :: 0 <= i < j < |items| ==> items[i].entity != items[j].entity && items[i].id != items[j].id
  }

  // ---- The open items of the queue ------------------------------------------------------

  /** The open items, each by its number in the queue. */
  function OpenItems(items: seq<Item>): seq<OpenItem> {
    if items == [] then []
    else
      var n := |items| - 1;
      OpenItems(items[..n]) +
      if items[n].status.PendingReview? then [OpenItem(n, items[n].draft.entity, items[n].draft.affected)] else []
  }

  /** They are exactly the pending ones. */
  lemma {:induction false} OpenItemsArePending(items: seq<Item>, x: OpenItem)
    ensures x in OpenItems(items) <==>
              && x.id < |items| && items[x.id].status.PendingReview?
              && x.entity == items[x.id].draft.entity && x.affected == items[x.id].draft.affected
  {
    if items != [] {
      OpenItemsArePending(items[..|items| - 1], x);
    }
  }

  lemma {:induction false} OpenItemsDistinct(items: seq<Item>)
    requires OneOpenPerEntity(items)
    ensures OnePerEntity(OpenItems(items))
    ensures |OpenItems(items)| == CountStatus(items, PendingReview)
  {
    if items != [] {
      var n := |items| - 1;
      OpenItemsDistinct(items[..n]);
      forall x | x in OpenItems(items[..n])
        ensures x.id < n && x.entity == items[x.id].draft.entity && items[x.id].status.PendingReview?
      {
        OpenItemsArePending(items[..n], x);
      }
    }
  }

  /** A consistent queue has one open item an entity at most, whatever order its open items are listed in. */
  lemma QueueIsOnePerEntity(l: Ledger, listed: seq<OpenItem>)
    requires Consistent(l) && multiset(listed) == multiset(OpenItems(l.items))
    ensures OnePerEntity(listed) && |listed| == CountStatus(l.items, PendingReview)
  {
    OpenItemsDistinct(l.items);
    assert |multiset(listed)| == |listed|;
    forall i, j | 0 <= i < j < |listed|
      ensures listed[i].entity != listed[j].entity && listed[i].id != listed[j].id
    {
      ListedApart(listed, OpenItems(l.items), i, j);
    }
  }

  lemma ListedApart(listed: seq<OpenItem>, open: seq<OpenItem>, i: nat, j: nat)
    requires multiset(listed) == multiset(open) && OnePerEntity(open) && i < j < |listed|
    ensures listed[i].entity != listed[j].entity && listed[i].id != listed[j].id
  {
    var x, y := listed[i], listed[j];
    assert x in multiset(listed) && y in multiset(listed);
    assert x in open && y in open;
    if x == y {
      OccursOnce(open, x);
      OccursTwice(listed, i, j);
    }
  }

  lemma OccursTwice(listed: seq<OpenItem>, i: nat, j: nat)
    requires i < j < |listed| && listed[i] == listed[j]
    ensures multiset(listed)[listed[i]] >= 2
  {
    assert listed == listed[..j] + listed[j..];
    assert listed[..j][i] == listed[i] && listed[j..][0] == listed[i];
  }

  lemma {:induction false} OccursOnce(open: seq<OpenItem>, x: OpenItem)
    requires OnePerEntity(open)
    ensures multiset(open)[x] <= 1
  {
    if open != [] {
      var n := |open| - 1;
      OccursOnce(open[..n], x);
      assert open == open[..n] + [open[n]];
    }
  }

  lemma {:induction false} ScanOfOneMore(items: seq<OpenItem>, x: OpenItem, e: Entity)
    ensures FirstDirect(items + [x], e) == if FirstDirect(items, e).Some? then FirstDirect(items, e)
                                           else if x.entity == e then Some(x) else None
    ensures FirstAffecting(items + [x], e) == if FirstAffecting(items, e).Some? then FirstAffecting(items, e)
                                              else if x.affected == Some(e) then Some(x) else None
  {
    if items != [] {
      assert (items + [x])[1..] == items[1..] + [x];
      ScanOfOneMore(items[1..], x, e);
    }
  }

  lemma {:induction false} DirectIsListed(items: seq<OpenItem>, e: Entity)
    ensures FirstDirect(items, e).Some? <==> exists i :: 0 <= i < |items| && items[i].entity == e
  {
    if items != [] {
      DirectIsListed(items[1..], e);
      if i :| 0 <= i < |items| && items[i].entity == e {
        assert i > 0 ==> items[1..][i - 1].entity == e;
      }
    }
  }

  function Get(index: Index, e: Entity): Option<OpenItem> {
    if e in index then Some(index[e]) else None
  }

  /** Whatever order the rows come in, the index answers as a scan would. */
  lemma {:induction false} IndexAgreesWithScan(items: seq<OpenItem>, e: Entity)
    requires OnePerEntity(items)
    ensures Get(IndexOf(items), e) == Scan(items, e)
  {
    if items != [] {
      var rest, x := items[..|items| - 1], items[|items| - 1];
      assert items == rest + [x];
      IndexAgreesWithScan(rest, e);
      ScanOfOneMore(rest, x, e);
      DirectIsListed(rest, x.entity);
    }
  }

  ghost function Ids(index: Index): set<nat> {
    set e | e in index :: index[e].id
  }

  lemma {:induction false} IndexKeepsEveryItem(items: seq<OpenItem>)
    requires OnePerEntity(items)
    ensures forall i :: 0 <= i < |items| ==>
              items[i].entity in IndexOf(items) && IndexOf(items)[items[i].entity] == items[i]
    ensures forall e :: e in IndexOf(items) ==> IndexOf(items)[e] in items
  {
    if items != [] {
      var rest, x := items[..|items| - 1], items[|items| - 1];
      IndexKeepsEveryItem(rest);
      forall i | 0 <= i < |rest|
        ensures items[i].entity in IndexOf(items) && IndexOf(items)[items[i].entity] == items[i]
      {
        assert rest[i] == items[i] && rest[i].entity in IndexOf(rest);
      }
      forall e | e in IndexOf(items) ensures IndexOf(items)[e] in items {
        if e in IndexOf(rest) && IndexOf(items)[e] == IndexOf(rest)[e] {
          assert IndexOf(rest)[e] in rest;
        }
      }
    }
  }

  ghost function IdsOf(items: seq<OpenItem>): set<nat> {
    if items == [] then {} else IdsOf(items[..|items| - 1]) + {items[|items| - 1].id}
  }

  lemma {:induction false} IdsOfContains(items: seq<OpenItem>, id: nat)
    ensures id in IdsOf(items) <==> exists i :: 0 <= i < |items| && items[i].id == id
  {
    if items != [] {
      var n := |items| - 1;
      IdsOfContains(items[..n], id);
      assert items == items[..n] + [items[n]];
    }
  }

  lemma {:induction false} DistinctIdsCount(items: seq<OpenItem>)
    requires OnePerEntity(items)
    ensures |IdsOf(items)| == |items|
  {
    if items != [] {
      var n := |items| - 1;
      DistinctIdsCount(items[..n]);
      IdsOfContains(items[..n], items[n].id);
    }
  }

  /** Its length is the number of open items. */
  lemma IndexCountsItems(items: seq<OpenItem>)
    requires OnePerEntity(items)
    ensures |Ids(IndexOf(items))| == |items|
  {
    IndexKeepsEveryItem(items);
    DistinctIdsCount(items);
    var index := IndexOf(items);
    forall id ensures id in Ids(index) <==> id in IdsOf(items) {
      IdsOfContains(items, id);
      if id in Ids(index) {
        var e :| e in index && index[e].id == id;
        assert index[e] in items;
      }
      if i :| 0 <= i < |items| && items[i].id == id {
        assert items[i].entity in index && index[items[i].entity] == items[i];
      }
    }
    assert Ids(index) == IdsOf(items);
  }

  class ReviewIndex {
    var byKey: Index

    constructor (rows: seq<OpenItem>)
      ensures byKey == IndexOf(rows)
    {
      byKey := map[];
      new;
      var i := 0;
      while i < |rows|
        invariant i <= |rows|
        invariant byKey == IndexOf(rows[..i])
      {
        assert rows[..i + 1][..i] == rows[..i];
        var row := rows[i];
        byKey := byKey[row.entity := row];
        if row.affected.Some? {
          if row.affected.value !in byKey {
            byKey := byKey[row.affected.value := row];
          }
        }
        i := i + 1;
      }
      assert rows[..i] == rows;
    }

    method Lookup(e: Entity, ghost rows: seq<OpenItem>) returns (item: Option<OpenItem>)
      requires OnePerEntity(rows) && byKey == IndexOf(rows)
      ensures item == Scan(rows, e)
    {
      IndexAgreesWithScan(rows, e);
      if e in byKey {
        return Some(byKey[e]);
      }
      return None;
    }

    method Length(ghost rows: seq<OpenItem>) returns (n: nat)
      requires OnePerEntity(rows) && byKey == IndexOf(rows)
      ensures n == |rows|
    {
      IndexCountsItems(rows);
      var ids := set e | e in byKey :: byKey[e].id;
      assert ids == Ids(byKey);
      return |ids|;
    }
  }
}
