/** The `must_follow` edges between definitions: the walk that refuses loops and the search that keeps
    them out of the form. */
module DependencyGraph {
  import opened Wrappers
  import opened Definitions

  /** A chain of this many definitions counts as a loop. */
  const MAX_DEPENDENCY_HOPS := 20

  /** What each definition follows. */
  type Graph = map<DefId, Option<DefId>>

  function Next(g: Graph, x: Option<DefId>): Option<DefId> {
    if x.Some? && x.value in g then g[x.value] else None
  }

  /** Where `k` hops from `x` lead. */
  function Chain(g: Graph, x: Option<DefId>, k: nat): Option<DefId> {
    if k == 0 then x else Next(g, Chain(g, x, k - 1))
  }

  // ---- Chains -----------------------------------------------------------------------

  lemma {:induction false} ChainFromNext(g: Graph, x: Option<DefId>, k: nat)
    ensures Chain(g, x, k + 1) == Chain(g, Next(g, x), k)
  {
    if k > 0 {
      ChainFromNext(g, x, k - 1);
    }
  }

  lemma {:induction false} ChainAdds(g: Graph, x: Option<DefId>, j: nat, k: nat)
    ensures Chain(g, x, j + k) == Chain(g, Chain(g, x, j), k)
  {
    if k > 0 {
      ChainAdds(g, x, j, k - 1);
    }
  }

  lemma {:induction false} ChainEnded(g: Graph, x: Option<DefId>, j: nat, k: nat)
    requires j <= k && Chain(g, x, j).None?
    ensures Chain(g, x, k).None?
  {
    if j < k {
      ChainEnded(g, x, j, k - 1);
    }
  }

  lemma ChainStillGoing(g: Graph, x: Option<DefId>, j: nat, k: nat)
    requires j <= k && Chain(g, x, k).Some?
    ensures Chain(g, x, j).Some?
  {
    if Chain(g, x, j).None? {
      ChainEnded(g, x, j, k);
    }
  }

  /** A chain that comes back to where it was never ends. */
  lemma {:induction false} RepeatNeverEnds(g: Graph, x: Option<DefId>, i: nat, j: nat, k: nat)
    requires i < j && Chain(g, x, i) == Chain(g, x, j) && Chain(g, x, i).Some?
    ensures Chain(g, x, k).Some?
    decreases k
  {
    if k <= j {
      if Chain(g, x, k).None? {
        ChainEnded(g, x, k, j);
      }
    } else {
      RepeatNeverEnds(g, x, i, j, k - (j - i));
      ChainAdds(g, x, j, k - j);
      ChainAdds(g, x, i, k - j);
    }
  }

  // ---- The forward walk ---------------------------------------------------------------

  /** What the walk from `x` for definition `pk` reports as a loop: it meets `pk`, or it is still going
      after the last hop. */
  ghost predicate WalkFindsLoop(g: Graph, pk: Option<DefId>, x: Option<DefId>, hops: nat)
    requires hops > 0
  {
    (pk.Some? && exists k :: 0 <= k < hops && Chain(g, x, k) == pk) || Chain(g, x, hops - 1).Some?
  }

  /** The definitions walked so far. */
  ghost predicate IsPath(g: Graph, x: Option<DefId>, path: seq<DefId>) {
    forall j {:trigger path[j]} :: 0 <= j < |path| ==> Chain(g, x, j) == Some(path[j])
  }

  lemma PathExtends(g: Graph, x: Option<DefId>, path: seq<DefId>, d: DefId)
    requires IsPath(g, x, path) && Chain(g, x, |path|) == Some(d)
    ensures IsPath(g, x, path + [d])
  {
  }

  lemma WalkEnded(g: Graph, pk: Option<DefId>, x: Option<DefId>, path: seq<DefId>, hops: nat)
    requires IsPath(g, x, path) && |path| < hops && Chain(g, x, |path|).None?
    requires pk.Some? ==> pk.value !in path
    ensures !WalkFindsLoop(g, pk, x, hops)
  {
    ChainEnded(g, x, |path|, hops - 1);
    forall k | 0 <= k < hops && pk.Some? ensures Chain(g, x, k) != pk {
      if k < |path| {
        assert Chain(g, x, k) == Some(path[k]);
      } else {
        ChainEnded(g, x, |path|, k);
      }
    }
  }

  lemma WalkMet(g: Graph, pk: Option<DefId>, x: Option<DefId>, path: seq<DefId>, d: DefId, hops: nat)
    requires IsPath(g, x, path) && |path| < hops && Chain(g, x, |path|) == Some(d)
    requires pk == Some(d) || d in path
    ensures WalkFindsLoop(g, pk, x, hops)
  {
    if d in path {
      var j :| 0 <= j < |path| && path[j] == d;
      RepeatNeverEnds(g, x, j, |path|, hops - 1);
    }
  }

  /** `pk` is `None` for a definition that has not been saved yet. */
  method DependencyCycle(g: Graph, pk: Option<DefId>, mustFollow: Option<DefId>, hops: nat) returns (cycle: bool)
    requires hops > 0
    ensures cycle <==> WalkFindsLoop(g, pk, mustFollow, hops)
  {
    var seen: set<DefId> := if pk.Some? then {pk.value} else {};
    var current := mustFollow;
    ghost var path: seq<DefId> := [];
    var hop := 0;
    while hop < hops
      invariant hop <= hops && |path| == hop && IsPath(g, mustFollow, path)
      invariant current == Chain(g, mustFollow, hop)
      invariant forall d :: d in seen <==> pk == Some(d) || d in path
      invariant pk.Some? ==> pk.value !in path
    {
      if current.None? {
        WalkEnded(g, pk, mustFollow, path, hops);
        return false;
      }
      if current.value in seen {
        WalkMet(g, pk, mustFollow, path, current.value, hops);
        return true;
      }
      PathExtends(g, mustFollow, path, current.value);
      seen := seen + {current.value};
      path := path + [current.value];
      current := Next(g, current);
      hop := hop + 1;
    }
    assert Chain(g, mustFollow, hops - 1) == Some(path[hops - 1]);
    return true;
  }

  // ---- The backward search ------------------------------------------------------------

  ghost predicate Reaches(g: Graph, x: DefId, pk: DefId, hops: nat) {
    exists k :: 0 <= k <= hops && Chain(g, Some(x), k) == Some(pk)
  }

  /** `pk` and everything that depends on it within so many hops. */
  ghost function Within(g: Graph, pk: DefId, hops: nat): set<DefId> {
    set x | x in g.Keys + {pk} && Reaches(g, x, pk, hops)
  }

  lemma WithinGrows(g: Graph, pk: DefId, hops: nat)
    ensures Within(g, pk, hops) <= Within(g, pk, hops + 1)
  {
    forall x | x in Within(g, pk, hops) ensures Reaches(g, x, pk, hops + 1) {
      var k :| 0 <= k <= hops && Chain(g, Some(x), k) == Some(pk);
    }
  }

  /** What the next round of the search adds. */
  lemma NextRound(g: Graph, pk: DefId, hops: nat, x: DefId)
    requires x in g && x !in Within(g, pk, hops)
    ensures x in Within(g, pk, hops + 1) <==> g[x].Some? && g[x].value in Within(g, pk, hops)
  {
    if Reaches(g, x, pk, hops + 1) {
      var k :| 0 <= k <= hops + 1 && Chain(g, Some(x), k) == Some(pk);
      assert k == hops + 1;
      ChainFromNext(g, Some(x), hops);
      assert Chain(g, g[x], hops) == Some(pk);
      if g[x].None? {
        ChainEnded(g, g[x], 0, hops);
      } else {
        StepInGraph(g, pk, g[x].value, hops);
      }
    }
    if g[x].Some? && g[x].value in Within(g, pk, hops) {
      var k :| 0 <= k <= hops && Chain(g, g[x], k) == Some(pk);
      ChainFromNext(g, Some(x), k);
    }
  }

  lemma StepInGraph(g: Graph, pk: DefId, y: DefId, hops: nat)
    requires Chain(g, Some(y), hops) == Some(pk)
    ensures y in g.Keys + {pk}
    ensures Reaches(g, y, pk, hops)
  {
    if y !in g && hops > 0 {
      assert Chain(g, Some(y), 1).None?;
      ChainEnded(g, Some(y), 1, hops);
    }
  }

  /** A round that adds nothing is the last. */
  lemma {:induction false} NoMoreRounds(g: Graph, pk: DefId, hops: nat, more: nat)
    requires Within(g, pk, hops + 1) == Within(g, pk, hops) && hops <= more
    ensures Within(g, pk, more) == Within(g, pk, hops)
    decreases more
  {
    if more > hops {
      NoMoreRounds(g, pk, hops, more - 1);
      WithinGrows(g, pk, more - 1);
      PkWithin(g, pk, hops);
      forall x | x in Within(g, pk, more) ensures x in Within(g, pk, hops) {
        if x in g && x !in Within(g, pk, more - 1) {
          NextRound(g, pk, more - 1, x);
          NextRound(g, pk, hops, x);
        }
      }
    }
  }

  lemma PkWithin(g: Graph, pk: DefId, hops: nat)
    ensures pk in Within(g, pk, hops)
    ensures Within(g, pk, 0) == {pk}
  {
    assert Chain(g, Some(pk), 0) == Some(pk);
  }

  method DependentPks(g: Graph, pk: DefId, hops: nat) returns (found: set<DefId>)
    ensures found == Within(g, pk, hops)
  {
    found := {pk};
    var frontier := {pk};
    var hop := 0;
    PkWithin(g, pk, 0);
    while hop < hops
      invariant hop <= hops
      invariant found == Within(g, pk, hop)
      invariant frontier <= found
      invariant forall x :: x in g && g[x].Some? && g[x].value in found && x !in found ==> g[x].value in frontier
    {
      frontier := set x | x in g && g[x].Some? && g[x].value in frontier && x !in found;
      SearchRound(g, pk, hop, found, frontier);
      if frontier == {} {
        NoMoreRounds(g, pk, hop, hops);
        break;
      }
      found := found + frontier;
      hop := hop + 1;
    }
  }

  lemma SearchRound(g: Graph, pk: DefId, hop: nat, found: set<DefId>, frontier: set<DefId>)
    requires found == Within(g, pk, hop)
    requires forall x :: x in frontier <==> x in g && g[x].Some? && g[x].value in found && x !in found
    ensures found + frontier == Within(g, pk, hop + 1)
  {
    WithinGrows(g, pk, hop);
    PkWithin(g, pk, hop);
    forall x ensures x in found + frontier <==> x in Within(g, pk, hop + 1) {
      if x in g && x !in found {
        NextRound(g, pk, hop, x);
      }
    }
  }

  // ---- Form and model agree -----------------------------------------------------------

  /** What `clean` refuses for a saved definition. */
  ghost predicate Refuses(g: Graph, pk: DefId, m: DefId, hops: nat)
    requires hops > 0
  {
    m == pk || WalkFindsLoop(g, Some(pk), Some(m), hops)
  }

  ghost predicate TooDeep(g: Graph, m: DefId, hops: nat)
    requires hops > 0
  {
    Chain(g, Some(m), hops - 1).Some?
  }

  /** The form leaves out exactly what the model would refuse as a loop, except that the model also refuses
      a chain of `hops` definitions that never meets `pk`. */
  lemma FormAndModelAgree(g: Graph, pk: DefId, m: DefId, hops: nat)
    requires m in g && hops > 0
    ensures Refuses(g, pk, m, hops) <==> m in Within(g, pk, hops) || TooDeep(g, m, hops)
  {
    if m in Within(g, pk, hops) {
      var k :| 0 <= k <= hops && Chain(g, Some(m), k) == Some(pk);
      if k == hops {
        ChainStillGoing(g, Some(m), hops - 1, hops);
      }
    }
    if Refuses(g, pk, m, hops) && !TooDeep(g, m, hops) {
      PkWithin(g, pk, hops);
      if m != pk {
        var k :| 0 <= k < hops && Chain(g, Some(m), k) == Some(pk);
        assert Reaches(g, m, pk, hops);
      }
    }
  }

  ghost function NextInLine(d: DefId, hops: nat): Option<DefId> {
    if d + 1 < hops then Some(d + 1) else None
  }

  /** `hops` definitions in a line, and one more that stands alone. */
  ghost function Line(hops: nat): Graph {
    (map d: DefId | d < hops :: NextInLine(d, hops))[hops := None]
  }

  lemma {:induction false} AlongTheLine(hops: nat, k: nat)
    requires 0 < hops
    ensures Chain(Line(hops), Some(0), k) == if k < hops then Some(k) else None
  {
    if k > 0 {
      AlongTheLine(hops, k - 1);
    }
  }

  /** They can differ: the form offers the start of such a line for the definition outside it, and the model refuses. */
  lemma FormCanOfferTooMuch(hops: nat)
    requires hops > 0
    ensures 0 in Line(hops) && hops in Line(hops)
    ensures Refuses(Line(hops), hops, 0, hops) && 0 !in Within(Line(hops), hops, hops)
  {
    AlongTheLine(hops, hops - 1);
    assert TooDeep(Line(hops), 0, hops);
    FormAndModelAgree(Line(hops), hops, 0, hops);
    if 0 in Within(Line(hops), hops, hops) {
      var k :| 0 <= k <= hops && Chain(Line(hops), Some(0), k) == Some(hops);
      AlongTheLine(hops, k);
      assert false;
    }
  }

  // ---- No loops, ever -----------------------------------------------------------------

  ghost predicate NoLoop(g: Graph) {
    forall x, k :: x in g && k >= 1 ==> Chain(g, Some(x), k) != Some(x)
  }

  ghost predicate Ends(g: Graph, x: Option<DefId>) {
    exists n: nat :: Chain(g, x, n).None?
  }

  /** The first `n` definitions on a chain. */
  ghost function OnChain(g: Graph, x: Option<DefId>, n: nat): set<DefId>
    requires forall k :: 0 <= k < n ==> Chain(g, x, k).Some?
  {
    if n == 0 then {} else OnChain(g, x, n - 1) + {Chain(g, x, n - 1).value}
  }

  lemma {:induction false} OnChainAt(g: Graph, x: Option<DefId>, n: nat, d: DefId) returns (k: nat)
    requires forall i :: 0 <= i < n ==> Chain(g, x, i).Some?
    requires d in OnChain(g, x, n)
    ensures k < n && Chain(g, x, k) == Some(d)
  {
    if Chain(g, x, n - 1) == Some(d) {
      k := n - 1;
    } else {
      k := OnChainAt(g, x, n - 1, d);
    }
  }

  lemma {:induction false} ChainIsInjective(g: Graph, x: Option<DefId>, n: nat)
    requires NoLoop(g) && forall k :: 0 <= k <= n ==> Chain(g, x, k).Some?
    ensures |OnChain(g, x, n)| == n && OnChain(g, x, n) <= g.Keys
  {
    if n > 0 {
      ChainIsInjective(g, x, n - 1);
      var d := Chain(g, x, n - 1).value;
      assert Chain(g, x, n) == Next(g, Chain(g, x, n - 1));
      assert Chain(g, x, n - 1) == Some(d) && d in g;
      if d in OnChain(g, x, n - 1) {
        var k := OnChainAt(g, x, n - 1, d);
        ChainAdds(g, x, k, n - 1 - k);
        assert false;
      }
    }
  }

  lemma SubsetSize(a: set<DefId>, b: set<DefId>)
    requires a <= b
    ensures |a| <= |b|
  {
    assert b == a + (b - a);
  }

  /** Without loops every chain ends. */
  lemma NoLoopEnds(g: Graph, x: Option<DefId>)
    requires NoLoop(g)
    ensures Ends(g, x)
  {
    if !Ends(g, x) {
      var n := |g.Keys| + 1;
      forall k | 0 <= k <= n ensures Chain(g, x, k).Some? {
        assert !Chain(g, x, k).None?;
      }
      ChainIsInjective(g, x, n);
      SubsetSize(OnChain(g, x, n), g.Keys);
    }
  }

  /** A chain that ends passes nothing twice. */
  lemma EndsMeansNoLoop(g: Graph, x: DefId, k: nat)
    requires Ends(g, Some(x)) && k >= 1
    ensures Chain(g, Some(x), k) != Some(x)
  {
    if Chain(g, Some(x), k) == Some(x) {
      var n: nat :| Chain(g, Some(x), n).None?;
      RepeatNeverEnds(g, Some(x), 0, k, n);
    }
  }

  /** What saving an edit requires of it: `m` exists, is not the definition itself, and the walk finds no loop. */
  ghost predicate Accepts(g: Graph, pk: DefId, m: Option<DefId>) {
    m.None? || (m.value in g && m.value != pk && !WalkFindsLoop(g, Some(pk), m, MAX_DEPENDENCY_HOPS))
  }

  lemma {:induction false} EditElsewhere(g: Graph, pk: DefId, m: Option<DefId>, x: Option<DefId>, k: nat)
    requires forall j :: 0 <= j < k ==> Chain(g, x, j) != Some(pk)
    ensures Chain(g[pk := m], x, k) == Chain(g, x, k)
  {
    if k > 0 {
      EditElsewhere(g, pk, m, x, k - 1);
    }
  }

  lemma {:induction false} EndsAfterFirst(g: Graph, x: Option<DefId>, k: nat)
    requires Ends(g, Chain(g, x, k))
    ensures Ends(g, x)
  {
    var n: nat :| Chain(g, Chain(g, x, k), n).None?;
    ChainAdds(g, x, k, n);
  }

  /** A walk that finds no loop leads to an end without meeting the definition. */
  lemma WalkedChainEnds(g: Graph, pk: DefId, m: Option<DefId>, hops: nat)
    requires hops > 0 && !WalkFindsLoop(g, Some(pk), m, hops)
    ensures Ends(g[pk := m], m)
  {
    EditElsewhere(g, pk, m, m, hops - 1);
    assert Chain(g[pk := m], m, hops - 1).None?;
  }

  lemma AcceptedChainEnds(g: Graph, pk: DefId, m: Option<DefId>)
    requires Accepts(g, pk, m)
    ensures Ends(g[pk := m], Some(pk))
  {
    var g' := g[pk := m];
    assert Chain(g', Some(pk), 1) == m;
    if m.Some? {
      WalkedChainEnds(g, pk, m, MAX_DEPENDENCY_HOPS);
      EndsAfterFirst(g', Some(pk), 1);
    }
  }

  /** An accepted edit closes no loop. */
  lemma AcceptedEditKeepsNoLoop(g: Graph, pk: DefId, m: Option<DefId>)
    requires NoLoop(g) && Accepts(g, pk, m)
    ensures NoLoop(g[pk := m])
  {
    var g' := g[pk := m];
    AcceptedChainEnds(g, pk, m);
    forall x, k | x in g' && k >= 1 ensures Chain(g', Some(x), k) != Some(x) {
      NoLoopEnds(g, Some(x));
      EndsAfterEdit(g, pk, m, Some(x));
      EndsMeansNoLoop(g', x, k);
    }
  }

  lemma EndsAfterEdit(g: Graph, pk: DefId, m: Option<DefId>, x: Option<DefId>)
    requires Ends(g, x) && Ends(g[pk := m], Some(pk))
    ensures Ends(g[pk := m], x)
  {
    var n: nat :| Chain(g, x, n).None?;
    if j: nat :| j < n && Chain(g, x, j) == Some(pk) {
      var first := FirstVisit(g, x, pk, j);
      EditElsewhere(g, pk, m, x, first);
      EndsAfterFirst(g[pk := m], x, first);
    } else {
      EditElsewhere(g, pk, m, x, n);
    }
  }

  lemma {:induction false} FirstVisit(g: Graph, x: Option<DefId>, pk: DefId, j: nat) returns (first: nat)
    requires Chain(g, x, j) == Some(pk)
    ensures first <= j && Chain(g, x, first) == Some(pk)
    ensures forall i :: 0 <= i < first ==> Chain(g, x, i) != Some(pk)
  {
    first := 0;
    while Chain(g, x, first) != Some(pk)
      invariant first <= j
      invariant forall i :: 0 <= i < first ==> Chain(g, x, i) != Some(pk)
      decreases j - first
    {
      first := first + 1;
    }
  }

  datatype Edit = Edit(pk: DefId, mustFollow: Option<DefId>)

  /** A run of edits; one that is not accepted is not saved. */
  ghost function Edited(g: Graph, edits: seq<Edit>): Graph
    decreases |edits|
  {
    if edits == [] then g
    else
      var e := edits[0];
      Edited(if Accepts(g, e.pk, e.mustFollow) then g[e.pk := e.mustFollow] else g, edits[1..])
  }

  /** No sequence of edits ever closes a loop. */
  lemma {:induction false} EditsNeverLoop(g: Graph, edits: seq<Edit>)
    requires NoLoop(g)
    ensures NoLoop(Edited(g, edits))
    decreases |edits|
  {
    if edits != [] {
      var e := edits[0];
      if Accepts(g, e.pk, e.mustFollow) {
        AcceptedEditKeepsNoLoop(g, e.pk, e.mustFollow);
        EditsNeverLoop(g[e.pk := e.mustFollow], edits[1..]);
      } else {
        EditsNeverLoop(g, edits[1..]);
      }
    }
  }
}
