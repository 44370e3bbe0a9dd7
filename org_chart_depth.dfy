/**
 * Whether the page can crash. `renderNode` follows `children` with no
 * visited set, so the page throws if a reference cycle is reachable from a
 * root. With unique ids no cycle is reachable from a root: every node
 * below a root has a finite chain of parents up to that root, and the
 * chain's records are distinct, so its length is less than the number of
 * records. A stack one deeper than the number of records therefore always
 * draws the chart. Also with unique ids, a record whose parent chain runs
 * into a cycle is neither a root nor under a record that is drawn, so it is
 * silently left out. With a repeated id, one surviving node can be pushed
 * twice and close a cycle under a root, and then the page throws.
 */
module OrgChartDepth {
  import opened Wrappers
  import opened Schema
  import opened OrgChart
  import opened OrgChartView

  /** Following `parentId` links from record `x` reaches a root record after exactly `d` steps. */
  predicate AtDepth(nodes: seq<OrgNode>, m: map<string, nat>, x: nat, d: nat)
    requires MapBounded(nodes, m) && x < |nodes|
    decreases d
  {
    if d == 0 then ParentOf(nodes, m, x).None?
    else ParentOf(nodes, m, x).Some? && AtDepth(nodes, m, ParentOf(nodes, m, x).value, d - 1)
  }

  /** A record has at most one depth. */
  lemma {:induction false} DepthUnique(nodes: seq<OrgNode>, m: map<string, nat>, x: nat, d: nat, e: nat)
    requires MapBounded(nodes, m) && x < |nodes| && AtDepth(nodes, m, x, d) && AtDepth(nodes, m, x, e)
    ensures d == e
    decreases d
  {
    if d > 0 && e > 0 {
      DepthUnique(nodes, m, ParentOf(nodes, m, x).value, d - 1, e - 1);
    }
  }

  /** The record `i` steps up the parent chain of a record at depth `d`. */
  function Up(nodes: seq<OrgNode>, m: map<string, nat>, x: nat, d: nat, i: nat): (r: nat)
    requires MapBounded(nodes, m) && x < |nodes| && AtDepth(nodes, m, x, d) && i <= d
    ensures r < |nodes| && AtDepth(nodes, m, r, d - i)
    decreases i
  {
    if i == 0 then x else Up(nodes, m, ParentOf(nodes, m, x).value, d - 1, i - 1)
  }

  /** A sequence of distinct numbers below `n` has at most `n` elements. */
  lemma {:induction false} DistinctBelow(s: seq<nat>, n: nat)
    requires forall i :: 0 <= i < |s| ==> s[i] < n
    requires forall i, j :: 0 <= i < j < |s| ==> s[i] != s[j]
    ensures |s| <= n
    decreases n
  {
    if s != [] {
      assert s[0] < n;
      if i :| 0 <= i < |s| && s[i] == n - 1 {
        var t := s[..i] + s[i + 1..];
        assert forall k :: 0 <= k < |t| ==> t[k] == if k < i then s[k] else s[k + 1];
        DistinctBelow(t, n - 1);
      } else {
        DistinctBelow(s, n - 1);
      }
    }
  }

  /** A depth is less than the number of records: the chain's records are distinct. */
  lemma DepthBound(nodes: seq<OrgNode>, m: map<string, nat>, x: nat, d: nat)
    requires MapBounded(nodes, m) && x < |nodes| && AtDepth(nodes, m, x, d)
    ensures d < |nodes|
  {
    var chain := seq(d + 1, (i: int) requires 0 <= i <= d => Up(nodes, m, x, d, i));
    forall i, j | 0 <= i < j < |chain| ensures chain[i] != chain[j] {
      if chain[i] == chain[j] {
        DepthUnique(nodes, m, chain[i], d - i, d - j);
      }
    }
    DistinctBelow(chain, |nodes|);
  }

  /** The depth of record `x`, found within `fuel` parent steps. */
  function DepthWithin(nodes: seq<OrgNode>, m: map<string, nat>, x: nat, fuel: nat): (r: Option<nat>)
    requires MapBounded(nodes, m) && x < |nodes|
    ensures r.Some? ==> r.value <= fuel && AtDepth(nodes, m, x, r.value)
    decreases fuel
  {
    if ParentOf(nodes, m, x).None? then Some(0)
    else if fuel == 0 then None
    else match DepthWithin(nodes, m, ParentOf(nodes, m, x).value, fuel - 1)
      case None => None
      case Some(d) => Some(d + 1)
  }

  /** A depth of at most `fuel` is found. */
  lemma {:induction false} DepthWithinFinds(nodes: seq<OrgNode>, m: map<string, nat>, x: nat, d: nat, fuel: nat)
    requires MapBounded(nodes, m) && x < |nodes| && AtDepth(nodes, m, x, d) && d <= fuel
    ensures DepthWithin(nodes, m, x, fuel) == Some(d)
    decreases fuel
  {
    if d > 0 {
      DepthWithinFinds(nodes, m, ParentOf(nodes, m, x).value, d - 1, fuel - 1);
    }
  }

  /** The rank of each record with a depth: the number of records minus its depth. */
  function DepthRank(nodes: seq<OrgNode>, m: map<string, nat>): map<nat, nat>
    requires MapBounded(nodes, m)
  {
    map x: nat | x < |nodes| && DepthWithin(nodes, m, x, |nodes|).Some? ::
      |nodes| - DepthWithin(nodes, m, x, |nodes|).value
  }

  /** With unique ids, the records with a depth rank the forest: a child's depth is one more than its parent's. */
  lemma UniqueIdsRanked(nodes: seq<OrgNode>)
    requires UniqueIds(nodes)
    ensures MapBounded(nodes, IdMap(nodes)) && Ranked(Build(nodes), DepthRank(nodes, IdMap(nodes)))
  {
    var m := IdMap(nodes);
    var f := Build(nodes);
    IdMapIsLastOccurrence(nodes);
    BuildWellFormed(nodes);
    UniqueSurvivors(nodes, m);
    var rank := DepthRank(nodes, m);
    forall k | k in rank
      ensures k < |f.children| && forall j :: 0 <= j < |f.children[k]| ==>
        f.children[k][j] in rank && rank[f.children[k][j]] < rank[k]
    {
      ChildRanked(nodes, m, k);
    }
  }

  /** The step of `UniqueIdsRanked` for one ranked node. */
  lemma ChildRanked(nodes: seq<OrgNode>, m: map<string, nat>, k: nat)
    requires m == IdMap(nodes) && MapBounded(nodes, m) && SelfSurvivors(nodes, m)
    requires k in DepthRank(nodes, m)
    ensures |Build(nodes).children| == |nodes| && k < |nodes|
    ensures forall j :: 0 <= j < |Build(nodes).children[k]| ==>
      Build(nodes).children[k][j] in DepthRank(nodes, m) &&
      DepthRank(nodes, m)[Build(nodes).children[k][j]] < DepthRank(nodes, m)[k]
  {
    var f := Build(nodes);
    var rank := DepthRank(nodes, m);
    var n := |nodes|;
    BuildWellFormed(nodes);
    var d := DepthWithin(nodes, m, k, n).value;
    DepthBound(nodes, m, k, d);
    ChildrenUpToMembers(nodes, m, n, k);
    forall j | 0 <= j < |f.children[k]| ensures f.children[k][j] in rank && rank[f.children[k][j]] < rank[k] {
      var c := f.children[k][j];
      assert c in f.children[k];
      assert AtDepth(nodes, m, c, d + 1);
      DepthBound(nodes, m, c, d + 1);
      DepthWithinFinds(nodes, m, c, d + 1, n);
    }
  }

  /** With unique ids every root has depth 0, so its rank is the number of records. */
  lemma UniqueIdsRootsRanked(nodes: seq<OrgNode>)
    requires UniqueIds(nodes)
    ensures MapBounded(nodes, IdMap(nodes))
    ensures forall j :: 0 <= j < |Build(nodes).roots| ==>
      Build(nodes).roots[j] in DepthRank(nodes, IdMap(nodes)) &&
      DepthRank(nodes, IdMap(nodes))[Build(nodes).roots[j]] == |nodes|
  {
    var m := IdMap(nodes);
    var f := Build(nodes);
    IdMapIsLastOccurrence(nodes);
    UniqueSurvivors(nodes, m);
    RootsUpToMembers(nodes, m, |nodes|);
    forall j | 0 <= j < |f.roots| ensures f.roots[j] in DepthRank(nodes, m) && DepthRank(nodes, m)[f.roots[j]] == |nodes| {
      assert f.roots[j] in f.roots;
    }
  }

  /** Record `x`'s parent chain reaches a root record instead of running into a parent cycle. */
  ghost predicate ReachesRoot(nodes: seq<OrgNode>, x: nat)
    requires x < |nodes|
  {
    MapBounded(nodes, IdMap(nodes)) && exists d: nat :: AtDepth(nodes, IdMap(nodes), x, d)
  }

  /**
   * With unique ids, the records whose parent chain reaches a root record
   * are closed downwards from the roots: each root is one, and so is each
   * child of one.
   */
  lemma ReachingRecordsClosed(nodes: seq<OrgNode>)
    requires UniqueIds(nodes)
    ensures forall j :: 0 <= j < |Build(nodes).roots| ==>
      Build(nodes).roots[j] < |nodes| && ReachesRoot(nodes, Build(nodes).roots[j])
    ensures forall k, x :: 0 <= k < |nodes| && ReachesRoot(nodes, k) && x in Build(nodes).children[k] ==>
      x < |nodes| && ReachesRoot(nodes, x)
  {
    var m := IdMap(nodes);
    var f := Build(nodes);
    IdMapIsLastOccurrence(nodes);
    UniqueSurvivors(nodes, m);
    BuildWellFormed(nodes);
    RootsUpToMembers(nodes, m, |nodes|);
    forall j | 0 <= j < |f.roots| ensures f.roots[j] < |nodes| && ReachesRoot(nodes, f.roots[j]) {
      assert f.roots[j] in f.roots;
      assert AtDepth(nodes, m, f.roots[j], 0);
    }
    forall k, x | 0 <= k < |nodes| && ReachesRoot(nodes, k) && x in f.children[k]
      ensures x < |nodes| && ReachesRoot(nodes, x)
    {
      var d: nat :| AtDepth(nodes, m, k, d);
      ChildrenUpToMembers(nodes, m, |nodes|, k);
      assert AtDepth(nodes, m, x, d + 1);
    }
  }

  /**
   * So with unique ids a record whose parent chain never reaches a root
   * record is neither a root nor a child of a record whose chain does, and
   * drawing down from the roots never meets it.
   */
  lemma CycleRecordsHidden(nodes: seq<OrgNode>, x: nat)
    requires UniqueIds(nodes) && x < |nodes| && !ReachesRoot(nodes, x)
    ensures x !in Build(nodes).roots
    ensures forall k :: 0 <= k < |nodes| && ReachesRoot(nodes, k) ==> x !in Build(nodes).children[k]
  {
    ReachingRecordsClosed(nodes);
  }

  /**
   * With unique ids the page never crashes once the stack is deeper than
   * the number of records, and the drawing is the same for every such depth.
   */
  lemma UniqueIdsNeverCrash(nodes: seq<OrgNode>, sel: Option<string>, fuel: nat)
    requires UniqueIds(nodes) && fuel > |nodes|
    ensures !Page(nodes, sel, fuel).Crashed?
    ensures Page(nodes, sel, fuel) == Page(nodes, sel, |nodes| + 1)
  {
    if |nodes| > 0 {
      var m := IdMap(nodes);
      var f := Build(nodes);
      BuildWellFormed(nodes);
      UniqueIdsRanked(nodes);
      UniqueIdsRootsRanked(nodes);
      var rank := DepthRank(nodes, m);
      RankedPageRenders(nodes, sel, rank, fuel);
      forall j | 0 <= j < |f.roots|
        ensures Render(f, sel, f.roots[j], 0, fuel) == Render(f, sel, f.roots[j], 0, |nodes| + 1)
      {
        FuelIrrelevant(f, sel, rank, f.roots[j], 0, fuel, |nodes| + 1);
      }
      RowsAgree(f, sel, f.roots, 0, fuel, |nodes| + 1);
    }
  }

  /** Three records, the first and third sharing the id "a". */
  function Repeated(): seq<OrgNode> {
    [OrgNode("a", "A", "CEO", None), OrgNode("b", "B", "CTO", Some("a")), OrgNode("a", "C", "CFO", Some("b"))]
  }

  /**
   * The map keeps the third record's node for "a". The first record puts it
   * in `roots`, the second hangs "b" under it, and the third hangs it under
   * "b": a cycle under a root.
   */
  lemma RepeatedForest()
    ensures Build(Repeated()).roots == [2]
    ensures |Build(Repeated()).children| == 3
    ensures 1 in Build(Repeated()).children[2] && 2 in Build(Repeated()).children[1]
  {
    var nodes := Repeated();
    var n1 := [nodes[0]];
    var n2 := [nodes[0], nodes[1]];
    assert n1[..0] == [];
    assert IdMap(n1) == map["a" := 0];
    assert n2[..1] == n1;
    assert IdMap(n2) == map["a" := 0, "b" := 1];
    assert nodes[..2] == n2;
    var m := IdMap(nodes);
    assert m == map["a" := 2, "b" := 1];
    IdMapIsLastOccurrence(nodes);
    BuildWellFormed(nodes);
    assert ParentOf(nodes, m, 0).None? && ParentOf(nodes, m, 1) == Some(2) && ParentOf(nodes, m, 2) == Some(1);
    assert RootsUpTo(nodes, m, 3) == [2];
    ChildrenUpToHas(nodes, m, 3, 1, 2);
    ChildrenUpToHas(nodes, m, 3, 2, 1);
  }

  /** So a repeated id can crash the page, whatever the stack depth. */
  lemma DuplicateIdCanCrash(sel: Option<string>, fuel: nat)
    ensures Page(Repeated(), sel, fuel) == Crashed
  {
    var f := Build(Repeated());
    RepeatedForest();
    BuildWellFormed(Repeated());
    assert HasChildIn(f, {1, 2}, 1) && HasChildIn(f, {1, 2}, 2);
    ClosedNeverRenders(f, sel, {1, 2}, 2, 0, fuel);
    RowFailsAt(f, sel, f.roots, 0, fuel, 0);
  }
}
