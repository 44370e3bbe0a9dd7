/**
 * `buildTree` of the org chart component: two passes over the flat list of
 * positions. The first fills a map from id to a freshly allocated node with
 * no children; the second appends each record's node to its parent's
 * `children` when its `parentId` is truthy and names a key of the map, and
 * to `roots` otherwise.
 *
 * Node objects are indices: the object allocated for record `k` is number
 * `k`, it carries `records[k]`, and its `children` array is `children[k]`,
 * a sequence of object numbers. Because a self-parented record is put under
 * itself and duplicate ids share one map entry, the result is a graph of
 * shared references, not a tree value.
 */
module OrgChart {
  import opened Wrappers
  import opened Schema

  /** The arena of node objects and the list of roots that `buildTree` returns. */
  datatype Forest = Forest(records: seq<OrgNode>, children: seq<seq<nat>>, roots: seq<nat>)

  /** Every object number in the forest names an allocated node. */
  predicate WellFormed(f: Forest) {
    && |f.records| == |f.children|
    && (forall k, j :: 0 <= k < |f.children| && 0 <= j < |f.children[k]| ==> f.children[k][j] < |f.children|)
    && (forall j :: 0 <= j < |f.roots| ==> f.roots[j] < |f.children|)
  }

  /** JavaScript truthiness of an optional string: present and not empty. */
  predicate Truthy(s: Option<string>) {
    s.Some? && s.value != ""
  }

  /** The ids that occur in the input. */
  function Ids(nodes: seq<OrgNode>): set<string> {
    set i | 0 <= i < |nodes| :: nodes[i].id
  }

  /** Record `i` is the last one in the input carrying its id. */
  predicate LastWithId(nodes: seq<OrgNode>, i: nat) {
    i < |nodes| && forall j :: i < j < |nodes| ==> nodes[j].id != nodes[i].id
  }

  // ---------------------------------------------------------------------
  // First pass: the id map
  // ---------------------------------------------------------------------

  /**
   * The map filled by the first pass, one `set` per record in input order,
   * so a later record overwrites an earlier one with the same id.
   */
  function IdMap(nodes: seq<OrgNode>): map<string, nat>
    decreases |nodes|
  {
    if nodes == [] then map[]
    else IdMap(nodes[..|nodes| - 1])[nodes[|nodes| - 1].id := |nodes| - 1]
  }

  /** `m` holds exactly the input's ids, each mapped to the last record carrying it. */
  predicate IsIdMap(nodes: seq<OrgNode>, m: map<string, nat>) {
    && m.Keys == Ids(nodes)
    && forall id :: id in m ==> m[id] < |nodes| && nodes[m[id]].id == id && LastWithId(nodes, m[id])
  }

  /** Every record's id is a key of `m`. */
  predicate KeysCover(nodes: seq<OrgNode>, m: map<string, nat>) {
    forall i :: 0 <= i < |nodes| ==> nodes[i].id in m
  }

  /** Every value of `m` names one of the allocated objects. */
  predicate MapBounded(nodes: seq<OrgNode>, m: map<string, nat>) {
    forall id :: id in m ==> m[id] < |nodes|
  }

  /** The first pass maps each id to its last occurrence. */
  lemma IdMapIsLastOccurrence(nodes: seq<OrgNode>)
    ensures IsIdMap(nodes, IdMap(nodes)) && KeysCover(nodes, IdMap(nodes)) && MapBounded(nodes, IdMap(nodes))
  {
    IdMapKeys(nodes);
    IdMapValues(nodes);
  }

  /** The keys of the first pass's map are exactly the ids of the input. */
  lemma {:induction false} IdMapKeys(nodes: seq<OrgNode>)
    ensures IdMap(nodes).Keys == Ids(nodes)
    decreases |nodes|
  {
    if nodes != [] {
      var front := nodes[..|nodes| - 1];
      IdMapKeys(front);
      assert forall i :: 0 <= i < |front| ==> front[i] == nodes[i];
      assert Ids(nodes) == Ids(front) + {nodes[|nodes| - 1].id};
    }
  }

  /** Each value of the first pass's map is the last record carrying its key. */
  lemma {:induction false} IdMapValues(nodes: seq<OrgNode>)
    ensures forall id :: id in IdMap(nodes) ==>
      IdMap(nodes)[id] < |nodes| && nodes[IdMap(nodes)[id]].id == id && LastWithId(nodes, IdMap(nodes)[id])
    decreases |nodes|
  {
    if nodes != [] {
      var front := nodes[..|nodes| - 1];
      var last := |nodes| - 1;
      IdMapValues(front);
      var mf := IdMap(front);
      var m := IdMap(nodes);
      assert m == mf[nodes[last].id := last];
      forall id | id in m
        ensures m[id] < |nodes| && nodes[m[id]].id == id && LastWithId(nodes, m[id])
      {
        if id != nodes[last].id {
          var v := mf[id];
          assert front[v] == nodes[v];
          assert forall j :: v < j < |front| ==> front[j] == nodes[j];
        }
      }
    }
  }

  // ---------------------------------------------------------------------
  // Second pass, record by record
  // ---------------------------------------------------------------------

  /** The object that `nodeMap.get(node.id)` yields for record `i`. */
  function Survivor(nodes: seq<OrgNode>, m: map<string, nat>, i: nat): nat
    requires i < |nodes| && KeysCover(nodes, m)
  {
    m[nodes[i].id]
  }

  /** The parent object record `i` is appended to, or `None` when it goes to the roots. */
  function ParentOf(nodes: seq<OrgNode>, m: map<string, nat>, i: nat): Option<nat>
    requires i < |nodes|
  {
    var p := nodes[i].parentId;
    if Truthy(p) && p.value in m then Some(m[p.value]) else None
  }

  /** The roots after the second pass has handled the first `k` records. */
  function RootsUpTo(nodes: seq<OrgNode>, m: map<string, nat>, k: nat): seq<nat>
    requires k <= |nodes| && KeysCover(nodes, m)
  {
    if k == 0 then []
    else RootsUpTo(nodes, m, k - 1) + (if ParentOf(nodes, m, k - 1).None? then [Survivor(nodes, m, k - 1)] else [])
  }

  /** The `children` of object `obj` after the second pass has handled the first `k` records. */
  function ChildrenUpTo(nodes: seq<OrgNode>, m: map<string, nat>, k: nat, obj: nat): seq<nat>
    requires k <= |nodes| && KeysCover(nodes, m)
  {
    if k == 0 then []
    else ChildrenUpTo(nodes, m, k - 1, obj) + (if ParentOf(nodes, m, k - 1) == Some(obj) then [Survivor(nodes, m, k - 1)] else [])
  }

  /** The children arrays of all objects after `k` records. */
  function KidsUpTo(nodes: seq<OrgNode>, m: map<string, nat>, k: nat): seq<seq<nat>>
    requires k <= |nodes| && KeysCover(nodes, m)
  {
    seq(|nodes|, (obj: int) requires 0 <= obj => ChildrenUpTo(nodes, m, k, obj))
  }

  /** The forest `buildTree` builds: the second pass over the map of the first. */
  function Build(nodes: seq<OrgNode>): Forest {
    var m := IdMap(nodes);
    IdMapIsLastOccurrence(nodes);
    Forest(nodes, KidsUpTo(nodes, m, |nodes|), RootsUpTo(nodes, m, |nodes|))
  }

  /** The two-pass construction itself. */
  method BuildTree(nodes: seq<OrgNode>) returns (forest: Forest)
    ensures forest == Build(nodes)
    ensures WellFormed(forest)
  {
    var nodeMap, objects := InitializeNodes(nodes);
    IdMapIsLastOccurrence(nodes);
    var roots := LinkNodes(nodes, nodeMap, objects);
    forest := Forest(nodes, objects[..], roots);
    BuildWellFormed(nodes);
  }

  /** First pass: allocate a node with no children per record and key it by id. */
  method InitializeNodes(nodes: seq<OrgNode>) returns (nodeMap: map<string, nat>, objects: array<seq<nat>>)
    ensures nodeMap == IdMap(nodes)
    ensures fresh(objects) && objects.Length == |nodes|
    ensures forall obj :: 0 <= obj < objects.Length ==> objects[obj] == []
  {
    nodeMap := map[];
    objects := new seq<nat>[|nodes|](_ => []);
    for i := 0 to |nodes|
      invariant nodeMap == IdMap(nodes[..i])
    {
      assert nodes[..i + 1][..i] == nodes[..i];
      nodeMap := nodeMap[nodes[i].id := i];
    }
    assert nodes[..|nodes|] == nodes;
  }

  /** Second pass: append each record's node to its parent's children or to the roots. */
  method LinkNodes(nodes: seq<OrgNode>, nodeMap: map<string, nat>, objects: array<seq<nat>>) returns (roots: seq<nat>)
    requires KeysCover(nodes, nodeMap) && MapBounded(nodes, nodeMap)
    requires objects.Length == |nodes| && forall obj :: 0 <= obj < objects.Length ==> objects[obj] == []
    modifies objects
    ensures roots == RootsUpTo(nodes, nodeMap, |nodes|)
    ensures objects[..] == KidsUpTo(nodes, nodeMap, |nodes|)
  {
    roots := [];
    for i := 0 to |nodes|
      invariant roots == RootsUpTo(nodes, nodeMap, i)
      invariant forall obj :: 0 <= obj < objects.Length ==> objects[obj] == ChildrenUpTo(nodes, nodeMap, i, obj)
    {
      var node := nodes[i];
      var nodeWithChildren := nodeMap[node.id];
      if node.parentId.Some? && node.parentId.value != "" && node.parentId.value in nodeMap {
        var parent := nodeMap[node.parentId.value];
        objects[parent] := objects[parent] + [nodeWithChildren];
      } else {
        roots := roots + [nodeWithChildren];
      }
    }
    assert objects[..] == KidsUpTo(nodes, nodeMap, |nodes|);
  }

  // ---------------------------------------------------------------------
  // Shape of the result
  // ---------------------------------------------------------------------

  lemma {:induction false} RootsUpToBounded(nodes: seq<OrgNode>, m: map<string, nat>, k: nat)
    requires MapBounded(nodes, m) && KeysCover(nodes, m) && k <= |nodes|
    ensures forall j :: 0 <= j < |RootsUpTo(nodes, m, k)| ==> RootsUpTo(nodes, m, k)[j] < |nodes|
  {
    if k > 0 { RootsUpToBounded(nodes, m, k - 1); }
  }

  lemma {:induction false} ChildrenUpToBounded(nodes: seq<OrgNode>, m: map<string, nat>, k: nat, obj: nat)
    requires MapBounded(nodes, m) && KeysCover(nodes, m) && k <= |nodes|
    ensures forall j :: 0 <= j < |ChildrenUpTo(nodes, m, k, obj)| ==> ChildrenUpTo(nodes, m, k, obj)[j] < |nodes|
  {
    if k > 0 { ChildrenUpToBounded(nodes, m, k - 1, obj); }
  }

  /** Every object number in the result names one of the allocated nodes, each carrying its record. */
  lemma BuildWellFormed(nodes: seq<OrgNode>)
    ensures WellFormed(Build(nodes))
    ensures |Build(nodes).children| == |nodes| && Build(nodes).records == nodes
  {
    var m := IdMap(nodes);
    IdMapIsLastOccurrence(nodes);
    RootsUpToBounded(nodes, m, |nodes|);
    forall obj | 0 <= obj < |nodes| {
      ChildrenUpToBounded(nodes, m, |nodes|, obj);
    }
  }

  /** Empty input yields no nodes and no roots. */
  lemma EmptyInputEmptyForest()
    ensures Build([]) == Forest([], [], [])
  {
  }

  /**
   * A record's node goes to `roots` exactly when its `parentId` is absent,
   * empty, or names no id of the input; an orphan reference is not an error.
   * Otherwise it goes under the last record carrying the named id.
   */
  lemma RootRule(nodes: seq<OrgNode>, m: map<string, nat>, i: nat)
    requires IsIdMap(nodes, m) && i < |nodes|
    ensures ParentOf(nodes, m, i).None? <==>
      (!Truthy(nodes[i].parentId) || nodes[i].parentId.value !in Ids(nodes))
    ensures ParentOf(nodes, m, i).Some? ==>
      && nodes[ParentOf(nodes, m, i).value].id == nodes[i].parentId.value
      && LastWithId(nodes, ParentOf(nodes, m, i).value)
  {
  }

  /**
   * The node that record `i` contributes is that of the last record with
   * the same id: it is object `x` exactly when `x` is the last record with
   * that id.
   */
  lemma SurvivorIsLastWithId(nodes: seq<OrgNode>, m: map<string, nat>, i: nat, x: nat)
    requires IsIdMap(nodes, m) && KeysCover(nodes, m) && i < |nodes|
    ensures var s := Survivor(nodes, m, i); i <= s && nodes[s].id == nodes[i].id && LastWithId(nodes, s)
    ensures Survivor(nodes, m, i) == x <==> (LastWithId(nodes, x) && nodes[x].id == nodes[i].id)
  {
  }

  // ---------------------------------------------------------------------
  // Counting occurrences: every record pushes its surviving node once
  // ---------------------------------------------------------------------

  /** How often `x` occurs in `s`. */
  function Count(s: seq<nat>, x: nat): nat {
    if s == [] then 0 else Count(s[..|s| - 1], x) + (if s[|s| - 1] == x then 1 else 0)
  }

  /** How often `x` occurs across a list of children arrays. */
  function SumCount(cs: seq<seq<nat>>, x: nat): nat {
    SumCountTo(cs, |cs|, x)
  }

  function SumCountTo(cs: seq<seq<nat>>, n: nat, x: nat): nat
    requires n <= |cs|
  {
    if n == 0 then 0 else SumCountTo(cs, n - 1, x) + Count(cs[n - 1], x)
  }

  /** How often object `x` occurs in the forest: in the roots or in any node's children. */
  function Occurrences(f: Forest, x: nat): nat {
    Count(f.roots, x) + SumCount(f.children, x)
  }

  /** The number of records among the first `k` whose id is `id`. */
  function CountId(nodes: seq<OrgNode>, k: nat, id: string): nat
    requires k <= |nodes|
  {
    if k == 0 then 0 else CountId(nodes, k - 1, id) + (if nodes[k - 1].id == id then 1 else 0)
  }

  lemma {:induction false} SumCountAllEmpty(cs: seq<seq<nat>>, n: nat, x: nat)
    requires n <= |cs| && forall k :: 0 <= k < |cs| ==> cs[k] == []
    ensures SumCountTo(cs, n, x) == 0
  {
    if n > 0 { SumCountAllEmpty(cs, n - 1, x); }
  }

  /** Appending `v` to one children array adds one to the count of `v` and nothing else. */
  lemma {:induction false} SumCountAppend(cs: seq<seq<nat>>, n: nat, t: nat, v: nat, x: nat)
    requires t < |cs| && n <= |cs|
    ensures SumCountTo(cs[t := cs[t] + [v]], n, x) == SumCountTo(cs, n, x) + (if v == x && t < n then 1 else 0)
  {
    if n > 0 {
      SumCountAppend(cs, n - 1, t, v, x);
      if t == n - 1 {
        assert (cs[t] + [v])[..|cs[t]|] == cs[t];
      }
    }
  }

  /** One step of the second pass, seen on all children arrays at once. */
  lemma KidsStep(nodes: seq<OrgNode>, m: map<string, nat>, k: nat)
    requires KeysCover(nodes, m) && k < |nodes|
    ensures ParentOf(nodes, m, k).None? ==> KidsUpTo(nodes, m, k + 1) == KidsUpTo(nodes, m, k)
    ensures ParentOf(nodes, m, k).Some? && ParentOf(nodes, m, k).value < |nodes| ==>
      var t := ParentOf(nodes, m, k).value;
      KidsUpTo(nodes, m, k + 1) == KidsUpTo(nodes, m, k)[t := KidsUpTo(nodes, m, k)[t] + [Survivor(nodes, m, k)]]
  {
    var kids, kids' := KidsUpTo(nodes, m, k), KidsUpTo(nodes, m, k + 1);
    match ParentOf(nodes, m, k)
    case None =>
      assert forall obj :: 0 <= obj < |nodes| ==> kids'[obj] == kids[obj];
    case Some(t) =>
      if t < |nodes| {
        var upd := kids[t := kids[t] + [Survivor(nodes, m, k)]];
        assert forall obj :: 0 <= obj < |nodes| ==> kids'[obj] == upd[obj];
      }
  }

  /** How often object `x` occurs after the second pass has handled `k` records. */
  function OccurrencesUpTo(nodes: seq<OrgNode>, m: map<string, nat>, k: nat, x: nat): nat
    requires k <= |nodes| && KeysCover(nodes, m)
  {
    Count(RootsUpTo(nodes, m, k), x) + SumCount(KidsUpTo(nodes, m, k), x)
  }

  /** Before the second pass, no object occurs anywhere. */
  lemma NothingPlacedAtStart(nodes: seq<OrgNode>, m: map<string, nat>, x: nat)
    requires KeysCover(nodes, m)
    ensures OccurrencesUpTo(nodes, m, 0, x) == 0
  {
    SumCountAllEmpty(KidsUpTo(nodes, m, 0), |nodes|, x);
  }

  /** One step of the second pass adds exactly one occurrence, of the record's surviving node. */
  lemma OccurrencesStep(nodes: seq<OrgNode>, m: map<string, nat>, k: nat, x: nat)
    requires MapBounded(nodes, m) && KeysCover(nodes, m) && k < |nodes|
    ensures OccurrencesUpTo(nodes, m, k + 1, x) ==
      OccurrencesUpTo(nodes, m, k, x) + (if Survivor(nodes, m, k) == x then 1 else 0)
  {
    KidsStep(nodes, m, k);
    var s := Survivor(nodes, m, k);
    match ParentOf(nodes, m, k)
    case None =>
      assert RootsUpTo(nodes, m, k + 1) == RootsUpTo(nodes, m, k) + [s];
      assert RootsUpTo(nodes, m, k + 1)[..|RootsUpTo(nodes, m, k + 1)| - 1] == RootsUpTo(nodes, m, k);
    case Some(t) =>
      SumCountAppend(KidsUpTo(nodes, m, k), |nodes|, t, s, x);
      assert RootsUpTo(nodes, m, k + 1) == RootsUpTo(nodes, m, k);
  }

  /** The number of records among the first `k` whose surviving node is `x`. */
  function SurvivorCount(nodes: seq<OrgNode>, m: map<string, nat>, k: nat, x: nat): nat
    requires k <= |nodes| && KeysCover(nodes, m)
  {
    if k == 0 then 0 else SurvivorCount(nodes, m, k - 1, x) + (if Survivor(nodes, m, k - 1) == x then 1 else 0)
  }

  /** After `k` steps, object `x` occurs once per record among the first `k` whose survivor it is. */
  lemma {:induction false} OccurrencesAreSurvivorCount(nodes: seq<OrgNode>, m: map<string, nat>, k: nat, x: nat)
    requires MapBounded(nodes, m) && KeysCover(nodes, m) && k <= |nodes|
    ensures OccurrencesUpTo(nodes, m, k, x) == SurvivorCount(nodes, m, k, x)
  {
    if k == 0 {
      NothingPlacedAtStart(nodes, m, x);
    } else {
      OccurrencesAreSurvivorCount(nodes, m, k - 1, x);
      OccurrencesStep(nodes, m, k - 1, x);
    }
  }

  /** A surviving object is the survivor of every record with its id; any other object of none. */
  lemma {:induction false} SurvivorCountIsCountId(nodes: seq<OrgNode>, m: map<string, nat>, k: nat, x: nat)
    requires IsIdMap(nodes, m) && KeysCover(nodes, m) && k <= |nodes|
    ensures SurvivorCount(nodes, m, k, x) ==
      if x < |nodes| && LastWithId(nodes, x) then CountId(nodes, k, nodes[x].id) else 0
  {
    if k > 0 {
      SurvivorCountIsCountId(nodes, m, k - 1, x);
      SurvivorIsLastWithId(nodes, m, k - 1, x);
    }
  }

  /**
   * How often each object occurs in the result. An object survives only if
   * its record is the last with its id; it then occurs once per record with
   * that id. Every other object is unreachable.
   */
  lemma OccurrencesOfBuild(nodes: seq<OrgNode>, x: nat)
    ensures Occurrences(Build(nodes), x) ==
      if x < |nodes| && LastWithId(nodes, x) then CountId(nodes, |nodes|, nodes[x].id) else 0
  {
    var m := IdMap(nodes);
    IdMapIsLastOccurrence(nodes);
    OccurrencesAreSurvivorCount(nodes, m, |nodes|, x);
    SurvivorCountIsCountId(nodes, m, |nodes|, x);
  }

  // ---------------------------------------------------------------------
  // Unique ids: completeness, placement and order
  // ---------------------------------------------------------------------

  /** No two records share an id. */
  predicate UniqueIds(nodes: seq<OrgNode>) {
    forall i, j :: 0 <= i < j < |nodes| ==> nodes[i].id != nodes[j].id
  }

  /** A strictly increasing sequence: input order, each object at most once. */
  predicate StrictlyIncreasing(s: seq<nat>) {
    forall i, j :: 0 <= i < j < |s| ==> s[i] < s[j]
  }

  /** Record `x` is a root record: its parent reference is falsy or dangling. */
  predicate IsRootRecord(nodes: seq<OrgNode>, x: nat)
    requires x < |nodes|
  {
    !Truthy(nodes[x].parentId) || nodes[x].parentId.value !in Ids(nodes)
  }

  /** Record `x` names record `p` as its parent. */
  predicate NamesParent(nodes: seq<OrgNode>, x: nat, p: nat)
    requires x < |nodes| && p < |nodes|
  {
    Truthy(nodes[x].parentId) && nodes[x].parentId.value == nodes[p].id
  }

  lemma {:induction false} CountIdZero(nodes: seq<OrgNode>, k: nat, id: string)
    requires k <= |nodes| && forall i :: 0 <= i < k ==> nodes[i].id != id
    ensures CountId(nodes, k, id) == 0
  {
    if k > 0 { CountIdZero(nodes, k - 1, id); }
  }

  lemma {:induction false} CountIdOne(nodes: seq<OrgNode>, k: nat, x: nat)
    requires UniqueIds(nodes) && x < k <= |nodes|
    ensures CountId(nodes, k, nodes[x].id) == 1
  {
    if k - 1 == x {
      CountIdZero(nodes, x, nodes[x].id);
    } else {
      CountIdOne(nodes, k - 1, x);
    }
  }

  /** With unique ids, every record's node occurs exactly once in the result, and no other object does. */
  lemma ExactlyOnce(nodes: seq<OrgNode>, x: nat)
    requires UniqueIds(nodes)
    ensures Occurrences(Build(nodes), x) == if x < |nodes| then 1 else 0
  {
    OccurrencesOfBuild(nodes, x);
    if x < |nodes| { CountIdOne(nodes, |nodes|, x); }
  }

  /** With unique ids each record's node is its own. */
  lemma UniqueSurvivor(nodes: seq<OrgNode>, m: map<string, nat>, i: nat)
    requires UniqueIds(nodes) && IsIdMap(nodes, m) && KeysCover(nodes, m) && i < |nodes|
    ensures Survivor(nodes, m, i) == i
  {
    SurvivorIsLastWithId(nodes, m, i, i);
  }

  /** Every record's node is its own: what unique ids give the second pass. */
  predicate SelfSurvivors(nodes: seq<OrgNode>, m: map<string, nat>) {
    KeysCover(nodes, m) && forall i :: 0 <= i < |nodes| ==> m[nodes[i].id] == i
  }

  lemma UniqueSurvivors(nodes: seq<OrgNode>, m: map<string, nat>)
    requires UniqueIds(nodes) && IsIdMap(nodes, m) && KeysCover(nodes, m)
    ensures SelfSurvivors(nodes, m)
  {
    forall i | 0 <= i < |nodes| ensures m[nodes[i].id] == i {
      UniqueSurvivor(nodes, m, i);
    }
  }

  lemma {:induction false} RootsUpToMembers(nodes: seq<OrgNode>, m: map<string, nat>, k: nat)
    requires SelfSurvivors(nodes, m) && k <= |nodes|
    ensures forall x: nat :: x in RootsUpTo(nodes, m, k) <==> x < k && ParentOf(nodes, m, x).None?
  {
    if k > 0 {
      RootsUpToMembers(nodes, m, k - 1);
      assert Survivor(nodes, m, k - 1) == k - 1;
    }
  }

  lemma {:induction false} RootsUpToIncreasing(nodes: seq<OrgNode>, m: map<string, nat>, k: nat)
    requires SelfSurvivors(nodes, m) && k <= |nodes|
    ensures StrictlyIncreasing(RootsUpTo(nodes, m, k))
  {
    if k > 0 {
      RootsUpToIncreasing(nodes, m, k - 1);
      RootsUpToMembers(nodes, m, k - 1);
      var prev := RootsUpTo(nodes, m, k - 1);
      forall j | 0 <= j < |prev| ensures prev[j] < k - 1 {
        assert prev[j] in prev;
      }
      assert Survivor(nodes, m, k - 1) == k - 1;
    }
  }

  lemma {:induction false} ChildrenUpToMembers(nodes: seq<OrgNode>, m: map<string, nat>, k: nat, obj: nat)
    requires SelfSurvivors(nodes, m) && k <= |nodes|
    ensures forall x: nat :: x in ChildrenUpTo(nodes, m, k, obj) <==> x < k && ParentOf(nodes, m, x) == Some(obj)
  {
    if k > 0 {
      ChildrenUpToMembers(nodes, m, k - 1, obj);
      assert Survivor(nodes, m, k - 1) == k - 1;
    }
  }

  lemma {:induction false} ChildrenUpToIncreasing(nodes: seq<OrgNode>, m: map<string, nat>, k: nat, obj: nat)
    requires SelfSurvivors(nodes, m) && k <= |nodes|
    ensures StrictlyIncreasing(ChildrenUpTo(nodes, m, k, obj))
  {
    if k > 0 {
      ChildrenUpToIncreasing(nodes, m, k - 1, obj);
      ChildrenUpToMembers(nodes, m, k - 1, obj);
      var prev := ChildrenUpTo(nodes, m, k - 1, obj);
      forall j | 0 <= j < |prev| ensures prev[j] < k - 1 {
        assert prev[j] in prev;
      }
      assert Survivor(nodes, m, k - 1) == k - 1;
    }
  }

  /**
   * With unique ids, `roots` lists exactly the root records, in input order.
   */
  lemma RootsAreRootRecordsInOrder(nodes: seq<OrgNode>)
    requires UniqueIds(nodes)
    ensures forall x: nat :: x in Build(nodes).roots <==> x < |nodes| && IsRootRecord(nodes, x)
    ensures StrictlyIncreasing(Build(nodes).roots)
  {
    var m := IdMap(nodes);
    IdMapIsLastOccurrence(nodes);
    UniqueSurvivors(nodes, m);
    RootsUpToMembers(nodes, m, |nodes|);
    RootsUpToIncreasing(nodes, m, |nodes|);
    forall x: nat | x < |nodes| { RootRule(nodes, m, x); }
  }

  /**
   * With unique ids, the `children` of each node lists exactly the records
   * that name it as their parent, in input order.
   */
  lemma ChildrenAreNamingRecordsInOrder(nodes: seq<OrgNode>, p: nat)
    requires UniqueIds(nodes) && p < |nodes|
    ensures forall x: nat :: x in Build(nodes).children[p] <==> x < |nodes| && NamesParent(nodes, x, p)
    ensures StrictlyIncreasing(Build(nodes).children[p])
  {
    var m := IdMap(nodes);
    IdMapIsLastOccurrence(nodes);
    UniqueSurvivors(nodes, m);
    ChildrenUpToMembers(nodes, m, |nodes|, p);
    ChildrenUpToIncreasing(nodes, m, |nodes|, p);
    forall x: nat | x < |nodes|
      ensures ParentOf(nodes, m, x) == Some(p) <==> NamesParent(nodes, x, p)
    {
      RootRule(nodes, m, x);
      if NamesParent(nodes, x, p) {
        assert nodes[x].parentId.value in Ids(nodes);
        var q := ParentOf(nodes, m, x).value;
        assert nodes[q].id == nodes[p].id;
      }
    }
  }

  // ---------------------------------------------------------------------
  // Duplicate ids and self-reference, as the code behaves
  // ---------------------------------------------------------------------

  lemma {:induction false} CountIdAtLeastOne(nodes: seq<OrgNode>, k: nat, i: nat)
    requires i < k <= |nodes|
    ensures CountId(nodes, k, nodes[i].id) >= 1
  {
    if k - 1 != i { CountIdAtLeastOne(nodes, k - 1, i); }
  }

  lemma {:induction false} CountIdAtLeastTwo(nodes: seq<OrgNode>, k: nat, i: nat, j: nat)
    requires i < j < k <= |nodes| && nodes[i].id == nodes[j].id
    ensures CountId(nodes, k, nodes[i].id) >= 2
  {
    if k - 1 == j {
      CountIdAtLeastOne(nodes, j, i);
    } else {
      CountIdAtLeastTwo(nodes, k - 1, i, j);
    }
  }

  /**
   * Two records with one id: the map keeps the later record's node, so the
   * earlier record's node is nowhere in the result, and the surviving node
   * (carrying the data of the last record with that id) occurs at least twice.
   */
  lemma DuplicateIdOverwrites(nodes: seq<OrgNode>, i: nat, j: nat)
    requires i < j < |nodes| && nodes[i].id == nodes[j].id
    ensures Occurrences(Build(nodes), i) == 0
    ensures nodes[i].id in IdMap(nodes)
    ensures var s := IdMap(nodes)[nodes[i].id];
      && j <= s < |nodes| && LastWithId(nodes, s)
      && Build(nodes).records[s] == nodes[s]
      && Occurrences(Build(nodes), s) >= 2
  {
    var m := IdMap(nodes);
    IdMapIsLastOccurrence(nodes);
    OccurrencesOfBuild(nodes, i);
    assert !LastWithId(nodes, i);
    var s := Survivor(nodes, m, j);
    SurvivorIsLastWithId(nodes, m, j, s);
    OccurrencesOfBuild(nodes, s);
    CountIdAtLeastTwo(nodes, |nodes|, i, j);
  }

  lemma {:induction false} ChildrenUpToHas(nodes: seq<OrgNode>, m: map<string, nat>, k: nat, i: nat, obj: nat)
    requires KeysCover(nodes, m) && i < k <= |nodes| && ParentOf(nodes, m, i) == Some(obj)
    ensures Survivor(nodes, m, i) in ChildrenUpTo(nodes, m, k, obj)
  {
    if k - 1 != i { ChildrenUpToHas(nodes, m, k - 1, i, obj); }
  }

  /**
   * A record whose truthy `parentId` is its own id puts its node among its
   * own children, whatever the other records are.
   */
  lemma SelfParentIsOwnChild(nodes: seq<OrgNode>, i: nat)
    requires i < |nodes| && Truthy(nodes[i].parentId) && nodes[i].parentId.value == nodes[i].id
    ensures nodes[i].id in IdMap(nodes)
    ensures var s := IdMap(nodes)[nodes[i].id]; s < |nodes| && s in Build(nodes).children[s]
  {
    var m := IdMap(nodes);
    IdMapIsLastOccurrence(nodes);
    ChildrenUpToHas(nodes, m, |nodes|, i, Survivor(nodes, m, i));
  }

  /**
   * With unique ids, a self-parented record is its own child, never a root,
   * and no other node lists it: nothing reached from the roots leads to it.
   */
  lemma SelfParentNotRoot(nodes: seq<OrgNode>, i: nat)
    requires UniqueIds(nodes) && i < |nodes|
    requires Truthy(nodes[i].parentId) && nodes[i].parentId.value == nodes[i].id
    ensures i in Build(nodes).children[i] && i !in Build(nodes).roots
    ensures forall p :: 0 <= p < |nodes| && i in Build(nodes).children[p] ==> p == i
  {
    var m := IdMap(nodes);
    IdMapIsLastOccurrence(nodes);
    SelfParentIsOwnChild(nodes, i);
    UniqueSurvivor(nodes, m, i);
    RootsAreRootRecordsInOrder(nodes);
    assert nodes[i].id in Ids(nodes);
    forall p | 0 <= p < |nodes| && i in Build(nodes).children[p] ensures p == i {
      ChildrenAreNamingRecordsInOrder(nodes, p);
    }
  }
}
