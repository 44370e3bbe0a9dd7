/**
 * What the org chart component draws from the forest `buildTree` returns:
 * the connector lines under a node, the selection highlight and its click
 * toggle, the recursive `renderNode`, and the choice between the empty
 * state and the chart.
 *
 * `renderNode` follows `children` with no visited set. On a forest whose
 * shared references form a cycle it recurses until the JavaScript stack is
 * exhausted; the model makes that stack a `fuel` bound, and running out of
 * it is `None`, the thrown error.
 */
module OrgChartView {
  import opened Wrappers
  import opened Schema
  import opened OrgChart

  // ---------------------------------------------------------------------
  // Connectors
  // ---------------------------------------------------------------------

  /** The flex alignment of the children container. */
  datatype Justify = Center | Between

  /** The horizontal line across the children: its left and right insets, in percent of the bar's box. */
  datatype Bar = Bar(left: real, right: real)

  /** The lines drawn under a node: the stem down, the bar across, and the children row's alignment. */
  datatype Connector = Connector(stem: bool, bar: Option<Bar>, justify: Option<Justify>)

  /** The connector for a node with `n` children. */
  function ConnectorFor(n: nat): (c: Connector)
    ensures c.stem <==> n > 0
    ensures c.bar.Some? <==> n > 1
    ensures c.justify.Some? <==> n > 0
    ensures c.justify == Some(Center) <==> n == 1
  {
    if n == 0 then Connector(false, None, None)
    else if n == 1 then Connector(true, None, Some(Center))
    else Connector(true, Some(Bar(50.0 / n as real, 50.0 / n as real)), Some(Between))
  }

  /** The centre of slot `j` when a row of width 100 is cut into `n` equal slots. */
  function SlotCentre(j: nat, n: nat): real
    requires n > 0
  {
    (2 * j + 1) as real * 50.0 / n as real
  }

  /**
   * The idea behind the `50/n` insets: if the bar's box were cut into `n`
   * equal slots, one per child, the bar would run from the centre of the
   * first slot to the centre of the last.
   */
  lemma BarSpansChildCentres(n: nat)
    requires n > 1
    ensures ConnectorFor(n).bar.Some?
    ensures var b := ConnectorFor(n).bar.value;
      && b.left == b.right
      && b.left == SlotCentre(0, n)
      && 100.0 - b.right == SlotCentre(n - 1, n)
      && b.left < 100.0 - b.right
      && b.left * (2 * n) as real == 100.0
  {
    var b := ConnectorFor(n).bar.value;
    var r := n as real;
    assert b.left == 50.0 / r;
    assert SlotCentre(n - 1, n) == (2.0 * r - 1.0) * 50.0 / r;
    assert (2.0 * r - 1.0) * 50.0 / r == 100.0 - 50.0 / r;
  }

  // ---------------------------------------------------------------------
  // Selection
  // ---------------------------------------------------------------------

  /** `selectedNodeId === node.id`: the node with this id is drawn highlighted. */
  predicate Highlighted(sel: Option<string>, id: string) {
    sel == Some(id)
  }

  /** A click on node `id`: selects it, or clears the selection when it was the selected one. */
  function Toggle(selected: Option<string>, id: string): (r: Option<string>)
    ensures r == Some(id) <==> selected != Some(id)
    ensures r.None? <==> selected == Some(id)
  {
    if selected == Some(id) then None else Some(id)
  }

  /** Two clicks on the same node restore an empty or same-node selection, and clear any other. */
  lemma ToggleTwice(selected: Option<string>, id: string)
    ensures selected.None? || selected == Some(id) ==> Toggle(Toggle(selected, id), id) == selected
    ensures selected.Some? && selected != Some(id) ==> Toggle(Toggle(selected, id), id) == None
  {
  }

  /** Clicking another node moves the selection there; clicking it again clears it. */
  lemma ClickElsewhereMoves(x: string, y: string)
    requires x != y
    ensures Toggle(Some(x), y) == Some(y)
    ensures Toggle(Toggle(Some(x), y), y) == None
  {
  }

  /** The `selectedNodeId` state of the component. */
  class Selection {
    var selectedNodeId: Option<string>

    /** The state starts with nothing selected. */
    constructor ()
      ensures selectedNodeId == None
    {
      selectedNodeId := None;
    }

    /** Whether the node with this id is drawn highlighted. */
    predicate IsSelected(id: string)
      reads this
    {
      Highlighted(selectedNodeId, id)
    }

    /** The node's click handler. */
    method Click(id: string)
      modifies this
      ensures selectedNodeId == Toggle(old(selectedNodeId), id)
      ensures IsSelected(id) <==> !old(IsSelected(id))
      ensures forall other :: other != id ==> !IsSelected(other)
    {
      selectedNodeId := if selectedNodeId == Some(id) then None else Some(id);
    }
  }

  // ---------------------------------------------------------------------
  // Rendering
  // ---------------------------------------------------------------------

  /** One drawn node: its record, depth, highlight, connector and the drawn children. */
  datatype View = Box(node: OrgNode, level: nat, selected: bool, connector: Connector, kids: seq<View>)

  /** Every object number in `cs` names a node of `f`. */
  predicate InForest(f: Forest, cs: seq<nat>) {
    forall j :: 0 <= j < |cs| ==> cs[j] < |f.children|
  }

  /** `v` shows node `k` of `f` at depth `level` with selection `sel`, one kid per child. */
  predicate DrawsNode(f: Forest, sel: Option<string>, k: nat, level: nat, v: View)
    requires k < |f.children| && |f.records| == |f.children|
  {
    && v.node == f.records[k]
    && v.level == level
    && (v.selected <==> Highlighted(sel, f.records[k].id))
    && v.connector == ConnectorFor(|f.children[k]|)
    && |v.kids| == |f.children[k]|
  }

  /** `vs` shows the nodes `cs`, in order, at depth `level`. */
  predicate DrawsRow(f: Forest, sel: Option<string>, cs: seq<nat>, level: nat, vs: seq<View>)
    requires InForest(f, cs) && |f.records| == |f.children|
  {
    |vs| == |cs| && forall j :: 0 <= j < |cs| ==> DrawsNode(f, sel, cs[j], level, vs[j])
  }

  /** `renderNode(node, level)` with `fuel` stack frames left; `None` when the stack runs out. */
  function Render(f: Forest, sel: Option<string>, k: nat, level: nat, fuel: nat): (r: Option<View>)
    requires WellFormed(f) && k < |f.children|
    ensures r.Some? ==> DrawsNode(f, sel, k, level, r.value)
    ensures r.Some? ==> DrawsRow(f, sel, f.children[k], level + 1, r.value.kids)
    decreases fuel, 0
  {
    if fuel == 0 then None
    else
      match RenderAll(f, sel, f.children[k], level + 1, fuel - 1)
      case None => None
      case Some(kids) =>
        Some(Box(f.records[k], level, Highlighted(sel, f.records[k].id), ConnectorFor(|f.children[k]|), kids))
  }

  /** `children.map(child => renderNode(child, level))`: all of them, or the error of the first that throws. */
  function RenderAll(f: Forest, sel: Option<string>, cs: seq<nat>, level: nat, fuel: nat): (r: Option<seq<View>>)
    requires WellFormed(f) && InForest(f, cs)
    ensures r.Some? ==> DrawsRow(f, sel, cs, level, r.value)
    decreases fuel, 1, |cs|
  {
    if cs == [] then Some([])
    else
      match Render(f, sel, cs[0], level, fuel)
      case None => None
      case Some(v) =>
        match RenderAll(f, sel, cs[1..], level, fuel)
        case None => None
        case Some(vs) => Some([v] + vs)
  }

  /** A row fails exactly when one of its nodes fails, and otherwise holds each node's own drawing. */
  lemma RenderAllPointwise(f: Forest, sel: Option<string>, cs: seq<nat>, level: nat, fuel: nat)
    requires WellFormed(f) && InForest(f, cs)
    ensures RenderAll(f, sel, cs, level, fuel).None? <==>
      exists j :: 0 <= j < |cs| && Render(f, sel, cs[j], level, fuel).None?
    ensures RenderAll(f, sel, cs, level, fuel).Some? ==>
      forall j :: 0 <= j < |cs| ==> Render(f, sel, cs[j], level, fuel) == Some(RenderAll(f, sel, cs, level, fuel).value[j])
  {
    RowElements(f, sel, cs, level, fuel);
    if j :| 0 <= j < |cs| && Render(f, sel, cs[j], level, fuel).None? {
      RowFailsAt(f, sel, cs, level, fuel, j);
    } else {
      RowSucceeds(f, sel, cs, level, fuel);
    }
  }

  /** A row whose every node is drawn is drawn. */
  lemma {:induction false} RowSucceeds(f: Forest, sel: Option<string>, cs: seq<nat>, level: nat, fuel: nat)
    requires WellFormed(f) && InForest(f, cs)
    requires forall j :: 0 <= j < |cs| ==> Render(f, sel, cs[j], level, fuel).Some?
    ensures RenderAll(f, sel, cs, level, fuel).Some?
    decreases |cs|
  {
    if cs != [] {
      var rest := cs[1..];
      assert forall j :: 0 <= j < |rest| ==> rest[j] == cs[j + 1];
      RowSucceeds(f, sel, rest, level, fuel);
    }
  }

  /** A drawn row holds each node's own drawing, in order. */
  lemma {:induction false} RowElements(f: Forest, sel: Option<string>, cs: seq<nat>, level: nat, fuel: nat)
    requires WellFormed(f) && InForest(f, cs)
    ensures RenderAll(f, sel, cs, level, fuel).Some? ==>
      |RenderAll(f, sel, cs, level, fuel).value| == |cs| &&
      forall j :: 0 <= j < |cs| ==> Render(f, sel, cs[j], level, fuel) == Some(RenderAll(f, sel, cs, level, fuel).value[j])
    decreases |cs|
  {
    if cs != [] {
      var rest := cs[1..];
      RowElements(f, sel, rest, level, fuel);
      assert forall j :: 1 <= j < |cs| ==> cs[j] == rest[j - 1];
    }
  }

  /** A row in which node `j` fails fails as a whole. */
  lemma {:induction false} RowFailsAt(f: Forest, sel: Option<string>, cs: seq<nat>, level: nat, fuel: nat, j: nat)
    requires WellFormed(f) && InForest(f, cs) && j < |cs| && Render(f, sel, cs[j], level, fuel).None?
    ensures RenderAll(f, sel, cs, level, fuel).None?
    decreases j
  {
    if j > 0 {
      assert cs[1..][j - 1] == cs[j];
      RowFailsAt(f, sel, cs[1..], level, fuel, j - 1);
    }
  }

  /** A set of nodes each of which lists a child in the set: a cycle of references, or one leading into one. */
  predicate Closed(f: Forest, s: set<nat>) {
    forall k {:trigger HasChildIn(f, s, k)} :: k in s ==> HasChildIn(f, s, k)
  }

  /** Node `k` exists and lists some member of `s` among its children. */
  predicate HasChildIn(f: Forest, s: set<nat>, k: nat) {
    k < |f.children| && exists c :: c in s && c in f.children[k]
  }

  /** No node of a closed set can be drawn: whatever the stack depth, rendering it throws. */
  lemma {:induction false} ClosedNeverRenders(f: Forest, sel: Option<string>, s: set<nat>, k: nat, level: nat, fuel: nat)
    requires WellFormed(f) && Closed(f, s) && k in s
    ensures k < |f.children| && Render(f, sel, k, level, fuel).None?
    decreases fuel
  {
    assert HasChildIn(f, s, k);
    if fuel > 0 {
      var c :| c in s && c in f.children[k];
      var cs := f.children[k];
      var j :| 0 <= j < |cs| && cs[j] == c;
      ClosedNeverRenders(f, sel, s, c, level + 1, fuel - 1);
      RowFailsAt(f, sel, cs, level + 1, fuel - 1, j);
    }
  }

  /** A node listed among its own children (a self-parented record) never renders. */
  lemma SelfChildNeverRenders(f: Forest, sel: Option<string>, k: nat, level: nat, fuel: nat)
    requires WellFormed(f) && k < |f.children| && k in f.children[k]
    ensures Render(f, sel, k, level, fuel).None?
  {
    ClosedNeverRenders(f, sel, {k}, k, level, fuel);
  }

  /** A record whose truthy `parentId` is its own id: the node it leaves in the forest never renders. */
  lemma SelfParentedRecordNeverRenders(nodes: seq<OrgNode>, sel: Option<string>, i: nat, level: nat, fuel: nat)
    requires i < |nodes| && Truthy(nodes[i].parentId) && nodes[i].parentId.value == nodes[i].id
    ensures nodes[i].id in IdMap(nodes) && WellFormed(Build(nodes))
    ensures var s := IdMap(nodes)[nodes[i].id];
      s < |Build(nodes).children| && Render(Build(nodes), sel, s, level, fuel).None?
  {
    SelfParentIsOwnChild(nodes, i);
    BuildWellFormed(nodes);
    SelfChildNeverRenders(Build(nodes), sel, IdMap(nodes)[nodes[i].id], level, fuel);
  }

  /**
   * The ranked nodes are closed under `children`, and `rank` strictly
   * decreases from each of them to each of its children: no cycle is
   * reachable from a ranked node.
   */
  predicate Ranked(f: Forest, rank: map<nat, nat>) {
    forall k :: k in rank ==> k < |f.children| && forall j :: 0 <= j < |f.children[k]| ==>
      f.children[k][j] in rank && rank[f.children[k][j]] < rank[k]
  }

  /** On a ranked forest a node renders once the stack is deeper than its rank. */
  lemma {:induction false} RankedRenders(f: Forest, sel: Option<string>, rank: map<nat, nat>, k: nat, level: nat, fuel: nat)
    requires WellFormed(f) && Ranked(f, rank) && k in rank && fuel > rank[k]
    ensures k < |f.children|
    ensures Render(f, sel, k, level, fuel).Some?
    decreases fuel
  {
    var cs := f.children[k];
    forall j | 0 <= j < |cs| ensures Render(f, sel, cs[j], level + 1, fuel - 1).Some? {
      RankedRenders(f, sel, rank, cs[j], level + 1, fuel - 1);
    }
    RenderAllPointwise(f, sel, cs, level + 1, fuel - 1);
  }

  /** Rows whose nodes render alike render alike. */
  lemma {:induction false} RowsAgree(f: Forest, sel: Option<string>, cs: seq<nat>, level: nat, fuel: nat, fuel': nat)
    requires WellFormed(f) && InForest(f, cs)
    requires forall j :: 0 <= j < |cs| ==> Render(f, sel, cs[j], level, fuel) == Render(f, sel, cs[j], level, fuel')
    ensures RenderAll(f, sel, cs, level, fuel) == RenderAll(f, sel, cs, level, fuel')
    decreases |cs|
  {
    if cs != [] {
      var rest := cs[1..];
      assert forall j :: 0 <= j < |rest| ==> rest[j] == cs[j + 1];
      RowsAgree(f, sel, rest, level, fuel, fuel');
    }
  }

  /** On a ranked forest the drawing does not depend on the stack depth, once it suffices. */
  lemma {:induction false} FuelIrrelevant(f: Forest, sel: Option<string>, rank: map<nat, nat>, k: nat, level: nat, fuel: nat, fuel': nat)
    requires WellFormed(f) && Ranked(f, rank) && k in rank && fuel > rank[k] && fuel' > rank[k]
    ensures k < |f.children|
    ensures Render(f, sel, k, level, fuel) == Render(f, sel, k, level, fuel')
    decreases fuel
  {
    var cs := f.children[k];
    forall j | 0 <= j < |cs|
      ensures Render(f, sel, cs[j], level + 1, fuel - 1) == Render(f, sel, cs[j], level + 1, fuel' - 1)
    {
      FuelIrrelevant(f, sel, rank, cs[j], level + 1, fuel - 1, fuel' - 1);
    }
    RowsAgree(f, sel, cs, level + 1, fuel - 1, fuel' - 1);
  }

  /** The selection changes only highlights: whether a node can be drawn does not depend on it. */
  lemma {:induction false} SelectionOnlyHighlights(f: Forest, sel: Option<string>, sel': Option<string>, k: nat, level: nat, fuel: nat)
    requires WellFormed(f) && k < |f.children|
    ensures Render(f, sel, k, level, fuel).Some? <==> Render(f, sel', k, level, fuel).Some?
    decreases fuel, 0
  {
    if fuel > 0 {
      RowSelectionOnlyHighlights(f, sel, sel', f.children[k], level + 1, fuel - 1);
    }
  }

  /** The same for a row. */
  lemma {:induction false} RowSelectionOnlyHighlights(f: Forest, sel: Option<string>, sel': Option<string>, cs: seq<nat>, level: nat, fuel: nat)
    requires WellFormed(f) && InForest(f, cs)
    ensures RenderAll(f, sel, cs, level, fuel).Some? <==> RenderAll(f, sel', cs, level, fuel).Some?
    decreases fuel, 1, |cs|
  {
    if cs != [] {
      SelectionOnlyHighlights(f, sel, sel', cs[0], level, fuel);
      RowSelectionOnlyHighlights(f, sel, sel', cs[1..], level, fuel);
    }
  }

  /** Clicking a drawn node draws it again with its highlight flipped. */
  lemma ClickFlipsHighlight(f: Forest, sel: Option<string>, k: nat, level: nat, fuel: nat)
    requires WellFormed(f) && k < |f.children| && Render(f, sel, k, level, fuel).Some?
    ensures Render(f, Toggle(sel, f.records[k].id), k, level, fuel).Some?
    ensures Render(f, Toggle(sel, f.records[k].id), k, level, fuel).value.selected
      == !Render(f, sel, k, level, fuel).value.selected
  {
    SelectionOnlyHighlights(f, sel, Toggle(sel, f.records[k].id), k, level, fuel);
  }

  // ---------------------------------------------------------------------
  // The component's output
  // ---------------------------------------------------------------------

  /** What the component shows: the empty-state message, the roots drawn at depth 0, or a thrown error. */
  datatype Screen = EmptyState | Chart(trees: seq<View>) | Crashed

  /** The component: build the forest, then the empty state for no records, else every root at level 0. */
  function Page(nodes: seq<OrgNode>, sel: Option<string>, fuel: nat): (s: Screen)
    ensures s.EmptyState? <==> |nodes| == 0
    ensures s.Chart? ==> WellFormed(Build(nodes)) && DrawsRow(Build(nodes), sel, Build(nodes).roots, 0, s.trees)
  {
    var tree := Build(nodes);
    BuildWellFormed(nodes);
    if |nodes| == 0 then EmptyState
    else
      match RenderAll(tree, sel, tree.roots, 0, fuel)
      case None => Crashed
      case Some(trees) => Chart(trees)
  }

  /** When every root of the built forest is ranked below the stack depth, the chart is drawn. */
  lemma RankedPageRenders(nodes: seq<OrgNode>, sel: Option<string>, rank: map<nat, nat>, fuel: nat)
    requires |nodes| > 0 && Ranked(Build(nodes), rank)
    requires forall j :: 0 <= j < |Build(nodes).roots| ==> Build(nodes).roots[j] in rank && rank[Build(nodes).roots[j]] < fuel
    ensures Page(nodes, sel, fuel).Chart?
  {
    var f := Build(nodes);
    BuildWellFormed(nodes);
    forall j | 0 <= j < |f.roots| ensures Render(f, sel, f.roots[j], 0, fuel).Some? {
      RankedRenders(f, sel, rank, f.roots[j], 0, fuel);
    }
    RenderAllPointwise(f, sel, f.roots, 0, fuel);
  }

  /** Two positions that name each other as parent: no root, so a blank chart instead of the empty state. */
  lemma MutualParentsDrawBlankChart(sel: Option<string>, fuel: nat)
    ensures var nodes := [OrgNode("a", "A", "CEO", Some("b")), OrgNode("b", "B", "CTO", Some("a"))];
      Build(nodes).roots == [] && Page(nodes, sel, fuel) == Chart([])
  {
    var nodes := [OrgNode("a", "A", "CEO", Some("b")), OrgNode("b", "B", "CTO", Some("a"))];
    var m := IdMap(nodes);
    assert nodes[..1][..0] == [] && nodes[..1] == [nodes[0]];
    assert IdMap(nodes[..1]) == map["a" := 0];
    assert m == map["a" := 0, "b" := 1];
    IdMapIsLastOccurrence(nodes);
    assert ParentOf(nodes, m, 0) == Some(1) && ParentOf(nodes, m, 1) == Some(0);
    assert RootsUpTo(nodes, m, 1) == [];
    assert RootsUpTo(nodes, m, 2) == [];
  }
}
